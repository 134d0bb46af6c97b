/** A Python dictionary filled by a sequence of item assignments
    `d[k] = v`, one per entry, in order.  Both tables of the copier (playlists
    by full name, tracks by id) are built this way, so the rules they share
    (which keys end up present, and that the last write to a key wins) are
    proved once, here. */
module Registry {

  /** The dictionary `acc` after the assignments `entries`, in order. */
  function Register<K, V>(acc: map<K, V>, entries: seq<(K, V)>): map<K, V>
  {
    if entries == [] then acc
    else
      var last := entries[|entries| - 1];
      Register(acc, entries[..|entries| - 1])[last.0 := last.1]
  }

  /** The keys written by `entries`. */
  function KeysOf<K, V>(entries: seq<(K, V)>): set<K> {
    set i | 0 <= i < |entries| :: entries[i].0
  }

  /** Writing `a` then `b` is writing `a + b`: the dictionary can be filled
      in pieces. */
  lemma {:induction false} RegisterAppend<K, V>(acc: map<K, V>, a: seq<(K, V)>, b: seq<(K, V)>)
    ensures Register(Register(acc, a), b) == Register(acc, a + b)
    decreases |b|
  {
    if b == [] {
      assert a + b == a;
    } else {
      RegisterAppend(acc, a, b[..|b| - 1]);
      assert (a + b)[..|a + b| - 1] == a + b[..|b| - 1];
    }
  }

  /** The keys present afterwards are those present before plus those written. */
  lemma {:induction false} RegisterKeys<K, V>(acc: map<K, V>, entries: seq<(K, V)>)
    ensures Register(acc, entries).Keys == acc.Keys + KeysOf(entries)
    decreases |entries|
  {
    if entries != [] {
      var init := entries[..|entries| - 1];
      RegisterKeys(acc, init);
      assert entries == init + [entries[|entries| - 1]];
      assert KeysOf(entries) == KeysOf(init) + {entries[|entries| - 1].0};
    }
  }

  /** Every value present afterwards was either there before (under a key
      never written) or was written under its key. */
  lemma {:induction false} RegisterValues<K, V>(acc: map<K, V>, entries: seq<(K, V)>, k: K)
    requires k in Register(acc, entries)
    ensures (k in acc && k !in KeysOf(entries) && Register(acc, entries)[k] == acc[k])
            || exists i :: 0 <= i < |entries| && entries[i] == (k, Register(acc, entries)[k])
    decreases |entries|
  {
    if entries != [] {
      var init := entries[..|entries| - 1];
      var last := entries[|entries| - 1];
      assert entries == init + [last];
      if k != last.0 {
        RegisterValues(acc, init, k);
        assert KeysOf(entries) == KeysOf(init) + {last.0};
      }
    }
  }

  /** Last write wins: the value under a key is the one its last
      assignment wrote, whatever was written to it before. */
  lemma {:induction false} RegisterLastWins<K, V>(acc: map<K, V>, entries: seq<(K, V)>, j: nat)
    requires j < |entries|
    requires forall i :: j < i < |entries| ==> entries[i].0 != entries[j].0
    ensures entries[j].0 in Register(acc, entries)
    ensures Register(acc, entries)[entries[j].0] == entries[j].1
    decreases |entries|
  {
    if j < |entries| - 1 {
      var init := entries[..|entries| - 1];
      RegisterLastWins(acc, init, j);
    }
  }

  /** A key that is never written keeps its old value, or stays absent. */
  lemma {:induction false} RegisterUntouched<K, V>(acc: map<K, V>, entries: seq<(K, V)>, k: K)
    requires forall i :: 0 <= i < |entries| ==> entries[i].0 != k
    ensures k in Register(acc, entries) <==> k in acc
    ensures k in acc ==> Register(acc, entries)[k] == acc[k]
    decreases |entries|
  {
    if entries != [] {
      RegisterUntouched(acc, entries[..|entries| - 1], k);
    }
  }

  /** When no key is written twice, starting from the empty dictionary,
      there is one entry per write. */
  lemma {:induction false} RegisterSize<K, V>(entries: seq<(K, V)>)
    requires forall i, j :: 0 <= i < j < |entries| ==> entries[i].0 != entries[j].0
    ensures |Register(map[], entries)| == |entries|
    decreases |entries|
  {
    if entries != [] {
      var init := entries[..|entries| - 1];
      var last := entries[|entries| - 1];
      RegisterSize(init);
      RegisterUntouched(map[], init, last.0);
    }
  }
}
