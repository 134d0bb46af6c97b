/** The selection rule of `main`: the playlists are listed under
    `sorted(playlists.keys())`, numbered from 1, and a number typed by the
    user picks the playlist at that place in the listing. */
module Shell {
  import opened Wrappers
  import Text
  import opened Xml
  import opened Library

  /** Each name sorts before every later one (so no name is repeated). */
  predicate StrictlySorted(s: seq<string>) {
    forall i, j :: 0 <= i < j < |s| ==> Text.Less(s[i], s[j])
  }

  /** `x` put into its place in a sorted listing. */
  function Insert(x: string, s: seq<string>): seq<string> {
    if s == [] || Text.Less(x, s[0]) then [x] + s else [s[0]] + Insert(x, s[1..])
  }

  lemma {:induction false} InsertSorted(x: string, s: seq<string>)
    requires StrictlySorted(s) && x !in s
    ensures StrictlySorted(Insert(x, s))
    ensures |Insert(x, s)| == |s| + 1
    ensures forall y :: y in Insert(x, s) <==> y == x || y in s
    decreases |s|
  {
    if s != [] && !Text.Less(x, s[0]) {
      Text.LessTotal(x, s[0]);
      InsertSorted(x, s[1..]);
      var r := Insert(x, s[1..]);
      forall i, j | 0 <= i < j < |[s[0]] + r| ensures Text.Less(([s[0]] + r)[i], ([s[0]] + r)[j]) {
        if i == 0 {
          var y := r[j - 1];
          assert y in r;
          if y != x {
            var k :| 0 <= k < |s[1..]| && s[1..][k] == y;
            assert s[k + 1] == y;
          }
        } else {
          assert ([s[0]] + r)[i] == r[i - 1];
        }
      }
      forall y ensures y in Insert(x, s) <==> y == x || y in s {
        assert s == [s[0]] + s[1..];
      }
    } else {
      forall i, j | 0 <= i < j < |[x] + s| ensures Text.Less(([x] + s)[i], ([x] + s)[j]) {
        if i == 0 && j > 1 {
          Text.LessTransitive(x, s[0], s[j - 1]);
        }
      }
    }
  }

  /** `sorted(names)`: the names in ascending order, each once. */
  ghost function SortedNames(names: set<string>): (r: seq<string>)
    ensures StrictlySorted(r)
    ensures |r| == |names|
    ensures forall n :: n in r <==> n in names
    decreases names
  {
    if names == {} then []
    else
      var x :| x in names;
      var rest := SortedNames(names - {x});
      InsertSorted(x, rest);
      Insert(x, rest)
  }

  /** Two sorted listings of the same names are the same listing. */
  lemma {:induction false} SortedListingUnique(a: seq<string>, b: seq<string>)
    requires StrictlySorted(a) && StrictlySorted(b)
    requires forall n :: n in a <==> n in b
    ensures a == b
    decreases |a|
  {
    if b != [] {
      assert b[0] in b;
    }
    if a != [] {
      assert a[0] in b;
      assert b != [];
      if a[0] != b[0] {
        assert b[0] in a;
        var i :| 0 <= i < |a| && a[i] == b[0];
        var j :| 0 <= j < |b| && b[j] == a[0];
        assert Text.Less(a[0], b[0]);
        assert Text.Less(b[0], a[0]);
        Text.LessTotal(a[0], b[0]);
        assert false;
      }
      forall n ensures n in a[1..] <==> n in b[1..] {
        if n in a[1..] {
          var i :| 0 <= i < |a[1..]| && a[1..][i] == n;
          assert Text.Less(a[0], n);
          Text.LessIrreflexive(n);
          assert n in b && n != b[0];
          var j :| 0 <= j < |b| && b[j] == n;
          assert b[1..][j - 1] == n;
        }
        if n in b[1..] {
          var j :| 0 <= j < |b[1..]| && b[1..][j] == n;
          assert Text.Less(b[0], n);
          Text.LessIrreflexive(n);
          assert n in a && n != a[0];
          var i :| 0 <= i < |a| && a[i] == n;
          assert a[1..][i - 1] == n;
        }
      }
      SortedListingUnique(a[1..], b[1..]);
      assert a == [a[0]] + a[1..] && b == [b[0]] + b[1..];
    }
  }

  /** What the user types at the prompt, already parsed: a number or a name. */
  datatype Selection = Number(n: int) | Name(name: string)

  /** The playlist name a selection stands for, or `None` when `main` returns
      first: with no playlists at all ("No playlists found", before any
      selection is read), or for a number out of range ("Invalid selection").
      A number `n` picks `listing[n - 1]` when `1 <= n <= len`; a name is
      taken as it is. */
  function ChoosePlaylist(listing: seq<string>, selection: Selection): (r: Option<string>)
    ensures listing == [] ==> r == None
    ensures listing != [] && selection.Name? ==> r == Some(selection.name)
    ensures selection.Number? ==> (r.Some? <==> 1 <= selection.n <= |listing|)
    ensures selection.Number? && r.Some? ==> r.value == listing[selection.n - 1]
  {
    if listing == [] then None
    else match selection
    case Name(name) => Some(name)
    case Number(n) =>
      var idx := n - 1;
      if 0 <= idx < |listing| then Some(listing[idx]) else None
  }

  /** In the sorted listing of the playlist names, every playlist has a number,
      and different numbers pick different playlists. */
  lemma NumberingIsOneToOne(names: set<string>, name: string)
    requires name in names
    ensures exists n :: 1 <= n <= |names| && ChoosePlaylist(SortedNames(names), Number(n)) == Some(name)
    ensures forall n, m :: 1 <= n < m <= |names| ==>
              ChoosePlaylist(SortedNames(names), Number(n)) != ChoosePlaylist(SortedNames(names), Number(m))
  {
    NumberingOfListing(SortedNames(names), name);
  }

  /** The same for any strictly sorted listing. */
  lemma NumberingOfListing(listing: seq<string>, name: string)
    requires StrictlySorted(listing) && name in listing
    ensures exists n :: 1 <= n <= |listing| && ChoosePlaylist(listing, Number(n)) == Some(name)
    ensures forall n, m :: 1 <= n < m <= |listing| ==>
              ChoosePlaylist(listing, Number(n)) != ChoosePlaylist(listing, Number(m))
  {
    var i :| 0 <= i < |listing| && listing[i] == name;
    assert ChoosePlaylist(listing, Number(i + 1)) == Some(name);
    forall n, m | 1 <= n < m <= |listing|
      ensures ChoosePlaylist(listing, Number(n)) != ChoosePlaylist(listing, Number(m))
    {
      SortedDistinct(listing, n - 1, m - 1);
    }
  }

  /** A strictly sorted listing holds no name twice. */
  lemma SortedDistinct(listing: seq<string>, i: nat, j: nat)
    requires StrictlySorted(listing) && i < j < |listing|
    ensures listing[i] != listing[j]
  {
    assert Text.Less(listing[i], listing[j]);
    Text.LessIrreflexive(listing[i]);
  }

  /** A number picks one of the playlists, or is refused when it is out of
      range (zero and negative numbers included). */
  lemma NumberedChoiceIsPlaylist(names: set<string>, n: int)
    ensures ChoosePlaylist(SortedNames(names), Number(n)).Some? <==> 1 <= n <= |names|
    ensures ChoosePlaylist(SortedNames(names), Number(n)).Some? ==>
              ChoosePlaylist(SortedNames(names), Number(n)).value in names
  {
    var listing := SortedNames(names);
    if 1 <= n <= |names| {
      assert listing[n - 1] in listing;
    }
  }

  /** A number accepted at the prompt names a playlist of the document, so
      the "not found" branch of `get_tracks_from_playlist` is never taken
      for it. */
  lemma NumberedSelectionFound(root: Element, n: int)
    requires 1 <= n <= |PlaylistsOf(root).Keys|
    ensures ChoosePlaylist(SortedNames(PlaylistsOf(root).Keys), Number(n)).Some?
    ensures ChoosePlaylist(SortedNames(PlaylistsOf(root).Keys), Number(n)).value in PlaylistsOf(root)
  {
    NumberedChoiceIsPlaylist(PlaylistsOf(root).Keys, n);
  }
}
