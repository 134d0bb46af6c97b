/** The copy executor, `copy_playlist_tracks`: the destination file name of
    each track (sanitised display name behind a zero-padded position) and the
    loop that copies the tracks one by one and counts successes and failures.
    The filesystem is an oracle: which paths exist, which copies raise, and
    what `Path.suffix` answers. */
module Copier {
  import opened Xml
  import opened Library
  import Text

  // ---------------------------------------------------------------------
  // Sanitising a display name

  /** `str.isalnum`, for ASCII letters and digits. */
  predicate IsAlnum(c: char) {
    'a' <= c <= 'z' || 'A' <= c <= 'Z' || '0' <= c <= '9'
  }

  /** The characters the sanitiser keeps: alphanumerics, space, `-`, `_`, `.`. */
  predicate IsKept(c: char) {
    IsAlnum(c) || c == ' ' || c == '-' || c == '_' || c == '.'
  }

  /** `"".join(c for c in s if ...)`: the kept characters of `s`, in order. */
  function KeepSafe(s: string): (r: string)
    ensures |r| <= |s|
    ensures forall i :: 0 <= i < |r| ==> IsKept(r[i])
  {
    if s == [] then []
    else KeepSafe(s[..|s| - 1]) + (if IsKept(s[|s| - 1]) then [s[|s| - 1]] else [])
  }

  /** The leading spaces of `s` removed: what is left is a suffix of `s`,
      everything cut is a space, and it does not start with a space. */
  function TrimStart(s: string): (r: string)
    ensures |r| <= |s| && r == s[|s| - |r|..]
    ensures forall i :: 0 <= i < |s| - |r| ==> s[i] == ' '
    ensures r == [] || r[0] != ' '
  {
    if s != [] && s[0] == ' ' then TrimStart(s[1..]) else s
  }

  /** The trailing spaces of `s` removed: what is left is a prefix of `s`,
      everything cut is a space, and it does not end with a space. */
  function TrimEnd(s: string): (r: string)
    ensures |r| <= |s| && r == s[..|r|]
    ensures forall i :: |r| <= i < |s| ==> s[i] == ' '
    ensures r == [] || r[|r| - 1] != ' '
  {
    if s != [] && s[|s| - 1] == ' ' then TrimEnd(s[..|s| - 1]) else s
  }

  /** `str.strip()` on a string whose only whitespace can be spaces. */
  function Strip(s: string): string {
    TrimEnd(TrimStart(s))
  }

  /** `strip()` keeps a run of `s` that follows its leading spaces, is
      followed only by spaces, and neither starts nor ends with a space. */
  lemma StripShape(s: string)
    ensures Strip(s) <= s[|s| - |TrimStart(s)|..]
    ensures forall i :: |s| - |TrimStart(s)| + |Strip(s)| <= i < |s| ==> s[i] == ' '
    ensures Strip(s) == [] || (Strip(s)[0] != ' ' && Strip(s)[|Strip(s)| - 1] != ' ')
  {
  }

  /** The sanitised file-name part of a display name. */
  function Sanitize(s: string): (r: string)
    ensures |r| <= |s|
  {
    Strip(KeepSafe(s))
  }

  /** A sanitised name holds only kept characters and neither starts nor ends
      with a space. */
  lemma SanitizeShape(s: string)
    ensures forall i :: 0 <= i < |Sanitize(s)| ==> IsKept(Sanitize(s)[i])
    ensures Sanitize(s) == [] || (Sanitize(s)[0] != ' ' && Sanitize(s)[|Sanitize(s)| - 1] != ' ')
  {
    var k := KeepSafe(s);
    var t := TrimStart(k);
    var r := TrimEnd(t);
    forall i | 0 <= i < |t| ensures IsKept(t[i]) {
      assert t[i] == k[|k| - |t| + i];
    }
    forall i | 0 <= i < |r| ensures IsKept(r[i]) {
      assert r[i] == t[i];
    }
    if r != [] {
      assert r[0] == t[0];
    }
  }

  lemma {:induction false} KeepSafeOfKept(s: string)
    requires forall i :: 0 <= i < |s| ==> IsKept(s[i])
    ensures KeepSafe(s) == s
    decreases |s|
  {
    if s != [] {
      KeepSafeOfKept(s[..|s| - 1]);
    }
  }

  /** Sanitising twice is sanitising once. */
  lemma SanitizeIdempotent(s: string)
    ensures Sanitize(Sanitize(s)) == Sanitize(s)
  {
    var r := Sanitize(s);
    SanitizeShape(s);
    KeepSafeOfKept(r);
    assert KeepSafe(r) == r;
    assert TrimStart(r) == r;
    assert TrimEnd(r) == r;
  }

  lemma {:induction false} KeepSafeAppend(a: string, b: string)
    ensures KeepSafe(a + b) == KeepSafe(a) + KeepSafe(b)
    decreases |b|
  {
    if b == [] {
      assert a + b == a;
    } else {
      KeepSafeAppend(a, b[..|b| - 1]);
      assert (a + b)[..|a + b| - 1] == a + b[..|b| - 1];
    }
  }

  /** A kept piece followed by a dropped piece: only the kept piece survives. */
  lemma KeepThenDrop(acc: string, kept: string, dropped: string)
    requires forall i :: 0 <= i < |kept| ==> IsKept(kept[i])
    requires forall i :: 0 <= i < |dropped| ==> !IsKept(dropped[i])
    ensures KeepSafe(acc + kept + dropped) == KeepSafe(acc) + kept
  {
    KeepSafeAppend(acc + kept, dropped);
    KeepSafeAppend(acc, kept);
    KeepSafeOfKept(kept);
    KeepSafeOfDropped(dropped);
  }

  lemma {:induction false} KeepSafeOfDropped(s: string)
    requires forall i :: 0 <= i < |s| ==> !IsKept(s[i])
    ensures KeepSafe(s) == []
    decreases |s|
  {
    if s != [] {
      KeepSafeOfDropped(s[..|s| - 1]);
    }
  }

  lemma KeepSafeExample()
    ensures KeepSafe("DJ" + "/" + "Mix" + ":" + " Test" + "?!") == "DJ" + "Mix" + " Test"
  {
    assert !IsKept('/') && !IsKept(':') && !IsKept('?') && !IsKept('!');
    KeepThenDrop([], "DJ", "/");
    assert [] + "DJ" + "/" == "DJ" + "/";
    KeepThenDrop("DJ" + "/", "Mix", ":");
    KeepThenDrop("DJ" + "/" + "Mix" + ":", " Test", "?!");
  }

  /** `DJ/Mix: Test?!` sanitises to `DJMix Test`. */
  lemma SanitizeExample()
    ensures Sanitize("DJ" + "/" + "Mix" + ":" + " Test" + "?!") == "DJMix Test"
  {
    KeepSafeExample();
    var k := "DJMix Test";
    assert "DJ" + "Mix" + " Test" == k;
    assert k[0] == 'D' && k[|k| - 1] == 't';
    StripUnpadded(k);
  }

  /** A string that neither starts nor ends with a space is left as it is. */
  lemma StripUnpadded(s: string)
    requires s != [] && s[0] != ' ' && s[|s| - 1] != ' '
    ensures Strip(s) == s
  {
  }

  // ---------------------------------------------------------------------
  // The zero-padded position

  predicate IsDigit(c: char) {
    '0' <= c <= '9'
  }

  function DigitChar(d: nat): (c: char)
    requires d < 10
    ensures IsDigit(c)
  {
    ('0' as int + d) as char
  }

  /** `str(n)`: the decimal digits of `n`, without leading zeros. */
  function Decimal(n: nat): (r: string)
    ensures 1 <= |r|
    ensures forall i :: 0 <= i < |r| ==> IsDigit(r[i])
    ensures r[0] == '0' ==> n == 0
  {
    if n < 10 then [DigitChar(n)] else Decimal(n / 10) + [DigitChar(n % 10)]
  }

  /** `k` zeros. */
  function Zeros(k: nat): (r: string)
    ensures |r| == k && forall i :: 0 <= i < k ==> r[i] == '0'
  {
    if k == 0 then [] else Zeros(k - 1) + ['0']
  }

  /** `f"{n:03d}"`: the digits of `n`, padded with zeros on the left to at
      least three characters. */
  function Pad3(n: nat): (r: string)
    ensures 3 <= |r|
    ensures forall i :: 0 <= i < |r| ==> IsDigit(r[i])
    ensures |r| == 3 || r[0] != '0'
  {
    var digits := Decimal(n);
    if |digits| >= 3 then digits else Zeros(3 - |digits|) + digits
  }

  function DigitValue(c: char): nat
    requires IsDigit(c)
  {
    c as int - '0' as int
  }

  /** The number a string of decimal digits denotes. */
  function ParseDecimal(s: string): nat
    requires forall i :: 0 <= i < |s| ==> IsDigit(s[i])
  {
    if s == [] then 0 else 10 * ParseDecimal(s[..|s| - 1]) + DigitValue(s[|s| - 1])
  }

  lemma {:induction false} ParseDecimalOfDecimal(n: nat)
    ensures ParseDecimal(Decimal(n)) == n
  {
    if n >= 10 {
      ParseDecimalOfDecimal(n / 10);
      var d := Decimal(n);
      assert d[..|d| - 1] == Decimal(n / 10);
    }
  }

  lemma {:induction false} ParseDecimalLeadingZeros(k: nat, s: string)
    requires forall i :: 0 <= i < |s| ==> IsDigit(s[i])
    ensures ParseDecimal(Zeros(k) + s) == ParseDecimal(s)
    decreases |s|, k
  {
    if s == [] {
      assert Zeros(k) + s == Zeros(k);
      if k > 0 {
        ParseDecimalLeadingZeros(k - 1, []);
        assert Zeros(k - 1) + [] == Zeros(k - 1);
        assert Zeros(k)[..k - 1] == Zeros(k - 1);
      }
    } else {
      ParseDecimalLeadingZeros(k, s[..|s| - 1]);
      assert (Zeros(k) + s)[..|Zeros(k) + s| - 1] == Zeros(k) + s[..|s| - 1];
    }
  }

  /** The padded position is all digits, at least three of them, and reads
      back as the position. */
  lemma Pad3RoundTrip(n: nat)
    ensures 3 <= |Pad3(n)|
    ensures forall i :: 0 <= i < |Pad3(n)| ==> IsDigit(Pad3(n)[i])
    ensures ParseDecimal(Pad3(n)) == n
  {
    var digits := Decimal(n);
    ParseDecimalOfDecimal(n);
    if |digits| < 3 {
      ParseDecimalLeadingZeros(3 - |digits|, digits);
    }
  }

  /** A string of digits that starts with a non-zero digit, or is a single
      digit, is the decimal form of the number it denotes. */
  lemma {:induction false} DecimalOfParse(s: string)
    requires forall i :: 0 <= i < |s| ==> IsDigit(s[i])
    requires |s| == 1 || (s != [] && s[0] != '0')
    ensures Decimal(ParseDecimal(s)) == s
  {
    var last := s[|s| - 1];
    assert DigitChar(DigitValue(last)) == last;
    if |s| > 1 {
      var init := s[..|s| - 1];
      assert init[0] == s[0];
      DecimalOfParse(init);
      ParsePositive(init);
      var q, d := ParseDecimal(init), DigitValue(last);
      assert ParseDecimal(s) == 10 * q + d;
      DecimalStep(q, d);
      assert init + [last] == s;
    }
  }

  lemma DecimalStep(q: nat, d: nat)
    requires 1 <= q && d < 10
    ensures Decimal(10 * q + d) == Decimal(q) + [DigitChar(d)]
  {
    assert (10 * q + d) / 10 == q && (10 * q + d) % 10 == d;
  }

  /** Digits led by a non-zero digit denote a positive number. */
  lemma {:induction false} ParsePositive(s: string)
    requires forall i :: 0 <= i < |s| ==> IsDigit(s[i])
    requires s != [] && s[0] != '0'
    ensures ParseDecimal(s) >= 1
  {
    if |s| > 1 {
      ParsePositive(s[..|s| - 1]);
    }
  }

  /** `{i:03d}` is the only way to write `i` with at least three digits and
      no leading zero beyond the padding. */
  lemma Pad3Unique(n: nat, s: string)
    requires 3 <= |s| && forall i :: 0 <= i < |s| ==> IsDigit(s[i])
    requires |s| == 3 || s[0] != '0'
    requires ParseDecimal(s) == n
    ensures s == Pad3(n)
  {
    if s[0] != '0' {
      DecimalOfParse(s);
    } else {
      var a, b, c := DigitValue(s[0]), DigitValue(s[1]), DigitValue(s[2]);
      assert s[..2][..1] == s[..1] && s[..2][1] == s[1] && s[..1][0] == s[0];
      assert s[..1][..0] == [];
      assert ParseDecimal(s[..1]) == a;
      assert ParseDecimal(s[..2]) == 10 * a + b;
      assert n == 100 * a + 10 * b + c;
      Pad3Below1000(n);
      assert n / 100 == a && n / 10 % 10 == b && n % 10 == c;
    }
  }

  /** Below 1000 the padded position is exactly three digits: hundreds,
      tens, units. */
  lemma Pad3Below1000(n: nat)
    requires n < 1000
    ensures Pad3(n) == [DigitChar(n / 100), DigitChar(n / 10 % 10), DigitChar(n % 10)]
  {
    if n < 10 {
      assert Zeros(2) == ['0', '0'];
    } else if n < 100 {
      assert Decimal(n) == [DigitChar(n / 10), DigitChar(n % 10)];
      assert Zeros(1) == ['0'];
    } else {
      assert Decimal(n / 10) == [DigitChar(n / 100), DigitChar(n / 10 % 10)];
    }
  }

  // ---------------------------------------------------------------------
  // Destination names

  /** `dest_filename`: the position padded to three digits, ` - `, the
      sanitised `artist - name`, and the source file's suffix. */
  function DestinationName(position: nat, track: Track, suffix: string): (r: string)
    ensures |suffix| + 6 <= |r| && r[|r| - |suffix|..] == suffix
  {
    Pad3(position) + " - " + SafeName(track) + suffix
  }

  /** `safe_name`: the sanitised `artist - name` of a track. */
  function SafeName(track: Track): string {
    Sanitize(track.artist + " - " + track.name)
  }

  /** Track 1, `Song` by `DJ`, from an `.mp3` file is copied as
      `001 - DJ - Song.mp3`: the artist comes before the title. */
  lemma DestinationNameExample()
    ensures DestinationName(1, Track("/m/a.mp3", "Song", "DJ"), ".mp3") == "001" + " - " + "DJ - Song" + ".mp3"
  {
    SafeNameExample();
    Pad3One();
  }

  /** `safe_name` of `Song` by `DJ` is `DJ - Song`. */
  lemma SafeNameExample()
    ensures SafeName(Track("/m/a.mp3", "Song", "DJ")) == "DJ - Song"
  {
    var shown := "DJ - Song";
    assert "DJ" + " - " + "Song" == shown;
    assert IsKept('D') && IsKept('J') && IsKept(' ') && IsKept('-');
    assert IsKept('S') && IsKept('o') && IsKept('n') && IsKept('g');
    assert forall i :: 0 <= i < |shown| ==> IsKept(shown[i]);
    KeepSafeOfKept(shown);
    assert shown[0] == 'D' && shown[|shown| - 1] == 'g';
    StripUnpadded(shown);
  }

  lemma Pad3One()
    ensures Pad3(1) == "001"
  {
    assert Decimal(1) == ['1'];
    assert Zeros(2) == ['0', '0'];
  }

  /** What follows the padded position in a destination name. */
  function NameTail(track: Track, suffix: string): string {
    " - " + SafeName(track) + suffix
  }

  lemma DestinationSplit(position: nat, track: Track, suffix: string)
    ensures DestinationName(position, track, suffix) == Pad3(position) + NameTail(track, suffix)
  {
  }

  /** A destination name reads back as its position: the digits before the
      first space are the padded position. */
  lemma DestinationPosition(position: nat, track: Track, suffix: string)
    ensures var name := DestinationName(position, track, suffix);
            var k := |Pad3(position)|;
            3 <= k < |name| && name[k] == ' ' &&
            (forall i :: 0 <= i < k ==> IsDigit(name[i])) &&
            ParseDecimal(name[..k]) == position
  {
    Pad3RoundTrip(position);
    DestinationSplit(position, track, suffix);
    var name := DestinationName(position, track, suffix);
    var k := |Pad3(position)|;
    assert name[..k] == Pad3(position);
  }

  /** The run of digits a string starts with. */
  function LeadingDigits(s: string): (r: string)
    ensures r <= s
    ensures forall i :: 0 <= i < |r| ==> IsDigit(r[i])
    ensures |r| < |s| ==> !IsDigit(s[|r|])
  {
    if s == [] || !IsDigit(s[0]) then [] else [s[0]] + LeadingDigits(s[1..])
  }

  lemma {:induction false} LeadingDigitsOf(digits: string, rest: string)
    requires forall i :: 0 <= i < |digits| ==> IsDigit(digits[i])
    requires rest == [] || !IsDigit(rest[0])
    ensures LeadingDigits(digits + rest) == digits
    decreases |digits|
  {
    if digits != [] {
      assert (digits + rest)[1..] == digits[1..] + rest;
      LeadingDigitsOf(digits[1..], rest);
      assert digits == [digits[0]] + digits[1..];
    } else {
      assert digits + rest == rest;
    }
  }

  /** The position can be read back from a destination name alone: its
      leading digits are the padded position, and they parse to it. */
  lemma DestinationReadBack(position: nat, track: Track, suffix: string)
    ensures LeadingDigits(DestinationName(position, track, suffix)) == Pad3(position)
    ensures ParseDecimal(LeadingDigits(DestinationName(position, track, suffix))) == position
  {
    Pad3RoundTrip(position);
    DestinationSplit(position, track, suffix);
    assert NameTail(track, suffix)[0] == ' ';
    LeadingDigitsOf(Pad3(position), NameTail(track, suffix));
  }

  /** Two positions never share a destination name, so no copy of a run
      overwrites another copy of the same run. */
  lemma DestinationNamesDistinct(i: nat, j: nat, t: Track, u: Track, e: string, f: string)
    requires i != j
    ensures DestinationName(i, t, e) != DestinationName(j, u, f)
  {
    DestinationReadBack(i, t, e);
    DestinationReadBack(j, u, f);
  }

  /** A destination name has no `/` when the suffix has none: the copy lands
      directly in the output folder. */
  lemma DestinationInsideFolder(position: nat, track: Track, suffix: string)
    requires '/' !in suffix
    ensures '/' !in DestinationName(position, track, suffix)
  {
    var p, safe := Pad3(position), SafeName(track);
    Pad3RoundTrip(position);
    SanitizeShape(track.artist + " - " + track.name);
    Absent(p, '/');
    Absent(safe, '/');
    assert DestinationName(position, track, suffix) == p + " - " + safe + suffix;
  }

  /** A character that no position of `s` holds is not in `s`. */
  lemma Absent(s: string, c: char)
    requires forall i :: 0 <= i < |s| ==> s[i] != c
    ensures c !in s
  {
  }

  lemma DigitCharOrder(d: nat, e: nat)
    requires d < e < 10
    ensures DigitChar(d) < DigitChar(e)
  {
  }

  /** Below 1000, a smaller number has a smaller hundreds digit, or the same
      hundreds and a smaller tens digit, or the same both and a smaller units
      digit. */
  lemma ThreeDigitOrder(i: nat, j: nat)
    requires i < j <= 999
    ensures i / 100 <= j / 100
    ensures i / 100 == j / 100 ==> i / 10 % 10 <= j / 10 % 10
    ensures i / 100 == j / 100 && i / 10 % 10 == j / 10 % 10 ==> i % 10 < j % 10
  {
    assert i == 100 * (i / 100) + 10 * (i / 10 % 10) + i % 10;
    assert j == 100 * (j / 100) + 10 * (j / 10 % 10) + j % 10;
  }

  /** Below 1000, padded positions sort as the numbers do. */
  lemma Pad3Ordered(i: nat, j: nat)
    requires i < j <= 999
    ensures |Pad3(i)| == |Pad3(j)| == 3
    ensures Text.Less(Pad3(i), Pad3(j))
  {
    Pad3Below1000(i);
    Pad3Below1000(j);
    ThreeDigitOrder(i, j);
    var p, q := Pad3(i), Pad3(j);
    if i / 100 != j / 100 {
      DigitCharOrder(i / 100, j / 100);
      Text.LessByFirst(p, q);
    } else if i / 10 % 10 != j / 10 % 10 {
      DigitCharOrder(i / 10 % 10, j / 10 % 10);
      Text.LessByFirst(p[1..], q[1..]);
    } else {
      DigitCharOrder(i % 10, j % 10);
      Text.LessByFirst(p[2..], q[2..]);
      assert p[1..][1..] == p[2..] && q[1..][1..] == q[2..];
    }
  }

  /** Up to position 999 the names sort in playlist order. */
  lemma DestinationNamesOrdered(i: nat, j: nat, t: Track, u: Track, e: string, f: string)
    requires 1 <= i < j <= 999
    ensures Text.Less(DestinationName(i, t, e), DestinationName(j, u, f))
  {
    Pad3Ordered(i, j);
    DestinationSplit(i, t, e);
    DestinationSplit(j, u, f);
    Text.LessExtend(Pad3(i), Pad3(j), NameTail(t, e), NameTail(u, f));
  }

  /** From position 1000 on the order is lost: the name of position 1000
      sorts before that of position 999. */
  lemma DestinationOrderLostAt1000(t: Track, u: Track, e: string, f: string)
    ensures Text.Less(DestinationName(1000, t, e), DestinationName(999, u, f))
  {
    Pad3Below1000(999);
    assert Decimal(1000) == Decimal(100) + ['0'];
    assert Decimal(100) == Decimal(10) + ['0'];
    assert Decimal(10) == Decimal(1) + ['0'];
    assert Pad3(1000) == Decimal(1000) && Pad3(1000)[0] == '1';
    DestinationSplit(1000, t, e);
    DestinationSplit(999, u, f);
    Text.LessByFirst(Pad3(1000) + NameTail(t, e), Pad3(999) + NameTail(u, f));
  }

  // ---------------------------------------------------------------------
  // The copy loop

  /** What the run asks of the filesystem: which source paths exist, which
      (source, destination name) copies raise, and `Path.suffix` of a path. */
  datatype FileSystem = FileSystem(existing: set<string>, failingCopies: set<(string, string)>, suffix: string -> string)

  /** The line reported for one track: its file is missing (no copy is
      attempted), its copy raised, or it was copied to `destination`. */
  datatype ItemOutcome = SourceMissing | CopyFailed(destination: string) | Copied(destination: string)

  /** The outcome of the track at 1-based `position`. */
  function OutcomeOf(position: nat, track: Track, fs: FileSystem): ItemOutcome {
    if track.location !in fs.existing then SourceMissing
    else
      var destination := DestinationName(position, track, fs.suffix(track.location));
      if (track.location, destination) in fs.failingCopies then CopyFailed(destination)
      else Copied(destination)
  }

  /** The outcomes of a run over `tracks`, numbered from 1. */
  function Outcomes(tracks: seq<Track>, fs: FileSystem): (r: seq<ItemOutcome>)
    ensures |r| == |tracks|
  {
    seq(|tracks|, i requires 0 <= i < |tracks| => OutcomeOf(i + 1, tracks[i], fs))
  }

  /** How many outcomes are successful copies. */
  function CountCopied(outcomes: seq<ItemOutcome>): (n: nat)
    ensures n <= |outcomes|
  {
    if outcomes == [] then 0
    else CountCopied(outcomes[..|outcomes| - 1]) + (if outcomes[|outcomes| - 1].Copied? then 1 else 0)
  }

  lemma OutcomesSnoc(tracks: seq<Track>, fs: FileSystem, i: nat)
    requires i < |tracks|
    ensures Outcomes(tracks[..i + 1], fs) == Outcomes(tracks[..i], fs) + [OutcomeOf(i + 1, tracks[i], fs)]
  {
  }

  lemma CountCopiedSnoc(outcomes: seq<ItemOutcome>, outcome: ItemOutcome)
    ensures CountCopied(outcomes + [outcome]) == CountCopied(outcomes) + (if outcome.Copied? then 1 else 0)
  {
    assert (outcomes + [outcome])[..|outcomes|] == outcomes;
  }

  /** What `copy_playlist_tracks` reports: nothing to copy (it returns before
      creating the output folder), or the per-track lines and the summary
      counts. */
  datatype CopyReport = NoTracks | Summary(outcomes: seq<ItemOutcome>, successful: nat, failed: nat)

  /** The copy loop of `copy_playlist_tracks` over a resolved track list. */
  method CopyTracks(tracks: seq<Track>, fs: FileSystem) returns (report: CopyReport)
    ensures report.NoTracks? <==> tracks == []
    ensures report.Summary? ==> report.outcomes == Outcomes(tracks, fs)
    ensures report.Summary? ==> report.successful == CountCopied(report.outcomes)
    ensures report.Summary? ==> report.successful + report.failed == |tracks|
  {
    if tracks == [] {
      return NoTracks;
    }
    var successful, failed := 0, 0;
    var outcomes: seq<ItemOutcome> := [];
    for i := 0 to |tracks|
      invariant outcomes == Outcomes(tracks[..i], fs)
      invariant successful == CountCopied(outcomes)
      invariant successful + failed == i
    {
      var position := i + 1;
      var track := tracks[i];
      var source := track.location;
      var outcome: ItemOutcome;
      if source !in fs.existing {
        failed := failed + 1;
        outcome := SourceMissing;
      } else {
        var destination := DestinationName(position, track, fs.suffix(source));
        if (source, destination) in fs.failingCopies {
          failed := failed + 1;
          outcome := CopyFailed(destination);
        } else {
          successful := successful + 1;
          outcome := Copied(destination);
        }
      }
      assert outcome == OutcomeOf(position, track, fs);
      OutcomesSnoc(tracks, fs, i);
      CountCopiedSnoc(outcomes, outcome);
      outcomes := outcomes + [outcome];
    }
    assert tracks[..|tracks|] == tracks;
    report := Summary(outcomes, successful, failed);
  }

  /** `copy_playlist_tracks(xml_file, playlist_name, output_folder)`:
      resolves the playlist's tracks, then copies them. */
  method CopyPlaylistTracks(root: Element, playlistName: string, fs: FileSystem) returns (report: CopyReport)
    ensures report.NoTracks? <==> TracksOf(root, playlistName) == []
    ensures report.Summary? ==> report.outcomes == Outcomes(TracksOf(root, playlistName), fs)
    ensures report.Summary? ==> report.successful == CountCopied(report.outcomes)
    ensures report.Summary? ==> report.successful + report.failed == |TracksOf(root, playlistName)|
  {
    var tracks := GetTracksFromPlaylist(root, playlistName);
    report := CopyTracks(tracks, fs);
  }

  lemma OutcomesPrefix(tracks: seq<Track>, fs: FileSystem, n: nat)
    requires n <= |tracks|
    ensures Outcomes(tracks[..n], fs) == Outcomes(tracks, fs)[..n]
  {
  }

  /** When every source exists and no copy raises, every track is copied. */
  lemma {:induction false} AllCopied(tracks: seq<Track>, fs: FileSystem)
    requires forall i :: 0 <= i < |tracks| ==> tracks[i].location in fs.existing
    requires forall i :: 0 <= i < |tracks| ==>
               (tracks[i].location, DestinationName(i + 1, tracks[i], fs.suffix(tracks[i].location))) !in fs.failingCopies
    ensures CountCopied(Outcomes(tracks, fs)) == |tracks|
    decreases |tracks|
  {
    if tracks != [] {
      var n := |tracks| - 1;
      AllCopied(tracks[..n], fs);
      OutcomesPrefix(tracks, fs, n);
    }
  }

  /** When no source exists, nothing is copied and every track fails. */
  lemma {:induction false} NoneCopied(tracks: seq<Track>, fs: FileSystem)
    requires forall i :: 0 <= i < |tracks| ==> tracks[i].location !in fs.existing
    ensures CountCopied(Outcomes(tracks, fs)) == 0
    ensures forall i :: 0 <= i < |tracks| ==> Outcomes(tracks, fs)[i] == SourceMissing
    decreases |tracks|
  {
    if tracks != [] {
      var n := |tracks| - 1;
      NoneCopied(tracks[..n], fs);
      OutcomesPrefix(tracks, fs, n);
    }
  }

  /** Two tracks whose second file is missing: the first is copied to
      `001 - artist - name.ext`, the second fails without a copy, and the run
      counts one success and one failure. */
  lemma SecondMissingExample(a: Track, b: Track, fs: FileSystem)
    requires a.location in fs.existing && b.location !in fs.existing
    requires (a.location, DestinationName(1, a, fs.suffix(a.location))) !in fs.failingCopies
    ensures Outcomes([a, b], fs) == [Copied(DestinationName(1, a, fs.suffix(a.location))), SourceMissing]
    ensures DestinationName(1, a, fs.suffix(a.location))[..6] == "001 - "
    ensures CountCopied(Outcomes([a, b], fs)) == 1
    ensures |[a, b]| - CountCopied(Outcomes([a, b], fs)) == 1
  {
    var outs := Outcomes([a, b], fs);
    assert outs == [Copied(DestinationName(1, a, fs.suffix(a.location))), SourceMissing];
    assert outs[..1] == [outs[0]];
    Pad3One();
  }
}
