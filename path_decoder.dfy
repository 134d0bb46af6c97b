/** `decode_rekordbox_path`: a stored `Location` attribute (a `file://` URL)
    turned into a filesystem path by removing the URL prefix and then
    percent-decoding the rest (section 2.1 of RFC 3986). */
module PathDecoder {

  const LocalhostPrefix: string := "file://localhost"
  const FilePrefix: string := "file://"

  /** The URL prefix that is removed from `location`: `file://localhost`
      when present (it is tested first), else `file://` when present, else
      nothing. */
  function PrefixOf(location: string): (p: string)
    ensures p <= location
  {
    if LocalhostPrefix <= location then LocalhostPrefix
    else if FilePrefix <= location then FilePrefix
    else ""
  }

  /** The location with its URL prefix removed. */
  function StripPrefix(location: string): (path: string)
    ensures PrefixOf(location) + path == location
  {
    location[|PrefixOf(location)|..]
  }

  /** The value of a hexadecimal digit, in either case. */
  function HexValue(c: char): (v: nat)
    ensures v < 16
  {
    if '0' <= c <= '9' then (c as int - '0' as int)
    else if 'a' <= c <= 'f' then (c as int - 'a' as int + 10)
    else if 'A' <= c <= 'F' then (c as int - 'A' as int + 10)
    else 0
  }

  predicate IsHexDigit(c: char) {
    '0' <= c <= '9' || 'a' <= c <= 'f' || 'A' <= c <= 'F'
  }

  /** Whether `s` starts with a well-formed escape `%XX`. */
  predicate StartsWithEscape(s: string) {
    |s| >= 3 && s[0] == '%' && IsHexDigit(s[1]) && IsHexDigit(s[2])
  }

  /** The number of characters the first unit of a non-empty `s` occupies:
      three for an escape, one otherwise. */
  function UnitLength(s: string): (n: nat)
    requires s != []
    ensures 1 <= n <= |s|
  {
    if StartsWithEscape(s) then 3 else 1
  }

  /** The character the first unit of a non-empty `s` decodes to. */
  function DecodedUnit(s: string): char
    requires s != []
  {
    if StartsWithEscape(s) then (16 * HexValue(s[1]) + HexValue(s[2])) as char else s[0]
  }

  /** `urllib.parse.unquote`: every escape `%XX` becomes the character whose
      code is the byte XX; a `%` not followed by two hexadecimal digits stays
      as it is. */
  function PercentDecode(s: string): (r: string)
    ensures |r| <= |s|
    decreases |s|
  {
    if s == [] then [] else [DecodedUnit(s)] + PercentDecode(s[UnitLength(s)..])
  }

  /** `decode_rekordbox_path(location)`: never longer than the location. */
  function DecodeLocation(location: string): (path: string)
    ensures |path| <= |location|
  {
    PercentDecode(StripPrefix(location))
  }

  /** The upper-case hexadecimal digit for `v`. */
  function HexDigit(v: nat): (c: char)
    requires v < 16
    ensures IsHexDigit(c) && HexValue(c) == v
  {
    if v < 10 then ('0' as int + v) as char else ('A' as int + v - 10) as char
  }

  /** The unreserved characters of section 2.3 of RFC 3986, which an encoder
      never escapes. */
  predicate IsUnreserved(c: char) {
    'a' <= c <= 'z' || 'A' <= c <= 'Z' || '0' <= c <= '9' || c == '-' || c == '.' || c == '_' || c == '~'
  }

  /** Whether the encoder writes `c` as it is: unreserved characters, `/`,
      and every non-ASCII character (whose escapes `unquote` would decode as
      UTF-8 bytes, which this model does not). */
  predicate KeptByEncoder(c: char) {
    IsUnreserved(c) || c == '/' || c as int >= 128
  }

  /** The encoding that percent-decoding undoes: each ASCII character that is
      neither unreserved nor `/` becomes `%XX`, everything else is kept. */
  function PercentEncode(s: string): string {
    if s == [] then []
    else
      var c := s[0];
      (if KeptByEncoder(c) then [c]
       else ['%', HexDigit(c as int / 16), HexDigit(c as int % 16)])
      + PercentEncode(s[1..])
  }

  /** Decoding undoes encoding, for every string. */
  lemma {:induction false} DecodeEncode(s: string)
    ensures PercentDecode(PercentEncode(s)) == s
    decreases |s|
  {
    if s != [] {
      var c := s[0];
      var rest := PercentEncode(s[1..]);
      DecodeEncode(s[1..]);
      if KeptByEncoder(c) {
        assert PercentEncode(s) == [c] + rest;
        assert !StartsWithEscape([c] + rest);
        assert ([c] + rest)[1..] == rest;
      } else {
        var e := ['%', HexDigit(c as int / 16), HexDigit(c as int % 16)] + rest;
        assert PercentEncode(s) == e;
        assert StartsWithEscape(e);
        assert e[3..] == rest;
        assert (16 * HexValue(e[1]) + HexValue(e[2])) as char == c;
      }
      assert s == [c] + s[1..];
    }
  }

  /** A string without `%` decodes to itself. */
  lemma {:induction false} DecodeWithoutPercent(s: string)
    requires '%' !in s
    ensures PercentDecode(s) == s
    decreases |s|
  {
    if s != [] {
      DecodeWithoutPercent(s[1..]);
      assert s == [s[0]] + s[1..];
    }
  }

  /** A part without `%` in front of the rest passes through unchanged. */
  lemma {:induction false} DecodePlainPrefix(a: string, b: string)
    requires '%' !in a
    ensures PercentDecode(a + b) == a + PercentDecode(b)
    decreases |a|
  {
    if a != [] {
      assert a[0] in a;
      assert (a + b)[0] == a[0] && (a + b)[1..] == a[1..] + b;
      assert !StartsWithEscape(a + b);
      DecodePlainPrefix(a[1..], b);
      calc {
        PercentDecode(a + b);
        [a[0]] + PercentDecode(a[1..] + b);
        [a[0]] + (a[1..] + PercentDecode(b));
        { assert a == [a[0]] + a[1..]; }
        a + PercentDecode(b);
      }
    } else {
      assert a + b == b;
    }
  }

  /** The three cases of the decoder, in the order the source tests them:
      `file://localhost` is removed when present (and then `file://` is not
      looked at), else `file://`, else nothing; an input without `%` and
      without a prefix comes back unchanged. */
  lemma DecodeLocationCases(location: string)
    ensures LocalhostPrefix <= location ==>
              DecodeLocation(location) == PercentDecode(location[16..])
    ensures !(LocalhostPrefix <= location) && FilePrefix <= location ==>
              DecodeLocation(location) == PercentDecode(location[7..])
    ensures !(FilePrefix <= location) ==> DecodeLocation(location) == PercentDecode(location)
    ensures !(FilePrefix <= location) && '%' !in location ==> DecodeLocation(location) == location
  {
    if !(FilePrefix <= location) {
      if '%' !in location {
        DecodeWithoutPercent(location);
      }
    }
  }

  /** Under `file://localhost`, exactly the rest is percent-decoded. */
  lemma DecodeUnderLocalhost(path: string)
    ensures DecodeLocation(LocalhostPrefix + path) == PercentDecode(path)
  {
    assert (LocalhostPrefix + path)[16..] == path;
  }

  /** One escape between two parts without `%`: only the escape changes. */
  lemma DecodeOneEscape(head: string, x: char, y: char, tail: string)
    requires '%' !in head && '%' !in tail
    requires IsHexDigit(x) && IsHexDigit(y)
    ensures PercentDecode(head + (['%', x, y] + tail))
            == head + ([(16 * HexValue(x) + HexValue(y)) as char] + tail)
  {
    DecodePlainPrefix(head, ['%', x, y] + tail);
    assert (['%', x, y] + tail)[3..] == tail;
    DecodeWithoutPercent(tail);
  }

  /** Under `file://localhost`, a `%20` between two parts without `%`
      becomes a space and nothing else changes. */
  lemma DecodeLocalhostSpace(head: string, tail: string)
    requires '%' !in head && '%' !in tail
    ensures DecodeLocation(LocalhostPrefix + head + "%20" + tail) == head + " " + tail
  {
    assert LocalhostPrefix + head + "%20" + tail == LocalhostPrefix + (head + (['%', '2', '0'] + tail));
    DecodeUnderLocalhost(head + (['%', '2', '0'] + tail));
    DecodeOneEscape(head, '2', '0', tail);
    assert head + ([' '] + tail) == head + " " + tail;
  }

  /** `file://localhost/Users/a/My%20Song.mp3` decodes to `/Users/a/My Song.mp3`. */
  lemma DecodeLocalhostExample()
    ensures DecodeLocation(LocalhostPrefix + "/Users/a/My" + "%20" + "Song.mp3") == "/Users/a/My" + " " + "Song.mp3"
  {
    DecodeLocalhostSpace("/Users/a/My", "Song.mp3");
  }

  /** `file:///a/b.mp3` decodes to `/a/b.mp3`. */
  lemma DecodeFileExample()
    ensures DecodeLocation("file:///a/b.mp3") == "/a/b.mp3"
  {
    var path := "/a/b.mp3";
    assert "file:///a/b.mp3" == FilePrefix + path;
    assert !(LocalhostPrefix <= FilePrefix + path) by {
      assert (FilePrefix + path)[7] != LocalhostPrefix[7];
    }
    assert PrefixOf(FilePrefix + path) == FilePrefix;
    DecodeWithoutPercent(path);
  }

  /** Under `file://` not followed by `localhost`, exactly the rest is
      percent-decoded. */
  lemma DecodeUnderFile(path: string)
    requires !(LocalhostPrefix[7..] <= path)
    ensures DecodeLocation(FilePrefix + path) == PercentDecode(path)
  {
    assert (FilePrefix + path)[7..] == path;
  }

  /** A `%` that does not start an escape, between two parts without
      `%`, stays literal and nothing else changes. */
  lemma DecodeLonePercent(head: string, tail: string)
    requires '%' !in head && '%' !in tail
    requires tail == [] || !IsHexDigit(tail[0])
    ensures PercentDecode(head + "%" + tail) == head + "%" + tail
  {
    var escaped := ['%'] + tail;
    assert PercentDecode(escaped) == escaped by {
      assert !StartsWithEscape(escaped) && escaped[1..] == tail;
      DecodeWithoutPercent(tail);
    }
    DecodePlainPrefix(head, escaped);
    assert head + "%" + tail == head + escaped;
  }

  /** Under `file://`, a `%` that does not start an escape stays literal
      and nothing else changes. */
  lemma DecodeFileLonePercent(head: string, tail: string)
    requires '%' !in head && '%' !in tail
    requires !(LocalhostPrefix[7..] <= head + "%" + tail)
    requires tail == [] || !IsHexDigit(tail[0])
    ensures DecodeLocation(FilePrefix + (head + "%" + tail)) == head + "%" + tail
  {
    DecodeUnderFile(head + "%" + tail);
    DecodeLonePercent(head, tail);
  }

  /** A malformed escape stays literal: `file:///100%.mp3` decodes to
      `/100%.mp3`; a well-formed one such as `%41` decodes to `A`. */
  lemma DecodeMalformedEscapeExample()
    ensures DecodeLocation(FilePrefix + ("/100" + "%" + ".mp3")) == "/100" + "%" + ".mp3"
    ensures PercentDecode("%41") == "A"
  {
    assert ("/100" + "%" + ".mp3")[0] != LocalhostPrefix[7..][0];
    DecodeFileLonePercent("/100", ".mp3");
    assert StartsWithEscape("%41") && "%41"[3..] == [];
  }
}
