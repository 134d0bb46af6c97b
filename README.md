# Rekordbox playlist copier: a verified model

This project models the core of `rekordbox_playlist_copier.py`. The script reads a
Rekordbox library export (XML), lets the user pick a playlist, and copies that
playlist's audio files into a folder. The copied files get ordered, sanitised names
of the form `NNN - artist - name.ext`.

The model follows the script's pipeline:

- **`PathDecoder`** (`path_decoder.dfy`) covers `decode_rekordbox_path`. It strips
  `file://localhost` or `file://` from a track location, then percent-decodes the
  rest. `%XX` becomes the character with that code, and a `%` that does not start
  a valid escape stays as it is. This agrees with `urllib.parse.unquote` for
  escapes of ASCII characters only (see "Left out"). The decoder's partner is a
  percent-encoder. It writes the RFC 3986 unreserved characters (section 2.3), `/`
  and every non-ASCII character as they are, and escapes every other ASCII
  character as `%XX`. Decoding its output gives back the input. Because it never
  escapes a code of 0x80 or above, the round trip stays inside the range where
  this decoder and `unquote` agree.
- **`Xml`** (`xml.dfy`) is the part of ElementTree the script relies on. A parsed
  document is a tree of elements with tags, attributes and ordered children. It
  covers `find` and `findall` over direct children, and `.//TAG` as the first
  proper descendant in document order. Document order is given by an explicit
  preorder flattening of the tree, `Xml.Preorder`.
- **`Registry`** (`registry.dfy`) models a Python dict filled by a sequence of
  assignments. It proves which keys end up present, and that the last write to a
  key wins.
- **`Library`** (`library.dfy`) models `get_playlists` and `get_tracks_from_playlist`.
  - `get_playlists` is a class `PlaylistIndex` whose `playlists` map is the
    dictionary the nested `parse_playlist_node` closure writes into. The recursive
    walk is a method proved against `Entries`, the sequence of assignments it
    performs. `Entries` is in turn characterised by `PlaylistAt`, which follows
    a path of child indices through folders to a playlist and joins the names
    met on the way with `/`. Both directions are proved: every reachable
    playlist is registered under that joined name, and nothing else is.
  - For `get_tracks_from_playlist`, the collection loop and the resolution loop
    are methods proved against `TrackTable` and `Resolve`. Missing `TrackID` and
    `Key` attributes are Python `None`, which is a valid dict key, so the track
    table is keyed by `Option<string>`. A track is skipped when its `Location`
    is missing, and also when it is present but empty, because the script tests
    `if location:`.
- **`Copier`** (`copier.dfy`) models the naming and counting logic of
  `copy_playlist_tracks`.
  - Naming covers the character filter and `strip`, the `{i:03d}` zero padding,
    and the destination file name.
  - The file system is an oracle. It says which source files exist, which copies
    raise, and what `Path.suffix` returns.
  - The copy loop is a method proved against `Outcomes`, the per-track outcome
    list, and its counters are proved to partition the tracks.
- **`Shell`** (`shell.dfy`) models `main`'s numbered listing
  `sorted(playlists.keys())` and the rule that turns a typed number into a
  playlist name.
- **`Text`** (`text.dfy`) is Python's `<` on strings, lexicographic by code point.
  `sorted` uses it. A directory listing that sorts names by code point, as
  `ls` does in the C locale, orders the copied files by it too; file
  managers that compare runs of digits as numbers do not.

## Model

| member | source | states |
|---|---|---|
| PathDecoder.DecodeLocation | rekordbox_playlist_copier.py:15-31 | `decode_rekordbox_path`: the prefix branch, then percent-decoding; the result is never longer than the location (its branches are stated by `DecodeLocationCases`) |
| PathDecoder.PrefixOf | rekordbox_playlist_copier.py:21-26 | the prefix the decoder removes: `file://localhost` when it leads, else `file://`, else nothing; it always starts the location |
| PathDecoder.StripPrefix | rekordbox_playlist_copier.py:20-26 | the stripped prefix (`file://localhost`, `file://` or nothing) followed by the returned path rebuilds the location |
| PathDecoder.PercentDecode | rekordbox_playlist_copier.py:29 | percent-decoding never lengthens the string |
| PathDecoder.DecodeLocationCases | rekordbox_playlist_copier.py:15-31 | the three prefix branches in their order (localhost drops 16 characters, file:// drops 7, otherwise nothing), each followed by percent-decoding; with no prefix and no `%`, the location comes back unchanged |
| PathDecoder.DecodeEncode | rekordbox_playlist_copier.py:29 | decoding the percent-encoding of any string gives the string back (round trip) |
| PathDecoder.DecodeWithoutPercent | rekordbox_playlist_copier.py:29 | a string without `%` decodes to itself |
| PathDecoder.DecodePlainPrefix | rekordbox_playlist_copier.py:29 | a `%`-free prefix passes through decoding untouched |
| PathDecoder.DecodeOneEscape | rekordbox_playlist_copier.py:29 | one `%XX` escape with two hex digits becomes the single character with code XX, and the text around it is kept |
| PathDecoder.DecodeUnderLocalhost | rekordbox_playlist_copier.py:21-22 | a `file://localhost` location decodes to the percent-decoded rest |
| PathDecoder.DecodeUnderFile | rekordbox_playlist_copier.py:23-24 | a `file://` location that is not under localhost decodes to the percent-decoded rest |
| PathDecoder.DecodeLocalhostSpace | rekordbox_playlist_copier.py:21-29 | `file://localhost` + head + `%20` + tail decodes to head + space + tail |
| PathDecoder.DecodeLocalhostExample | rekordbox_playlist_copier.py:15-31 | `file://localhost/Users/a/My%20Song.mp3` decodes to `/Users/a/My Song.mp3` |
| PathDecoder.DecodeFileExample | rekordbox_playlist_copier.py:15-31 | `file:///a/b.mp3` decodes to `/a/b.mp3` |
| PathDecoder.DecodeLonePercent | rekordbox_playlist_copier.py:29 | a `%` not followed by a hex digit is kept literally |
| PathDecoder.DecodeFileLonePercent | rekordbox_playlist_copier.py:23-29 | the same under a `file://` prefix not followed by `localhost` |
| PathDecoder.DecodeMalformedEscapeExample | rekordbox_playlist_copier.py:23-29 | `file:///100%.mp3` decodes to `/100%.mp3`, and `%41` decodes to `A` |
| Xml.WithTag | rekordbox_playlist_copier.py:73 | the kept elements are exactly those with the tag, never more than the input (order and multiplicity: `WithTagAppend`, `WithTagSingle`) |
| Xml.WithTagAppend | rekordbox_playlist_copier.py:73 | filtering a concatenation is concatenating the filtered parts, so order and repetitions of matching children are kept |
| Xml.WithTagSingle | rekordbox_playlist_copier.py:73 | one child is kept exactly when its tag matches; with `WithTagAppend` this fixes the result of `findall` completely |
| Xml.FindAll | rekordbox_playlist_copier.py:73 | `findall(tag)` yields exactly the direct children with that tag |
| Xml.FirstWithTag | rekordbox_playlist_copier.py:71 | `find` returns a child exactly when one has the tag, and it is the first such child |
| Xml.Find | rekordbox_playlist_copier.py:71 | `find(tag)` yields something iff a direct child has the tag, and then a child with that tag |
| Xml.FirstInTrees | rekordbox_playlist_copier.py:40 | the search over trees yields an element of the trees (in `Preorder`) with the tag, and `None` iff no element of the trees has the tag |
| Xml.FirstWithTagAppend | rekordbox_playlist_copier.py:40 | the first match in a concatenation is the front part's first match when it has one, else the back part's |
| Xml.FirstInTreesIsFirst | rekordbox_playlist_copier.py:40 | the search returns exactly the first element with the tag in document order (`Preorder`) |
| Xml.FindDescendant | rekordbox_playlist_copier.py:40 | `root.find('.//PLAYLISTS')` yields a descendant with that tag, and `None` iff no descendant has it |
| Registry.Register | rekordbox_playlist_copier.py:58 | the dict after the writes `d[k] = v` in order; stated by the lemmas below |
| Registry.RegisterAppend | rekordbox_playlist_copier.py:58 | writing two batches of assignments one after the other is writing their concatenation |
| Registry.RegisterKeys | rekordbox_playlist_copier.py:58 | the keys after the writes are the old keys plus every key written |
| Registry.RegisterValues | rekordbox_playlist_copier.py:58 | every value present either was there before (key never written) or was written under that key |
| Registry.RegisterLastWins | rekordbox_playlist_copier.py:58 | a key maps to its last write |
| Registry.RegisterUntouched | rekordbox_playlist_copier.py:58 | a key never written keeps its presence and value |
| Registry.RegisterSize | rekordbox_playlist_copier.py:58 | writes with distinct keys make a dict with as many entries as writes |
| Library.Entries | rekordbox_playlist_copier.py:46-58 | the walk's assignments over a list of children; there is one per playlist node below them at any folder depth (`PlaylistNodeCount`) |
| Library.NodeName | rekordbox_playlist_copier.py:51-57 | the Name attribute, or the text `None` that the f-string prints for a missing one |
| Library.EntriesOf | rekordbox_playlist_copier.py:49-58 | the assignments for one child: a folder recurses with `name/` added, a playlist is registered under `prefix + name`, anything else is skipped; one per playlist node it holds |
| Library.PlaylistAt | rekordbox_playlist_copier.py:46-58 | reference definition: the playlist reached by a path of child indices through folders, and its full name, the names along the path joined with `/` |
| Library.PlaylistNodeCount | rekordbox_playlist_copier.py:48-57 | reference definition: the number of type-"1" NODEs below a list of children, looking only inside type-"0" folders |
| Library.PlaylistsOf | rekordbox_playlist_copier.py:34-61 | the table `get_playlists` returns: empty without a `PLAYLISTS` element, else the walk's assignments from the empty prefix; its contents are stated by `PlaylistsComplete` and `PlaylistsSound` |
| Library.PlaylistIndex.constructor | rekordbox_playlist_copier.py:39 | the playlist dict starts empty |
| Library.PlaylistIndex.ParsePlaylistNode | rekordbox_playlist_copier.py:46-58 | the walk performs exactly the assignments of `Entries`, in order, on the dict: folders (Type "0") recurse with `name/` added to the prefix, playlists (Type "1") register `prefix + name`, other children are skipped |
| Library.GetPlaylists | rekordbox_playlist_copier.py:34-61 | the result is `PlaylistsOf(root)`: empty without a `PLAYLISTS` element, else the dict the walk fills from the empty prefix |
| Library.PlaylistsLastWins | rekordbox_playlist_copier.py:58 | the dict's keys are exactly the full names registered; when two full names collide, the later node wins |
| Library.PlaylistCount | rekordbox_playlist_copier.py:46-61 | with distinct full names, the dict has as many entries as there are playlist nodes below `PLAYLISTS` at any folder depth (`PlaylistNodeCount`) |
| Library.EntriesComplete | rekordbox_playlist_copier.py:46-58 | every playlist reachable through folders from a child is registered under the prefix followed by its joined name |
| Library.EntriesOfComplete | rekordbox_playlist_copier.py:49-58 | the same for the playlists reachable from one child |
| Library.EntriesSound | rekordbox_playlist_copier.py:46-58 | every assignment the walk makes is a reachable playlist under the prefix followed by its joined name |
| Library.EntriesOfSound | rekordbox_playlist_copier.py:49-58 | the same for one child's assignments |
| Library.PlaylistsComplete | rekordbox_playlist_copier.py:40-61 | every playlist reachable through folders below the `PLAYLISTS` element has its joined folder-and-playlist name as a key of the table |
| Library.PlaylistsSound | rekordbox_playlist_copier.py:40-61 | every key of the table is the joined name of a reachable playlist, and its value is that playlist node |
| Library.NestedFolderExample | rekordbox_playlist_copier.py:53-58 | a playlist `Warmup` in folder `Set` is registered as `Set/Warmup`, a top-level `Warmup` as `Warmup`, and an untyped node is skipped |
| Library.UnnamedPlaylistExample | rekordbox_playlist_copier.py:51-57 | a playlist without a Name attribute is registered under `None`, as the f-string prints it |
| Library.CollectionTracks | rekordbox_playlist_copier.py:71-73 | `root.find('COLLECTION')` then `findall('TRACK')` (stated by `CollectionTracksShape`) |
| Library.CollectionTracksShape | rekordbox_playlist_copier.py:71-73 | exactly the TRACK children of the first COLLECTION child, and no tracks at all without one |
| Library.HasLocation | rekordbox_playlist_copier.py:78 | `if location:`: false for a missing attribute and for the empty string |
| Library.RecordOf | rekordbox_playlist_copier.py:74-83 | a track record holds the decoded location, and the Name and Artist attributes with `Unknown` as the default |
| Library.TrackEntries | rekordbox_playlist_copier.py:73-83 | the table writes the collection loop makes, one per TRACK with a non-empty Location, never more than the tracks |
| Library.TrackTable | rekordbox_playlist_copier.py:70-83 | the `tracks` dict after the collection loop; its keys and values are stated by `TrackTableKeys` and `TrackTableLastWins` |
| Library.TrackTableSnoc | rekordbox_playlist_copier.py:73-83 | one more TRACK either writes its record under its TrackID (when its Location is non-empty) or leaves the table unchanged |
| Library.TrackTableKeys | rekordbox_playlist_copier.py:73-83 | an id is in the table iff some TRACK with that TrackID has a non-empty Location |
| Library.TrackTableLastWins | rekordbox_playlist_copier.py:79 | with a repeated TrackID, the last TRACK with a location wins |
| Library.BuildTrackTable | rekordbox_playlist_copier.py:70-83 | the collection loop builds exactly `TrackTable(collection)` |
| Library.PlaylistKeys | rekordbox_playlist_copier.py:99-100 | one key per TRACK child of the playlist node |
| Library.Resolve | rekordbox_playlist_copier.py:99-104 | resolution never yields more tracks than keys |
| Library.ResolveAppend | rekordbox_playlist_copier.py:99-104 | resolution distributes over concatenation of key lists, so order is preserved |
| Library.ResolveAllKnown | rekordbox_playlist_copier.py:99-104 | when every key is known, the result has the same length and the i-th track is the i-th key's record |
| Library.ResolveNoneKnown | rekordbox_playlist_copier.py:101 | unknown keys are dropped silently: no known key gives an empty list |
| Library.TracksOf | rekordbox_playlist_copier.py:64-104 | the list `get_tracks_from_playlist` returns: empty for an unknown name, else the playlist's keys resolved in order against the track table |
| Library.GetTracksFromPlaylist | rekordbox_playlist_copier.py:64-104 | the result is `TracksOf(root, name)`; a name not in the playlist dict gives the empty list |
| Text.Less | rekordbox_playlist_copier.py:184 | Python's `<` on strings: the first differing character decides, and a proper prefix sorts first |
| Text.LessIrreflexive | rekordbox_playlist_copier.py:184 | no name sorts before itself |
| Text.LessTotal | rekordbox_playlist_copier.py:184 | of two different names exactly one sorts first |
| Text.LessTransitive | rekordbox_playlist_copier.py:184 | string order is transitive |
| Text.LessExtend | rekordbox_playlist_copier.py:141 | the order of equal-length prefixes decides the order of the whole strings |
| Text.LessByFirst | rekordbox_playlist_copier.py:141 | a smaller first character sorts first |
| Copier.KeepSafe | rekordbox_playlist_copier.py:140 | the filter keeps only alphanumerics, space, `-`, `_` and `.`, and never lengthens the name |
| Copier.TrimStart | rekordbox_playlist_copier.py:140 | the result is a suffix of the input, only spaces are cut, and it does not start with a space |
| Copier.TrimEnd | rekordbox_playlist_copier.py:140 | the result is a prefix of the input, only spaces are cut, and it does not end with a space |
| Copier.Strip | rekordbox_playlist_copier.py:140 | `strip()`: leading spaces, then trailing spaces, removed (stated by `StripShape`) |
| Copier.StripShape | rekordbox_playlist_copier.py:140 | what `strip()` leaves is a run of the input that follows the leading spaces, only spaces follow it, and it neither starts nor ends with a space |
| Copier.Sanitize | rekordbox_playlist_copier.py:139-140 | `safe_name`: the filter, then `strip()`; never longer than the display name |
| Copier.SanitizeShape | rekordbox_playlist_copier.py:139-140 | a sanitised name holds only kept characters and has no leading or trailing space |
| Copier.KeepSafeOfKept | rekordbox_playlist_copier.py:140 | the filter leaves a name of kept characters unchanged |
| Copier.KeepSafeOfDropped | rekordbox_playlist_copier.py:140 | the filter removes a name made only of dropped characters entirely |
| Copier.KeepSafeExample | rekordbox_playlist_copier.py:140 | the filter turns `DJ/Mix: Test?!` into `DJMix Test` before stripping |
| Copier.KeepSafeAppend | rekordbox_playlist_copier.py:140 | the filter works character by character: it distributes over concatenation |
| Copier.SanitizeIdempotent | rekordbox_playlist_copier.py:139-140 | sanitising twice is sanitising once |
| Copier.SanitizeExample | rekordbox_playlist_copier.py:139-140 | `DJ/Mix: Test?!` sanitises to `DJMix Test` |
| Copier.Decimal | rekordbox_playlist_copier.py:141 | `str(n)`: at least one character, all digits, and no leading zero unless `n` is 0 |
| Copier.DecimalOfParse | rekordbox_playlist_copier.py:141 | a digit string with no leading zero (or a single digit) is the decimal form of its value, so the decimal form is unique |
| Copier.Pad3 | rekordbox_playlist_copier.py:141 | `{i:03d}`: at least three characters, all digits, and a leading zero only when it is exactly three long |
| Copier.Pad3Unique | rekordbox_playlist_copier.py:141 | any digit string of at least three characters, with no leading zero beyond length three, that reads back as `i` is `{i:03d}`; with `Pad3RoundTrip` this fixes the result for every `i`, including `1000` |
| Copier.Pad3RoundTrip | rekordbox_playlist_copier.py:141 | `{i:03d}` has at least 3 digits and reads back as `i` |
| Copier.ParseDecimalOfDecimal | rekordbox_playlist_copier.py:141 | reading back the decimal form of `n` gives `n` |
| Copier.ParseDecimalLeadingZeros | rekordbox_playlist_copier.py:141 | leading zeros do not change the value read |
| Copier.Pad3Below1000 | rekordbox_playlist_copier.py:141 | below 1000, `{i:03d}` is exactly the hundreds, tens and units digits |
| Copier.SafeName | rekordbox_playlist_copier.py:139 | `safe_name`: the sanitised `f"{artist} - {name}"`, artist first (`SafeNameExample`) |
| Copier.SafeNameExample | rekordbox_playlist_copier.py:139 | `Song` by `DJ` gives `DJ - Song` |
| Copier.DestinationNameExample | rekordbox_playlist_copier.py:139-141 | track 1, `Song` by `DJ`, with suffix `.mp3` is copied as `001 - DJ - Song.mp3` |
| Copier.DestinationName | rekordbox_playlist_copier.py:139-141 | `dest_filename`: the padded position, ` - `, the sanitised `artist - name`, then the source suffix, which ends the name verbatim |
| Copier.LeadingDigits | rekordbox_playlist_copier.py:141 | the run of digits a name starts with: a prefix of it, all digits, followed by a non-digit or the end |
| Copier.LeadingDigitsOf | rekordbox_playlist_copier.py:141 | digits followed by a non-digit have exactly those digits as leading run |
| Copier.DestinationReadBack | rekordbox_playlist_copier.py:136-141 | the position is recoverable from the name alone: its leading digits are `{i:03d}` and parse back to `i` |
| Copier.DestinationPosition | rekordbox_playlist_copier.py:141 | a destination name starts with at least three digits and then a space, and those digits read back as the track's position |
| Copier.DestinationNamesDistinct | rekordbox_playlist_copier.py:136-141 | tracks at different positions get different destination names, whatever their metadata |
| Copier.DestinationInsideFolder | rekordbox_playlist_copier.py:140-142 | with a suffix without `/`, the destination name has no `/`, so it names a file directly in the output folder |
| Copier.Pad3Ordered | rekordbox_playlist_copier.py:141 | up to 999, padded positions are three characters long and sort in numeric order |
| Copier.DestinationNamesOrdered | rekordbox_playlist_copier.py:136-141 | for positions 1 to 999, destination names sort in playlist order |
| Copier.DestinationOrderLostAt1000 | rekordbox_playlist_copier.py:141 | the name for position 1000 sorts before the one for position 999 |
| Copier.OutcomeOf | rekordbox_playlist_copier.py:129-150 | one item: a missing source is a failure with no copy attempted, else the copy to the destination name either raises (failure) or succeeds |
| Copier.Outcomes | rekordbox_playlist_copier.py:128-150 | one outcome per track, in playlist order |
| Copier.CountCopied | rekordbox_playlist_copier.py:147 | successes never exceed the number of items |
| Copier.CopyTracks | rekordbox_playlist_copier.py:114-150 | nothing is attempted for an empty list; otherwise the outcomes are `Outcomes(tracks, fs)`, `successful` counts the copies that went through, and `successful + failed` is the number of tracks |
| Copier.CopyPlaylistTracks | rekordbox_playlist_copier.py:107-150 | the same, over the tracks `get_tracks_from_playlist` resolves for the name |
| Copier.OutcomesPrefix | rekordbox_playlist_copier.py:128 | the outcomes of the first n tracks are the first n outcomes |
| Copier.AllCopied | rekordbox_playlist_copier.py:128-147 | when every source exists and no copy raises, every track counts as a success |
| Copier.NoneCopied | rekordbox_playlist_copier.py:128-134 | when no source exists, no copy is attempted and nothing counts as a success |
| Copier.SecondMissingExample | rekordbox_playlist_copier.py:128-150 | with two tracks whose second file is missing, the first goes to `001 - ...`, and the run counts one success and one failure |
| Shell.InsertSorted | rekordbox_playlist_copier.py:184 | inserting a new name into a sorted listing keeps it sorted and adds exactly that name |
| Shell.SortedNames | rekordbox_playlist_copier.py:184 | `sorted(playlists.keys())` is strictly ascending, as long as the key set, and holds exactly its keys |
| Shell.SortedListingUnique | rekordbox_playlist_copier.py:184 | two sorted listings of the same names are equal, so the listing is determined by the names |
| Shell.ChoosePlaylist | rekordbox_playlist_copier.py:179-205 | with no playlists nothing is chosen (`main` returns before asking); otherwise a number n is accepted iff 1 <= n <= the number of playlists and then picks entry n-1 of the listing, and a name is taken as typed |
| Shell.NumberingIsOneToOne | rekordbox_playlist_copier.py:184-199 | every playlist has a number in the listing, and different numbers pick different playlists |
| Shell.NumberingOfListing | rekordbox_playlist_copier.py:184-199 | in any strictly sorted listing, every name has a number and different numbers pick different names |
| Shell.SortedDistinct | rekordbox_playlist_copier.py:184 | a strictly sorted listing repeats no name |
| Shell.NumberedChoiceIsPlaylist | rekordbox_playlist_copier.py:196-202 | a number is accepted iff it is in range, and the name it picks is a playlist name |
| Shell.NumberedSelectionFound | rekordbox_playlist_copier.py:184-199 | an accepted number names a playlist of the document, so `get_tracks_from_playlist` finds it |

## Left out

- XML parsing (`ET.parse`) is left out. The model starts from the parsed element tree, and a malformed document, which ends the script with an exception, is not modelled.
- A run parses the file three times: `get_playlists` from `main`, then `get_tracks_from_playlist`, then `get_playlists` again inside it. The model parses it once, since the same file gives the same tree.
- The file system is an oracle: `Path.exists`, whether `shutil.copy2` raises, and `Path.suffix` are parameters. The copy itself, metadata preservation, `mkdir(parents=True, exist_ok=True)` and `Path.absolute` are not modelled.
- Console output is not modelled. This covers progress lines, the summary block, the error text of a failed copy, and the sorted listing printed when a playlist is not found. That listing has the order `Shell.SortedNames` describes.
- Reading `sys.argv`, `input()`, `os.path.exists` on the XML path, `.strip()` of typed input, and the Desktop default output folder are I/O and are left out.
- `int(selection)` is not modelled. `Shell.Selection` is the already-parsed outcome: a number, or the `ValueError` path that takes the text as a name. `ChoosePlaylist` returning `None` stands for the two early returns before the output folder is asked for: no playlists (lines 179-181) and a number out of range (lines 200-202). The return for a missing XML file (lines 171-173) is I/O and is left out with it.
- PathDecoder.PercentDecode: decodes each `%XX` to the character with code XX. `unquote` instead decodes runs of escapes as UTF-8 and replaces invalid sequences with U+FFFD, so escapes of bytes 0x80 and above differ. The two agree on escapes of ASCII characters, and `PercentEncode` produces no others.
- Copier.IsAlnum: Python's `str.isalnum` is Unicode-aware. The model counts only ASCII letters and digits as alphanumeric.
- Copier.TrimStart: `strip()` removes all Unicode whitespace, but after the filter only the space can remain at either end. The model therefore trims spaces only.
- Rekordbox itself puts every playlist under a top folder named `ROOT`, so real playlist names start with `ROOT/`. The model handles whatever tree it is given and does not assume this.
- Destination names sort in playlist order only up to position 999, and only where names are compared by code point. `Copier.DestinationOrderLostAt1000` proves that position 1000 sorts before 999. This limit follows from the `{i:03d}` format, and the script's uniqueness of names still holds past it (`Copier.DestinationNamesDistinct`).
