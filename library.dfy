/** The library parser: `get_playlists` (with its inner walk
    `parse_playlist_node`) and `get_tracks_from_playlist`, over a parsed
    element tree. */
module Library {
  import opened Wrappers
  import opened Xml
  import opened Registry
  import PathDecoder

  const FolderType: string := "0"
  const PlaylistType: string := "1"
  const Unknown: string := "Unknown"

  /** The name a node contributes: `child.get('Name')` formatted by an
      f-string, which prints a missing attribute as `None`. */
  function NodeName(node: Element): (r: string)
    ensures "Name" in node.attrs ==> r == node.attrs["Name"]
    ensures "Name" !in node.attrs ==> r == "None"
  {
    Get(node, "Name").GetOr("None")
  }

  /** A child the walk registers: a `NODE` element of type "1". */
  predicate IsPlaylistNode(e: Element) {
    e.tag == "NODE" && Get(e, "Type") == Some(PlaylistType)
  }

  /** A child the walk descends into: a `NODE` element of type "0". */
  predicate IsFolderNode(e: Element) {
    e.tag == "NODE" && Get(e, "Type") == Some(FolderType)
  }

  /** The assignments `playlists[full_name] = child` the walk performs over
      the children `cs` under name prefix `prefix`, in the order it performs
      them (depth first, children in document order). */
  function Entries(cs: seq<Element>, prefix: string): (r: seq<(string, Element)>)
    ensures |r| == PlaylistNodeCount(cs)
    decreases cs
  {
    if cs == [] then []
    else Entries(cs[..|cs| - 1], prefix) + EntriesOf(cs[|cs| - 1], prefix)
  }

  /** The assignments for one child: a folder recurses with `name/` added to
      the prefix, a playlist is registered under `prefix + name`, anything
      else (another tag, another or no type) is skipped. */
  function EntriesOf(c: Element, prefix: string): (r: seq<(string, Element)>)
    ensures |r| == PlaylistNodeCountOf(c)
    decreases c
  {
    if IsFolderNode(c) then Entries(c.children, prefix + NodeName(c) + "/")
    else if IsPlaylistNode(c) then [(prefix + NodeName(c), c)]
    else []
  }

  /** The playlist reached from `c` by following the child indices `path`
      through folders (`[]` is `c` itself), with its full name: the names met
      on the way, joined with `/`. `None` when a step leaves the folders or
      the end is not a playlist. */
  function PlaylistAt(c: Element, path: seq<nat>): Option<(string, Element)>
    decreases |path|
  {
    if path == [] then (if IsPlaylistNode(c) then Some((NodeName(c), c)) else None)
    else if !IsFolderNode(c) || path[0] >= |c.children| then None
    else match PlaylistAt(c.children[path[0]], path[1..])
      case None => None
      case Some(found) => Some((NodeName(c) + "/" + found.0, found.1))
  }

  /** How many playlist nodes the trees `cs` hold, looking inside folders
      only. */
  function PlaylistNodeCount(cs: seq<Element>): nat
    decreases cs
  {
    if cs == [] then 0 else PlaylistNodeCount(cs[..|cs| - 1]) + PlaylistNodeCountOf(cs[|cs| - 1])
  }

  function PlaylistNodeCountOf(c: Element): nat
    decreases c
  {
    if IsFolderNode(c) then PlaylistNodeCount(c.children) else if IsPlaylistNode(c) then 1 else 0
  }

  /** The playlist table `get_playlists` returns for a document: empty when
      there is no `PLAYLISTS` element below the root, else the table filled
      by the walk of its children from the empty prefix. */
  function PlaylistsOf(root: Element): map<string, Element> {
    match FindDescendant(root, "PLAYLISTS")
    case None => map[]
    case Some(node) => Register(map[], Entries(node.children, ""))
  }

  /** The dictionary `playlists` that `parse_playlist_node` writes into,
      as an object: the walk updates it in place. */
  class PlaylistIndex {
    var playlists: map<string, Element>

    constructor ()
      ensures playlists == map[]
    {
      playlists := map[];
    }

    /** `parse_playlist_node(node, prefix)`: registers the playlists below
        `node`, in walk order, on top of what is already there. */
    method ParsePlaylistNode(node: Element, prefix: string)
      modifies this
      ensures playlists == Register(old(playlists), Entries(node.children, prefix))
      decreases node
    {
      for i := 0 to |node.children|
        invariant playlists == Register(old(playlists), Entries(node.children[..i], prefix))
      {
        var child := node.children[i];
        assert node.children[..i + 1][..i] == node.children[..i];
        RegisterAppend(old(playlists), Entries(node.children[..i], prefix), EntriesOf(child, prefix));
        if child.tag == "NODE" {
          var nodeType := Get(child, "Type");
          var name := NodeName(child);
          if nodeType == Some(FolderType) {
            ParsePlaylistNode(child, prefix + name + "/");
          } else if nodeType == Some(PlaylistType) {
            playlists := playlists[prefix + name := child];
          }
        }
      }
      assert node.children[..|node.children|] == node.children;
    }
  }

  /** `get_playlists`: the full playlist names of the document and their nodes. */
  method GetPlaylists(root: Element) returns (playlists: map<string, Element>)
    ensures playlists == PlaylistsOf(root)
  {
    var index := new PlaylistIndex();
    var playlistsNode := FindDescendant(root, "PLAYLISTS");
    if playlistsNode.None? {
      return map[];
    }
    index.ParsePlaylistNode(playlistsNode.value, "");
    playlists := index.playlists;
  }

  /** The table's names are exactly those the walk registers, and under
      each name is the node registered last, so a later playlist with the same
      full name overwrites an earlier one. */
  lemma PlaylistsLastWins(root: Element, node: Element, j: nat)
    requires FindDescendant(root, "PLAYLISTS") == Some(node)
    requires j < |Entries(node.children, "")|
    requires forall i :: j < i < |Entries(node.children, "")| ==>
               Entries(node.children, "")[i].0 != Entries(node.children, "")[j].0
    ensures PlaylistsOf(root).Keys == KeysOf(Entries(node.children, ""))
    ensures PlaylistsOf(root)[Entries(node.children, "")[j].0] == Entries(node.children, "")[j].1
  {
    RegisterKeys(map[], Entries(node.children, ""));
    RegisterLastWins(map[], Entries(node.children, ""), j);
  }

  /** With no repeated full name, the table has one entry per playlist node
      below the `PLAYLISTS` element, at any folder depth. */
  lemma PlaylistCount(root: Element, node: Element)
    requires FindDescendant(root, "PLAYLISTS") == Some(node)
    requires forall i, j :: 0 <= i < j < |Entries(node.children, "")| ==>
               Entries(node.children, "")[i].0 != Entries(node.children, "")[j].0
    ensures |PlaylistsOf(root)| == PlaylistNodeCount(node.children)
  {
    RegisterSize(Entries(node.children, ""));
  }

  /** Completeness of the walk: every playlist reachable through folders from
      a child of `cs` is registered under the prefix and its joined name. */
  lemma {:induction false} EntriesComplete(cs: seq<Element>, prefix: string, k: nat, path: seq<nat>)
    requires k < |cs| && PlaylistAt(cs[k], path).Some?
    ensures (prefix + PlaylistAt(cs[k], path).value.0, PlaylistAt(cs[k], path).value.1) in Entries(cs, prefix)
    decreases cs
  {
    var n := |cs| - 1;
    if k < n {
      assert cs[..n][k] == cs[k];
      EntriesComplete(cs[..n], prefix, k, path);
    } else {
      EntriesOfComplete(cs[n], prefix, path);
    }
  }

  lemma {:induction false} EntriesOfComplete(c: Element, prefix: string, path: seq<nat>)
    requires PlaylistAt(c, path).Some?
    ensures (prefix + PlaylistAt(c, path).value.0, PlaylistAt(c, path).value.1) in EntriesOf(c, prefix)
    decreases c
  {
    if path != [] {
      var child := c.children[path[0]];
      var found := PlaylistAt(child, path[1..]).value;
      var inner := prefix + NodeName(c) + "/";
      EntriesComplete(c.children, inner, path[0], path[1..]);
      assert inner + found.0 == prefix + (NodeName(c) + "/" + found.0);
    }
  }

  /** Soundness of the walk: whatever it registers is a playlist reachable
      through folders from a child of `cs`, under the prefix and its joined
      name. */
  lemma {:induction false} EntriesSound(cs: seq<Element>, prefix: string, e: (string, Element))
    requires e in Entries(cs, prefix)
    ensures exists k: nat, path :: k < |cs| && PlaylistAt(cs[k], path).Some? &&
              e == (prefix + PlaylistAt(cs[k], path).value.0, PlaylistAt(cs[k], path).value.1)
    decreases cs
  {
    var n := |cs| - 1;
    if e in Entries(cs[..n], prefix) {
      EntriesSound(cs[..n], prefix, e);
      var k: nat, path :| k < n && PlaylistAt(cs[..n][k], path).Some? &&
                         e == (prefix + PlaylistAt(cs[..n][k], path).value.0, PlaylistAt(cs[..n][k], path).value.1);
      assert cs[..n][k] == cs[k];
    } else {
      EntriesOfSound(cs[n], prefix, e);
      var path :| PlaylistAt(cs[n], path).Some? &&
                  e == (prefix + PlaylistAt(cs[n], path).value.0, PlaylistAt(cs[n], path).value.1);
    }
  }

  lemma {:induction false} EntriesOfSound(c: Element, prefix: string, e: (string, Element))
    requires e in EntriesOf(c, prefix)
    ensures exists path :: PlaylistAt(c, path).Some? &&
              e == (prefix + PlaylistAt(c, path).value.0, PlaylistAt(c, path).value.1)
    decreases c
  {
    if IsFolderNode(c) {
      var inner := prefix + NodeName(c) + "/";
      EntriesSound(c.children, inner, e);
      var k: nat, rest :| k < |c.children| && PlaylistAt(c.children[k], rest).Some? &&
                         e == (inner + PlaylistAt(c.children[k], rest).value.0, PlaylistAt(c.children[k], rest).value.1);
      var found := PlaylistAt(c.children[k], rest).value;
      var path := [k] + rest;
      assert path[0] == k && path[1..] == rest;
      assert PlaylistAt(c, path) == Some((NodeName(c) + "/" + found.0, found.1));
      assert inner + found.0 == prefix + (NodeName(c) + "/" + found.0);
    } else {
      assert PlaylistAt(c, []) == Some((NodeName(c), c));
    }
  }

  /** `get_playlists` files every playlist reachable through folders below
      the `PLAYLISTS` element under its folder names and its own name joined
      with `/`. */
  lemma PlaylistsComplete(root: Element, node: Element, k: nat, path: seq<nat>)
    requires FindDescendant(root, "PLAYLISTS") == Some(node)
    requires k < |node.children| && PlaylistAt(node.children[k], path).Some?
    ensures PlaylistAt(node.children[k], path).value.0 in PlaylistsOf(root)
  {
    var es := Entries(node.children, "");
    var found := PlaylistAt(node.children[k], path).value;
    RegisterKeys(map[], es);
    EntriesComplete(node.children, "", k, path);
    assert "" + found.0 == found.0;
    var i :| 0 <= i < |es| && es[i] == (found.0, found.1);
    assert found.0 in KeysOf(es);
  }

  /** Every entry of the table `get_playlists` returns is a playlist reachable
      through folders below the `PLAYLISTS` element, filed under its folder
      names and its own name joined with `/`. */
  lemma PlaylistsSound(root: Element, node: Element, name: string)
    requires FindDescendant(root, "PLAYLISTS") == Some(node)
    requires name in PlaylistsOf(root)
    ensures exists k: nat, path :: k < |node.children| && PlaylistAt(node.children[k], path) == Some((name, PlaylistsOf(root)[name]))
  {
    var es := Entries(node.children, "");
    RegisterValues(map[], es, name);
    var i :| 0 <= i < |es| && es[i] == (name, PlaylistsOf(root)[name]);
    assert es[i] in es;
    EntriesSound(node.children, "", es[i]);
    var k: nat, path :| k < |node.children| && PlaylistAt(node.children[k], path).Some? &&
                       es[i] == ("" + PlaylistAt(node.children[k], path).value.0, PlaylistAt(node.children[k], path).value.1);
    assert "" + PlaylistAt(node.children[k], path).value.0 == PlaylistAt(node.children[k], path).value.0;
    assert PlaylistAt(node.children[k], path) == Some((name, PlaylistsOf(root)[name]));
  }

  /** A track record: the decoded file path, the title and the artist. */
  datatype Track = Track(location: string, name: string, artist: string)

  /** `root.find('COLLECTION').findall('TRACK')`, or nothing without a collection. */
  function CollectionTracks(root: Element): seq<Element> {
    match Find(root, "COLLECTION")
    case None => []
    case Some(collection) => FindAll(collection, "TRACK")
  }

  /** No collection means no tracks; otherwise the tracks are exactly the
      collection's TRACK children. */
  lemma CollectionTracksShape(root: Element)
    ensures Find(root, "COLLECTION").None? ==> CollectionTracks(root) == []
    ensures forall x :: x in CollectionTracks(root) <==>
              Find(root, "COLLECTION").Some? && x in Find(root, "COLLECTION").value.children && x.tag == "TRACK"
  {
  }

  /** `if location:`: the attribute is present and not empty. */
  predicate HasLocation(t: Element) {
    "Location" in t.attrs && t.attrs["Location"] != ""
  }

  /** The record stored for a collection track. */
  function RecordOf(t: Element): (r: Track)
    requires HasLocation(t)
    ensures r.location == PathDecoder.DecodeLocation(t.attrs["Location"])
    ensures r.name == (if "Name" in t.attrs then t.attrs["Name"] else Unknown)
    ensures r.artist == (if "Artist" in t.attrs then t.attrs["Artist"] else Unknown)
  {
    Track(PathDecoder.DecodeLocation(t.attrs["Location"]), Get(t, "Name").GetOr(Unknown), Get(t, "Artist").GetOr(Unknown))
  }

  /** The assignments `tracks[track_id] = {...}` the collection loop
      performs: one per track with a location, keyed by its `TrackID`
      (`None` when the attribute is missing). */
  function TrackEntries(ts: seq<Element>): (r: seq<(Option<string>, Track)>)
    ensures |r| <= |ts|
  {
    if ts == [] then []
    else
      var t := ts[|ts| - 1];
      TrackEntries(ts[..|ts| - 1]) + (if HasLocation(t) then [(Get(t, "TrackID"), RecordOf(t))] else [])
  }

  /** The track table of the collection `ts`. */
  function TrackTable(ts: seq<Element>): map<Option<string>, Track> {
    Register(map[], TrackEntries(ts))
  }

  lemma TrackTableSnoc(ts: seq<Element>, t: Element)
    ensures TrackTable(ts + [t]) ==
              if HasLocation(t) then TrackTable(ts)[Get(t, "TrackID") := RecordOf(t)] else TrackTable(ts)
  {
    assert (ts + [t])[..|ts|] == ts;
    var extra := if HasLocation(t) then [(Get(t, "TrackID"), RecordOf(t))] else [];
    RegisterAppend(map[], TrackEntries(ts), extra);
  }

  lemma TrackTableStep(ts: seq<Element>, i: nat)
    requires i < |ts|
    ensures TrackTable(ts[..i + 1]) ==
              if HasLocation(ts[i]) then TrackTable(ts[..i])[Get(ts[i], "TrackID") := RecordOf(ts[i])] else TrackTable(ts[..i])
  {
    TrackTableSnoc(ts[..i], ts[i]);
    assert ts[..i + 1] == ts[..i] + [ts[i]];
  }

  /** The table's ids are exactly the `TrackID`s of the tracks with a
      non-empty `Location`. */
  lemma {:induction false} TrackTableKeys(ts: seq<Element>, id: Option<string>)
    ensures id in TrackTable(ts) <==> exists i :: 0 <= i < |ts| && HasLocation(ts[i]) && Get(ts[i], "TrackID") == id
    decreases |ts|
  {
    if ts != [] {
      var init, t := ts[..|ts| - 1], ts[|ts| - 1];
      assert ts == init + [t];
      TrackTableSnoc(init, t);
      TrackTableKeys(init, id);
      if id in TrackTable(init) {
        var i :| 0 <= i < |init| && HasLocation(init[i]) && Get(init[i], "TrackID") == id;
        assert ts[i] == init[i];
      }
      if exists i :: 0 <= i < |ts| && HasLocation(ts[i]) && Get(ts[i], "TrackID") == id {
        var i :| 0 <= i < |ts| && HasLocation(ts[i]) && Get(ts[i], "TrackID") == id;
        if i < |init| {
          assert init[i] == ts[i];
        }
      }
    }
  }

  /** Under each id is the record of the last track with that id and a
      location: its decoded path, and its title and artist or "Unknown". */
  lemma {:induction false} TrackTableLastWins(ts: seq<Element>, j: nat)
    requires j < |ts| && HasLocation(ts[j])
    requires forall i :: j < i < |ts| && HasLocation(ts[i]) ==> Get(ts[i], "TrackID") != Get(ts[j], "TrackID")
    ensures Get(ts[j], "TrackID") in TrackTable(ts)
    ensures TrackTable(ts)[Get(ts[j], "TrackID")] == RecordOf(ts[j])
    decreases |ts|
  {
    var init, t := ts[..|ts| - 1], ts[|ts| - 1];
    assert ts == init + [t];
    TrackTableSnoc(init, t);
    if j < |init| {
      TrackTableLastWins(init, j);
    }
  }

  /** The `Key`s of a playlist node's `TRACK` children, in order (`None`
      for a child without one). */
  function PlaylistKeys(node: Element): (keys: seq<Option<string>>)
    ensures |keys| == |FindAll(node, "TRACK")|
  {
    var ts := FindAll(node, "TRACK");
    seq(|ts|, i requires 0 <= i < |ts| => Get(ts[i], "Key"))
  }

  /** The records of the keys found in the table, in key order; a key with
      no record is dropped. */
  function Resolve(keys: seq<Option<string>>, table: map<Option<string>, Track>): (r: seq<Track>)
    ensures |r| <= |keys|
  {
    if keys == [] then []
    else
      var k := keys[|keys| - 1];
      Resolve(keys[..|keys| - 1], table) + (if k in table then [table[k]] else [])
  }

  /** Resolving a concatenation is concatenating the resolutions: the
      playlist's order is kept. */
  lemma {:induction false} ResolveAppend(a: seq<Option<string>>, b: seq<Option<string>>, table: map<Option<string>, Track>)
    ensures Resolve(a + b, table) == Resolve(a, table) + Resolve(b, table)
    decreases |b|
  {
    if b == [] {
      assert a + b == a;
    } else {
      var n := |b| - 1;
      assert (a + b)[..|a + b| - 1] == a + b[..n];
      assert (a + b)[|a + b| - 1] == b[n];
      ResolveAppend(a, b[..n], table);
    }
  }

  /** When every key is known, nothing is dropped and the i-th record is the
      i-th key's. */
  lemma {:induction false} ResolveAllKnown(keys: seq<Option<string>>, table: map<Option<string>, Track>)
    requires forall i :: 0 <= i < |keys| ==> keys[i] in table
    ensures |Resolve(keys, table)| == |keys|
    ensures forall i :: 0 <= i < |keys| ==> Resolve(keys, table)[i] == table[keys[i]]
    decreases |keys|
  {
    if keys != [] {
      ResolveAllKnown(keys[..|keys| - 1], table);
    }
  }

  /** Unknown keys contribute nothing. */
  lemma {:induction false} ResolveNoneKnown(keys: seq<Option<string>>, table: map<Option<string>, Track>)
    requires forall i :: 0 <= i < |keys| ==> keys[i] !in table
    ensures Resolve(keys, table) == []
    decreases |keys|
  {
    if keys != [] {
      ResolveNoneKnown(keys[..|keys| - 1], table);
    }
  }

  /** The list `get_tracks_from_playlist` returns: empty when the name is
      not a playlist of the document, else its keys resolved in the track
      table. */
  function TracksOf(root: Element, playlistName: string): seq<Track> {
    var playlists := PlaylistsOf(root);
    if playlistName !in playlists then []
    else Resolve(PlaylistKeys(playlists[playlistName]), TrackTable(CollectionTracks(root)))
  }

  /** The collection loop of `get_tracks_from_playlist`: one record per
      track with a location, stored under its `TrackID`. */
  method BuildTrackTable(collection: seq<Element>) returns (tracks: map<Option<string>, Track>)
    ensures tracks == TrackTable(collection)
  {
    tracks := map[];
    for i := 0 to |collection|
      invariant tracks == TrackTable(collection[..i])
    {
      var track := collection[i];
      var trackId := Get(track, "TrackID");
      if HasLocation(track) {
        tracks := tracks[trackId := RecordOf(track)];
      }
      TrackTableStep(collection, i);
    }
    assert collection[..|collection|] == collection;
  }

  /** `get_tracks_from_playlist`: builds the track table from the
      collection, looks the playlist up and resolves its track keys in order. */
  method GetTracksFromPlaylist(root: Element, playlistName: string) returns (trackList: seq<Track>)
    ensures trackList == TracksOf(root, playlistName)
    ensures playlistName !in PlaylistsOf(root) ==> trackList == []
  {
    var tracks := BuildTrackTable(CollectionTracks(root));

    var playlists := GetPlaylists(root);
    if playlistName !in playlists {
      return [];
    }

    var keys := PlaylistKeys(playlists[playlistName]);
    trackList := [];
    for i := 0 to |keys|
      invariant trackList == Resolve(keys[..i], tracks)
    {
      var key := keys[i];
      if key in tracks {
        trackList := trackList + [tracks[key]];
      }
      assert keys[..i + 1][..i] == keys[..i];
    }
    assert keys[..|keys|] == keys;
  }

  /** A folder `Set` holding playlist `Warmup`, next to a top-level playlist
      also named `Warmup` and an untyped node: the nested playlist is
      registered as `Set/Warmup`, the top-level one as `Warmup`, and the
      untyped node is skipped. */
  lemma NestedFolderExample(warmup: Element, folder: Element, other: Element)
    requires warmup == Element("NODE", map["Type" := "1", "Name" := "Warmup"], [])
    requires folder == Element("NODE", map["Type" := "0", "Name" := "Set"], [warmup])
    requires other == Element("NODE", map["Name" := "Notes"], [])
    ensures Entries([folder, warmup, other], "") == [("Set/Warmup", warmup), ("Warmup", warmup)]
  {
    assert "Type" in warmup.attrs && warmup.attrs["Type"] == "1";
    assert "Name" in warmup.attrs && warmup.attrs["Name"] == "Warmup";
    assert "Type" in folder.attrs && folder.attrs["Type"] == "0";
    assert "Name" in folder.attrs && folder.attrs["Name"] == "Set";
    assert "Type" !in other.attrs;
    assert IsFolderNode(folder) && IsPlaylistNode(warmup) && !IsFolderNode(other) && !IsPlaylistNode(other);
    assert EntriesOf(warmup, "Set/") == [("Set/Warmup", warmup)] by {
      assert "Set/" + NodeName(warmup) == "Set/Warmup";
    }
    assert EntriesOf(folder, "") == [("Set/Warmup", warmup)] by {
      assert "" + NodeName(folder) + "/" == "Set/";
      assert [warmup][..0] == [];
      assert Entries([warmup], "Set/") == [("Set/Warmup", warmup)];
    }
    assert EntriesOf(warmup, "") == [("Warmup", warmup)] by {
      assert "" + NodeName(warmup) == "Warmup";
    }
    assert EntriesOf(other, "") == [];
    assert [folder][..0] == [];
    assert Entries([folder], "") == [("Set/Warmup", warmup)];
    assert [folder, warmup][..1] == [folder];
    assert Entries([folder, warmup], "") == [("Set/Warmup", warmup), ("Warmup", warmup)];
    assert [folder, warmup, other][..2] == [folder, warmup];
  }

  /** A playlist whose name attribute is missing is registered under `None`,
      as the f-string prints it. */
  lemma UnnamedPlaylistExample(p: Element)
    requires p == Element("NODE", map["Type" := "1"], [])
    ensures Entries([p], "") == [("None", p)]
  {
    assert "Type" in p.attrs && p.attrs["Type"] == "1" && "Name" !in p.attrs;
    assert IsPlaylistNode(p) && !IsFolderNode(p);
    assert "" + NodeName(p) == "None";
    assert [p][..0] == [];
  }
}
