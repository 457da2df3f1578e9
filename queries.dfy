/**
 * The read side of the repository accessor, as specification functions over the tables:
 * the crate names (`listCrates`), the crate-name -> joined-tracks mapping (`getCrates`), the
 * referenced location paths (`filenamesfromCrates`), and the set step that removes repeated
 * paths before a tar archive is built.
 *
 * The joins `crate_tracks INNER JOIN library INNER JOIN track_locations` are modelled as a
 * scan of crate_tracks in row order, keeping a link only when both joined rows exist.
 */
module Queries {
  import opened Schema

  /** The names of the given crates rows, one per row, in scan order. */
  function CrateNames(crates: seq<CrateRow>): (names: seq<string>)
    ensures |names| == |crates|
    ensures forall i :: 0 <= i < |crates| ==> names[i] == crates[i].name
  {
    if crates == [] then [] else CrateNames(crates[..|crates| - 1]) + [crates[|crates| - 1].name]
  }

  /** The crates of a valid store are listed without repetition, and the listed names are exactly the rows' names. */
  lemma CrateNamesDistinct(crates: seq<CrateRow>)
    requires CratesValid(crates)
    ensures forall i, j :: 0 <= i < j < |crates| ==> CrateNames(crates)[i] != CrateNames(crates)[j]
    ensures forall n :: n in CrateNames(crates) <==> exists i :: 0 <= i < |crates| && crates[i].name == n
  {
    var names := CrateNames(crates);
    forall n | n in names ensures exists i :: 0 <= i < |crates| && crates[i].name == n {
      var i :| 0 <= i < |names| && names[i] == n;
      assert crates[i].name == n;
    }
  }

  /** The joined row of one crate_tracks link: none when the library row or its location row is missing. */
  function Resolve(library: seq<TrackRow>, locations: map<int, LocationRow>, l: Link): seq<Snapshot>
  {
    match TrackById(library, l.trackId)
    case None => []
    case Some(row) =>
      if row.locationId in locations
      then [Snapshot(row.artist, row.title, locations[row.locationId].location, locations[row.locationId].filename)]
      else []
  }

  /** The join for one crate: the resolved rows of its links, in crate_tracks row order. */
  function Join(library: seq<TrackRow>, locations: map<int, LocationRow>, links: seq<Link>, crateId: int)
    : seq<Snapshot>
  {
    if links == [] then []
    else
      var last := links[|links| - 1];
      Join(library, locations, links[..|links| - 1], crateId)
        + (if last.crateId == crateId then Resolve(library, locations, last) else [])
  }

  /**
   * A snapshot is in a crate's join exactly when some link of that crate resolves to it:
   * links whose track lacks a library row or a track_locations row contribute nothing.
   */
  lemma {:induction false} JoinMembership(
    library: seq<TrackRow>, locations: map<int, LocationRow>, links: seq<Link>, crateId: int, s: Snapshot)
    ensures s in Join(library, locations, links, crateId) <==>
      exists k :: 0 <= k < |links| && links[k].crateId == crateId && Resolve(library, locations, links[k]) == [s]
  {
    if links != [] {
      var n := |links| - 1;
      var front := links[..n];
      JoinMembership(library, locations, front, crateId, s);
      assert forall k :: 0 <= k < n ==> front[k] == links[k];
      if s in Join(library, locations, links, crateId) && s !in Join(library, locations, front, crateId) {
        assert links[n].crateId == crateId && Resolve(library, locations, links[n]) == [s];
      }
      if exists k :: 0 <= k < |links| && links[k].crateId == crateId && Resolve(library, locations, links[k]) == [s] {
        var k :| 0 <= k < |links| && links[k].crateId == crateId && Resolve(library, locations, links[k]) == [s];
        if k < n {
          assert front[k] == links[k];
        }
      }
    }
  }

  /** The number of the crate's links, in the given crate_tracks rows. */
  function LinkCount(links: seq<Link>, crateId: int): nat
  {
    if links == [] then 0
    else LinkCount(links[..|links| - 1], crateId) + (if links[|links| - 1].crateId == crateId then 1 else 0)
  }

  /** The number of the crate's links whose track has both a library row and a track_locations row. */
  function ResolvingCount(library: seq<TrackRow>, locations: map<int, LocationRow>, links: seq<Link>, crateId: int): nat
  {
    if links == [] then 0
    else
      var last := links[|links| - 1];
      ResolvingCount(library, locations, links[..|links| - 1], crateId)
        + (if last.crateId == crateId && Resolve(library, locations, last) != [] then 1 else 0)
  }

  /**
   * The join yields exactly one row per link of the crate that resolves, so never more rows
   * than the crate has links.
   */
  lemma {:induction false} JoinLength(
    library: seq<TrackRow>, locations: map<int, LocationRow>, links: seq<Link>, crateId: int)
    ensures |Join(library, locations, links, crateId)| == ResolvingCount(library, locations, links, crateId)
    ensures ResolvingCount(library, locations, links, crateId) <= LinkCount(links, crateId)
    ensures |Join(library, locations, links, crateId)| <= |links|
  {
    if links != [] {
      JoinLength(library, locations, links[..|links| - 1], crateId);
    }
  }

  /** One entry of the Python dict that `getCrates` fills: a crate name and its joined rows. */
  datatype CrateEntry = CrateEntry(name: string, tracks: seq<Snapshot>)

  /** The dict's keys in iteration (insertion) order. */
  function Keys(d: seq<CrateEntry>): seq<string>
  {
    seq(|d|, i requires 0 <= i < |d| => d[i].name)
  }

  /** No key occurs twice. */
  ghost predicate DistinctKeys(d: seq<CrateEntry>)
  {
    forall i, j :: 0 <= i < j < |d| ==> d[i].name != d[j].name
  }

  /** `d[name] = tracks` on an insertion-ordered dict: replace in place, or append a new key. */
  function Put(d: seq<CrateEntry>, name: string, tracks: seq<Snapshot>): seq<CrateEntry>
  {
    if name in Keys(d)
    then seq(|d|, i requires 0 <= i < |d| => if d[i].name == name then CrateEntry(name, tracks) else d[i])
    else d + [CrateEntry(name, tracks)]
  }

  /**
   * What a dict assignment does: the key list is unchanged when the key is already present and
   * gains the key at the end otherwise; every entry for the key holds the new value; every other
   * entry keeps its value; and keys that were distinct stay distinct.
   */
  lemma PutSpec(d: seq<CrateEntry>, name: string, tracks: seq<Snapshot>)
    ensures Keys(Put(d, name, tracks)) == if name in Keys(d) then Keys(d) else Keys(d) + [name]
    ensures name in Keys(Put(d, name, tracks))
    ensures forall i :: 0 <= i < |Put(d, name, tracks)| && Put(d, name, tracks)[i].name == name ==>
      Put(d, name, tracks)[i].tracks == tracks
    ensures forall i :: 0 <= i < |d| && d[i].name != name ==> Put(d, name, tracks)[i] == d[i]
    ensures DistinctKeys(d) ==> DistinctKeys(Put(d, name, tracks))
  {
    var r := Put(d, name, tracks);
    if name !in Keys(d) {
      assert Keys(r) == Keys(d) + [name];
      forall i | 0 <= i < |d| ensures d[i].name != name {
        assert Keys(d)[i] == d[i].name;
      }
      if DistinctKeys(d) {
        forall i, j | 0 <= i < j < |r| ensures r[i].name != r[j].name {
          if j == |d| {
            assert Keys(d)[i] == d[i].name;
          }
        }
      }
    }
  }

  /** The dict `getCrates` builds from the given crates rows, each joined against the whole of t. */
  function MappingOf(t: Tables, crates: seq<CrateRow>): seq<CrateEntry>
  {
    if crates == [] then []
    else
      var last := crates[|crates| - 1];
      Put(MappingOf(t, crates[..|crates| - 1]), last.name,
          Join(t.library, t.trackLocations, t.crateTracks, last.id))
  }

  /** `getCrates`. */
  function CrateMapping(t: Tables): seq<CrateEntry>
  {
    MappingOf(t, t.crates)
  }

  /** In a store with unique crate names, each crate row gives one dict entry, at its own position. */
  lemma {:induction false} MappingEntriesAt(t: Tables, crates: seq<CrateRow>)
    requires CratesValid(crates)
    ensures |MappingOf(t, crates)| == |crates|
    ensures forall i :: 0 <= i < |crates| ==>
      MappingOf(t, crates)[i] == CrateEntry(crates[i].name, Join(t.library, t.trackLocations, t.crateTracks, crates[i].id))
  {
    if crates != [] {
      var n := |crates| - 1;
      var front := crates[..n];
      assert CratesValid(front) by {
        assert forall i :: 0 <= i < n ==> front[i] == crates[i];
      }
      MappingEntriesAt(t, front);
      assert crates[n].name !in Keys(MappingOf(t, front)) by {
        forall i | 0 <= i < n ensures Keys(MappingOf(t, front))[i] != crates[n].name {
          assert front[i] == crates[i];
        }
      }
    }
  }

  /**
   * In a store with unique crate names, the dict has exactly the crate names as keys, in crate
   * order, and each crate's list is its join.
   */
  lemma MappingEntries(t: Tables, crates: seq<CrateRow>)
    requires CratesValid(crates)
    ensures |MappingOf(t, crates)| == |crates|
    ensures Keys(MappingOf(t, crates)) == CrateNames(crates)
    ensures forall i :: 0 <= i < |crates| ==>
      MappingOf(t, crates)[i] == CrateEntry(crates[i].name, Join(t.library, t.trackLocations, t.crateTracks, crates[i].id))
  {
    MappingEntriesAt(t, crates);
  }

  /** The paths of some joined rows, in order. */
  function Locations(snapshots: seq<Snapshot>): (paths: seq<Value>)
    ensures |paths| == |snapshots|
    ensures forall i :: 0 <= i < |snapshots| ==> paths[i] == snapshots[i].location
  {
    if snapshots == [] then []
    else Locations(snapshots[..|snapshots| - 1]) + [snapshots[|snapshots| - 1].location]
  }

  /** `filenamesfromCrates` over the given crates rows: every joined location, crate after crate. */
  function FilenamesOf(t: Tables, crates: seq<CrateRow>): seq<Value>
  {
    if crates == [] then []
    else
      FilenamesOf(t, crates[..|crates| - 1])
        + Locations(Join(t.library, t.trackLocations, t.crateTracks, crates[|crates| - 1].id))
  }

  /** `filenamesfromCrates`. */
  function Filenames(t: Tables): seq<Value>
  {
    FilenamesOf(t, t.crates)
  }

  /** All paths of a crate mapping, crate after crate, repetitions kept. */
  function AllLocations(d: seq<CrateEntry>): seq<Value>
  {
    if d == [] then [] else AllLocations(d[..|d| - 1]) + Locations(d[|d| - 1].tracks)
  }

  /**
   * The paths `filenamesfromCrates` returns are exactly the location fields of the rows
   * `getCrates` returns, in the same order; a path joined from two crates appears twice.
   */
  lemma {:induction false} FilenamesAreMappingLocations(t: Tables, crates: seq<CrateRow>)
    requires CratesValid(crates)
    ensures FilenamesOf(t, crates) == AllLocations(MappingOf(t, crates))
  {
    if crates != [] {
      var n := |crates| - 1;
      var front := crates[..n];
      assert CratesValid(front) by {
        assert forall i :: 0 <= i < n ==> front[i] == crates[i];
      }
      FilenamesAreMappingLocations(t, front);
      MappingEntries(t, front);
      MappingEntries(t, crates);
      assert crates[n].name !in Keys(MappingOf(t, front)) by {
        forall i | 0 <= i < n ensures Keys(MappingOf(t, front))[i] != crates[n].name {
          assert front[i] == crates[i];
        }
      }
      var m := MappingOf(t, crates);
      assert m[..n] == MappingOf(t, front);
    }
  }

  /** No value occurs twice. */
  ghost predicate NoDuplicates(s: seq<Value>)
  {
    forall i, j :: 0 <= i < j < |s| ==> s[i] != s[j]
  }

  /**
   * `list(set(paths))` before the tar archive is built: every path once. Python leaves the
   * order of a set unspecified; this keeps first occurrences in order.
   */
  method UniquePaths(paths: seq<Value>) returns (unique: seq<Value>)
    ensures NoDuplicates(unique)
    ensures forall p :: p in unique <==> p in paths
  {
    unique := [];
    var seen: set<Value> := {};
    for i := 0 to |paths|
      invariant NoDuplicates(unique)
      invariant forall p :: p in unique <==> p in seen
      invariant forall p :: p in seen <==> p in paths[..i]
    {
      if paths[i] !in seen {
        unique := unique + [paths[i]];
        seen := seen + {paths[i]};
      }
      assert paths[..i + 1] == paths[..i] + [paths[i]];
    }
    assert paths[..|paths|] == paths;
  }
}
