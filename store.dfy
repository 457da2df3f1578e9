/**
 * The tool's view of the DJ library database: one object holding the four tables, the
 * cursor loops of the read side, and the import walk that inserts crates and links in place.
 * Every method is proved against the specification functions of `Queries`, `CrateXml` and
 * `Import`, whose properties are proved there.
 */
module Store {
  import opened Schema
  import opened Matcher
  import opened Queries
  import opened CrateXml
  import opened Import

  class Database {
    var crates: seq<CrateRow>
    var crateTracks: seq<Link>
    var library: seq<TrackRow>
    var trackLocations: map<int, LocationRow>

    /** The four tables as a value. */
    function Contents(): Tables
      reads this
    {
      Tables(crates, crateTracks, library, trackLocations)
    }

    /** The schema's ordering and uniqueness constraints hold. */
    ghost predicate Valid()
      reads this
    {
      Schema.Valid(Contents())
    }

    /** An open connection to a database holding the given tables. */
    constructor (t: Tables)
      ensures Contents() == t
    {
      crates := t.crates;
      crateTracks := t.crateTracks;
      library := t.library;
      trackLocations := t.trackLocations;
    }

    /** `listCrates`: one `fetchone()` per crates row, appending its name. */
    method ListCrates() returns (names: seq<string>)
      ensures names == CrateNames(crates)
      ensures |names| == |crates|
      ensures forall i :: 0 <= i < |crates| ==> names[i] == crates[i].name
    {
      names := [];
      var i := 0;
      while i < |crates|
        invariant 0 <= i <= |crates|
        invariant names == CrateNames(crates[..i])
      {
        names := names + [crates[i].name];
        assert crates[..i + 1][..i] == crates[..i];
        i := i + 1;
      }
      assert crates[..i] == crates;
    }

    /**
     * The inner cursor of `getCrates`: the rows of `crate_tracks INNER JOIN library INNER JOIN
     * track_locations` for one crate id, in crate_tracks order.
     */
    method JoinCrate(crateId: int) returns (rows: seq<Snapshot>)
      ensures rows == Join(library, trackLocations, crateTracks, crateId)
      ensures forall s :: s in rows <==>
        exists k :: 0 <= k < |crateTracks| && crateTracks[k].crateId == crateId
          && Resolve(library, trackLocations, crateTracks[k]) == [s]
    {
      rows := [];
      var k := 0;
      while k < |crateTracks|
        invariant 0 <= k <= |crateTracks|
        invariant rows == Join(library, trackLocations, crateTracks[..k], crateId)
      {
        if crateTracks[k].crateId == crateId {
          rows := rows + Resolve(library, trackLocations, crateTracks[k]);
        }
        assert crateTracks[..k + 1][..k] == crateTracks[..k];
        k := k + 1;
      }
      assert crateTracks[..k] == crateTracks;
      forall s: Snapshot {
        JoinMembership(library, trackLocations, crateTracks, crateId, s);
      }
    }

    /** `getCrates`: for each crates row, `crates[name] = []` and then its joined rows. */
    method GetCrates() returns (d: seq<CrateEntry>)
      ensures d == CrateMapping(Contents())
      ensures Valid() ==> Keys(d) == CrateNames(crates)
      ensures Valid() ==> forall i :: 0 <= i < |crates| ==>
        d[i] == CrateEntry(crates[i].name, Join(library, trackLocations, crateTracks, crates[i].id))
    {
      d := [];
      var i := 0;
      while i < |crates|
        invariant 0 <= i <= |crates|
        invariant d == MappingOf(Contents(), crates[..i])
      {
        var rows := JoinCrate(crates[i].id);
        d := Put(d, crates[i].name, rows);
        assert crates[..i + 1][..i] == crates[..i];
        i := i + 1;
      }
      assert crates[..i] == crates;
      if Valid() {
        MappingEntries(Contents(), crates);
      }
    }

    /** `filenamesfromCrates`: the location of every joined row, crate after crate. */
    method FilenamesFromCrates() returns (files: seq<Value>)
      ensures files == Filenames(Contents())
      ensures Valid() ==> files == AllLocations(CrateMapping(Contents()))
    {
      files := [];
      var i := 0;
      while i < |crates|
        invariant 0 <= i <= |crates|
        invariant files == FilenamesOf(Contents(), crates[..i])
      {
        var rows := JoinCrate(crates[i].id);
        ghost var before := files;
        var k := 0;
        while k < |rows|
          invariant 0 <= k <= |rows|
          invariant files == before + Locations(rows[..k])
        {
          files := files + [rows[k].location];
          assert rows[..k + 1][..k] == rows[..k];
          k := k + 1;
        }
        assert rows[..k] == rows;
        assert crates[..i + 1][..i] == crates[..i];
        i := i + 1;
      }
      assert crates[..i] == crates;
      if Valid() {
        FilenamesAreMappingLocations(Contents(), crates);
      }
    }

    /** The paths put in the tar archive: every referenced path once (`list(set(...))`). */
    method TarPaths() returns (paths: seq<Value>)
      ensures NoDuplicates(paths)
      ensures forall p :: p in paths <==> p in Filenames(Contents())
    {
      var files := FilenamesFromCrates();
      paths := UniquePaths(files);
    }

    /** `SELECT id FROM crates WHERE name = ?` followed by `fetchone()`. */
    method CrateId(name: string) returns (id: Option<int>)
      ensures id == CrateIdOf(crates, name)
      ensures id.None? <==> forall i :: 0 <= i < |crates| ==> crates[i].name != name
    {
      id := None;
      var i := 0;
      while i < |crates| && id.None?
        invariant 0 <= i <= |crates|
        invariant CrateIdOf(crates, name) == if id.Some? then id else CrateIdOf(crates[i..], name)
      {
        if crates[i].name == name {
          id := Some(crates[i].id);
        } else {
          assert crates[i..][1..] == crates[i + 1..];
        }
        i := i + 1;
      }
      CrateIdOfSpec(crates, name);
    }

    /** `INSERT INTO crates(name)`, a UNIQUE violation reported as "already created". */
    method CreateCrate(name: string) returns (log: seq<Event>)
      modifies this
      ensures Progress(Contents(), log) == InsertCrate(old(Contents()), name)
    {
      var existing := CrateId(name);
      if existing.Some? {
        log := [AlreadyCreated(name)];
      } else {
        crates := crates + [CrateRow(NextCrateId(crates), name)];
        log := [Created(name)];
      }
    }

    /**
     * "Adding a Track" followed by `INSERT INTO crate_tracks(crate_id, track_id)`, a UNIQUE
     * violation reported as "already in crate".
     */
    method AddLink(crateId: int, trackId: int) returns (log: seq<Event>)
      modifies this
      ensures Progress(Contents(), log) == InsertLink(old(Contents()), crateId, trackId)
    {
      log := [Adding];
      if Link(crateId, trackId) in crateTracks {
        log := log + [AlreadyInCrate];
      } else {
        crateTracks := crateTracks + [Link(crateId, trackId)];
      }
    }

    /** The loop over a crate's children: each child the matcher resolves is linked to the crate. */
    method ImportTrackElements(crateId: int, children: seq<Element>) returns (log: seq<Event>)
      modifies this
      ensures Progress(Contents(), log) == ImportTracks(old(Contents()), crateId, children)
    {
      ghost var t := Contents();
      log := [];
      var j := 0;
      while j < |children|
        invariant 0 <= j <= |children|
        invariant Progress(Contents(), log) == ImportTracks(t, crateId, children[..j])
      {
        assert children[..j + 1][..j] == children[..j];
        ImportTracksStep(t, crateId, children[..j + 1]);
        ImportTracksFrame(t, crateId, children[..j]);
        var track := FindTrack(library, trackLocations, TrackDescriptor(children[j]));
        if track.Some? {
          var added := AddLink(crateId, track.value.id);
          log := log + added;
        }
        j := j + 1;
      }
      assert children[..j] == children;
    }

    /** The body of the loop over the root's children, for one `crate` element. */
    method ImportCrateElement(e: Element) returns (log: seq<Event>)
      modifies this
      ensures Progress(Contents(), log) == ImportCrate(old(Contents()), e)
    {
      var name := GetAttribute(e, "name");
      log := CreateCrate(name);
      var crate := CrateId(name);
      var added := ImportTrackElements(crate.value, e.children);
      log := log + added;
    }

    /** The loop over the root's children; it raises at the first child that is not a `crate`. */
    method ImportCrateElements(elems: seq<Element>) returns (log: seq<Event>, error: Option<ImportError>)
      modifies this
      ensures Imported(Contents(), log, error) == ImportCrates(old(Contents()), elems)
    {
      ghost var t := Contents();
      log := [];
      error := None;
      var i := 0;
      while i < |elems|
        invariant 0 <= i <= |elems|
        invariant ImportCrates(t, elems[..i]) == Imported(Contents(), log, None)
      {
        assert elems[..i + 1][..i] == elems[..i];
        if elems[i].tag != "crate" {
          error := Some(NotACrate);
          ErrorPersists(t, elems, i + 1);
          return;
        }
        var added := ImportCrateElement(elems[i]);
        log := log + added;
        ImportCratesStep(t, elems[..i + 1]);
        i := i + 1;
      }
      assert elems[..i] == elems;
    }

    /**
     * `importCrateXML`: the store, the printed messages and the raised exception are those of
     * the walk `ImportDocument`; the schema's constraints are kept.
     */
    method ImportCrateXml(root: Element) returns (log: seq<Event>, error: Option<ImportError>)
      modifies this
      ensures Imported(Contents(), log, error) == ImportDocument(old(Contents()), root)
      ensures old(Valid()) ==> Valid()
    {
      ImportDocumentEffect(Contents(), root);
      if root.tag != "crates" {
        log := [];
        error := Some(NotCratesFile);
      } else {
        log, error := ImportCrateElements(root.children);
      }
    }
  }
}
