/**
 * Export followed by import, in two forms. The document `generateCrateXML` builds from
 * `getCrates` of a store, imported back into that same store, changes nothing and creates no
 * crate. Imported into the store with the same library and track_locations but no crates and
 * no links, it re-creates every crate, with the same names in the same order, and brings back
 * exactly the links the export's join keeps.
 *
 * The matcher reads a track back by its stored location path first, so both statements need
 * the paths to name the tracks: every track_locations row a library row points to has a
 * non-NULL path (a NULL one is exported as the text "None"), and no two library rows share
 * a path.
 */
module RoundTrip {
  import opened Schema
  import opened Matcher
  import opened Queries
  import opened CrateXml
  import opened Import

  /** Stored paths identify library tracks. */
  ghost predicate LocationsIdentifyTracks(t: Tables)
  {
    && (forall i :: 0 <= i < |t.library| && t.library[i].locationId in t.trackLocations ==>
          t.trackLocations[t.library[i].locationId].location.Text?)
    && (forall i, j :: 0 <= i < |t.library| && 0 <= j < |t.library|
          && t.library[i].locationId in t.trackLocations && t.library[j].locationId in t.trackLocations
          && t.trackLocations[t.library[i].locationId].location == t.trackLocations[t.library[j].locationId].location
          ==> i == j)
  }

  /** An exported track is matched back, by its path, to the library row of the link it was joined from. */
  lemma SnapshotMatch(t: Tables, l: Link, s: Snapshot)
    requires LocationsIdentifyTracks(t)
    requires Resolve(t.library, t.trackLocations, l) == [s]
    ensures TrackById(t.library, l.trackId).Some?
    ensures FindTrack(t.library, t.trackLocations, TrackDescriptor(TrackElement(s))) == TrackById(t.library, l.trackId)
  {
    var row := TrackById(t.library, l.trackId).value;
    var idx :| 0 <= idx < |t.library| && t.library[idx] == row;
    var d := TrackDescriptor(TrackElement(s));
    assert Matches(t.trackLocations, d, ByLocation, t.library[idx]);
    LocationWinsOverArtistTitle(t.library, t.trackLocations, d, idx);
  }

  /** An exported track of a crate is matched back to the very track it was linked to. */
  lemma SnapshotLinked(t: Tables, crateId: int, s: Snapshot)
    requires LocationsIdentifyTracks(t)
    requires s in Join(t.library, t.trackLocations, t.crateTracks, crateId)
    ensures LinkPresent(t, crateId, TrackElement(s))
  {
    JoinMembership(t.library, t.trackLocations, t.crateTracks, crateId, s);
    var k :| 0 <= k < |t.crateTracks| && t.crateTracks[k].crateId == crateId
      && Resolve(t.library, t.trackLocations, t.crateTracks[k]) == [s];
    SnapshotMatch(t, t.crateTracks[k], s);
    assert Link(crateId, TrackById(t.library, t.crateTracks[k].trackId).value.id) == t.crateTracks[k];
  }

  /** Every crate element of the exported document is already fully present in the store. */
  lemma ExportedCratesAbsorbed(t: Tables)
    requires Valid(t) && LocationsIdentifyTracks(t)
    ensures forall i :: 0 <= i < |CratesDocument(CrateMapping(t)).children| ==>
      CratesDocument(CrateMapping(t)).children[i].tag == "crate"
      && CrateAbsorbed(t, CratesDocument(CrateMapping(t)).children[i])
  {
    var m := CrateMapping(t);
    var elems := CratesDocument(m).children;
    MappingEntries(t, t.crates);
    forall i | 0 <= i < |elems| ensures elems[i].tag == "crate" && CrateAbsorbed(t, elems[i]) {
      var e := elems[i];
      assert e == CrateElement(m[i]);
      CrateIdOfRow(t.crates, i);
      var id := t.crates[i].id;
      forall j | 0 <= j < |e.children| ensures LinkPresent(t, id, e.children[j]) {
        SnapshotLinked(t, id, m[i].tracks[j]);
      }
    }
  }

  /**
   * Importing the document exported from a store back into that store raises nothing, leaves
   * every table as it was, and reports no crate as created.
   */
  lemma ExportThenImport(t: Tables)
    requires Valid(t) && LocationsIdentifyTracks(t)
    ensures var r := ImportDocument(t, CratesDocument(CrateMapping(t)));
      r.tables == t && r.error.None? && forall ev :: ev in r.log ==> !ev.Created?
    ensures AddsAnswered(ImportDocument(t, CratesDocument(CrateMapping(t))).log)
  {
    ExportedCratesAbsorbed(t);
    AbsorbedNoOp(t, CratesDocument(CrateMapping(t)).children);
  }

  /** The store with the same library and track_locations but no crates and no links. */
  function Emptied(t: Tables): Tables
  {
    t.(crates := [], crateTracks := [])
  }

  /** Crate row i of t is linked to the track, by a link the export's join keeps. */
  ghost predicate Exported(t: Tables, i: int, trackId: int)
  {
    && 0 <= i < |t.crates|
    && exists k :: 0 <= k < |t.crateTracks| && t.crateTracks[k] == Link(t.crates[i].id, trackId)
         && Resolve(t.library, t.trackLocations, t.crateTracks[k]) != []
  }

  /** The result of importing a store's export into the emptied store. */
  function Reimported(t: Tables): Imported
  {
    ImportDocument(Emptied(t), CratesDocument(CrateMapping(t)))
  }

  /** Crate element i of the export is crate row i, named by it, with a track per row of its join. */
  lemma ExportedElement(t: Tables, i: int)
    requires Valid(t) && 0 <= i < |t.crates|
    ensures |CratesDocument(CrateMapping(t)).children| == |t.crates|
    ensures CratesDocument(CrateMapping(t)).children[i]
      == CrateElement(CrateEntry(t.crates[i].name, Join(t.library, t.trackLocations, t.crateTracks, t.crates[i].id)))
  {
    MappingEntries(t, t.crates);
  }

  /** The export's children are all `crate` elements, named after the crate rows in order. */
  lemma ExportedNames(t: Tables)
    requires Valid(t)
    ensures forall i :: 0 <= i < |CratesDocument(CrateMapping(t)).children| ==>
      CratesDocument(CrateMapping(t)).children[i].tag == "crate"
    ensures ElementNames(CratesDocument(CrateMapping(t)).children) == CrateNames(t.crates)
  {
    MappingEntries(t, t.crates);
  }

  /** The emptied store satisfies the schema's constraints when the original does. */
  lemma EmptiedValid(t: Tables)
    requires Valid(t)
    ensures Valid(Emptied(t))
  {
    assert Emptied(t).library == t.library;
  }

  /** The crate elements of the export have distinct names when the store's crates do. */
  lemma ExportedNamesDistinct(t: Tables)
    requires Valid(t)
    ensures forall i, j :: 0 <= i < j < |CratesDocument(CrateMapping(t)).children| ==>
      GetAttribute(CratesDocument(CrateMapping(t)).children[i], "name")
        != GetAttribute(CratesDocument(CrateMapping(t)).children[j], "name")
  {
    var elems := CratesDocument(CrateMapping(t)).children;
    ExportedNames(t);
    CrateNamesDistinct(t.crates);
    forall i, j | 0 <= i < j < |elems|
      ensures GetAttribute(elems[i], "name") != GetAttribute(elems[j], "name")
    {
      assert ElementNames(elems)[i] == CrateNames(t.crates)[i];
      assert ElementNames(elems)[j] == CrateNames(t.crates)[j];
    }
  }

  /** The re-import leaves library and track_locations alone. */
  lemma ReimportedFrame(t: Tables)
    ensures Reimported(t).tables.library == t.library && Reimported(t).tables.trackLocations == t.trackLocations
  {
    ImportDocumentEffect(Emptied(t), CratesDocument(CrateMapping(t)));
  }

  /**
   * The re-import raises nothing, keeps the schema's constraints, leaves library and
   * track_locations alone, and re-creates the crates with the same names in the same order.
   */
  lemma ReimportedCrates(t: Tables)
    requires Valid(t)
    ensures Reimported(t).error.None? && Valid(Reimported(t).tables)
    ensures Reimported(t).tables.library == t.library && Reimported(t).tables.trackLocations == t.trackLocations
    ensures CrateNames(Reimported(t).tables.crates) == CrateNames(t.crates)
    ensures |Reimported(t).tables.crates| == |t.crates|
  {
    var doc := CratesDocument(CrateMapping(t));
    EmptiedValid(t);
    ExportedNames(t);
    ImportDocumentEffect(Emptied(t), doc);
    ReimportedNames(t);
  }

  /** The re-import appends one crate per crate element of the export, named as in the store. */
  lemma ReimportedNames(t: Tables)
    requires Valid(t)
    ensures CrateNames(Reimported(t).tables.crates) == CrateNames(t.crates)
  {
    var doc := CratesDocument(CrateMapping(t));
    ExportedNames(t);
    ExportedNamesDistinct(t);
    NamesIntoEmpty(Emptied(t), doc.children);
    assert Reimported(t) == ImportCrates(Emptied(t), doc.children);
  }

  /** Crate elements with distinct names, imported into a store with no crates, create exactly their names in order. */
  lemma NamesIntoEmpty(e: Tables, elems: seq<Element>)
    requires e.crates == []
    requires forall i :: 0 <= i < |elems| ==> elems[i].tag == "crate"
    requires forall i, j :: 0 <= i < j < |elems| ==> GetAttribute(elems[i], "name") != GetAttribute(elems[j], "name")
    ensures CrateNames(ImportCrates(e, elems).tables.crates) == ElementNames(elems)
  {
    ImportCratesNames(e, elems);
    assert CrateNames(e.crates) == [];
  }

  /** After the re-import, crate element i of the export has all its effects in the store. */
  lemma ReimportedAbsorbs(t: Tables, i: int)
    requires Valid(t) && 0 <= i < |t.crates|
    ensures |CratesDocument(CrateMapping(t)).children| == |t.crates|
    ensures CrateAbsorbed(Reimported(t).tables, CratesDocument(CrateMapping(t)).children[i])
  {
    var elems := CratesDocument(CrateMapping(t)).children;
    ExportedNames(t);
    ExportedElement(t, i);
    ImportAbsorbs(Emptied(t), elems);
  }

  /** Crate row i of the re-imported store carries crate i's name, and the lookup by that name finds it. */
  lemma ReimportedRow(t: Tables, i: int)
    requires Valid(t) && 0 <= i < |t.crates|
    ensures |Reimported(t).tables.crates| == |t.crates|
    ensures Reimported(t).tables.crates[i].name == t.crates[i].name
    ensures CrateIdOf(Reimported(t).tables.crates, t.crates[i].name) == Some(Reimported(t).tables.crates[i].id)
  {
    ReimportedCrates(t);
    var u := Reimported(t).tables;
    assert CrateNames(u.crates)[i] == CrateNames(t.crates)[i];
    CrateIdOfRow(u.crates, i);
  }

  /** A kept link of crate i is exported as a track child that the matcher resolves back to the link's track. */
  lemma KeptLinkChild(t: Tables, i: int, trackId: int) returns (j: int)
    requires LocationsIdentifyTracks(t) && Exported(t, i, trackId)
    ensures 0 <= j < |Join(t.library, t.trackLocations, t.crateTracks, t.crates[i].id)|
    ensures FindTrack(t.library, t.trackLocations,
      TrackDescriptor(TrackElement(Join(t.library, t.trackLocations, t.crateTracks, t.crates[i].id)[j])))
      == TrackById(t.library, trackId)
    ensures TrackById(t.library, trackId).Some?
  {
    var k :| 0 <= k < |t.crateTracks| && t.crateTracks[k] == Link(t.crates[i].id, trackId)
      && Resolve(t.library, t.trackLocations, t.crateTracks[k]) != [];
    var s := Resolve(t.library, t.trackLocations, t.crateTracks[k])[0];
    var rows := Join(t.library, t.trackLocations, t.crateTracks, t.crates[i].id);
    JoinMembership(t.library, t.trackLocations, t.crateTracks, t.crates[i].id, s);
    j :| 0 <= j < |rows| && rows[j] == s;
    SnapshotMatch(t, t.crateTracks[k], s);
  }

  /** A kept link of crate i comes back as a link of the re-created crate i. */
  lemma ExportedLinkRestored(t: Tables, i: int, trackId: int)
    requires Valid(t) && LocationsIdentifyTracks(t)
    requires Exported(t, i, trackId)
    ensures |Reimported(t).tables.crates| == |t.crates|
    ensures Link(Reimported(t).tables.crates[i].id, trackId) in Reimported(t).tables.crateTracks
  {
    var elems := CratesDocument(CrateMapping(t)).children;
    var u := Reimported(t).tables;
    ReimportedRow(t, i);
    ReimportedFrame(t);
    ReimportedAbsorbs(t, i);
    ExportedElement(t, i);
    var j := KeptLinkChild(t, i, trackId);
    assert LinkPresent(u, u.crates[i].id, elems[i].children[j]);
  }

  /** Every link of the re-imported store is a kept link of the original crate at the same row. */
  lemma ImportedLinkExported(t: Tables, l: Link)
    requires Valid(t) && LocationsIdentifyTracks(t)
    requires l in Reimported(t).tables.crateTracks
    ensures |Reimported(t).tables.crates| == |t.crates|
    ensures exists i, trackId :: Exported(t, i, trackId) && l == Link(Reimported(t).tables.crates[i].id, trackId)
  {
    var elems := CratesDocument(CrateMapping(t)).children;
    var u := Reimported(t).tables;
    ReimportedCrates(t);
    ExportedNames(t);
    ImportCratesLinksOrigin(Emptied(t), elems, l);
    var i :| 0 <= i < |elems| && LinkFrom(Emptied(t), u, elems[i], l);
    ExportedElement(t, i);
    ReimportedRow(t, i);
    var j :| 0 <= j < |elems[i].children| && FoundAt(Emptied(t), elems[i].children[j], l.trackId);
    var rows := Join(t.library, t.trackLocations, t.crateTracks, t.crates[i].id);
    var s := rows[j];
    JoinMembership(t.library, t.trackLocations, t.crateTracks, t.crates[i].id, s);
    var k :| 0 <= k < |t.crateTracks| && t.crateTracks[k].crateId == t.crates[i].id
      && Resolve(t.library, t.trackLocations, t.crateTracks[k]) == [s];
    SnapshotMatch(t, t.crateTracks[k], s);
    assert t.crateTracks[k] == Link(t.crates[i].id, l.trackId);
    assert Exported(t, i, l.trackId);
  }

  /**
   * Importing a store's export into a store with the same library and track_locations but no
   * crates and no links raises nothing; it re-creates every crate once, with the same names in
   * the same order; every link the export's join keeps comes back once, between the re-created
   * crate and the same track; and no other link is made.
   */
  lemma ExportIntoEmptyStore(t: Tables)
    requires Valid(t) && LocationsIdentifyTracks(t)
    ensures Reimported(t).error.None? && Valid(Reimported(t).tables)
    ensures Reimported(t).tables.library == t.library && Reimported(t).tables.trackLocations == t.trackLocations
    ensures CrateNames(Reimported(t).tables.crates) == CrateNames(t.crates)
    ensures |Reimported(t).tables.crates| == |t.crates|
    ensures forall i, trackId :: Exported(t, i, trackId) ==>
      Link(Reimported(t).tables.crates[i].id, trackId) in Reimported(t).tables.crateTracks
    ensures forall l :: l in Reimported(t).tables.crateTracks ==>
      exists i, trackId :: Exported(t, i, trackId) && l == Link(Reimported(t).tables.crates[i].id, trackId)
  {
    ReimportedCrates(t);
    forall i, trackId | Exported(t, i, trackId)
      ensures Link(Reimported(t).tables.crates[i].id, trackId) in Reimported(t).tables.crateTracks
    {
      ExportedLinkRestored(t, i, trackId);
    }
    forall l | l in Reimported(t).tables.crateTracks
      ensures exists i, trackId :: Exported(t, i, trackId) && l == Link(Reimported(t).tables.crates[i].id, trackId)
    {
      ImportedLinkExported(t, l);
    }
  }
}
