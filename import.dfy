/**
 * The import reader (`importCrateXML`) as specification functions over the tables.
 *
 * The walk checks the root tag, then for each child of the root checks that it is a `crate`,
 * inserts the crate name (a UNIQUE violation means "already created"), looks the crate id up
 * by name, and for each child of the crate resolves the child through the track matcher and
 * inserts the (crate, track) pair (a UNIQUE violation means "already in crate"). Unmatched
 * children are skipped. The tag of a crate's children is never checked: the source re-checks
 * the crate's own tag at that point.
 *
 * The walk is defined on the last child first, so that `ImportCrates(t, elems[..i])` is the
 * state after the first i children.
 */
module Import {
  import opened Schema
  import opened Matcher
  import opened Queries
  import opened CrateXml

  /** The informational messages the walk prints, in order. */
  datatype Event = Created(name: string) | AlreadyCreated(name: string) | Adding | AlreadyInCrate

  /** The two exceptions the walk raises. */
  datatype ImportError = NotCratesFile | NotACrate

  datatype Progress = Progress(tables: Tables, log: seq<Event>)

  /** The store when the walk ends, what it printed, and the exception that ended it, if any. */
  datatype Imported = Imported(tables: Tables, log: seq<Event>, error: Option<ImportError>)

  /** `u` is `t` with rows appended to crates and crate_tracks only. */
  ghost predicate Extends(t: Tables, u: Tables)
  {
    && t.crates <= u.crates
    && t.crateTracks <= u.crateTracks
    && u.library == t.library
    && u.trackLocations == t.trackLocations
  }

  /** `INSERT INTO crates(name)`, with the UNIQUE violation turned into "already created". */
  function InsertCrate(t: Tables, name: string): (r: Progress)
    ensures CrateIdOf(r.tables.crates, name).Some?
  {
    if CrateIdOf(t.crates, name).Some? then Progress(t, [AlreadyCreated(name)])
    else
      var row := CrateRow(NextCrateId(t.crates), name);
      CrateIdOfAppend(t.crates, [row], name);
      Progress(t.(crates := t.crates + [row]), [Created(name)])
  }

  /**
   * After the insert a crate with the name exists: an existing name is left alone and reported
   * as already created, a new one is appended once, and names stay unique.
   */
  lemma InsertCrateEffect(t: Tables, name: string)
    ensures Extends(t, InsertCrate(t, name).tables) && InsertCrate(t, name).tables.crateTracks == t.crateTracks
    ensures CrateIdOf(t.crates, name).Some? ==> InsertCrate(t, name) == Progress(t, [AlreadyCreated(name)])
    ensures CrateIdOf(t.crates, name).None? ==>
      |InsertCrate(t, name).tables.crates| == |t.crates| + 1 && InsertCrate(t, name).log == [Created(name)]
    ensures CratesValid(t.crates) ==> CratesValid(InsertCrate(t, name).tables.crates)
  {
    CrateIdOfSpec(t.crates, name);
  }

  /**
   * `INSERT INTO crate_tracks(crate_id, track_id)`, with the UNIQUE violation turned into
   * "already in crate". "Adding a Track" is printed before the insert is attempted.
   */
  function InsertLink(t: Tables, crateId: int, trackId: int): Progress
  {
    var l := Link(crateId, trackId);
    if l in t.crateTracks then Progress(t, [Adding, AlreadyInCrate])
    else Progress(t.(crateTracks := t.crateTracks + [l]), [Adding])
  }

  /** After the insert the pair is linked, exactly once, and nothing else is added. */
  lemma InsertLinkEffect(t: Tables, crateId: int, trackId: int)
    ensures Extends(t, InsertLink(t, crateId, trackId).tables)
    ensures InsertLink(t, crateId, trackId).tables.crates == t.crates
    ensures forall l :: l in InsertLink(t, crateId, trackId).tables.crateTracks <==>
      l in t.crateTracks || l == Link(crateId, trackId)
    ensures LinksValid(t.crateTracks) ==> LinksValid(InsertLink(t, crateId, trackId).tables.crateTracks)
    ensures Link(crateId, trackId) in t.crateTracks ==>
      InsertLink(t, crateId, trackId) == Progress(t, [Adding, AlreadyInCrate])
  {
  }

  /** Whether some child of a crate element resolves to the given library track. */
  ghost predicate Found(t: Tables, children: seq<Element>, trackId: int)
  {
    exists j :: 0 <= j < |children| && FoundAt(t, children[j], trackId)
  }

  ghost predicate FoundAt(t: Tables, child: Element, trackId: int)
  {
    var r := FindTrack(t.library, t.trackLocations, TrackDescriptor(child));
    r.Some? && r.value.id == trackId
  }

  /** The loop over a crate's children: each child the matcher resolves is linked to the crate. */
  function ImportTracks(t: Tables, crateId: int, children: seq<Element>): Progress
  {
    if children == [] then Progress(t, [])
    else
      var n := |children| - 1;
      var p := ImportTracks(t, crateId, children[..n]);
      match FindTrack(p.tables.library, p.tables.trackLocations, TrackDescriptor(children[n]))
      case None => p
      case Some(row) =>
        var q := InsertLink(p.tables, crateId, row.id);
        Progress(q.tables, p.log + q.log)
  }

  /** Importing a crate's children only appends links; crates, library and track_locations stay. */
  lemma {:induction false} ImportTracksFrame(t: Tables, crateId: int, children: seq<Element>)
    ensures Extends(t, ImportTracks(t, crateId, children).tables)
    ensures ImportTracks(t, crateId, children).tables.crates == t.crates
  {
    if children != [] {
      var n := |children| - 1;
      ImportTracksFrame(t, crateId, children[..n]);
      var p := ImportTracks(t, crateId, children[..n]);
      var found := FindTrack(t.library, t.trackLocations, TrackDescriptor(children[n]));
      if found.Some? {
        InsertLinkEffect(p.tables, crateId, found.value.id);
      }
    }
  }

  /** One more child: it is resolved against the unchanged library and, if found, linked. */
  lemma ImportTracksStep(t: Tables, crateId: int, children: seq<Element>)
    requires children != []
    ensures var p := ImportTracks(t, crateId, children[..|children| - 1]);
      var found := FindTrack(t.library, t.trackLocations, TrackDescriptor(children[|children| - 1]));
      ImportTracks(t, crateId, children)
        == if found.None? then p
           else Progress(InsertLink(p.tables, crateId, found.value.id).tables,
                         p.log + InsertLink(p.tables, crateId, found.value.id).log)
  {
    ImportTracksFrame(t, crateId, children[..|children| - 1]);
  }

  /** A child resolves to the track exactly when an earlier child or the last one does. */
  lemma FoundStep(t: Tables, children: seq<Element>, trackId: int)
    requires children != []
    ensures Found(t, children, trackId) <==>
      Found(t, children[..|children| - 1], trackId) || FoundAt(t, children[|children| - 1], trackId)
  {
    var n := |children| - 1;
    var front := children[..n];
    if Found(t, children, trackId) {
      var j :| 0 <= j < |children| && FoundAt(t, children[j], trackId);
      if j < n {
        assert front[j] == children[j];
      }
    }
    if Found(t, front, trackId) {
      var j :| 0 <= j < |front| && FoundAt(t, front[j], trackId);
      assert children[j] == front[j];
    }
  }

  /** One more child: the links after it are those before it, plus the pair it resolves to, if any. */
  lemma TracksLinkStep(t: Tables, crateId: int, children: seq<Element>)
    requires children != []
    ensures var p := ImportTracks(t, crateId, children[..|children| - 1]);
      var q := ImportTracks(t, crateId, children).tables.crateTracks;
      var found := FindTrack(p.tables.library, p.tables.trackLocations, TrackDescriptor(children[|children| - 1]));
      && (forall l :: l in q <==> l in p.tables.crateTracks || (found.Some? && l == Link(crateId, found.value.id)))
      && (LinksValid(p.tables.crateTracks) ==> LinksValid(q))
  {
    var n := |children| - 1;
    var p := ImportTracks(t, crateId, children[..n]);
    var found := FindTrack(p.tables.library, p.tables.trackLocations, TrackDescriptor(children[n]));
    if found.Some? {
      InsertLinkEffect(p.tables, crateId, found.value.id);
    }
  }

  /**
   * After a crate's children are imported, the links are the old links plus one (crate, track)
   * pair per child the matcher resolves; an unresolved child adds nothing, and no pair is in
   * crate_tracks twice.
   */
  lemma {:induction false} ImportTracksLinks(t: Tables, crateId: int, children: seq<Element>)
    ensures forall l :: l in ImportTracks(t, crateId, children).tables.crateTracks <==>
      l in t.crateTracks || (l.crateId == crateId && Found(t, children, l.trackId))
    ensures LinksValid(t.crateTracks) ==> LinksValid(ImportTracks(t, crateId, children).tables.crateTracks)
  {
    if children != [] {
      var n := |children| - 1;
      ImportTracksLinks(t, crateId, children[..n]);
      ImportTracksFrame(t, crateId, children[..n]);
      TracksLinkStep(t, crateId, children);
      forall l: Link
        ensures Found(t, children, l.trackId) <==>
          Found(t, children[..n], l.trackId) || FoundAt(t, children[n], l.trackId)
      {
        FoundStep(t, children, l.trackId);
      }
    }
  }

  /** One `crate` element: create the crate if absent, look its id up, import its children. */
  function ImportCrate(t: Tables, e: Element): Progress
  {
    var name := GetAttribute(e, "name");
    var p := InsertCrate(t, name);
    var q := ImportTracks(p.tables, CrateIdOf(p.tables.crates, name).value, e.children);
    Progress(q.tables, p.log + q.log)
  }

  /** A crate element only appends rows, and keeps crate names and links unique. */
  lemma ImportCrateEffect(t: Tables, e: Element)
    ensures Extends(t, ImportCrate(t, e).tables)
    ensures Valid(t) ==> Valid(ImportCrate(t, e).tables)
  {
    var name := GetAttribute(e, "name");
    var p := InsertCrate(t, name);
    InsertCrateEffect(t, name);
    ImportTracksFrame(p.tables, CrateIdOf(p.tables.crates, name).value, e.children);
    ImportTracksLinks(p.tables, CrateIdOf(p.tables.crates, name).value, e.children);
  }

  /** The loop over the children of the root; it stops at the first child that is not a `crate`. */
  function ImportCrates(t: Tables, elems: seq<Element>): Imported
  {
    if elems == [] then Imported(t, [], None)
    else
      var n := |elems| - 1;
      var r := ImportCrates(t, elems[..n]);
      if r.error.Some? then r
      else if elems[n].tag != "crate" then Imported(r.tables, r.log, Some(NotACrate))
      else
        var p := ImportCrate(r.tables, elems[n]);
        Imported(p.tables, r.log + p.log, None)
  }

  /** The walk only appends rows, and keeps crate names and links unique. */
  lemma {:induction false} ImportCratesEffect(t: Tables, elems: seq<Element>)
    ensures Extends(t, ImportCrates(t, elems).tables)
    ensures Valid(t) ==> Valid(ImportCrates(t, elems).tables)
  {
    if elems != [] {
      var n := |elems| - 1;
      ImportCratesEffect(t, elems[..n]);
      ImportCrateEffect(ImportCrates(t, elems[..n]).tables, elems[n]);
    }
  }

  /** One more `crate` child after a walk that has not raised imports that crate. */
  lemma ImportCratesStep(t: Tables, elems: seq<Element>)
    requires elems != [] && elems[|elems| - 1].tag == "crate"
    requires ImportCrates(t, elems[..|elems| - 1]).error.None?
    ensures var r := ImportCrates(t, elems[..|elems| - 1]);
      ImportCrates(t, elems) == Imported(ImportCrate(r.tables, elems[|elems| - 1]).tables,
                                         r.log + ImportCrate(r.tables, elems[|elems| - 1]).log, None)
  {
  }

  /** The walk over the root's children raises exactly when one of them is not a `crate`. */
  lemma {:induction false} ImportCratesRaises(t: Tables, elems: seq<Element>)
    ensures ImportCrates(t, elems).error.None? <==> forall i :: 0 <= i < |elems| ==> elems[i].tag == "crate"
    ensures ImportCrates(t, elems).error.Some? ==> ImportCrates(t, elems).error == Some(NotACrate)
  {
    if elems != [] {
      var n := |elems| - 1;
      ImportCratesRaises(t, elems[..n]);
      assert forall i :: 0 <= i < n ==> elems[..n][i] == elems[i];
    }
  }

  /**
   * `importCrateXML`. A root other than `crates` raises before anything is inserted; otherwise
   * the crates are walked.
   */
  function ImportDocument(t: Tables, root: Element): (r: Imported)
    ensures root.tag != "crates" ==> r.tables == t && r.log == [] && r.error == Some(NotCratesFile)
  {
    if root.tag != "crates" then Imported(t, [], Some(NotCratesFile))
    else ImportCrates(t, root.children)
  }

  /**
   * Only crates and crate_tracks ever change, and only by appending rows; library and
   * track_locations (all the matcher reads) are never modified; the schema's uniqueness holds
   * afterwards; and the walk raises exactly on a bad root or a child of the root that is not
   * a `crate`.
   */
  lemma ImportDocumentEffect(t: Tables, root: Element)
    ensures Extends(t, ImportDocument(t, root).tables)
    ensures Valid(t) ==> Valid(ImportDocument(t, root).tables)
    ensures ImportDocument(t, root).error.None? <==>
      root.tag == "crates" && forall i :: 0 <= i < |root.children| ==> root.children[i].tag == "crate"
  {
    if root.tag == "crates" {
      ImportCratesEffect(t, root.children);
      ImportCratesRaises(t, root.children);
    }
  }

  /** Once the walk has raised, later children change nothing. */
  lemma {:induction false} ErrorPersists(t: Tables, elems: seq<Element>, k: nat)
    requires k <= |elems|
    requires ImportCrates(t, elems[..k]).error.Some?
    ensures ImportCrates(t, elems) == ImportCrates(t, elems[..k])
  {
    if k < |elems| {
      var n := |elems| - 1;
      assert elems[..n][..k] == elems[..k];
      ErrorPersists(t, elems[..n], k);
    } else {
      assert elems[..k] == elems;
    }
  }

  /**
   * A child of the root that is not a `crate` raises, and the crates and links inserted for
   * the children before it stay in the store.
   */
  lemma StopsAtBadCrate(t: Tables, elems: seq<Element>, k: nat)
    requires k < |elems| && elems[k].tag != "crate"
    requires forall j :: 0 <= j < k ==> elems[j].tag == "crate"
    ensures ImportCrates(t, elems[..k]).error.None?
    ensures ImportCrates(t, elems)
      == Imported(ImportCrates(t, elems[..k]).tables, ImportCrates(t, elems[..k]).log, Some(NotACrate))
  {
    ImportCratesRaises(t, elems[..k]);
    assert elems[..k + 1][..k] == elems[..k];
    ErrorPersists(t, elems, k + 1);
  }

  /** The number of leading children of the root that are `crate` elements. */
  function GoodPrefix(elems: seq<Element>): (k: nat)
    ensures k <= |elems|
    ensures forall j :: 0 <= j < k ==> elems[j].tag == "crate"
    ensures k < |elems| ==> elems[k].tag != "crate"
  {
    if elems == [] || elems[0].tag != "crate" then 0 else 1 + GoodPrefix(elems[1..])
  }

  /** A crate element whose effects are all in the store: the crate exists and every resolved child is linked. */
  ghost predicate CrateAbsorbed(t: Tables, e: Element)
  {
    var id := CrateIdOf(t.crates, GetAttribute(e, "name"));
    && id.Some?
    && forall j :: 0 <= j < |e.children| ==> LinkPresent(t, id.value, e.children[j])
  }

  ghost predicate LinkPresent(t: Tables, crateId: int, child: Element)
  {
    var r := FindTrack(t.library, t.trackLocations, TrackDescriptor(child));
    r.Some? ==> Link(crateId, r.value.id) in t.crateTracks
  }

  /** Appending rows keeps a crate element's effects in the store. */
  lemma AbsorbedExtends(t: Tables, u: Tables, e: Element)
    requires Extends(t, u) && CrateAbsorbed(t, e)
    ensures CrateAbsorbed(u, e)
  {
    var name := GetAttribute(e, "name");
    assert u.crates == t.crates + u.crates[|t.crates|..];
    CrateIdOfAppend(t.crates, u.crates[|t.crates|..], name);
    assert forall l :: l in t.crateTracks ==> l in u.crateTracks;
  }

  /** After a crate element is imported, all its effects are in the store. */
  lemma ImportCrateAbsorbs(t: Tables, e: Element)
    ensures CrateAbsorbed(ImportCrate(t, e).tables, e)
  {
    var name := GetAttribute(e, "name");
    var p := InsertCrate(t, name);
    var id := CrateIdOf(p.tables.crates, name).value;
    var u := ImportTracks(p.tables, id, e.children).tables;
    ImportTracksFrame(p.tables, id, e.children);
    ImportTracksLinks(p.tables, id, e.children);
    forall j | 0 <= j < |e.children| ensures LinkPresent(u, id, e.children[j]) {
      var found := FindTrack(u.library, u.trackLocations, TrackDescriptor(e.children[j]));
      if found.Some? {
        assert FoundAt(p.tables, e.children[j], found.value.id);
      }
    }
  }

  /** Importing one more crate element keeps the effects of earlier ones and adds its own. */
  lemma AbsorbStep(t: Tables, done: seq<Element>, e: Element)
    requires forall i :: 0 <= i < |done| ==> CrateAbsorbed(t, done[i])
    ensures forall i :: 0 <= i < |done| ==> CrateAbsorbed(ImportCrate(t, e).tables, done[i])
    ensures CrateAbsorbed(ImportCrate(t, e).tables, e)
  {
    var u := ImportCrate(t, e).tables;
    ImportCrateEffect(t, e);
    ImportCrateAbsorbs(t, e);
    forall i | 0 <= i < |done| ensures CrateAbsorbed(u, done[i]) {
      AbsorbedExtends(t, u, done[i]);
    }
  }

  /** After the walk over `crate` children, every one of them has all its effects in the store. */
  lemma {:induction false} ImportAbsorbs(t: Tables, elems: seq<Element>)
    requires forall i :: 0 <= i < |elems| ==> elems[i].tag == "crate"
    ensures forall i :: 0 <= i < |elems| ==> CrateAbsorbed(ImportCrates(t, elems).tables, elems[i])
  {
    if elems != [] {
      var n := |elems| - 1;
      var front := elems[..n];
      assert forall i :: 0 <= i < n ==> front[i] == elems[i];
      ImportAbsorbs(t, front);
      ImportCratesRaises(t, front);
      ImportCratesStep(t, elems);
      AbsorbStep(ImportCrates(t, front).tables, front, elems[n]);
    }
  }

  /** Every "Adding a Track" is followed at once by "Track already in crate". */
  ghost predicate AddsAnswered(log: seq<Event>)
  {
    forall k :: 0 <= k < |log| && log[k] == Adding ==> k + 1 < |log| && log[k + 1] == AlreadyInCrate
  }

  lemma AnsweredConcat(a: seq<Event>, b: seq<Event>)
    requires AddsAnswered(a) && AddsAnswered(b)
    ensures AddsAnswered(a + b)
  {
    forall k | 0 <= k < |a + b| && (a + b)[k] == Adding
      ensures k + 1 < |a + b| && (a + b)[k + 1] == AlreadyInCrate
    {
      if k < |a| {
        assert a[k] == Adding;
      } else {
        assert b[k - |a|] == Adding;
      }
    }
  }

  /** Re-inserting links that are all present changes nothing and creates nothing. */
  lemma {:induction false} TracksNoOp(t: Tables, crateId: int, children: seq<Element>)
    requires forall j :: 0 <= j < |children| ==> LinkPresent(t, crateId, children[j])
    ensures ImportTracks(t, crateId, children).tables == t
    ensures AddsAnswered(ImportTracks(t, crateId, children).log)
  {
    if children != [] {
      var n := |children| - 1;
      assert forall j :: 0 <= j < n ==> children[..n][j] == children[j];
      TracksNoOp(t, crateId, children[..n]);
      var p := ImportTracks(t, crateId, children[..n]);
      var found := FindTrack(t.library, t.trackLocations, TrackDescriptor(children[n]));
      if found.Some? {
        InsertLinkEffect(t, crateId, found.value.id);
        AnsweredConcat(p.log, [Adding, AlreadyInCrate]);
      }
    }
  }

  /** Importing a crate element whose effects are all in the store changes nothing and creates nothing. */
  lemma CrateNoOp(t: Tables, e: Element)
    requires CrateAbsorbed(t, e)
    ensures ImportCrate(t, e).tables == t
    ensures forall ev :: ev in ImportCrate(t, e).log ==> !ev.Created?
    ensures AddsAnswered(ImportCrate(t, e).log)
  {
    var name := GetAttribute(e, "name");
    InsertCrateEffect(t, name);
    TracksNoOp(t, CrateIdOf(t.crates, name).value, e.children);
    TracksLog(t, CrateIdOf(t.crates, name).value, e.children);
    AnsweredConcat([AlreadyCreated(name)], ImportTracks(t, CrateIdOf(t.crates, name).value, e.children).log);
  }

  /** Importing a crate's children prints only "Adding a Track" and "Track already in crate". */
  lemma {:induction false} TracksLog(t: Tables, crateId: int, children: seq<Element>)
    ensures forall ev :: ev in ImportTracks(t, crateId, children).log ==> ev == Adding || ev == AlreadyInCrate
  {
    if children != [] {
      TracksLog(t, crateId, children[..|children| - 1]);
    }
  }

  /** Walking crate elements whose effects are all in the store changes nothing and creates no crate. */
  lemma {:induction false} AbsorbedNoOp(t: Tables, elems: seq<Element>)
    requires forall i :: 0 <= i < |elems| ==> elems[i].tag == "crate" && CrateAbsorbed(t, elems[i])
    ensures ImportCrates(t, elems).tables == t
    ensures ImportCrates(t, elems).error.None?
    ensures forall ev :: ev in ImportCrates(t, elems).log ==> !ev.Created?
    ensures AddsAnswered(ImportCrates(t, elems).log)
  {
    if elems != [] {
      var n := |elems| - 1;
      assert forall i :: 0 <= i < n ==> elems[..n][i] == elems[i];
      AbsorbedNoOp(t, elems[..n]);
      CrateNoOp(t, elems[n]);
      AnsweredConcat(ImportCrates(t, elems[..n]).log, ImportCrate(t, elems[n]).log);
    }
  }

  /**
   * Importing the same document a second time adds no crate and no link, and reports no
   * crate as created, whether or not the first import raised part-way.
   */
  lemma ImportTwice(t: Tables, root: Element)
    ensures ImportDocument(ImportDocument(t, root).tables, root).tables == ImportDocument(t, root).tables
    ensures forall ev :: ev in ImportDocument(ImportDocument(t, root).tables, root).log ==> !ev.Created?
    ensures AddsAnswered(ImportDocument(ImportDocument(t, root).tables, root).log)
  {
    if root.tag == "crates" {
      var elems := root.children;
      var k := GoodPrefix(elems);
      var good := elems[..k];
      assert forall j :: 0 <= j < k ==> good[j] == elems[j];
      var s := ImportCrates(t, good).tables;
      if k < |elems| {
        StopsAtBadCrate(t, elems, k);
      } else {
        assert good == elems;
      }
      assert ImportDocument(t, root).tables == s;
      ImportAbsorbs(t, good);
      AbsorbedNoOp(s, good);
      if k < |elems| {
        StopsAtBadCrate(s, elems, k);
      }
    }
  }

  /**
   * The matcher reads library and track_locations only, which the import never writes: every
   * descriptor resolves to the same track before and after a document is imported.
   */
  lemma MatcherUnaffected(t: Tables, root: Element, d: Descriptor)
    ensures var u := ImportDocument(t, root).tables;
      FindTrack(u.library, u.trackLocations, d) == FindTrack(t.library, t.trackLocations, d)
  {
    ImportDocumentEffect(t, root);
  }

  /** Whether a child resolves to a track depends on library and track_locations alone. */
  lemma FoundSameLibrary(t: Tables, u: Tables, children: seq<Element>, trackId: int)
    requires u.library == t.library && u.trackLocations == t.trackLocations
    ensures Found(u, children, trackId) == Found(t, children, trackId)
  {
  }

  /** Link l is one a crate element of the document brings: its crate is the element's, its track a child's. */
  ghost predicate LinkFrom(t: Tables, u: Tables, e: Element, l: Link)
  {
    CrateIdOf(u.crates, GetAttribute(e, "name")) == Some(l.crateId) && Found(t, e.children, l.trackId)
  }

  lemma LinkFromExtends(t: Tables, r: Tables, u: Tables, e: Element, l: Link)
    requires Extends(r, u) && LinkFrom(t, r, e, l)
    ensures LinkFrom(t, u, e, l)
  {
    assert u.crates == r.crates + u.crates[|r.crates|..];
    CrateIdOfAppend(r.crates, u.crates[|r.crates|..], GetAttribute(e, "name"));
  }

  /** Every link a crate element adds links that element's crate to a track one of its children resolves to. */
  lemma ImportCrateLinksOrigin(t: Tables, r: Tables, e: Element, l: Link)
    requires r.library == t.library && r.trackLocations == t.trackLocations
    requires l in ImportCrate(r, e).tables.crateTracks && l !in r.crateTracks
    ensures LinkFrom(t, ImportCrate(r, e).tables, e, l)
  {
    var name := GetAttribute(e, "name");
    var p := InsertCrate(r, name);
    var id := CrateIdOf(p.tables.crates, name).value;
    InsertCrateEffect(r, name);
    ImportTracksFrame(p.tables, id, e.children);
    ImportTracksLinks(p.tables, id, e.children);
    FoundSameLibrary(t, p.tables, e.children, l.trackId);
  }

  /**
   * After the walk over `crate` elements, every link that was not there before was brought by
   * one of the elements.
   */
  lemma {:induction false} ImportCratesLinksOrigin(t: Tables, elems: seq<Element>, l: Link)
    requires forall i :: 0 <= i < |elems| ==> elems[i].tag == "crate"
    requires l in ImportCrates(t, elems).tables.crateTracks && l !in t.crateTracks
    ensures exists i :: 0 <= i < |elems| && LinkFrom(t, ImportCrates(t, elems).tables, elems[i], l)
  {
    var n := |elems| - 1;
    var front := elems[..n];
    assert forall i :: 0 <= i < n ==> front[i] == elems[i];
    ImportCratesRaises(t, front);
    ImportCratesStep(t, elems);
    var r := ImportCrates(t, front).tables;
    var u := ImportCrate(r, elems[n]).tables;
    ImportCratesEffect(t, front);
    ImportCrateEffect(r, elems[n]);
    if l in r.crateTracks {
      ImportCratesLinksOrigin(t, front, l);
      var i :| 0 <= i < n && LinkFrom(t, r, front[i], l);
      LinkFromExtends(t, r, u, front[i], l);
    } else {
      ImportCrateLinksOrigin(t, r, elems[n], l);
    }
  }

  /** The `name` attributes of some elements, in order. */
  function ElementNames(elems: seq<Element>): (names: seq<string>)
    ensures |names| == |elems|
    ensures forall i :: 0 <= i < |elems| ==> names[i] == GetAttribute(elems[i], "name")
  {
    if elems == [] then [] else ElementNames(elems[..|elems| - 1]) + [GetAttribute(elems[|elems| - 1], "name")]
  }

  /** A crate element whose name the store does not have appends one crate with that name. */
  lemma NewCrateAppended(r: Tables, e: Element)
    requires forall k :: 0 <= k < |r.crates| ==> r.crates[k].name != GetAttribute(e, "name")
    ensures CrateNames(ImportCrate(r, e).tables.crates) == CrateNames(r.crates) + [GetAttribute(e, "name")]
  {
    var name := GetAttribute(e, "name");
    CrateIdOfSpec(r.crates, name);
    var p := InsertCrate(r, name);
    assert p.tables.crates == r.crates + [CrateRow(NextCrateId(r.crates), name)];
    ImportTracksFrame(p.tables, CrateIdOf(p.tables.crates, name).value, e.children);
  }

  /** A name in neither part of a table's name list is the name of no row. */
  lemma FreshName(crates: seq<CrateRow>, before: seq<string>, after: seq<string>, name: string)
    requires CrateNames(crates) == before + after
    requires name !in before && name !in after
    ensures forall k :: 0 <= k < |crates| ==> crates[k].name != name
  {
    forall k | 0 <= k < |crates| ensures crates[k].name != name {
      assert CrateNames(crates)[k] in before + after;
    }
  }

  /** One more crate element with a fresh name appends that name to the crate names. */
  lemma NamesStep(t: Tables, elems: seq<Element>)
    requires elems != [] && elems[|elems| - 1].tag == "crate"
    requires ImportCrates(t, elems[..|elems| - 1]).error.None?
    requires CrateNames(ImportCrates(t, elems[..|elems| - 1]).tables.crates)
      == CrateNames(t.crates) + ElementNames(elems[..|elems| - 1])
    requires GetAttribute(elems[|elems| - 1], "name") !in CrateNames(t.crates)
    requires GetAttribute(elems[|elems| - 1], "name") !in ElementNames(elems[..|elems| - 1])
    ensures CrateNames(ImportCrates(t, elems).tables.crates) == CrateNames(t.crates) + ElementNames(elems)
  {
    var n := |elems| - 1;
    var front := elems[..n];
    var name := GetAttribute(elems[n], "name");
    ImportCratesStep(t, elems);
    var r := ImportCrates(t, front).tables;
    FreshName(r.crates, CrateNames(t.crates), ElementNames(front), name);
    NewCrateAppended(r, elems[n]);
    assert ElementNames(elems) == ElementNames(front) + [name];
  }

  /**
   * Crate elements with distinct names none of which the store has yet each create one crate,
   * appended in document order.
   */
  lemma {:induction false} ImportCratesNames(t: Tables, elems: seq<Element>)
    requires forall i :: 0 <= i < |elems| ==> elems[i].tag == "crate"
    requires forall i, j :: 0 <= i < j < |elems| ==> GetAttribute(elems[i], "name") != GetAttribute(elems[j], "name")
    requires forall i, k :: 0 <= i < |elems| && 0 <= k < |t.crates| ==> GetAttribute(elems[i], "name") != t.crates[k].name
    ensures CrateNames(ImportCrates(t, elems).tables.crates) == CrateNames(t.crates) + ElementNames(elems)
  {
    if elems != [] {
      var n := |elems| - 1;
      var front := elems[..n];
      assert forall i :: 0 <= i < n ==> front[i] == elems[i];
      ImportCratesNames(t, front);
      ImportCratesRaises(t, front);
      NamesStep(t, elems);
    }
  }
}
