/**
 * The four tables of the DJ library's relational store, held as values.
 *
 *   crates(id, name UNIQUE)             -> a sequence of rows in id (scan) order
 *   crate_tracks(crate_id, track_id)    -> a sequence of links in row order, no pair twice
 *   library(id, artist, title, filetype, location)
 *                                       -> a sequence of rows in id (scan) order
 *   track_locations(id, location, filename)
 *                                       -> a map from id to row
 *
 * A column that may hold SQL NULL is a `Value`.
 */
module Schema {

  datatype Option<+T> = None | Some(value: T)

  /** A nullable text column. */
  datatype Value = Null | Text(s: string)

  /** Python's `str` on a column value: NULL becomes the string "None". */
  function Str(v: Value): string
  {
    match v
    case Null => "None"
    case Text(s) => s
  }

  /**
   * Reading `str` of a value back as text recovers the value exactly when it was text: a NULL
   * column and a column holding the text "None" print alike, and distinct texts print apart.
   */
  lemma StrReadsBack(v: Value, w: Value)
    ensures Text(Str(v)) == v <==> v.Text?
    ensures v.Text? && w.Text? ==> (Str(v) == Str(w) <==> v == w)
    ensures Str(Null) == Str(Text("None"))
  {
  }

  datatype CrateRow = CrateRow(id: int, name: string)
  datatype Link = Link(crateId: int, trackId: int)
  datatype TrackRow = TrackRow(id: int, artist: Value, title: Value, filetype: Value, locationId: int)
  datatype LocationRow = LocationRow(location: Value, filename: Value)

  datatype Tables = Tables(
    crates: seq<CrateRow>,
    crateTracks: seq<Link>,
    library: seq<TrackRow>,
    trackLocations: map<int, LocationRow>)

  /** One joined track as the read side reports it. */
  datatype Snapshot = Snapshot(artist: Value, title: Value, location: Value, filename: Value)

  /** Scan order is id order, and a crate name is unique (the UNIQUE constraint). */
  ghost predicate CratesValid(crates: seq<CrateRow>)
  {
    && (forall i, j :: 0 <= i < j < |crates| ==> crates[i].id < crates[j].id)
    && (forall i, j :: 0 <= i < j < |crates| ==> crates[i].name != crates[j].name)
  }

  /** The uniqueness constraint on (crate_id, track_id). */
  ghost predicate LinksValid(links: seq<Link>)
  {
    forall i, j :: 0 <= i < j < |links| ==> links[i] != links[j]
  }

  /** Library scan order is id order. */
  ghost predicate LibraryValid(library: seq<TrackRow>)
  {
    forall i, j :: 0 <= i < j < |library| ==> library[i].id < library[j].id
  }

  /** What the schema guarantees of every store this tool opens. */
  ghost predicate Valid(t: Tables)
  {
    CratesValid(t.crates) && LinksValid(t.crateTracks) && LibraryValid(t.library)
  }

  /**
   * The id SQLite gives the next inserted crate row: one past the largest id, 1 in an empty
   * table. Ids are unbounded here; SQLite's behaviour at the 64-bit maximum rowid is not modelled.
   */
  function NextCrateId(crates: seq<CrateRow>): (id: int)
    ensures CratesValid(crates) ==> forall i :: 0 <= i < |crates| ==> crates[i].id < id
  {
    if crates == [] then 1 else crates[|crates| - 1].id + 1
  }

  /** `SELECT id FROM crates WHERE name = ?` followed by fetchone(). */
  function CrateIdOf(crates: seq<CrateRow>, name: string): Option<int>
  {
    if crates == [] then None
    else if crates[0].name == name then Some(crates[0].id)
    else CrateIdOf(crates[1..], name)
  }

  /** The lookup finds an id exactly when some row carries the name, and the id is that of such a row. */
  lemma {:induction false} CrateIdOfSpec(crates: seq<CrateRow>, name: string)
    ensures CrateIdOf(crates, name).None? <==> forall i :: 0 <= i < |crates| ==> crates[i].name != name
    ensures CrateIdOf(crates, name).Some? ==>
      exists i :: 0 <= i < |crates| && crates[i].name == name && crates[i].id == CrateIdOf(crates, name).value
  {
    if crates != [] && crates[0].name != name {
      CrateIdOfSpec(crates[1..], name);
      assert forall i :: 1 <= i < |crates| ==> crates[i] == crates[1..][i - 1];
      if CrateIdOf(crates, name).Some? {
        var i :| 0 <= i < |crates[1..]| && crates[1..][i].name == name && crates[1..][i].id == CrateIdOf(crates, name).value;
        assert crates[i + 1] == crates[1..][i];
      }
    }
  }

  /** The library row with the given id, as `INNER JOIN library ON ... = library.id` finds it. */
  function TrackById(library: seq<TrackRow>, id: int): (r: Option<TrackRow>)
    ensures r.Some? ==> r.value in library && r.value.id == id
    ensures r.None? <==> forall i :: 0 <= i < |library| ==> library[i].id != id
  {
    if library == [] then None
    else if library[0].id == id then Some(library[0])
    else TrackById(library[1..], id)
  }

  /** In a valid crates table the looked-up id is exactly that of the row carrying the name. */
  lemma {:induction false} CrateIdOfRow(crates: seq<CrateRow>, k: int)
    requires CratesValid(crates)
    requires 0 <= k < |crates|
    ensures CrateIdOf(crates, crates[k].name) == Some(crates[k].id)
  {
    if k > 0 {
      assert crates[0].name != crates[k].name;
      assert crates[1..][k - 1] == crates[k];
      CrateIdOfRow(crates[1..], k - 1);
    }
  }

  /** In a valid library the row found by id is the row at that position. */
  lemma {:induction false} TrackByIdRow(library: seq<TrackRow>, k: int)
    requires LibraryValid(library)
    requires 0 <= k < |library|
    ensures TrackById(library, library[k].id) == Some(library[k])
  {
    if k > 0 {
      assert library[0].id < library[k].id;
      assert library[1..][k - 1] == library[k];
      TrackByIdRow(library[1..], k - 1);
    }
  }

  /** Rows appended after the rows that carry a name do not change the id looked up for it. */
  lemma {:induction false} CrateIdOfAppend(front: seq<CrateRow>, back: seq<CrateRow>, name: string)
    ensures CrateIdOf(front + back, name)
      == if CrateIdOf(front, name).Some? then CrateIdOf(front, name) else CrateIdOf(back, name)
  {
    if front != [] {
      assert (front + back)[1..] == front[1..] + back;
      CrateIdOfAppend(front[1..], back, name);
    } else {
      assert front + back == back;
    }
  }
}
