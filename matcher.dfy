/**
 * The track matcher (`findTrack`): resolve a track descriptor read from a document to one
 * library row by three exact-equality rules tried in order -- stored location path, then
 * stored filename, then (artist, title) -- returning the first row found.
 *
 * `fetchone()` on a query without ORDER BY is modelled as the first matching row of the
 * library in scan (id) order, i.e. the lowest-id matching row.
 */
module Matcher {
  import opened Schema

  /** The attributes `findTrack` reads from a track element; a missing attribute reads as "". */
  datatype Descriptor = Descriptor(location: string, filename: string, artist: string, title: string)

  /** The three lookups, in the order they are tried. */
  datatype Rule = ByLocation | ByFilename | ByArtistTitle

  /**
   * Whether a library row is a result row of one lookup. The first two join the row to its
   * track_locations row (a row whose location id has no such row is not a result); the third
   * reads the library row alone. SQL `=` never holds of NULL.
   */
  predicate Matches(locations: map<int, LocationRow>, d: Descriptor, rule: Rule, t: TrackRow)
  {
    match rule
    case ByLocation => t.locationId in locations && locations[t.locationId].location == Text(d.location)
    case ByFilename => t.locationId in locations && locations[t.locationId].filename == Text(d.filename)
    case ByArtistTitle => t.artist == Text(d.artist) && t.title == Text(d.title)
  }

  /** One lookup followed by fetchone(): the first row in scan order that the rule selects. */
  function FirstMatch(library: seq<TrackRow>, locations: map<int, LocationRow>, d: Descriptor, rule: Rule)
    : Option<TrackRow>
  {
    if library == [] then None
    else if Matches(locations, d, rule, library[0]) then Some(library[0])
    else FirstMatch(library[1..], locations, d, rule)
  }

  /** The lookup finds nothing exactly when no row is selected, and otherwise the lowest-id selected row. */
  lemma {:induction false} FirstMatchSpec(library: seq<TrackRow>, locations: map<int, LocationRow>, d: Descriptor, rule: Rule)
    ensures FirstMatch(library, locations, d, rule).None? <==>
      forall i :: 0 <= i < |library| ==> !Matches(locations, d, rule, library[i])
    ensures FirstMatch(library, locations, d, rule).Some? ==>
      exists k :: 0 <= k < |library| && library[k] == FirstMatch(library, locations, d, rule).value
        && Matches(locations, d, rule, library[k])
        && forall j :: 0 <= j < k ==> !Matches(locations, d, rule, library[j])
  {
    if library != [] && !Matches(locations, d, rule, library[0]) {
      FirstMatchSpec(library[1..], locations, d, rule);
      assert forall i :: 1 <= i < |library| ==> library[i] == library[1..][i - 1];
      if FirstMatch(library, locations, d, rule).Some? {
        var k :| 0 <= k < |library[1..]| && library[1..][k] == FirstMatch(library, locations, d, rule).value
          && Matches(locations, d, rule, library[1..][k])
          && forall j :: 0 <= j < k ==> !Matches(locations, d, rule, library[1..][j]);
        assert library[k + 1] == library[1..][k];
      }
    }
  }

  /** Row k is selected by the rule and no earlier row is: the row `fetchone()` returns. */
  ghost predicate IsFirstMatch(library: seq<TrackRow>, locations: map<int, LocationRow>, d: Descriptor, rule: Rule, k: int)
  {
    && 0 <= k < |library|
    && Matches(locations, d, rule, library[k])
    && forall j :: 0 <= j < k ==> !Matches(locations, d, rule, library[j])
  }

  /** Whether some library row is selected by the rule. */
  ghost predicate AnyMatch(library: seq<TrackRow>, locations: map<int, LocationRow>, d: Descriptor, rule: Rule)
  {
    exists i :: 0 <= i < |library| && Matches(locations, d, rule, library[i])
  }

  /**
   * `findTrack`: location first; filename only if no row has that location; artist and title
   * only if neither of the others found a row; nothing if all three found nothing.
   */
  function FindTrack(library: seq<TrackRow>, locations: map<int, LocationRow>, d: Descriptor): Option<TrackRow>
  {
    var byLocation := FirstMatch(library, locations, d, ByLocation);
    if byLocation.Some? then byLocation
    else
      var byFilename := FirstMatch(library, locations, d, ByFilename);
      if byFilename.Some? then byFilename
      else FirstMatch(library, locations, d, ByArtistTitle)
  }

  /**
   * The precedence of the three lookups: a row with the descriptor's location always wins,
   * whatever its artist and title; the filename lookup decides only when no row has the
   * location; artist and title decide only when neither of the others found a row; and the
   * result is None exactly when all three find nothing.
   */
  lemma FindTrackPrecedence(library: seq<TrackRow>, locations: map<int, LocationRow>, d: Descriptor)
    ensures var r := FindTrack(library, locations, d);
      r.Some? ==> r.value in library
    ensures var r := FindTrack(library, locations, d);
      AnyMatch(library, locations, d, ByLocation) ==> r.Some? && Matches(locations, d, ByLocation, r.value)
    ensures var r := FindTrack(library, locations, d);
      r.Some? && !Matches(locations, d, ByLocation, r.value) ==>
        !AnyMatch(library, locations, d, ByLocation)
        && (Matches(locations, d, ByFilename, r.value) || Matches(locations, d, ByArtistTitle, r.value))
    ensures var r := FindTrack(library, locations, d);
      r.Some? && !Matches(locations, d, ByLocation, r.value) && !Matches(locations, d, ByFilename, r.value) ==>
        !AnyMatch(library, locations, d, ByFilename) && Matches(locations, d, ByArtistTitle, r.value)
    ensures var r := FindTrack(library, locations, d);
      AnyMatch(library, locations, d, ByLocation) ==>
        exists k :: IsFirstMatch(library, locations, d, ByLocation, k) && r == Some(library[k])
    ensures var r := FindTrack(library, locations, d);
      !AnyMatch(library, locations, d, ByLocation) && AnyMatch(library, locations, d, ByFilename) ==>
        exists k :: IsFirstMatch(library, locations, d, ByFilename, k) && r == Some(library[k])
    ensures var r := FindTrack(library, locations, d);
      !AnyMatch(library, locations, d, ByLocation) && !AnyMatch(library, locations, d, ByFilename)
      && AnyMatch(library, locations, d, ByArtistTitle) ==>
        exists k :: IsFirstMatch(library, locations, d, ByArtistTitle, k) && r == Some(library[k])
    ensures var r := FindTrack(library, locations, d);
      r.None? <==>
        !AnyMatch(library, locations, d, ByLocation) && !AnyMatch(library, locations, d, ByFilename)
        && !AnyMatch(library, locations, d, ByArtistTitle)
  {
    FirstMatchSpec(library, locations, d, ByLocation);
    FirstMatchSpec(library, locations, d, ByFilename);
    FirstMatchSpec(library, locations, d, ByArtistTitle);
  }

  /**
   * A library row whose location row carries the descriptor's path is found whatever its
   * artist and title, provided no other row carries that path.
   */
  lemma LocationWinsOverArtistTitle(library: seq<TrackRow>, locations: map<int, LocationRow>, d: Descriptor, k: int)
    requires 0 <= k < |library|
    requires Matches(locations, d, ByLocation, library[k])
    requires forall j :: 0 <= j < |library| && Matches(locations, d, ByLocation, library[j]) ==> j == k
    ensures FindTrack(library, locations, d) == Some(library[k])
  {
    FirstMatchSpec(library, locations, d, ByLocation);
    var r := FirstMatch(library, locations, d, ByLocation);
    var i :| 0 <= i < |library| && library[i] == r.value && Matches(locations, d, ByLocation, library[i])
      && forall j :: 0 <= j < i ==> !Matches(locations, d, ByLocation, library[j]);
  }
}
