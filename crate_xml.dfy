/**
 * The external crate document as an element tree: `crates` -> `crate(name)` -> `track(attrs)`.
 * A node's children are its child elements only; the whitespace text nodes of pretty-printed
 * text, and the text itself, are not part of this model.
 */
module CrateXml {
  import opened Schema
  import opened Matcher
  import opened Queries

  datatype Element = Element(tag: string, attrs: map<string, string>, children: seq<Element>)

  /** DOM `getAttribute`: the attribute's value, or "" when the element has no such attribute. */
  function GetAttribute(e: Element, name: string): string
  {
    if name in e.attrs then e.attrs[name] else ""
  }

  /** What `findTrack` reads from a track element. */
  function TrackDescriptor(e: Element): Descriptor
  {
    Descriptor(GetAttribute(e, "location"), GetAttribute(e, "filename"),
               GetAttribute(e, "artist"), GetAttribute(e, "title"))
  }

  /**
   * The `track` element of one joined row: one attribute per column of the row, set to `str`
   * of the column's value. Reading it back gives the row's fields as text, NULL as "None".
   */
  function TrackElement(s: Snapshot): (e: Element)
    ensures e.tag == "track" && e.children == []
    ensures e.attrs.Keys == {"artist", "title", "location", "filename"}
    ensures TrackDescriptor(e) == Descriptor(Str(s.location), Str(s.filename), Str(s.artist), Str(s.title))
  {
    Element("track",
      map["artist" := Str(s.artist), "title" := Str(s.title),
          "location" := Str(s.location), "filename" := Str(s.filename)],
      [])
  }

  /** The `track` children of one crate, one per row, in row order. */
  function TrackElements(tracks: seq<Snapshot>): (es: seq<Element>)
    ensures |es| == |tracks|
    ensures forall j :: 0 <= j < |tracks| ==> es[j] == TrackElement(tracks[j])
  {
    if tracks == [] then [] else TrackElements(tracks[..|tracks| - 1]) + [TrackElement(tracks[|tracks| - 1])]
  }

  /** The `crate` element of one dict entry. */
  function CrateElement(entry: CrateEntry): (e: Element)
    ensures e.tag == "crate" && GetAttribute(e, "name") == entry.name
    ensures |e.children| == |entry.tracks|
    ensures forall j :: 0 <= j < |entry.tracks| ==> e.children[j] == TrackElement(entry.tracks[j])
  {
    Element("crate", map["name" := entry.name], TrackElements(entry.tracks))
  }

  /** The `crate` children of the root, one per dict key, in iteration order. */
  function CrateElements(d: seq<CrateEntry>): (es: seq<Element>)
    ensures |es| == |d|
    ensures forall i :: 0 <= i < |d| ==> es[i] == CrateElement(d[i])
  {
    if d == [] then [] else CrateElements(d[..|d| - 1]) + [CrateElement(d[|d| - 1])]
  }

  /** The document `generateCrateXML` builds from a crate-name -> rows dict. */
  function CratesDocument(d: seq<CrateEntry>): (doc: Element)
    ensures doc.tag == "crates" && |doc.children| == |d|
    ensures forall i :: 0 <= i < |d| ==>
      doc.children[i].tag == "crate" && GetAttribute(doc.children[i], "name") == d[i].name
      && |doc.children[i].children| == |d[i].tracks|
    ensures forall i, j :: 0 <= i < |d| && 0 <= j < |d[i].tracks| ==>
      TrackDescriptor(doc.children[i].children[j])
        == Descriptor(Str(d[i].tracks[j].location), Str(d[i].tracks[j].filename),
                      Str(d[i].tracks[j].artist), Str(d[i].tracks[j].title))
  {
    Element("crates", map[], CrateElements(d))
  }

  /** The inner loop of `generateCrateXML`: one `track` element per row, in row order. */
  method TrackNodes(tracks: seq<Snapshot>) returns (nodes: seq<Element>)
    ensures nodes == TrackElements(tracks)
  {
    nodes := [];
    for j := 0 to |tracks|
      invariant nodes == TrackElements(tracks[..j])
    {
      nodes := nodes + [TrackElement(tracks[j])];
      assert tracks[..j + 1][..j] == tracks[..j];
    }
    assert tracks[..|tracks|] == tracks;
  }

  /**
   * `generateCrateXML`: nested loops that append a `crate` element per key and a `track`
   * element per row. The result is the document above.
   */
  method GenerateCrateXml(crates: seq<CrateEntry>) returns (doc: Element)
    ensures doc == CratesDocument(crates)
  {
    var crateNodes: seq<Element> := [];
    for i := 0 to |crates|
      invariant crateNodes == CrateElements(crates[..i])
    {
      var trackNodes := TrackNodes(crates[i].tracks);
      crateNodes := crateNodes + [Element("crate", map["name" := crates[i].name], trackNodes)];
      assert crates[..i + 1][..i] == crates[..i];
    }
    assert crates[..|crates|] == crates;
    doc := Element("crates", map[], crateNodes);
  }
}
