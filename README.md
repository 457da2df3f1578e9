# crateport, modelled in Dafny

`crateport.py` moves Mixxx DJ-library crates between the library's SQLite database and a flat
XML document of `crates` → `crate(name)` → `track(artist, title, location, filename)`. This
project models the part of it that makes decisions:

- the read side: `listCrates`, `getCrates`, `filenamesfromCrates`, and the `set` step that
  removes repeated paths before the tar archive is built;
- the track matcher `findTrack`, with its three lookups tried in order;
- the import walk `importCrateXML`;
- the export document builder `generateCrateXML`.

The database is an explicit value with four tables (`Schema.Tables`):

- `crates`: rows in id order (see "## Left out" for the scan order).
- `crate_tracks`: links in row order.
- `library`: rows in id order.
- `track_locations`: a map from id to row.

SQL `INSERT` becomes appending a row. A UNIQUE violation (`sqlite3.IntegrityError`) becomes a
membership test that leaves the table as it was. Nullable text columns are `Value = Null |
Text(s)`, and `str` of NULL is `"None"`. A query without `ORDER BY` is modelled as returning
its rows in stored order (id order for `crates` and `library`, row order for `crate_tracks`),
and `fetchone()` as the first of them; SQLite does not promise that order, as noted
below under "Left out". The crate document is an element tree
(`CrateXml.Element`) whose children are its child elements only.

Modules:

- `Schema`: the tables and the lookups by name and by id.
- `Matcher`: `findTrack` as a pure function.
- `Queries`: the read side, as specification functions.
- `CrateXml`: the document, and the `generateCrateXML` loops.
- `Import`: the import walk, as specification functions over the tables. This module holds
  the idempotence proof.
- `Store`: a `Database` class whose fields are the four tables. Its methods are the cursor
  loops of the read side and the in-place import, each proved equal to its specification
  function.
- `RoundTrip`: exporting a store and importing the document back, both into the same store
  (nothing changes) and into the store with its crates and links removed (the same crates
  and kept links come back).

## Model

| member | source | states |
|---|---|---|
| Schema.StrReadsBack | crateport.py:30 | `str` of a column value gives back exactly the text for a text value and distinct texts stay distinct; NULL becomes the text "None", which cannot be told apart from a stored "None" |
| Schema.NextCrateId | crateport.py:189 | the id a new crates row gets is larger than every existing id of a valid table |
| Schema.CrateIdOfSpec | crateport.py:195-197 | looking a crate up by name finds nothing exactly when no row has the name, and otherwise the id of a row with that name |
| Schema.CrateIdOfRow | crateport.py:195-197 | with unique names, the lookup by a row's name returns that row's id |
| Schema.CrateIdOfAppend | crateport.py:195-197 | rows appended later never change the id already found for a name |
| Schema.TrackById | crateport.py:106-107 | the join on `track_id = library.id` finds a library row with that id, or none exactly when no row has it |
| Schema.TrackByIdRow | crateport.py:106-107 | in a library ordered by id, the join by a row's id finds that row |
| Matcher.FirstMatchSpec | crateport.py:144-146 | one lookup plus `fetchone()` gives None exactly when no row is selected, and otherwise the first selected row in scan order |
| Matcher.FindTrackPrecedence | crateport.py:125-176 | a location match always wins; the filename lookup decides only when no row has the location; artist and title decide only when neither found a row; in each case the result is the lowest-id row the deciding lookup selects; None exactly when all three find nothing |
| Matcher.LocationWinsOverArtistTitle | crateport.py:133-146 | a track that is the only one with the document's path is returned, whatever its artist and title |
| Queries.CrateNames | crateport.py:34-47 | one name per crates row, in scan order |
| Queries.CrateNamesDistinct | crateport.py:34-47 | in a store with unique names, the listed names are distinct and are exactly the names of the rows |
| Queries.JoinMembership | crateport.py:58-75 | a row is in a crate's join exactly when a link of that crate resolves to it; links whose track lacks a library row or a track_locations row drop out |
| Queries.JoinLength | crateport.py:58-75 | a crate's join has exactly one row per link of that crate whose track has both a library row and a track_locations row, so at most as many rows as the crate has links |
| Queries.PutSpec | crateport.py:57 | assigning to a dict key (`crates[row['name']] = []`) keeps the key order for an existing key and appends a new key at the end; the key maps to the new value; every other key keeps its value; keys stay distinct |
| Queries.MappingEntriesAt | crateport.py:49-85 | each crates row gives one dict entry at its own position: its name with its joined rows |
| Queries.MappingEntries | crateport.py:49-85 | with unique names, the keys of `getCrates` are the crate names in crate order, and each value is the crate's join |
| Queries.Locations | crateport.py:117-119 | the path column of the joined rows, in order |
| Queries.FilenamesAreMappingLocations | crateport.py:88-123 | the paths of `filenamesfromCrates` are the location fields of the rows of `getCrates`, crate after crate, and a path joined from two crates appears twice |
| Queries.UniquePaths | crateport.py:246 | after `list(set(...))` no path occurs twice and exactly the listed paths remain |
| CrateXml.TrackElement | crateport.py:27-30 | a `track` element with the four column attributes; reading it back gives each field through `str` |
| CrateXml.TrackElements | crateport.py:26-30 | one `track` child per row, in row order |
| CrateXml.CrateElement | crateport.py:22-30 | a `crate` element whose `name` is the key and whose children are its rows' track elements |
| CrateXml.CrateElements | crateport.py:21-30 | one `crate` child per dict key, in iteration order |
| CrateXml.CratesDocument | crateport.py:15-30 | root `crates`; one `crate` per key, in order, named by the key; one `track` per row, whose attributes read back as `str` of the row's fields |
| CrateXml.TrackNodes | crateport.py:26-30 | the inner loop builds exactly the track elements of the rows |
| CrateXml.GenerateCrateXml | crateport.py:15-30 | the nested loops build exactly the document above |
| Import.InsertCrate | crateport.py:188-197 | after the insert, a lookup by the name finds a crate |
| Import.InsertCrateEffect | crateport.py:188-197 | an existing name is left alone and reported as already created; a new name is appended once and reported as created; names stay unique; links untouched |
| Import.InsertLinkEffect | crateport.py:205-212 | afterwards the pair is linked; an existing pair is not added again and is reported after "Adding a Track"; only that pair is added; pairs stay unique |
| Import.ImportTracksStep | crateport.py:199-212 | one more track child is resolved against the unchanged library and, if found, linked |
| Import.TracksLinkStep | crateport.py:203-212 | after one more child, the links are the earlier links plus the pair that child resolves to, if any |
| Import.ImportTracksFrame | crateport.py:199-212 | importing a crate's children only appends links; crates, library and track_locations stay as they were |
| Import.ImportTracksLinks | crateport.py:199-212 | afterwards the links are the old links plus one pair per child the matcher resolves; unresolved children add nothing; no pair appears twice |
| Import.ImportCrateEffect | crateport.py:184-212 | importing a crate element only appends rows and keeps names and pairs unique |
| Import.ImportCratesEffect | crateport.py:184-212 | the walk over the root's children only appends rows and keeps the schema's constraints |
| Import.ImportCratesRaises | crateport.py:184-186 | the walk raises "Not a Crate" exactly when some child of the root is not a `crate` |
| Import.ImportDocument | crateport.py:180-182 | a root other than `crates` raises before anything is inserted or printed |
| Import.ImportDocumentEffect | crateport.py:178-212 | only crates and crate_tracks change, and only by appended rows; uniqueness holds afterwards; the import raises exactly on a bad root or a non-`crate` child |
| Import.ErrorPersists | crateport.py:184-186 | once the walk has raised, later children change nothing |
| Import.StopsAtBadCrate | crateport.py:184-186 | at the first child that is not a `crate` the walk raises, and what earlier children inserted stays in the uncommitted transaction |
| Import.GoodPrefix | crateport.py:184-186 | the number of leading `crate` children: all before it are crates, and the child at it is not |
| Import.AbsorbedExtends | crateport.py:188-212 | a crate element whose crate and links are present stays so when rows are appended |
| Import.ImportCrateAbsorbs | crateport.py:188-212 | after a crate element is imported, its crate exists and every child the matcher resolves is linked to it |
| Import.AbsorbStep | crateport.py:184-212 | importing one more crate element keeps the effects of the earlier ones and adds its own |
| Import.ImportAbsorbs | crateport.py:184-212 | after the walk, every crate element imported has all its effects in the store |
| Import.TracksNoOp | crateport.py:199-212 | re-importing children whose links are all present changes nothing, and every "Adding a Track" is followed by "Track already in crate" |
| Import.CrateNoOp | crateport.py:188-212 | re-importing a crate element whose effects are all present changes nothing, reports no new crate, and answers every "Adding a Track" with "Track already in crate" |
| Import.TracksLog | crateport.py:206-212 | importing a crate's children prints only "Adding a Track" and "Track already in crate" |
| Import.AbsorbedNoOp | crateport.py:184-212 | walking crate elements whose effects are all present changes nothing, raises nothing, creates no crate, and answers every "Adding a Track" with "Track already in crate" |
| Import.ImportTwice | crateport.py:178-212 | importing the same document a second time adds no crate and no link, reports no crate as created, and answers every "Adding a Track" with "Track already in crate"; this holds also when the first import raised part-way, over the rows left in the uncommitted transaction |
| Import.MatcherUnaffected | crateport.py:125-176 | every descriptor resolves to the same track before and after an import |
| Import.LinkFromExtends | crateport.py:195-204 | a link a crate element brings stays attributed to it when rows are appended, since the crate found by name does not change |
| Import.ImportCrateLinksOrigin | crateport.py:188-212 | every link one crate element adds joins the crate found by the element's name to a track one of its children resolves to |
| Import.ImportCratesLinksOrigin | crateport.py:184-212 | after the walk over `crate` elements, every link not there before was brought by one of the elements |
| Import.ElementNames | crateport.py:190 | the `name` attributes of the crate elements, one per element, in order |
| Import.NewCrateAppended | crateport.py:188-193 | a crate element with a name the store lacks appends exactly one crate, with that name |
| Import.NamesStep | crateport.py:184-197 | one more crate element with a fresh name appends its name to the crate names |
| Import.ImportCratesNames | crateport.py:184-197 | crate elements with distinct names the store lacks each create one crate, appended in document order |
| Store.Database.constructor | crateport.py:234-235 | a connection to a database holding the given tables |
| Store.Database.ListCrates | crateport.py:34-47 | the cursor loop returns one name per crates row, in scan order |
| Store.Database.JoinCrate | crateport.py:58-81 | the inner cursor returns a crate's join; a row is returned exactly when a link of the crate resolves to it |
| Store.Database.GetCrates | crateport.py:49-85 | the cursor loops build the `getCrates` dict; in a valid store its keys are the crate names and each value is the crate's join |
| Store.Database.FilenamesFromCrates | crateport.py:88-123 | the cursor loops return `filenamesfromCrates`; in a valid store these are the location fields of `getCrates`' rows |
| Store.Database.TarPaths | crateport.py:246 | the archived paths are exactly the referenced paths, each once |
| Store.Database.CrateId | crateport.py:195-197 | the lookup by name returns the first crate with that name, or none exactly when no crate has it |
| Store.Database.CreateCrate | crateport.py:188-193 | the store and the message after `INSERT INTO crates` are those of `Import.InsertCrate` |
| Store.Database.AddLink | crateport.py:205-212 | the store and the messages after `INSERT INTO crate_tracks` are those of `Import.InsertLink` |
| Store.Database.ImportTrackElements | crateport.py:199-212 | the loop over a crate's children leaves the store and messages of `Import.ImportTracks` |
| Store.Database.ImportCrateElement | crateport.py:188-212 | one crate element leaves the store and messages of `Import.ImportCrate` |
| Store.Database.ImportCrateElements | crateport.py:184-212 | the loop over the root's children leaves the store, messages and exception of `Import.ImportCrates` |
| Store.Database.ImportCrateXml | crateport.py:178-212 | `importCrateXML` leaves the store, messages and exception of `Import.ImportDocument`, and keeps the schema's constraints |
| RoundTrip.SnapshotMatch | crateport.py:58-75 | when paths identify tracks, an exported track is matched back by its path to the library row of the link it was joined from |
| RoundTrip.SnapshotLinked | crateport.py:15-32 | when paths identify tracks, an exported track of a crate is matched back by its path to the track it was linked to |
| RoundTrip.ExportedCratesAbsorbed | crateport.py:49-85 | every crate element of the exported document is a `crate` whose crate and links are already present |
| RoundTrip.ExportThenImport | crateport.py:178-212 | importing a store's own export back into it raises nothing, changes no table, creates no crate, and answers every "Adding a Track" with "Track already in crate", when paths identify tracks |
| RoundTrip.ExportedElement | crateport.py:15-30 | crate element i of the export is crate row i, named by it, with one track per row of its join |
| RoundTrip.ExportedNames | crateport.py:21-24 | the export's children are all `crate` elements named after the crate rows in order |
| RoundTrip.ExportedNamesDistinct | crateport.py:21-24 | the export's crate elements have distinct names when the store's crates do |
| RoundTrip.ReimportedFrame | crateport.py:178-212 | importing the export into the emptied store leaves library and track_locations alone |
| RoundTrip.ReimportedCrates | crateport.py:178-197 | importing the export into the emptied store raises nothing, keeps the schema's constraints, and re-creates the crates with the same names in the same order |
| RoundTrip.ReimportedNames | crateport.py:184-197 | importing the export into the emptied store creates exactly the store's crate names, in order |
| RoundTrip.KeptLinkChild | crateport.py:58-75 | a kept link of a crate is exported as a track child that the matcher resolves back to the link's track |
| RoundTrip.ReimportedAbsorbs | crateport.py:184-212 | after that import, each crate element of the export has its crate and links in the store |
| RoundTrip.ReimportedRow | crateport.py:188-197 | re-created crate row i carries crate i's name, and the lookup by that name finds it |
| RoundTrip.ExportedLinkRestored | crateport.py:199-212 | every link the export's join keeps comes back between the re-created crate and the same track |
| RoundTrip.ImportedLinkExported | crateport.py:184-212 | every link of the re-imported store is a kept link of the original crate in the same row, to the same track |
| RoundTrip.ExportIntoEmptyStore | crateport.py:178-212 | exporting a store and importing the document into a store with no crates and no links raises nothing, re-creates every crate once with the same name in the same order, brings back every kept link once (links stay unique) between the same crate and track, and adds no other link, when paths identify tracks |

## Left out

- The command line in `main` (crateport.py:214-258) is not modelled: option parsing, the platform-dependent database path, opening files, and reading stdin or writing stdout.
- The store is the uncommitted transaction. An exception in `importCrateXML` propagates out of `main` (crateport.py:258) before `conn.commit()` (crateport.py:260), so a raising import persists nothing. `Import.StopsAtBadCrate` and `Import.ImportTwice` speak of the rows left in that transaction.
- `Queries.CrateNames`: the crates scan `SELECT id, name FROM crates` (crateport.py:38, 53, 93) has no `ORDER BY`, and the model lists crates in id order. SQLite may answer it from the UNIQUE(name) index, which covers both columns, and then lists crates by name. The order `Store.Database.ListCrates` returns, the dict's key order in `Store.Database.GetCrates`, the path order of `Store.Database.FilenamesFromCrates` and the order of the crate elements `CrateXml.CrateElements` exports all depend on this choice.
- `Queries.Join`: the join has no `ORDER BY`, and the model returns rows in crate_tracks row order. SQLite may instead scan crate_tracks through its UNIQUE(crate_id, track_id) index, which orders a crate's rows by track id. The order of tracks inside a crate element and the per-crate order of the paths `filenamesfromCrates` returns depend on this, and `Queries.FilenamesAreMappingLocations` relies on both joins (crateport.py:60-75, 100-113) returning rows in the same order; without that choice the two agree per crate only as multisets. The round-trip lemmas do not depend on it.
- The SQLite connection, `row_factory`, `commit` and `close` are not modelled. The `Store.Database` object stands in for the connection, and its fields are the tables.
- Tar streaming and `tar.add` (crateport.py:244-248) read the file system, so only the step that removes repeated paths is modelled. `tar.add` of a NULL path is also not modelled.
- `toprettyxml` (crateport.py:32) and `minidom.parse` (crateport.py:257) are text-level XML, and the model works on the element tree instead. Real parsed documents also contain whitespace text nodes between elements. Such a node has no `tagName`, so at crateport.py:185 a pretty-printed file raises before its first crate. The model's children are elements only, so this failure is not captured, and the round trip is stated on the tree.
- `print` is modelled as the `Import.Event` log. The exact message texts are not modelled.
- `Matcher.FindTrack`: `fetchone()` without `ORDER BY` is modelled as the lowest-id matching row. SQLite does not promise that order.
- `Store.Database.CrateId`: the same first-row-in-scan-order choice is made for the lookup by name.
- `Schema.NextCrateId`: a new crate gets the largest id plus one (1 in an empty table), which is SQLite's choice for an INTEGER PRIMARY KEY without AUTOINCREMENT. Only a table declared with AUTOINCREMENT can give a larger id, after its largest row was deleted. Ids are unbounded in the model: once the largest rowid is 9223372036854775807, SQLite picks a random unused smaller id, or with AUTOINCREMENT fails with SQLITE_FULL, an `OperationalError` the handler at crateport.py:192 does not catch; this edge is not captured.
- Crate ids are passed as `str(id)` (crateport.py:75, 113, 210) and compared as integers. This relies on SQLite's INTEGER column affinity, which the model takes as given.
- `CrateXml.CratesDocument`: the model follows Python 3 semantics, and it and `CrateXml.CrateElements` keep the dict's insertion order (crateport.py:21). Under Python 2 the dict iterates in hash order, so the crate elements may come out in another order.
- `Schema.Str`: the model follows Python 3 semantics, where `str` of text never fails (crateport.py:30). Under Python 2, `str` raises UnicodeEncodeError on a non-ASCII column value, which aborts the export.
- Columns are modelled as text or NULL only. SQLite's dynamic typing, which lets an integer or real value sit in a text column and be exported through `str`, is not modelled.
- A crate name is never NULL in the model. `getAttribute` never returns NULL, and stored names are modelled as text.
- `Queries.UniquePaths` fixes one order: the first occurrences, in order. Python's `set` leaves the order unspecified. The contract states only what holds for every order: no repeats, and the same paths.
- `filenamesfromCrates` fills a `crates` dict (crateport.py:90, 97) that it never returns. That dict is not modelled.
- `RoundTrip.ExportThenImport` and `RoundTrip.ExportIntoEmptyStore` need two assumptions about the store. Every path a library row points to is non-NULL, and no two library rows share a path. Without them, an exported track can be matched back to a different track by filename or by artist and title.
- M3U and folder-copy export are not part of this model. They do not appear in `crateport.py`.
