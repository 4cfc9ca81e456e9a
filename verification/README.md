# A verified model of GeoNode's reconcilers, allocators and ledgers

GeoNode is a web catalogue of maps and spatial layers on top of a map server (GeoServer). Most of it is web plumbing,
but a handful of loops carry the weight of keeping tables consistent: the run that brings the layer table into agreement with the
map server, the loops that look for a free name, the 1 km tile grid, the compiler of viewer configurations, the ledger of FTP
requests, the two records of group membership, and the ownership of styles. This project models those loops in Dafny and proves
what they keep, over whole runs where the property is about runs.

A table of the database is a sequence, set or map held by a small class; a loop of the source is a method with a loop, proved equal to a
specification function; the properties are lemmas about that function. Where the source raises an exception, the model returns `None`,
`false` or a named outcome.

| file | what it models |
|---|---|
| `CatalogueSync.dfy` | `gs_slurp`: registering the server's resources and removing stale layers, with what the deletion handlers take along |
| `SyncSafety.dfy` | what every run keeps: which layers and which resources it leaves |
| `SyncMeaning.dfy` | what a run fetches, registers, reports, marks and reaches, told by the fields of resources and rows |
| `SyncConvergence.dfy` | runs one after the other come to rest |
| `LayerAttributes.dfy` | `set_attributes`: stored attributes against reported fields |
| `ColumnRenames.dfy`, `LayerNames.dfy`, `Usernames.dfy` | the three searches for a free name |
| `TileGrid.dfy`, `JurisdictionSize.dfy` | snapped bounds, tiles, grid references, the tile index, the size of a jurisdiction |
| `Config.dfy`, `ViewerSources.dfy`, `LexKeys.dfy` | parsing and printing layer configurations, the keyed source table, sorting numerals as strings |
| `FtpLedger.dfy` | recording requests, changes to the stored objects, the details page, the report by data class |
| `CephObjects.dfy` | the stored data files |
| `Gregorian.dfy` | the calendar in the names of requests |
| `Groups.dfy` | memberships and invitations, driven by the steps of users and of the system |
| `Styles.dfy` | default and alternate styles, and what deleting a layer takes along |
| `Numerals.dfy`, `QuerySplit.dfy`, `QueryLists.dfy`, `PathSplit.dfy` | three parsers with their printers |
| `Lists.dfy`, `Text.dfy` | shared facts about sequences, sums and decimal printing |

## Where the code does less than it promises

Each of these is proved: a lemma with a concrete or general failing input, and a lemma that says exactly when the code does what it is meant to do.

- `fullsplit` calls itself the opposite of `os.path.join`. It is so exactly for paths that do not start with a slash and have no
  two neighbouring slashes (`PathSplit.RoundTripExactly`, `PathSplit.AbsoluteLosesRoot`).
- The query splitter does not look for the closing quote on the opening word (`QuerySplit.QuotedWordSwallows`); a single keyword
  survives printing and splitting exactly if it is printable (`QuerySplit.PrintableExactly`), and a list exactly if all its keywords are (`QueryLists.PrintableListsExactly`).
- The search for a user name never ends on an empty directory answer, and always ends otherwise (`Usernames.TerminatesExactly`).
- Points of a shape are missed by every tile exactly when its snapped bounds have no width or no height (`TileGrid.CoverExactly`, `TileGrid.CornerPointIsMissed`).
- The size of a jurisdiction counts an object of tile E1N10 for tile E1N1 as well (`JurisdictionSize.CountedTwice`); it is a true sum, whatever is stored,
  exactly when no visited reference is a beginning of another (`JurisdictionSize.TrueSumExactly`, `JurisdictionSize.BlockTrueSumExactly`).
- The key chosen for the local server in a viewer configuration is one more than the key that sorts last *as a string*. It is new exactly
  when all digits of the last number but its own last are nines; with eleven sources it replaces source 10
  (`ViewerSources.LocalKeyFreshExactly`, `ViewerSources.ElevenSourcesClash`). The layers of the replaced source are then without a source,
  unless a base layer brings it back (`ViewerSources.AllFoundExactly`).
- A fully transparent layer turns opaque when its configuration is parsed and printed twice (`Config.NormalFormExactly`, `Config.ZeroOpacityTurnsOpaque`).
- After `set_attributes` without overwriting, names are unique exactly if no stored field is reported with another type (`LayerAttributes.UniqueExactly`).
  Overwriting heals a doubled table (`LayerAttributes.OverwriteRenumbers`). A second run without overwriting never changes anything, but it raises exactly if the first
  created a row that no lookup can tell from a kept one (`LayerAttributes.SecondRunChangesNothing`), which takes a field that was doubled before (`LayerAttributes.TwinsFail`).
- A comment in `gs_slurp` has an unknown store give an empty list; `get_store` raises instead, and the model follows the code. An unknown *workspace*, however, gives no resources and
  is then forgotten, so the deletion step looks at all workspaces (`SyncSafety.UnknownWorkspaceWipes`, `SyncSafety.SparesOthersExactly`). A store named
  without a workspace is read from the default workspace but deleted from in all workspaces (`SyncSafety.SparesLiveExactly`).
- `gs_slurp` deletes a stale layer with all handlers. They delete every style that only this layer uses and that is not its default, and with such a style
  every layer that has it for its default: a layer out of scope, or one that is live, goes along (`SyncSafety.StrandedLayerGoes`). The deletions of a run take
  their own layers and no others exactly if the styles, seen before the first deletion, strand no layer (`SyncSafety.NothingElseGoesExactly`,
  `Styles.HarmlessExactly`); with every default among its layer's styles none is stranded (`SyncSafety.SoundIsUnstranded`).
- The same handlers delete on the map server what the layer's type name resolves to, which can be a live resource in another store than the stale row's
  (`SyncConvergence.LiveResourceGoes`). A run leaves the server alone exactly if no local row it loses reaches a resource (`SyncSafety.LeavesServerExactly`).
  Against the server as the run leaves it, the second run deletes nothing exactly if every layer left in scope kept a matching resource, or the store that was asked
  for is lost itself (`SyncConvergence.Converges`, `SyncConvergence.AgreesExactly`). Where rows are named by their type, that is so exactly if a store was asked for or no
  such layer lost its whole store (`SyncConvergence.AgreesNamedExactly`); a coverage store that holds resources of several names is lost whole (`SyncConvergence.SharedCoverageUnsettles`).
- A group whose name is already taken by a Django group with other users starts with two records that disagree; the records of all groups agree throughout a run
  exactly if no group is made so (`Groups.RunsAgreeExactly`, `Groups.ForeignGroupBreaksAgreement`).
- Whoever is granted a data request is enrolled in a private group without any manager (`Groups.PrivateMembersAreVouchedFor` names this as the one other way in).
- `set_styles` stores the style associations at once, and the new default only if the layer is saved afterwards. Both the page that manages a layer's styles and the
  handler that runs after every save of a layer (geonode/geoserver/signals.py:443) leave it unsaved. The default stays among the styles throughout a run exactly if each
  update keeps the stored default (`Styles.RunsSoundExactly`); otherwise deleting one layer can take another (`Styles.UnsavedUpdateEndangers`).
- The totals of an FTP request are stored, and its report is computed from the objects as they are now. Updating the metadata of an object, or deleting it, puts the two apart
  (`FtpLedger.UpdateBreaksTotals`); the totals are right at every later moment exactly if no event resizes or deletes an object of the request (`FtpLedger.RequestConservedExactly`).

## Assumptions

Answers of the directory, the map server, the file library and the intersection of polygons are parameters. Coordinates are exact reals. The slug function of the column
check emits only ASCII letters, digits and underscores, possibly nothing at all. Where a request's name depends on how the server prints a day, the lemmas take any printing that is injective and free of underscores; the Gregorian calendar is one (`Gregorian.GregorianIsCalendar`). Failures of
the synchronisation, and the styles saved on the way, are arbitrary functions of the position in the run. Deleting a layer is any function that satisfies `Styles.Deleted`: what
`Styles.StyleStore.Delete` guarantees whatever the order in which styles are visited. A deletion that fails changes nothing, and the server carries out what a
deletion asks of it. Every resource of the server has a published layer. A directory's answer for a prefix lists every account that starts with it. Clocks do not run backwards, and requests come one at a time.

## Model

| member | source | states |
|---|---|---|
| `Numerals.NumEncode` | geonode/utils.py:551-560 | The loop of divisions gives the numeral that `RoundTrip`, `DigitCount` and `CanonicalExactly` are about. |
| `Numerals.NumDecode` | geonode/utils.py:563-569 | The accumulating loop gives the value that `DecodeIsPositional` describes; empty numerals and unknown symbols are errors. |
| `Numerals.RoundTrip` | geonode/utils.py:551-569 | Decoding an encoded integer gives that integer, for every integer, negative ones included. |
| `Numerals.DecodeIsPositional` | geonode/utils.py:563-569 | An unsigned numeral decodes exactly if all its symbols are in the alphabet, and then to the sum of its digits times powers of 64. |
| `Numerals.SampleNumerals` | geonode/utils.py:48-52 | The corners of the alphabet, the sign and the order of the digits. |
| `Numerals.DigitCount` | geonode/utils.py:551-560 | A positive number with d digits lies from 64^(d-1) up to, not including, 64^d. |
| `Numerals.CanonicalExactly` | geonode/utils.py:551-569 | Encoding gives a string back after decoding if and only if it is canonical: no superfluous leading zero symbol, no signed zero, one sign at most. |
| `PathSplit.SplitOfJoin` | setup.py:24-36 | Splitting a join of non-empty components without slashes gives those components. |
| `PathSplit.SplitShape` | setup.py:24-36 | No component of any path holds a slash, and only the last one can be empty. |
| `PathSplit.RoundTripExactly` | setup.py:24-36 | Joining the components gives the path back if and only if it does not start with a slash and has no two neighbouring slashes. |
| `PathSplit.AbsoluteLosesRoot` | setup.py:24-36 | For any two components a and b, splitting "/a/b" gives a and b, whose join is another path. |
| `QuerySplit.SplitQuery` | geonode/utils.py:80-102 | The scan with its accumulator gives the keywords the round trip is about; every keyword is non-empty and stripped, whatever the query. |
| `QuerySplit.RoundTrip` | geonode/utils.py:80-102 | Printing a list of printable keywords, quoted where they hold a space, and splitting gives the same list. |
| `QuerySplit.SpacedRoundTrip` | geonode/tests/smoke.py:252-258 | Any number of further spaces before, between and after the keywords makes no difference; the smoke test's query is of this form. |
| `QuerySplit.PrintableExactly` | geonode/utils.py:80-102 | A single keyword comes back if and only if it is stripped, non-empty and its words neither open nor close a block too early. |
| `QueryLists.PrintableListsExactly` | geonode/utils.py:80-102 | A list of keywords comes back from printing and splitting if and only if every keyword of it is printable. |
| `QuerySplit.EarlyClosing` | geonode/utils.py:95-99 | A quoted keyword with an inner word that ends in a quote never comes back whole. |
| `QuerySplit.QuotedWordSwallows` | geonode/utils.py:90-101 | The concrete failure: the block opened by a quoted single word takes in what follows. |
| `Usernames.BaseUsername` | geonode/datarequests/utils.py:29-41 | Whatever the white space: the first characters of all words of the first name, that of the middle name's first word, and all words of the last name, in this order, in lower case, without disallowed characters; there is none exactly if the middle name has no word. |
| `Usernames.BaseOfWords` | geonode/datarequests/utils.py:29-41 | From names of any number of words: the initials of all first names, the middle initial and the last name in full, in this order and in lower case. |
| `Usernames.BaseOfFive` | geonode/datarequests/utils.py:29-41 | Two first names, a middle name and a last name of two words, spelled out. |
| `Usernames.CharactersExactly` | geonode/datarequests/utils.py:17-41 | The sixteen disallowed characters, and the small letters of the capitals. |
| `Usernames.RemoveDisallowed` | geonode/datarequests/utils.py:39-41 | Replacing while walking over the old text removes exactly the disallowed characters and keeps the rest in order. |
| `Usernames.FreeCandidateExists` | geonode/datarequests/utils.py:46-60 | Whatever the directory holds, one of base, base1, base12, base123, ... is free, since they grow. |
| `Usernames.CandidatesExactly` | geonode/datarequests/utils.py:46-60 | The candidates are the base, base1, base12, base123, each the last one with the next number behind. |
| `Usernames.RunReaches` | geonode/datarequests/utils.py:43-60 | The loop stops at the first free candidate and at no other. |
| `Usernames.TerminatesExactly` | geonode/datarequests/utils.py:46-60 | The loop ends if and only if the directory's answer has an entry. |
| `Usernames.CreateUsername` | geonode/datarequests/utils.py:43-62 | The loop returns the first free candidate (base if free, else base1 if free, else base12 if free, and so on), and no account of the whole directory has it, listed or not. |
| `Usernames.CreateLoginCredentials` | geonode/datarequests/utils.py:27-62 | The whole procedure: the first free candidate from the composed base name, the base itself if it is free; no account has it and it has no disallowed character. |
| `LayerNames.CleanValid` | geonode/layers/utils.py:60-72 | A cleaned name has only letters, digits, dots and underscores and does not start with a digit. |
| `LayerNames.CleanFixedExactly` | geonode/layers/utils.py:60-72 | Cleaning leaves a name alone if and only if it has that form. |
| `LayerNames.CleanIdempotent` | geonode/layers/utils.py:60-72 | Cleaning twice is cleaning once. |
| `LayerNames.CleanKeepsText` | geonode/layers/utils.py:60-72 | Apart from underscores, the usable characters survive in order, from the first usable one on. |
| `LayerNames.CharsExactly` | geonode/layers/utils.py:60-72 | Letters, dots and underscores can lead a name, and digits besides can be in it. |
| `LayerNames.SubRunsExactly` | geonode/layers/utils.py:60-72 | A run of unusable characters, however long, becomes one underscore; usable ones are kept. |
| `LayerNames.CleanExactly` | geonode/layers/utils.py:60-72 | A digit at the front gets an underscore before it, a front that cannot lead becomes one underscore, any other front stays. |
| `LayerNames.TriesBounded` | geonode/layers/utils.py:214-218 | While all tries are taken, there are no more tries than layers. |
| `LayerNames.NumberedExactly` | geonode/layers/utils.py:213-218 | The tries are the name, name_1, name_2 and so on. |
| `LayerNames.GetValidName` | geonode/layers/utils.py:208-224 | The first free name of name, name_1, name_2, ... (the cleaned name itself if it is free), found within as many steps as there are layers, valid, and an error on the empty name. |
| `LayerNames.GetValidLayerName` | geonode/layers/utils.py:227-242 | Overwriting keeps the name as given; otherwise the name is unused and valid; other arguments are refused. |
| `ColumnRenames.TryShape` | geonode/utils.py:672-678 | After k passes the counter is k and the name ends in "_k", also past 9, where cutting two characters leaves part of the old suffix. |
| `ColumnRenames.ValidExactly` | geonode/utils.py:646-650 | A column name is accepted if, apart from one newline at its end, it is a letter, comma or underscore and then letters, commas, underscores, number signs, colons and digits. |
| `ColumnRenames.StartExactly` | geonode/utils.py:666-669 | The first try is the slug itself, or the slug behind an underscore where it is empty or begins with a digit. |
| `ColumnRenames.TryExactly` | geonode/utils.py:670-678 | The tries: the start, the start with "_1", and then the last try without two characters and with the next number; the start is the beginning of each. |
| `ColumnRenames.TriesToHundred` | geonode/utils.py:672-678 | Up to ten the numbers follow one underscore; from eleven to a hundred each try has one underscore more than the last. |
| `ColumnRenames.TriesDiffer` | geonode/utils.py:672-678 | No try is ever repeated. |
| `ColumnRenames.TriesBounded` | geonode/utils.py:672-678 | While all tries are taken, there are no more tries than taken names. |
| `ColumnRenames.FreshColumn` | geonode/utils.py:672-678 | The loop ends with the first try that is not taken, and it is a valid column name. |
| `ColumnRenames.MakePlan` | geonode/utils.py:655-681 | The plan renames exactly the invalid columns, each to the first try from its own slug that no valid column and no earlier plan entry has, all valid, pairwise different and no column's name; it fails exactly on undecodable names. |
| `ColumnRenames.PlanDetermined` | geonode/utils.py:655-681 | Columns and slugs leave no choice: two plans of first unused tries are the same. |
| `ColumnRenames.NeverCollides` | geonode/utils.py:686-688 | Whichever renames have been carried out, column names are distinct and no coming target is in use. |
| `ColumnRenames.RenameStep` | geonode/utils.py:686-688 | One more rename turns the state after some keys into the state after one more key. |
| `ColumnRenames.ShapeTable.RenameAll` | geonode/utils.py:686-688 | Renaming in any order ends in the planned columns, every statement meeting an unused target. |
| `ColumnRenames.ShapeTable.CheckColumnNames` | geonode/utils.py:627-689 | Unless the file or a name is unreadable, all columns are valid and distinct afterwards: valid ones as they were, the others under the first unused try; otherwise nothing is changed. |
| `TileGrid.VisitsEachOnce` | geonode/cephgeo/utils.py:152-175 | The double loop visits (w/1000)(h/1000) tiles, none twice. |
| `TileGrid.ExactCover` | geonode/cephgeo/utils.py:152-182 | As half-open squares the visited tiles cover the snapped bounds exactly, and no point is in two of them. |
| `TileGrid.GridRefInjective` | geonode/cephgeo/utils.py:184 | Different tiles have different grid references. |
| `TileGrid.SampleReferences` | geonode/cephgeo/utils.py:184 | Easting first, then the northing of the upper edge, both in kilometres. |
| `TileGrid.CoverExactly` | geonode/cephgeo/utils.py:152-191 | Every point of a shape is in a visited tile that touches the shape if and only if the snapped bounds have a width and a height. |
| `TileGrid.CornerPointIsMissed` | geonode/cephgeo/utils.py:152-175 | A shape that is one grid corner is in no visited tile. |
| `TileGrid.MissionIndex.TileRow` | geonode/cephgeo/utils.py:175-193 | One row of the loop: a row is stored for every touching tile that has none. |
| `TileGrid.MissionIndex.TileShape` | geonode/cephgeo/utils.py:169-193 | The double loop stores exactly what `IndexingIsExactAndIdempotent` describes. |
| `TileGrid.IndexingIsExactAndIdempotent` | geonode/cephgeo/utils.py:187-193 | A row for every touching tile and no other new row, old rows stay in front, nothing is stored twice, and a second run adds nothing. |
| `TileGrid.EveryPointIsIndexed` | geonode/cephgeo/utils.py:152-193 | Every point of the shape is in a closed tile whose reference is stored under the shape's UID. |
| `JurisdictionSize.GetJurisDataSize` | geonode/datarequests/utils.py:162-187 | The nested loops return the sum that the exchange below is about. |
| `JurisdictionSize.SumExchange` | geonode/datarequests/utils.py:170-186 | The total counts every object as often as it has visited references for a beginning. |
| `JurisdictionSize.TrueSumExactly` | geonode/datarequests/utils.py:180-186 | The total is the size of the distinct matching objects, for every stored table, if and only if no visited reference is a beginning of another. |
| `JurisdictionSize.CountedTwice` | geonode/datarequests/utils.py:180-186 | An object of tile E1N10 is counted twice when E1N1 is visited too. |
| `JurisdictionSize.DecIntPrefix` | geonode/datarequests/utils.py:179 | A decimal numeral that begins another one stands for at most a tenth of it, in size. |
| `JurisdictionSize.BlockTrueSumExactly` | geonode/datarequests/utils.py:162-187 | When every tile of the bounds is touched, the total is a true sum for every table if and only if no northing has its tenfold in the bounds. |
| `JurisdictionSize.TrueSum` | geonode/datarequests/utils.py:162-187 | For any jurisdiction the total is a true sum if no northing has its tenfold in the bounds. |
| `JurisdictionSize.SameDigitCountSuffices` | geonode/datarequests/utils.py:179 | That is so when all northings are natural numbers with equally many digits. |
| `LexKeys.Greatest` | geonode/utils.py:264-268 | The last of the sorted keys. |
| `LexKeys.NextOfGreatestFreshExactly` | geonode/utils.py:264-268 | One more than the key that sorts last among "0" to "n" is a new key if and only if all digits of n but the last are nines. |
| `Config.LayerFromViewerConfig` | geonode/utils.py:158-192 | Deleting the known keys one by one and filling the fields gives the record the normal form is about. |
| `Config.ParsedExactly` | geonode/utils.py:158-192 | The parsed record, field by field: the ordering, what the configuration says, the url of the source, and in the parameters exactly the keys that have no field. |
| `Config.ParsedDefaults` | geonode/utils.py:179-192 | What each missing key stands for. |
| `Config.LayerConfig` | geonode/utils.py:364-395 | The conditional assignments give the configuration that `PrintLookup` describes key by key. |
| `Config.PrintLookup` | geonode/utils.py:364-395 | What a printed configuration holds under each key, whatever the order of the assignments. |
| `Config.SourceExactly` | geonode/utils.py:349-362 | The printed source, key by key: the parameters, or a "gxp_wmscsource" at "/gs/rest" where they cannot be used, and the url if it is true. |
| `Config.FalsyExactly` | geonode/utils.py:372-393 | The values that count as false. |
| `Config.NormalIsPrintOfParse` | geonode/utils.py:158-192 | Neither source nor position of a layer has an influence on its printed configuration. |
| `Config.NormalKeyByKey` | geonode/utils.py:172-192 | Parsing and printing keeps all unknown keys; known keys get their normal value or are dropped. |
| `Config.NormalFormExactly` | geonode/utils.py:364-395 | A second pass changes nothing if and only if the opacity is true as a truth value or absent. |
| `Config.ZeroOpacityTurnsOpaque` | geonode/utils.py:383-384 | Opacity zero is dropped by the first pass and comes back as one in the second. |
| `Config.SourceRoundTrip` | geonode/utils.py:349-362 | A source printed from the layer it was parsed into is the source without projection and without a false url. |
| `Config.SourceRoundTripExactly` | geonode/utils.py:349-362 | It is the same source if and only if it has neither. |
| `ViewerSources.Uniqify` | geonode/utils.py:222-234 | The list that `UniqFirstSeen` describes. |
| `ViewerSources.UniqFirstSeen` | geonode/utils.py:222-234 | The distinct sources, in the order they are first seen. |
| `ViewerSources.NumberSources` | geonode/utils.py:236-243 | The numbered table of the distinct sources. |
| `ViewerSources.NumberUpShape` | geonode/utils.py:238-243 | Its keys are "0" to "k-1", each with the source of that position. |
| `ViewerSources.LocalKeyFreshExactly` | geonode/utils.py:262-268 | The key chosen for the local server is new if and only if all digits of the last number but its last are nines. |
| `ViewerSources.NothingLostExactly` | geonode/utils.py:262-268 | Adding the local server loses no layer source under that condition, and one otherwise. |
| `ViewerSources.TenSourcesSuffice` | geonode/utils.py:264-268 | The condition holds for one to ten sources. |
| `ViewerSources.ElevenSourcesClash` | geonode/utils.py:264-268 | It fails for eleven. |
| `LexKeys.LexExactly` | geonode/utils.py:262-266 | One key sorts before another if it is a beginning of it or has the smaller character where they first differ. |
| `ViewerSources.WithLocalExactly` | geonode/utils.py:259-268 | The table after the local server's turn, spelled out: unchanged if an entry has its url, else with it, titled "Local Geoserver", under the number after the key that sorts last. |
| `ViewerSources.SameBaseExactly` | geonode/utils.py:270-276 | A base source is matched by an entry that differs from it in nothing but id, baseParams and title. |
| `ViewerSources.AddBaseSources` | geonode/utils.py:270-283 | Every base source is present up to id, baseParams and title; no entry is overwritten and new keys are numbers above all old ones; added is exactly the first base source of each kind that had no match. |
| `ViewerSources.LocalExtendsExactly` | geonode/utils.py:259-268 | After the local server's turn every layer source is still under its key, if and only if its url was known or its key was new. |
| `ViewerSources.MapSettings.AddLocal` | geonode/utils.py:259-268 | The table after the local server's turn, the title written into the settings, and the exceptions. |
| `ViewerSources.MapSettings.BuildSources` | geonode/utils.py:236-283 | The finished table: base sources present, layer sources in place and found under the exact conditions, nothing but layer and base sources. |
| `ViewerSources.SourceLookup` | geonode/utils.py:245-249 | The key found holds the source; no key means the source is not in the table. |
| `ViewerSources.EmittedLayer` | geonode/utils.py:251-257 | An emitted layer's source key leads to that layer's own source, and is missing only if that source is. |
| `ViewerSources.EveryLayerFindsItsSource` | geonode/utils.py:236-257 | In a table that extends the numbered sources, every layer of the map finds its source. |
| `ViewerSources.AllFoundExactly` | geonode/utils.py:245-283 | In the finished table every layer source is found if and only if the local server leaves them in place or the one it replaces is added again as a base source. |
| `LayerAttributes.Note` | geonode/geoserver/helpers.py:718-726 | The inner loop: texts and order are noted at every entry of that name, and whether there was one. |
| `LayerAttributes.AttributeTable.DropMissing` | geonode/geoserver/helpers.py:712-732 | What is left, and what is remembered, after looking at every stored attribute. |
| `LayerAttributes.AttributeTable.Reconcile` | geonode/geoserver/helpers.py:712-770 | The table after a run, and when a lookup is ambiguous, as one outcome; `RunShape`, `CreatedExactly` and `OrdersExactly` say what that outcome is. |
| `LayerAttributes.RunShape` | geonode/geoserver/helpers.py:715-768 | From any stored table and distinct fields: the run fails exactly on an ambiguous lookup; else the kept rows unchanged in front, then one created row for each field not found. |
| `LayerAttributes.CreatedExactly` | geonode/geoserver/helpers.py:735-764 | A row that a run creates has name and type of a reported field, and is visible if and only if the type does not begin with "gml:". |
| `LayerAttributes.OrdersExactly` | geonode/geoserver/helpers.py:734-764 | Kept rows are the stored ones whose name is reported, none when overwriting; the created rows behind them have the display orders that follow. |
| `LayerAttributes.SampleVisibility` | geonode/geoserver/helpers.py:735-764 | An empty table with a field of an ordinary type, and with a geometry: one row with display order 1, shown in the first case and hidden in the second. |
| `LayerAttributes.RunSucceeds` | geonode/geoserver/helpers.py:735-743 | With unique names, or when the table is rebuilt, no lookup is ambiguous. |
| `LayerAttributes.NamesAgree` | geonode/geoserver/helpers.py:712-768 | After any run that succeeds, a name is stored if and only if it is reported. |
| `LayerAttributes.UserTextSurvives` | geonode/geoserver/helpers.py:721-726 | Descriptions and labels of fields that are still reported survive, overwriting or not. |
| `LayerAttributes.LastTextSurvives` | geonode/geoserver/helpers.py:717-726 | From any stored table, doubled names and all: a row a run creates has the description and label of the last stored row of its name, or none if there was no such row. |
| `LayerAttributes.OverwriteRenumbers` | geonode/geoserver/helpers.py:727-764 | Overwriting any stored table leaves one row per named field, in server order, with display orders 1 to n; doubled names are healed. |
| `LayerAttributes.UniqueExactly` | geonode/geoserver/helpers.py:740-743 | Names stay unique if and only if the table is rebuilt or no stored field is reported with another type. |
| `LayerAttributes.ChangedTypeDoubles` | geonode/geoserver/helpers.py:740-743 | A stored field that is reported with another type ends up twice. |
| `LayerAttributes.AgreedTableIsFixed` | geonode/geoserver/helpers.py:717-764 | A table without doubled names that agrees with the report is left alone. |
| `LayerAttributes.SecondRunChangesNothing` | geonode/geoserver/helpers.py:712-768 | After any run that succeeds, a second run without overwriting changes nothing; it fails if and only if the first created a twin of a kept row. |
| `LayerAttributes.SecondRunSucceeds` | geonode/geoserver/helpers.py:712-768 | From unique names, or after a rebuild, it succeeds, whatever types have changed. |
| `LayerAttributes.TwinsFail` | geonode/geoserver/helpers.py:740-743 | A table with a doubled field on which the second run fails. |
| `CatalogueSync.Catalogue.GetOrCreate` | geonode/geoserver/helpers.py:446-459 | The row is looked up by its name alone, appended if there is none, and an ambiguous name is an error. |
| `CatalogueSync.Catalogue.Process` | geonode/geoserver/helpers.py:441-493 | The row and the status of one resource, with failures before and after the row exists. |
| `CatalogueSync.Catalogue.IngestAll` | geonode/geoserver/helpers.py:441-504 | One report line per resource, counts by status, and the stop at the first failure unless errors are ignored. |
| `CatalogueSync.Catalogue.PurgeAll` | geonode/geoserver/helpers.py:226-318 | The server after the handlers of the rows that go: the resource a type name resolves to, and a store that is purged or empty. |
| `CatalogueSync.Catalogue.RemoveStale` | geonode/geoserver/helpers.py:561-599 | Rows and server after the marked deletions, with all each takes along, passing over rows already gone; deleted and failed deletions add up to the marked ones. |
| `CatalogueSync.Catalogue.GsSlurp` | geonode/geoserver/helpers.py:353-605 | The whole run: table and server after it, when it raises or stops, one report line for every selected resource and every marked layer, created + updated + failed = lines; `SyncMeaning` says which resources and layers these are and with which status. |
| `CatalogueSync.CountTotal` | geonode/geoserver/helpers.py:486-502 | Every processed resource is counted under exactly one status. |
| `SyncMeaning.FetchFailsExactly` | geonode/geoserver/helpers.py:375-395 | Asking the server raises if and only if a store was asked for that is not there, in the workspace asked for or the default one; not if the workspace is unknown. |
| `SyncMeaning.FetchedExactly` | geonode/geoserver/helpers.py:375-395 | A resource is fetched if and only if the server has it in the workspace and the store that were asked for. |
| `SyncMeaning.ContainsExactly` | geonode/geoserver/helpers.py:409 | A name holds the filter if and only if the filter is one of its slices. |
| `SyncMeaning.SelectedExactly` | geonode/geoserver/helpers.py:408-420 | A resource is registered if and only if it is fetched, enabled, advertised where asked, has the filter text as a slice of its name, and, with registered ones skipped, no layer has its type name. |
| `SyncMeaning.RegisterExactly` | geonode/geoserver/helpers.py:445-493 | Created if no row has the name and nothing fails, updated if one row has it, failed on a failure or on two rows of the name; the row that is appended, field by field, also on a late failure. |
| `SyncMeaning.NewRowLooks` | geonode/geoserver/helpers.py:445-459 | A new layer is local, without a default unless saved with one, and with the styles of that save; no other layer's styles change. |
| `SyncMeaning.StatusExactly` | geonode/geoserver/helpers.py:441-502 | Over a whole run, which status each line has, by the table at that resource's turn. |
| `SyncMeaning.AddedExactly` | geonode/geoserver/helpers.py:402-459 | Every row a run adds copies an enabled resource of the server whose name holds the filter text, with its type name. |
| `SyncMeaning.LinesExactly` | geonode/geoserver/helpers.py:402-504 | Every line reported is that of such a resource. |
| `SyncMeaning.CountsExactly` | geonode/geoserver/helpers.py:486-605 | Each number of the report is the number of lines with that status; deleted is the number of deletions that went through. |
| `SyncMeaning.MarkedExactly` | geonode/geoserver/helpers.py:506-553 | A layer is marked if and only if deletion was asked for, the run did not stop, it lies in the workspace and store asked for, and no fetched resource that is enabled, and advertised where asked, has its name, workspace and store. |
| `SyncMeaning.ReachedExactly` | geonode/geoserver/helpers.py:226-284 | What a deletion reaches on the server, by a type name "w:n": the resource n in the store (w, n), or else in the default data store of w, if there is one. |
| `SyncMeaning.OldRowLooks` | geonode/geoserver/helpers.py:446-484 | A layer that is updated gets the default and styles saved with it, keeps its own where none are saved, and no other layer's styles change. |
| `SyncMeaning.StopsExactly` | geonode/geoserver/helpers.py:468-493 | A run stops at its first failure, if errors are not ignored, and otherwise has a status for every resource. |
| `SyncMeaning.NamesExactly` | geonode/geoserver/helpers.py:441-493 | After registering, a name has a row if and only if it had one or a resource of that name had its turn without an early failure. |
| `SyncMeaning.DeletionsExactly` | geonode/geoserver/helpers.py:506-605 | Every line about a deletion names a marked layer and says whether its deletion went through. |
| `SyncSafety.IngestAppends` | geonode/geoserver/helpers.py:445-459 | Registering only appends, and every appended row copies name, workspace and store of a resource. |
| `SyncSafety.RegistersAll` | geonode/geoserver/helpers.py:441-459 | A run without failures or deletion gives every selected resource a layer of its name, a copy of the resource where the name was new. |
| `SyncSafety.NewIsNeverStale` | geonode/geoserver/helpers.py:530-553 | A layer created in a run is not marked by it, whatever fails. |
| `SyncSafety.NewSurvives` | geonode/geoserver/helpers.py:441-599 | A layer created in a run that strands none is still there when the run ends. |
| `SyncSafety.NothingElseGoesExactly` | geonode/geoserver/helpers.py:561-583 | Every deletion of a run takes its own row and no other, if and only if the styles before the first deletion strand no layer. |
| `SyncSafety.SoundIsUnstranded` | geonode/layers/models.py:513-516 | With every default among its layer's styles, no run strands a layer. |
| `SyncSafety.IngestSound` | geonode/geoserver/signals.py:440-443 | Registering keeps every default among its layer's styles if every save on the way does. |
| `SyncSafety.SurvivesExactly` | geonode/geoserver/helpers.py:441-599 | After any run that strands no layer, exactly those rows are left that were there after registering and whose own deletion did not go through. |
| `SyncSafety.SurvivesUnlessStale` | geonode/geoserver/helpers.py:506-553 | Over any run that strands no layer, a layer survives unless it is in scope and has no live resource of its name, workspace and store. |
| `SyncSafety.StrandedLayerGoes` | geonode/geoserver/helpers.py:578 | The concrete failure: asked for one workspace the server knows, a run deletes the only layer of another. |
| `SyncSafety.SparesOthersExactly` | geonode/geoserver/helpers.py:375-378 | Runs that delete and strand no layer spare all layers outside the requested workspace and store if and only if the workspace is known to the server. |
| `SyncSafety.UnknownWorkspaceWipes` | geonode/geoserver/helpers.py:506-513 | With an unknown workspace, a layer of any other workspace is deleted. |
| `SyncSafety.SparesLiveExactly` | geonode/geoserver/helpers.py:391-393 | Such runs spare layers with a live resource on the server if and only if every live resource in scope was fetched. |
| `SyncSafety.LeavesServerExactly` | geonode/geoserver/helpers.py:226-318 | A run leaves the server as it is if and only if no local row it loses reaches a resource there. |
| `SyncSafety.LeavesServerUnstranded` | geonode/geoserver/helpers.py:226-318 | The same told before the first deletion, for runs that strand no layer: over the local rows whose own deletion goes through. |
| `SyncSafety.ServerLossExactly` | geonode/geoserver/helpers.py:272-318 | After any run the server has exactly what it had, without the resources reached by rows that went and without the stores purged or emptied with them. |
| `SyncConvergence.FirstRunAgrees` | geonode/geoserver/helpers.py:506-599 | From unique names, after one run without failures every in-scope layer has a resource that was live, and names are unique. |
| `SyncConvergence.AgreedRunDeletesNothing` | geonode/geoserver/helpers.py:353-605 | From agreement a run deletes nothing, here or on the server, keeps agreement and leaves no selected resource without a layer. |
| `SyncConvergence.KeepsAllExactly` | geonode/geoserver/helpers.py:506-599 | A run without failures keeps all rows if and only if every in-scope layer has a live resource. |
| `SyncConvergence.AgreesExactly` | geonode/geoserver/helpers.py:226-318 | After any run the layers agree with the server as the run leaves it, if and only if each layer left in scope keeps a matching resource, or the store that was asked for is lost. |
| `SyncConvergence.AgreesNamedExactly` | geonode/geoserver/helpers.py:272-318 | Where rows are named by their type: if and only if a store was asked for or no layer left in scope has lost its whole store. |
| `SyncConvergence.AgreesUnstrandedExactly` | geonode/geoserver/helpers.py:272-318 | The same for runs that strand no layer, over the rows that are registered and not deleted themselves. |
| `SyncConvergence.QuietRunAgrees` | geonode/geoserver/helpers.py:506-599 | In particular if the run leaves the server alone. |
| `SyncConvergence.AgreesAsLeft` | geonode/geoserver/helpers.py:293-300 | In particular if no coverage store holds resources of different names. |
| `SyncConvergence.Converges` | geonode/geoserver/helpers.py:353-605 | Three runs, each against the server as the one before left it: the second keeps all the first has left if and only if each layer left in scope kept a matching resource; then it leaves no selected resource without a layer, and the third changes nothing. |
| `SyncConvergence.LiveResourceGoes` | geonode/geoserver/helpers.py:226-284 | A stale row of a live resource's name takes that resource from the server, and nothing is left to register. |
| `SyncConvergence.SharedCoverageUnsettles` | geonode/geoserver/helpers.py:293-300 | A purged coverage store takes another layer's resource, and that layer disagrees with the server after the run. |
| `Styles.SetStylesSoundExactly` | geonode/geoserver/helpers.py:773-787 | Updating styles keeps "the default is among the styles" if and only if the layer is saved or its old default is still among them. |
| `Styles.StyleStore.Update` | geonode/geoserver/helpers.py:773-796 | The layer's styles are then the new default and the alternates and no others, its default the new one if saved and the old one if not; flags and all other layers stay, and exactly these styles are added to the table. |
| `Styles.StyleStore.DropStyle` | geonode/layers/models.py:111-116 | Deleting a style loses exactly the layers whose default it is; the others lose at most its association, and no other style goes. |
| `Styles.StyleStore.PreDelete` | geonode/layers/models.py:498-516 | The walk over the styles, in any order, with counts read as it goes: what is removed, and when other layers are left alone. |
| `Styles.StyleStore.Delete` | geonode/layers/models.py:498-545 | Deleting a layer loses another layer if and only if a style only it uses, not its default, is another's default; otherwise the whole outcome. |
| `Styles.SoundIsHarmless` | geonode/layers/models.py:513-516 | With every default among the styles, no deletion reaches another layer. |
| `Styles.DeleteKeepsSound` | geonode/layers/models.py:498-545 | Deleting keeps that invariant for the layers left. |
| `Styles.OthersKeepTheirStyles` | geonode/layers/models.py:513-545 | Other layers keep their defaults and all alternates but, possibly, the deleted layer's default. |
| `Styles.StylesLeftExactly` | geonode/layers/models.py:513-545 | Which style rows are left after a deletion, as an if-and-only-if. |
| `Styles.NoOrphanRemains` | geonode/layers/models.py:513-545 | No style is left that only the deleted layer used. |
| `Styles.HarmlessExactly` | geonode/layers/models.py:513-516 | Of several deletions none is hazardous at its turn, if and only if the store before the first shows no layer stranded by the last user of a style. |
| `Styles.EachTakesItsOwnExactly` | geonode/layers/models.py:498-545 | Under the same condition, and only then, each of the deletions takes its own layer and no other. |
| `Styles.LeftExactly` | geonode/layers/models.py:498-545 | Then exactly the layers are left whose deletion did not go through. |
| `Styles.SoundIsHarmlessForAll` | geonode/layers/models.py:513-516 | With every default among its layer's styles, no list of deletions strands a layer. |
| `Styles.RunsSoundExactly` | geonode/geoserver/signals.py:440-443 | Over any run of additions, updates and deletions every default is among its layer's styles throughout, if and only if every update is saved, or its layer's stored default is none or among the new styles. |
| `Styles.RunsAreSafe` | geonode/layers/models.py:498-545 | Over such a run no deletion takes a layer but its own. |
| `Styles.UnsavedUpdateEndangers` | geonode/geoserver/views.py:162-175 | A run with one unsaved update after which deleting one layer takes another along. |
| `FtpLedger.FtpDesk.CreateFtpFolder` | geonode/cephgeo/views.py:330-397 | When the caller must wait (less than 300 seconds after the latest request), when a projection or an object is unknown, and else the request and the rows that are recorded, what is sent, and that the cart is emptied only then. |
| `FtpLedger.NameExactly` | geonode/cephgeo/views.py:371 | The name of a request made on a given day: "ftprequest_", the day as printed, an underscore, two digits of the hour and two of the minute. |
| `FtpLedger.LabelsExactly` | geonode/cephgeo/models.py:28-34 | The labels of the five classes. |
| `FtpLedger.CartGone` | geonode/cephgeo/views.py:354-356 | A cart has all its objects if and only if no number in it is missing from the store. |
| `FtpLedger.BytesIsSum` | geonode/cephgeo/views.py:357 | The total is the sum of the sizes. |
| `FtpLedger.NamesOfExactly` | geonode/cephgeo/views.py:359-367 | The names listed under a class are those of its objects, in the order of the cart. |
| `FtpLedger.FtpDesk.StoreObject` | geonode/tasks/ceph_update.py:136-169 | An object's metadata are written or overwritten; ledger and other objects stay. |
| `FtpLedger.FtpDesk.DropObject` | geonode/tasks/ceph_update.py:240-253 | An object goes with all its index rows; the requests keep their totals. |
| `FtpLedger.Latest` | geonode/cephgeo/views.py:334 | The time of a request that no other is later than. |
| `FtpLedger.Collect` | geonode/cephgeo/views.py:354-367 | The walk over the cart: totals, count and names grouped by class; it fails exactly if an object is gone. |
| `FtpLedger.GroupStep` | geonode/cephgeo/views.py:362-367 | Adding one name keeps the table the grouping of the objects seen, one entry per class that occurs. |
| `FtpLedger.NameTellsMinute` | geonode/cephgeo/views.py:371 | Equal names were made in the same minute. |
| `FtpLedger.RunIsSpaced` | geonode/cephgeo/views.py:333-336 | Over any run each request is named and recorded at least 300 seconds after the one before. |
| `FtpLedger.NamesNeverClash` | geonode/cephgeo/views.py:333-377 | Over any run recorded requests are at least 300 seconds apart, and no two share a name. |
| `Gregorian.DaysAreAdjacent` | geonode/cephgeo/views.py:371 | In the calendar of the names the next day and the previous day undo each other, in every month of every year. |
| `Gregorian.GregorianIsCalendar` | geonode/cephgeo/views.py:371 | Different days are printed differently, as year, month and day. |
| `Gregorian.SampleName` | geonode/cephgeo/views.py:371 | One name in full, with the hour before the minute. |
| `Gregorian.SerialExactly` | geonode/cephgeo/views.py:371 | The n-th day of the calendar is the one that a day number formula without leap years or month lengths gives the number n. |
| `Gregorian.ServerNamesNeverClash` | geonode/cephgeo/views.py:333-377 | So over any run no two requests share a name, with the names the server gives. |
| `FtpLedger.MatchingOnce` | geonode/cephgeo/views.py:453-454 | With different names, at most one request matches a name and user. |
| `FtpLedger.LookupIsUnambiguous` | geonode/cephgeo/views.py:453-454 | Over any run the lookup of the details page never meets two requests. |
| `FtpLedger.RequestDetails` | geonode/cephgeo/views.py:449-466 | The page shows the one matching request with its objects, as many as it has tiles, or fails. |
| `FtpLedger.ReportByType` | geonode/cephgeo/utils.py:283-297 | Tiles and bytes of one class among a request's objects. |
| `FtpLedger.ClassesAddUp` | geonode/cephgeo/utils.py:270-297 | Over the five classes, bytes and tiles add up to the whole. |
| `FtpLedger.RecordingIsBalanced` | geonode/cephgeo/views.py:354-387 | A request is recorded with exactly the rows of its cart, and with their totals. |
| `FtpLedger.EventKeepsExactly` | geonode/tasks/ceph_update.py:136-253 | Right totals of a request stay right through an event if and only if it neither resizes nor deletes an object of the request. |
| `FtpLedger.StaysBalancedExactly` | geonode/cephgeo/utils.py:270-297 | Over any run, the totals of a request are right at every moment if and only if no event disturbs the request. |
| `FtpLedger.RequestConservedExactly` | geonode/cephgeo/views.py:354-387 | So it is for every request of every run from its recording on. |
| `FtpLedger.UpdateBreaksTotals` | geonode/tasks/ceph_update.py:144 | The concrete failure: an object of a request is stored again with another size. |
| `FtpLedger.RecordedIsFound` | geonode/cephgeo/views.py:371-454 | After any run, and whatever comes later, the details page finds under that name and user the request as it was recorded. |
| `FtpLedger.ReportConservesExactly` | geonode/cephgeo/utils.py:270-281 | The report by four classes falls short of the recorded totals by exactly the unknown class, if and only if the totals are right. |
| `FtpLedger.NamesAreConserved` | geonode/cephgeo/views.py:354-367 | The lists by class are together a permutation of the names in the cart. |
| `Groups.GroupSite.JoinOne` | geonode/groups/models.py:138-146 | Both records are written, or none; the anonymous user and members are refused. |
| `Groups.GroupSite.AddAll` | geonode/groups/views.py:132-135 | Users join until the first that cannot; earlier ones stay. |
| `Groups.GroupSite.InviteEach` | geonode/groups/models.py:148-173 | One invitation per address; inviting again re-uses it. |
| `Groups.GroupSite.AcceptInvitation` | geonode/groups/models.py:243-252 | Accepting adds exactly the invited membership, or changes nothing. |
| `Groups.CreatedAgreesExactly` | geonode/groups/models.py:55-58 | A group made with its first member, by a user or by the system, starts with agreeing records if and only if no one else is in a Django group of that name. |
| `Groups.GroupSite.Perform` | geonode/groups/views.py:16-222 | Every step with its guard: the tables afterwards; `MembersAfterExactly`, `RoleAfterExactly`, `InvitedAfterExactly`, `NewInvitationExactly`, `InvitationAfterExactly` and `GroupsAfterExactly` say what they hold. |
| `Groups.CreateAgreesExactly` | geonode/groups/models.py:55-58 | A new group's records agree if and only if no one but its creator is in a Django group of that name. |
| `Groups.ForeignGroupBreaksAgreement` | geonode/groups/models.py:55-58 | The concrete failure: a profile named after the anonymous group. |
| `Groups.StepAgreesExactly` | geonode/groups/views.py:16-222 | Every step keeps: records agree, one row per member, one invitation per address, no row of a vanished group; if and only if it makes no group over a Django group of others. |
| `Groups.RunsAgreeExactly` | geonode/groups/views.py:16-222 | So it is throughout any run, if and only if every group is made so at its turn. |
| `Groups.StepKeepsOrder` | geonode/groups/views.py:16-222 | Every step, without exception, keeps one row per member, one invitation per address, and no row of a vanished group. |
| `Groups.RunKeepsOrder` | geonode/groups/views.py:16-222 | So it is after any run. |
| `Groups.MembersAfterExactly` | geonode/groups/views.py:16-222 | After any step exactly those are members of a group who were and did not leave by it, and those the step admits. |
| `Groups.RoleAfterExactly` | geonode/groups/views.py:16-206 | The role of a membership that a step makes: manager for a creator, the role given for added members, that of the invitation for an acceptance, else member. |
| `Groups.GroupsAfterExactly` | geonode/groups/views.py:16-222 | After any step exactly those groups exist that did and were not removed, and the one created or enrolled in; old groups keep their access, a new one has that of its form or of the enrolment. |
| `Groups.InvitedAfterExactly` | geonode/groups/views.py:168-184 | After any step an address is invited to a group if and only if it was and the group stays, or a manager's invite step names it. |
| `Groups.NewInvitationExactly` | geonode/groups/models.py:159-171 | An invitation a step makes is one of an invite step by a manager of the group, with that sender and role, state "sent", no user, and a token of its own. |
| `Groups.InvitationAfterExactly` | geonode/groups/models.py:243-261 | An invitation after any step: gone exactly with its group, accepted with the user if its addressee accepts and was no member, declined if its addressee declines, and otherwise unchanged. |
| `Groups.DjangoAfterExactly` | geonode/groups/views.py:16-206 | The second record after any step: a user is in the Django group if and only if the step made the user a member, or the user was in it and the step removed neither the group nor the membership. |
| `Groups.EnrolledExactly` | geonode/datarequests/models/data_request_profile.py:715-732 | An enrolment makes the user a member, unless the group is there with another access than the wanted one. |
| `Groups.InvitedExactly` | geonode/groups/models.py:148-173 | Inviting reaches every address given and no other, and leaves existing invitations as they are. |
| `Groups.AcceptedMeansJoined` | geonode/groups/models.py:243-252 | An invitation turns accepted only in a step that makes its addressee, not a member before, a member with the invited role. |
| `Groups.MembershipTraced` | geonode/groups/views.py:16-206 | Every membership, over any run, was made, and not just found, by a step entitled to make it, and has lasted since: creation, an open join, a manager's add, an accepted invitation of that role, or the system. |
| `Groups.InvitationTraced` | geonode/groups/views.py:168-184 | Every invitation was sent, and not just re-used, by someone who was a manager of the group then, and has stood since. |
| `Groups.PrivateMembersAreVouchedFor` | geonode/datarequests/models/data_request_profile.py:715-732 | Every membership of a group that is private, over any run, has lasted since the step that made it: the group's creation, a manager's add, the acceptance of an invitation a manager sent and that stood until then, or an enrolment by the system. |
| `Groups.RefusedCreationAdmitsNoOne` | geonode/groups/views.py:16-37 | Whoever posts the form for an existing private group is no member of it, and nothing vouches for a membership. |

## Left out

- The HTTP, LDAP, map server, file library and mail calls themselves, forms, templates, permissions and the database machinery.
- Concurrency: two requests at once can pass the rate limit or take the same free name; the model runs one at a time.
- Numerals.NumDecode: characters are single code units; a numeral with a second sign after the first is decoded as the code does, but not encoded back.
- QuerySplit.SplitQuery: white space beyond ASCII is not stripped.
- Usernames.CreateLoginCredentials: transliteration of the names has been done before; accounts are compared letter by letter, as the code does, while the directory ignores case; an LDAP failure and an empty answer are outside (the loop does not end on the latter, see `Usernames.TerminatesExactly`).
- LayerNames.GetValidName: digits beyond ASCII, and the difference between collations of the database.
- ColumnRenames.ShapeTable.CheckColumnNames: the width limit and case-insensitivity of DBF column names.
- TileGrid.MissionIndex.TileShape: the walk over all blocks of a layer, which skips some; rounding of coordinates; `tile_check` and `map_blocks_suc`.
- JurisdictionSize.GetJurisDataSize: the imports the file lacks are taken to be there.
- ViewerSources.MapSettings.BuildSources: the cache of built configurations and the remote services' sources.
- Config.LayerConfig: the JSON text of parameters is modelled by its value, or by its failure to parse; Python's equality between 1, 1.0 and true is not.
- LayerAttributes.AttributeTable.Reconcile: the statistics of numeric attributes, and how the fields are read from the server.
- CatalogueSync.Catalogue.GsSlurp: metadata links, titles, boxes and permissions of a layer; a failure while granting default permissions, which is not caught; stores of the web map server kind in the deletion filter.
- CatalogueSync.Catalogue.PurgeAll: the styles, database tables and published layers on the server, and two published layers of one name; a type name with two colons, which makes the deletion fail, is taken to reach nothing.
- CatalogueSync.Catalogue.RemoveStale: a marked row that an earlier deletion has taken along is passed over; in the source its handlers are called once more. Rows that go together are purged from the server in the order of the table, in the source in that of the cascade; the order can matter, since a store named after a layer gives way to the default data store once it is gone.
- Styles.StyleStore.Delete: the handlers of layers that a cascade takes along; of a hazardous deletion the runs assume only that it takes at least one other layer, whichever more go.
- Styles.RunsSoundExactly: map layers, uploaded files and ratings of a deleted layer; the `layer_style` view, which does not keep the default among the styles.
- FtpLedger.FtpDesk.CreateFtpFolder: the transfer itself, and clocks set back, such as by daylight saving time.
- FtpLedger.ReportByType: the requester's organisation in the same report.
- Groups.GroupSite.Perform: titles of groups (the system's enrolment, geonode/tasks/users.py:16-22, also compares them), editing a group's slug or access, users given by address only when adding members, deletion of user accounts, sending mail; the decline page calls `decline` without its argument, so the model's decline step is that of the model method. A user's e-mail address is one and the same over a run. Saving a profile also puts the user into the Django group "anonymous" (geonode/people/models.py), which no step does here; a group profile of that name is the case of `Groups.ForeignGroupBreaksAgreement`.
- Geometry in spherical Mercator, upload handling, thumbnails, maps, documents, announcements and the remaining views.
