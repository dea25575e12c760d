# A verified model of the repository's tooling scripts

Ten scripts of the repository hold its hand-written algorithms: a schema compiler, a
scaffold generator with its validator, six text scanners, two byte formats and a coverage
computation. This project models them in Dafny, loop by loop where the script loops and
in place where it overwrites a buffer, and proves what their comments, their self-tests and
their callers rely on.

How to read it: a loop is a method whose `ensures` equates its result, or the new state,
with a function of its input; the theorems are lemmas about those functions. A scanner's
main theorem is stated against a printer: a datatype describes well-formed input, a
function prints it, and the lemma says what the scanner makes of every printed value.
Beside it stands a theorem about every input, well formed or not. What the two sides of such a theorem
share, a pattern or a guard or a byte format, is stated once more without their functions, in characters,
bytes and numbers, so that the theorem is about the script's own notion and no other.

| file | script |
|---|---|
| `TopoSort.dfy`, `TableOrder.dfy` | table order of `generate-pg-migration.py` and the order of emission |
| `Catalog.dfy`, `Evolution.dfy`, `Reconciliation.dfy`, `MigrationScript.dfy` | its guarded blocks as steps on a catalog of tables, columns and rows |
| `SqlRows.dfy` | its literals and VALUES rows |
| `FtlPatterns.dfy`, `FtlShapes.dfy`, `FtlScaffold.dfy`, `FtlGenerator.dfy`, `FtlAgreement.dfy`, `FtlBundles.dfy` | `translate-stub.py` |
| `RustComments.dfy`, `JsonScanner.dfy`, `JsonText.dfy`, `JsonPrinter.dfy` | `check-client-type-drift.py` |
| `SourceMasker.dfy`, `MaskPrinter.dfy`, `TestModules.dfy` | `verify-core-size.py` |
| `PluginSignature.dfy` | `sign-plugin.py` |
| `ScryptParameters.dfy`, `Base64.dfy`, `UpdaterKey.dfy` | `extract-updater-seed.py` |
| `LocalizedEraser.dfy` | `scan-fluent-hardcoded.py` |
| `SelectList.dfy` | `check-mapper-alignment.py` |
| `FtlDedupe.dfy` | `dedupe-ftl.py` |
| `TimeZoneWindows.dfy` | `check-tz-invariance.py` |
| `Text.dfy`, `Bytes.dfy`, `Options.dfy` | strings, lines, whitespace, numbers in bytes, UTF-8, optional values |

What comes from outside is a parameter. SHA-256, BLAKE2b and scrypt are functions of a fixed
output length. Which characters are alphanumeric, or word characters, is a predicate the scanners
receive. What a column default evaluates to is a function of the default and the row. The
decoder of UTF-8 with replacement is a function of which only one fact is used, that it
undoes the encoder on the wrapper text.

Where the code and its comments disagree, the model follows the code and the theorem gives the
exact condition:

- The masker's comment promises preserved offsets; raw-string openers shrink the output
  (`LengthKept`), and a line break in a character literal is lost (`BreaksKept`). It promises that only code is
  left; a character literal with an escape of more than one character, `'\x41'` or `'\u{e9}'`, leaves the rest of
  the escape as code, and code is all that is left exactly when there is none (`MaskExactIff`, `LongLeaves`).
- The eraser takes every tag whose name begins with `Localized` for the element. One like
  `<LocalizedErrorBoundary>` is closed by nothing, and everything up to a closing tag that is one too many, or to
  the end, is blanked. Exactly the elements are blanked if and only if no such opener stands outside them
  (`EraseExactIff`); one inside an element carries the blanking past the element's end (`ElementErased`).
- A `>` outside quotes in an attribute (`id={n > 0}`, `=>`) ends the tag for the eraser: harmless in an element
  with a closing tag, but a self-closing one is then left open (`ComparisonInstance`); with a slash before it, as in a tag
  inside an attribute, the rest of the element is not blanked (`OpenerErased`).
- `scaffold_value_line` promises idempotence; unless the sentinel is blank, a line without `=` gets it
  again, and so does every line when the sentinel starts with whitespace (`AgainIff`).
- The parser keeps a message's attributes behind its other lines, so a value that goes on in the line below its
  attribute comes to stand before it, in the message's own value; lines keep their order exactly when nothing but
  attributes follows an attribute (`OrderKeptIff`, `AttributeMoved`).
- The validator accepts the generator's output for safe sentinels only. A sentinel `}` or `{` is
  free of `=`, of line breaks and of whole placeholders, and is still rejected on some bundle
  (`SentinelAccepted`, `UnsafeSentinel`).
- An empty permission is signed like no permission (`PermissionTextIff`, `PermissionsCollide`).
- Doubling quotes does not keep a dollar-quoting tag out of the block it closes (`BodyEndsAtItsTag`).
- The memory bound of the scrypt parameters fails below a memlimit of 2048 bytes (`Bounds`).
- A JSON key that starts with `!` and no word character behind it is lost to the member scanner, and no other
  is, at the level being scanned (`MembersReadIff`, `NoMacroNames`, `KeyLost`, `BangKeyLost`).
- The macro skip is written for values like `env!("..")`, but its guard fires on one-letter names only. Such a value
  is read as a scalar, which is right exactly when its argument has no comma, brace or bracket (`MembersReadIff`,
  `InvokedInstance`).
- To the comment stripper the quote in the character literal `'"'` opens a string (`QuoteLiteralInstance`).
- The comment stripper takes any character before `!` for a macro's name when no word character stands on
  either side, as in `a() != b`. Comments from there to the closing parenthesis stay in the text, and the
  document's comments are blanked exactly when none stands there (`StrippedExactlyIff`, `MacroKeepsComment`,
  `ComparisonKeepsComment`).
- Emitting table renames before column renames changes nothing if and only if no column rename has an effect under a
  table name that is given up later, or would have one under a name that is given later (`ReplayIsRunIff`).
- An attribute that marks a test-only function is kept only while no module opens or is declared within its
  five-line window, be it production code (`StripExactIff`).

## Model

| member | source | states |
|---|---|---|
| `TopoSort.TopoSort` | scripts/generate-pg-migration.py:580-605 | For any uniquely named tables the result is a permutation; its first part is exactly the tables that cannot reach a cycle of references, each after everything it references, in nondecreasing reference level and, among those, in the order in which their last reference was listed and then in the original order; the rest follow in their original order. |
| `TopoSort.AddEdges` | scripts/generate-pg-migration.py:588-591 | One table's references, in whatever order the set yields them, add one to its in-degree per reference to an existing other table, and its name to exactly those tables' child lists. |
| `TopoSort.CollectEdges` | scripts/generate-pg-migration.py:585-591 | In-degrees count, and child lists name, exactly the reference edges: self-references and unknown names impose nothing. |
| `TopoSort.InitialQueue` | scripts/generate-pg-migration.py:592-592 | The queue starts with exactly the names of in-degree 0, each once and in their original order. |
| `TopoSort.Release` | scripts/generate-pg-migration.py:595-600 | Taking the queue's head keeps the queue invariant: counts equal the references not yet listed, levels fit, exactly the tables that waited only for it join the queue, and they join in their original order. |
| `TopoSort.DrainQueue` | scripts/generate-pg-migration.py:593-600 | When the queue runs dry the listed names are exactly those that cannot reach a cycle, without repetition, parents first, level by level, first come first served. |
| `TopoSort.AppendStuck` | scripts/generate-pg-migration.py:601-605 | The fallback appends exactly the tables that reach a cycle, in their original order. |
| `TopoSort.DrainedAreGrounded` | scripts/generate-pg-migration.py:594-600 | A name in an order that puts references first cannot reach a cycle: along references its position falls. |
| `TopoSort.StuckReachCycle` | scripts/generate-pg-migration.py:601-604 | Where every remaining table waits for a remaining table, each of them reaches a cycle. |
| `TopoSort.AcyclicParentsFirst` | scripts/generate-pg-migration.py:580-605 | On an acyclic schema the whole result puts every referenced table before its referrers. |
| `TopoSort.EmitTables` | scripts/generate-pg-migration.py:1527-1530 | The emission loop writes each table in order and right behind it its UNIQUE indexes. |
| `TopoSort.CreatedAt` | scripts/generate-pg-migration.py:1527-1530 | Where a table is created, exactly the statements of the tables before it have been written. |
| `TopoSort.ReferencesReady` | scripts/generate-pg-migration.py:1472-1530 | Before any table of an acyclic schema is created, every table it references exists together with all its UNIQUE indexes. |
| `TableOrder.GraphIs` | scripts/generate-pg-migration.py:588-591 | A table waits for a name if and only if it references it, the name is not its own, and some table has it. |
| `TableOrder.RankedParentsFirst` | scripts/generate-pg-migration.py:580-605 | When some rank falls along every reference to another table, each table comes after every other table it references; a reference to itself or to what is no table changes nothing. |
| `TableOrder.EmissionParts` | scripts/generate-pg-migration.py:1527-1530 | A table is written as its CREATE TABLE and then its UNIQUE indexes in their order, and tables one after the other. |
| `TableOrder.RankedReferencesReady` | scripts/generate-pg-migration.py:1472-1530 | In such a schema the CREATE TABLE of every other table that a table references, and its UNIQUE indexes, stand before the CREATE TABLE of that table. |
| `TableOrder.LoopsComeLast` | scripts/generate-pg-migration.py:601-605 | Behind a table from which a chain of references comes back to a table met before come only such tables, in their original order. |
| `TableOrder.LongerChainsLater` | scripts/generate-pg-migration.py:592-600 | No table comes before one that begins a shorter chain of references: with every chain from an earlier table there is one of the same length from a later one. |
| `TableOrder.OvertakingIsEarned` | scripts/generate-pg-migration.py:592-600 | Outside the loops a table is overtaken by one that stood behind it only when it references a table that comes later than all the other's references. |
| `TableOrder.OrderIsDetermined` | scripts/generate-pg-migration.py:580-605 | The rule leaves no choice: two lists that meet it are equal, so the order in which sets yield references does not matter. |
| `Evolution.ReplayConverges` | scripts/generate-pg-migration.py:1197-1271 | From a database that stopped after any number of the chain's renames, replaying the whole guarded chain gives the database that running the whole chain gives. |
| `Evolution.PastIsDone` | scripts/generate-pg-migration.py:1199-1218 | Without rebuilds: replaying what has already happened does nothing, so replaying the whole chain from any prefix equals running only the missing renames. |
| `Evolution.ReplayIsRun` | scripts/generate-pg-migration.py:1227-1230 | Emitting all table renames before all column renames gives the same database as the chain's own order, for any names of columns, when column renames use final table names. |
| `Evolution.ReplayIsRunIff` | scripts/generate-pg-migration.py:1227-1230 | For every chain with fresh names, a column's being new to its table whether a rename calls the table by its name of the time or its last: emitting table renames first gives the chain's own database if and only if names are settled, that is, no column rename has an effect in only one of the two orders. |
| `Evolution.ReplayIsRunIfSettled` | scripts/generate-pg-migration.py:1227-1230 | Settled names suffice whatever the columns are called. |
| `Evolution.OnlyLiveRuns` | scripts/generate-pg-migration.py:544-547 | Table rebuilds are inert: a run of the chain is a run of its other renames. |
| `Evolution.AllGone` | scripts/generate-pg-migration.py:1263-1264 | After the whole chain no rename is enabled any more, so a further replay is a no-op. |
| `Evolution.OldNameLosesRename` | scripts/generate-pg-migration.py:1238-1250 | For every chain: a column rename with an effect, of a column no rename makes on its table, is lost by the table-first order when no column rename records that column under the table's last name. The replay has the old column, the chain does not. |
| `Evolution.OldNameInstance` | scripts/generate-pg-migration.py:1238-1250 | A chain of two renames on which that happens. |
| `Evolution.OtherNameInstance` | scripts/generate-pg-migration.py:1238-1250 | Another rename that records the same column under the new name does not make up for the lost one. |
| `Evolution.MadeColumnInstance` | scripts/generate-pg-migration.py:1238-1250 | Fresh columns are needed for the converse: where two renames of a table make the same column, the order can come out right with unsettled names. |
| `Evolution.NothingLost` | scripts/generate-pg-migration.py:1231-1235 | Whatever the renames, every table, column and cell is there afterwards under the name it was carried to. |
| `Evolution.TablesStayApart` | scripts/generate-pg-migration.py:1199-1205 | Two tables never end under one name. |
| `Evolution.ColumnsStayApart` | scripts/generate-pg-migration.py:1209-1218 | Two columns of a table never end under one name. |
| `Evolution.RenamedTable` | scripts/generate-pg-migration.py:1199-1205 | A table that is there takes a name that is free, as it is, and no other table is touched; every other rename of a table does nothing. |
| `Evolution.RenamedColumn` | scripts/generate-pg-migration.py:1209-1218 | A column that is there takes a name that is free in its table, with its cells and its NOT NULL, and nothing else is touched; every other rename of a column does nothing. |
| `Reconciliation.Converged` | scripts/generate-pg-migration.py:1152-1194 | Per pre-existing table and column: no row is lost, every declared column is there, old cells are unchanged, added cells hold the first declared default, and the column ends NOT NULL if and only if it was so before, or is declared so and no row is NULL. |
| `Reconciliation.AddedColumn` | scripts/generate-pg-migration.py:1162-1186 | A column that was missing holds in row i what its first specification's default evaluates to there, or NULL without a default; it is NOT NULL if and only if some specification says so and no row holds NULL. |
| `Reconciliation.KeptColumn` | scripts/generate-pg-migration.py:1178-1186 | A column that was there keeps its cells, and is NOT NULL if and only if it was, or some specification says so and no row holds NULL. |
| `Reconciliation.NothingElse` | scripts/generate-pg-migration.py:1162-1171 | No column appears that was neither there nor declared, and no table. |
| `Reconciliation.StepValid` | scripts/generate-pg-migration.py:1162-1191 | A step keeps every relation well formed: rows have exactly the columns, and NOT NULL columns hold no NULL. |
| `Reconciliation.AllSettled` | scripts/generate-pg-migration.py:1131-1134 | Afterwards every declared column of an existing table is present, and NOT NULL or kept nullable by a NULL. |
| `Reconciliation.RerunChangesNothing` | scripts/generate-pg-migration.py:1174-1191 | A second run changes nothing, whatever the defaults evaluate to then. |
| `MigrationScript.Database.RenameTableTo` | scripts/generate-pg-migration.py:1204-1204 | The executed ALTER TABLE: moves the relation, and may only be reached with the source there and the target free. |
| `MigrationScript.Database.RenameColumnTo` | scripts/generate-pg-migration.py:1216-1217 | The executed column rename: moves the column and every row's cell. |
| `MigrationScript.Database.Evolve` | scripts/generate-pg-migration.py:1197-1218 | The guarded block ends in the state the table renames and then the column renames give, and never executes a rename that would fail. |
| `MigrationScript.Database.AddColumnTo` | scripts/generate-pg-migration.py:1168-1171 | The executed ADD COLUMN: the column is nullable and its default fills every row. |
| `MigrationScript.Database.SetNotNull` | scripts/generate-pg-migration.py:1185-1186 | The executed SET NOT NULL, which may only be reached while no row is NULL. |
| `MigrationScript.Database.CountNulls` | scripts/generate-pg-migration.py:1182-1184 | The count is 0 exactly when no row holds a NULL in the column. |
| `MigrationScript.Database.ReconcileColumns` | scripts/generate-pg-migration.py:1157-1192 | The block ends in the state of the reconciliation steps in order; SET NOT NULL is never executed while a NULL exists. |
| `MigrationScript.Database.CreateTables` | scripts/generate-pg-migration.py:1527-1528 | CREATE TABLE IF NOT EXISTS, in the emitted order, creates exactly the tables that are missing. |
| `MigrationScript.Database.Migrate` | scripts/generate-pg-migration.py:1519-1528 | Of the statements in these lines, the renames, the column reconciliation and the table creation, in this order. |
| `MigrationScript.DeclaredColumnsAre` | scripts/generate-pg-migration.py:1444-1451 | A created table has exactly its declared columns, NOT NULL where declared. |
| `MigrationScript.CreatedTables` | scripts/generate-pg-migration.py:1527-1528 | Existing tables are left alone, the ordered ones all exist, and a created one is empty. |
| `MigrationScript.FreshDatabase` | scripts/generate-pg-migration.py:1136-1139 | On an empty database both guarded blocks are no-ops and the declared schema results. |
| `MigrationScript.ScriptConverges` | scripts/generate-pg-migration.py:1510-1530 | Whatever release a database stopped at, after the script it has every declared table and column, and running the script again changes nothing. |
| `MigrationScript.ScriptKeepsRows` | scripts/generate-pg-migration.py:1510-1530 | Whatever release a database stopped at, every cell of it is there after the whole script, under the names the missing renames lead to; its column is NOT NULL if and only if it was, or is declared so and no row is NULL. |
| `MigrationScript.ScriptColumns` | scripts/generate-pg-migration.py:1510-1530 | Every table after the script is one the renames left, each of its columns converged, or a declared one, created empty with the declared columns. |
| `SqlRows.LiteralRoundTrip` | scripts/generate-pg-migration.py:1071-1073 | Lexing a rendered literal under the doubled-quote rule gives its content, whatever the content and whatever follows. |
| `SqlRows.LiteralInjective` | scripts/generate-pg-migration.py:1071-1073 | Literals of different contents differ, even with text behind them. |
| `SqlRows.RowsRoundTrip` | scripts/generate-pg-migration.py:1274-1289 | Lexing the rendered VALUES rows gives exactly the column specifications they were rendered from. |
| `SqlRows.RowText` | scripts/generate-pg-migration.py:1274-1289 | A row without quotes in it, as it is written: indent, four literals or `NULL::text`, and the flag. |
| `SqlRows.BodyEndsAtItsTag` | scripts/generate-pg-migration.py:1152-1194 | The dollar-quoted body ends where it is meant to if and only if no specification contains the closing tag: literal quoting does not contain that. |
| `SqlRows.TagInstance` | scripts/generate-pg-migration.py:1152-1194 | A default that contains the tag ends the body early. |
| `FtlScaffold.FlushPending` | scripts/translate-stub.py:174-194 | The flush leaves the blocks of the specification: merged into the last real block of the same key, or appended. |
| `FtlScaffold.CollectBlocks` | scripts/translate-stub.py:152-222 | The loop with its buffers ends in the fold of the line steps over the text's lines. |
| `FtlScaffold.ParseMeaning` | scripts/translate-stub.py:161-167 | The blocks say what reading the text line by line says: attributes behind blank lines count for their message. |
| `FtlShapes.KeyIs` | scripts/translate-stub.py:119-119 | A line of a letter or underscore, then letters, digits, underscores and hyphens, blanks and `=` has those characters for its key. |
| `FtlShapes.KeyShape` | scripts/translate-stub.py:119-119 | And no other line has a key. |
| `FtlShapes.AttributeIs` | scripts/translate-stub.py:118-118 | A line of blanks, a dot, such a name, blanks and `=` is an attribute. |
| `FtlShapes.AttributeShape` | scripts/translate-stub.py:118-118 | And no other line is. |
| `FtlShapes.ReferenceIs` | scripts/translate-stub.py:116-117 | A brace, blanks, `$`, such a name, blanks and a closing brace or an arrow is a placeholder or a select. |
| `FtlShapes.ReferenceShape` | scripts/translate-stub.py:116-117 | And nothing else is. |
| `FtlShapes.CountIs` | scripts/translate-stub.py:321-325 | The count over a line is the number of places at which one begins. |
| `FtlBundles.KindIs` | scripts/translate-stub.py:198-219 | Blank lines, comments, attributes and key lines, from their text. |
| `FtlBundles.KindShape` | scripts/translate-stub.py:198-219 | And their text, from the kind: every other line is a continuation. |
| `FtlBundles.BundleCollected` | scripts/translate-stub.py:152-222 | For every bundle of header comments and messages, no two neighbours of one name: exactly the messages are collected, in order, with a separator per blank line, and of each the key line, then its comments and continuations, then its attributes. |
| `FtlBundles.KeysAre` | scripts/translate-stub.py:304-305 | The keys of such a bundle are the names of its messages. |
| `FtlBundles.OrderKeptIff` | scripts/translate-stub.py:183-184 | The lines of a message keep their order if and only if no comment and no continuation stands behind an attribute. |
| `FtlBundles.AttributeMoved` | scripts/translate-stub.py:207-219 | An attribute whose value stands on the next line comes to stand behind that value. |
| `FtlGenerator.InsertAtEquals` | scripts/translate-stub.py:246-251 | A line with `=` keeps its kind, key and placeholder counts when the sentinel is put behind it. |
| `FtlGenerator.AppendWithoutEquals` | scripts/translate-stub.py:243-245 | A line without `=` keeps its kind and counts when a safe sentinel is appended. |
| `FtlGenerator.ValueLineMeaning` | scripts/translate-stub.py:230-251 | For a safe sentinel every scaffolded line says what its source line said. |
| `FtlBundles.SegmentIs` | scripts/translate-stub.py:234-286 | A comment is copied; behind the first `=` goes a blank and the sentinel, unless the value starts with it; a line without `=` gets it at its end. A line break follows. |
| `FtlGenerator.AgainIff` | scripts/translate-stub.py:240-251 | For every sentinel: scaffolding a line again changes nothing if and only if the sentinel is blank, or the line has an `=` and the sentinel does not start with whitespace; the comment claims it of every line. |
| `FtlGenerator.AgainInstance` | scripts/translate-stub.py:243-245 | A line without `=` is marked twice. |
| `FtlAgreement.EmitHeader` | scripts/translate-stub.py:263-275 | The hint comments and then the source's header comments are written. |
| `FtlAgreement.EmitBlock` | scripts/translate-stub.py:280-286 | A block's visible lines are written in order, comments as they are and the rest scaffolded. |
| `FtlAgreement.ScaffoldBundle` | scripts/translate-stub.py:254-287 | The two loops write header, blocks and separators of the parsed source. |
| `FtlBundles.BundleScaffold` | scripts/translate-stub.py:254-287 | The scaffold of such a bundle is the hint comments, its header, and then line for line its messages so marked, with its blank lines. |
| `FtlBundles.BannerIs` | scripts/translate-stub.py:263-275 | The five hint comments, word for word. |
| `FtlAgreement.Sum` | scripts/translate-stub.py:321-327 | The three counts are summed over a block's lines. |
| `FtlAgreement.CompareBlock` | scripts/translate-stub.py:321-339 | Each of the three counts that differs from the first block of the same key is reported. |
| `FtlAgreement.CompareBlocks` | scripts/translate-stub.py:318-339 | Every message block is compared, separators are not. |
| `FtlAgreement.ValidateScaffold` | scripts/translate-stub.py:295-341 | The failures are the identity guard, the missing and added keys, and the drifts, in that order. |
| `FtlBundles.FailuresAre` | scripts/translate-stub.py:295-341 | Exactly these are reported: a scaffold that is the source; the keys that only the one has, each way; and per message each count that differs, with both numbers. |
| `FtlBundles.TallyIs` | scripts/translate-stub.py:321-326 | A line counts the placeholders and selects that begin in it, and itself if it is an attribute. |
| `FtlBundles.TallyAdds` | scripts/translate-stub.py:321-326 | And the counts of a message are those of its lines, added up. |
| `FtlAgreement.AcceptedIff` | scripts/translate-stub.py:299-341 | Against a text that says the same, the validator reports nothing if and only if repeated keys agree in their counts. |
| `FtlAgreement.ScaffoldReads` | scripts/translate-stub.py:254-287 | The scaffold read again says what the source says, under five more header comments. |
| `FtlAgreement.Agreement` | scripts/translate-stub.py:254-341 | For every bundle and safe sentinel: the validator accepts the generator's output if and only if every key that comes back comes back with the same counts. |
| `FtlAgreement.DistinctKeysAccepted` | scripts/translate-stub.py:254-341 | A bundle that never returns to an earlier key is always accepted. |
| `FtlAgreement.SentinelAccepted` | scripts/translate-stub.py:230-341 | A one-line sentinel is accepted on all bundles with distinct keys if and only if it is safe: it neither starts with `=` nor completes or opens a placeholder. |
| `FtlPatterns.DefaultIsSafe` | scripts/translate-stub.py:121-121 | The default sentinel is safe and of one line. |
| `FtlAgreement.DefaultAccepted` | scripts/translate-stub.py:121-341 | With the default sentinel every bundle that never returns to an earlier key is accepted. |
| `FtlAgreement.UnsafeSentinel` | scripts/translate-stub.py:230-341 | Every unsafe sentinel comes with a bundle of one message whose scaffold is rejected. |
| `FtlAgreement.GrowingSentinel` | scripts/translate-stub.py:249-251 | A sentinel a value can complete to a placeholder is rejected on some bundle. |
| `FtlAgreement.ClosingSentinel` | scripts/translate-stub.py:243-245 | A sentinel that ends a placeholder left open on a line without `=` is rejected on some bundle. |
| `FtlAgreement.EqualsSentinel` | scripts/translate-stub.py:243-245 | A sentinel starting with `=` turns a continuation line into a message, and is rejected on some bundle. |
| `RustComments.StripRustComments` | scripts/check-client-type-drift.py:83-131 | The in-place loop ends in the specified text, or raises exactly where a string or macro is unterminated. |
| `RustComments.StrippedEach` | scripts/check-client-type-drift.py:83-97 | Every input: offsets and newlines are preserved, and a character is unchanged or a space. |
| `RustComments.CommentsStripped` | scripts/check-client-type-drift.py:83-131 | For every source of code, string literals and comments in which the macro guard holds at no code position, exactly the comments are blanked. |
| `RustComments.StrippedExactlyIff` | scripts/check-client-type-drift.py:83-131 | For sources with macros: exactly the comments are blanked if and only if no macro the scan comes to has a comment before the parenthesis that closes it. |
| `RustComments.OutsideInStep` | scripts/check-client-type-drift.py:143-176 | The condition of that theorem on literals holds of every source whose literals have no opening parenthesis. |
| `RustComments.MacroKeepsComment` | scripts/check-client-type-drift.py:111-113 | From the first macro to the parenthesis that closes it every character comes through unchanged, and a comment that begins there is not blanked. |
| `RustComments.ComparisonKeepsComment` | scripts/check-client-type-drift.py:134-140 | In `a() != b //c` and a call on the next line the comment stays. |
| `RustComments.QuoteLiteralInstance` | scripts/check-client-type-drift.py:105-110 | Behind the character literal of a quote a comment stays up to the next quote; without a next quote the scan raises. |
| `JsonScanner.SkipString` | scripts/check-client-type-drift.py:69-80 | The loop finds the end of the string under backslash escapes, or raises. |
| `JsonScanner.SkipMacro` | scripts/check-client-type-drift.py:143-176 | The loop finds the end of the macro's balanced parentheses, skipping strings. |
| `JsonScanner.TrackLoop` | scripts/check-client-type-drift.py:179-199 | The depth loop of the brace scanner and of the value scanner ends where the specification of balanced delimiters says. |
| `JsonScanner.ObjectBody` | scripts/check-client-type-drift.py:202-205 | The inside between the opening brace and its match. |
| `JsonScanner.SkipValue` | scripts/check-client-type-drift.py:208-252 | The end of a value: string, macro, scalar with its terminator, or balanced delimiters. |
| `JsonScanner.NextMember` | scripts/check-client-type-drift.py:280-297 | The branch for a string: a keyed member with its value's text, or a nameless one. |
| `JsonScanner.TopLevelMembers` | scripts/check-client-type-drift.py:255-299 | The member loop collects the specified members in order. |
| `JsonText.MacroStartIs` | scripts/check-client-type-drift.py:134-140 | One character and a `!` read as the beginning of a macro if and only if no alphanumeric character and no underscore stands on either side. |
| `JsonText.StringEndIs` | scripts/check-client-type-drift.py:69-80 | Every input: where a string is found to end there is a quote, and before it every quote and backslash is escaped. |
| `JsonText.ParensEndIs` | scripts/check-client-type-drift.py:143-176 | Text without strings: parentheses end where as many have been closed as opened, for the first time, or the scan raises. |
| `JsonText.MacroEndIs` | scripts/check-client-type-drift.py:143-176 | A macro goes up to the end of its first parentheses; with none it is its name alone. |
| `JsonText.TrackIs` | scripts/check-client-type-drift.py:179-252 | Text without strings and exclamation marks: the object scanner stops where as many braces have been closed as opened, for the first time, and the value scanner where that holds of braces and brackets together. |
| `JsonText.ScalarEndIs` | scripts/check-client-type-drift.py:229-235 | A scalar takes everything up to the next comma or closing brace or bracket, and that too. |
| `JsonText.NamelessRead` | scripts/check-client-type-drift.py:280-297 | A string with no colon behind it is a member without a name. |
| `JsonPrinter.ValueOver` | scripts/check-client-type-drift.py:179-199 | A printed value leaves the depth tracker where it found it. |
| `JsonPrinter.ObjectBodyExact` | scripts/check-client-type-drift.py:202-205 | For every printed object, whatever follows, the body is exactly its inside. |
| `JsonPrinter.MembersRead` | scripts/check-client-type-drift.py:255-299 | For every printed object body whose own keys do not look like macros and whose own macro values have no separator in their argument: exactly its members in order, each with its own value's text. Nested objects are free. |
| `JsonPrinter.MembersReadIff` | scripts/check-client-type-drift.py:255-299 | For every printed object body: its members are read, each at its place with its value's text, if and only if no key starts with `!` without a word character behind it and no macro invocation among its values has a separator in its argument. |
| `JsonPrinter.InvokedInstance` | scripts/check-client-type-drift.py:143-153 | A value `env!("A")` is read whole, `env!("A,B")` is not. |
| `JsonPrinter.NoMacroNames` | scripts/check-client-type-drift.py:277-279 | Every body, printed or not: no member is ever read under a name that looks like a macro. |
| `JsonPrinter.KeyLost` | scripts/check-client-type-drift.py:143-176 | At a key that looks like a macro the scan goes on behind the macro it takes it for, without that member. |
| `JsonPrinter.NamesAreKeys` | scripts/check-client-type-drift.py:281-292 | The member names are the keys in order. |
| `JsonPrinter.BangKeyLost` | scripts/check-client-type-drift.py:134-140 | The key `!` is lost, `!a` is read, and so is a member whose value holds a nested `!`. |
| `JsonPrinter.SpecSchemas` | scripts/check-client-type-drift.py:333-345 | The two-level extraction loop computes the specified map of schema names to member names. |
| `JsonPrinter.SchemaNamesAre` | scripts/check-client-type-drift.py:336-344 | For a printed schema whose own members and `properties` members are readable in that sense: exactly the keys of its first `properties` member, or none. |
| `JsonPrinter.ExtractionExact` | scripts/check-client-type-drift.py:333-345 | For every printed document of schemas, macro invocations among its values included, in which the scanned objects' members are readable in that sense, the extraction returns exactly each schema's declared members. |
| `JsonText.InsideIs` | scripts/check-client-type-drift.py:336-342 | Of a value's text the blanks in front and then the first and the last character are taken off. |
| `JsonText.SchemasJoined` | scripts/check-client-type-drift.py:333-345 | A schema's name stands for the members of all objects of the document under that key, together with what it stood for before, and for nothing else. |
| `SourceMasker.HiddenTurn` | scripts/verify-core-size.py:74-93 | One turn inside a string or block comment. |
| `SourceMasker.MaskRaw` | scripts/verify-core-size.py:110-127 | A raw string is masked up to its own terminator or the end of the file. |
| `SourceMasker.CodeTurn` | scripts/verify-core-size.py:94-146 | One turn in code: literals, comments, strings and everything else. |
| `SourceMasker.MaskCommentsAndStrings` | scripts/verify-core-size.py:60-147 | The loop's output is the masked text of the specification. |
| `SourceMasker.MaskProjects` | scripts/verify-core-size.py:60-147 | Every input: the output holds no quote and opens no comment, and masking again changes nothing. |
| `SourceMasker.BreaksKept` | scripts/verify-core-size.py:94-109 | The number of line breaks is kept if and only if no quote-delimited character literal spans one. |
| `SourceMasker.LengthKept` | scripts/verify-core-size.py:110-127 | The length is kept if and only if no raw string is opened; the comment claims offsets are always preserved. |
| `SourceMasker.LossInstances` | scripts/verify-core-size.py:94-127 | A character literal around a line break loses it; an empty raw string comes out a character short. |
| `MaskPrinter.MaskExactIff` | scripts/verify-core-size.py:60-147 | For every source of code, strings, raw strings, character literals, lone quotes and comments that do not nest: exactly the code is kept and the rest blanked if and only if no character literal has an escape of more than one character. |
| `MaskPrinter.MaskExact` | scripts/verify-core-size.py:60-147 | So without such escapes exactly the code is kept. |
| `MaskPrinter.LongLeaves` | scripts/verify-core-size.py:94-103 | Of such an escape all but the first character is left as code, and the closing quote is read as an opening one. |
| `MaskPrinter.LongInstance` | scripts/verify-core-size.py:94-109 | Digits of an escape come out as code, and a brace out of the literal behind it. |
| `TestModules.FindModule` | scripts/verify-core-size.py:182-192 | The first line that mentions a module within the window, or where the window ends. |
| `TestModules.ScanRowFrom` | scripts/verify-core-size.py:198-206 | The depth at the end of a row, or 0 where the block closes in it. |
| `TestModules.SkipBlock` | scripts/verify-core-size.py:194-209 | The line in which the block closes, or the end of the file. |
| `TestModules.StripTestModules` | scripts/verify-core-size.py:159-218 | The outer loop's lines are those of the specification. |
| `TestModules.CountLines` | scripts/verify-core-size.py:221-225 | Masking first, then splitting, stripping, joining and splitting again, which loses nothing: the count is the number of visible kept lines of the masked source. |
| `TestModules.Survivors` | scripts/verify-core-size.py:159-218 | Every input: the visible lines that survive are a subsequence of the file's visible lines. |
| `TestModules.BlockEndIs` | scripts/verify-core-size.py:194-209 | A block ends with the last of its rows when no earlier beginning of them leaves it. |
| `TestModules.LineKept` | scripts/verify-core-size.py:181-217 | A line stands for itself if and only if it carries no attribute, or no module opens or is declared in the first line of its window that mentions one. |
| `TestModules.AttributeLine` | scripts/verify-core-size.py:181-181 | Blanks and `#[cfg(test)]` make an attribute line, with anything behind. |
| `TestModules.AttributeShape` | scripts/verify-core-size.py:181-181 | And nothing else does. |
| `TestModules.DeclarationIs` | scripts/verify-core-size.py:213-213 | Blanks, `mod `, anything, a semicolon and blanks declare a module. |
| `TestModules.DeclarationShape` | scripts/verify-core-size.py:213-213 | And nothing else does. |
| `TestModules.ExcessIs` | scripts/verify-core-size.py:203-208 | The depth a row adds is its opening braces less its closing ones. |
| `TestModules.VisibleIs` | scripts/verify-core-size.py:225-225 | Of the lines exactly the blank ones are left out of the count. |
| `TestModules.StripExactIff` | scripts/verify-core-size.py:159-218 | For every file of production lines and test modules: exactly the production lines are kept, and a blank line per module, if and only if no production line with the attribute has a module near it. |
| `TestModules.ShapesInstance` | scripts/verify-core-size.py:162-168 | Both shapes of a test module that the comment names are such modules. |
| `TestModules.HelperInstance` | scripts/verify-core-size.py:172-217 | A test-only function within five lines of a module of the program takes that module with it. |
| `TestModules.CountedLines` | scripts/verify-core-size.py:221-225 | Of such a file exactly the production lines that are not blank are counted. |
| `TestModules.CountedSource` | scripts/verify-core-size.py:221-225 | The same from the raw source without long escapes: when its code, without comments and the insides of literals, is such a file, the visible production lines are counted. |
| `PluginSignature.Hasher.Field` | scripts/sign-plugin.py:54-66 | A field is fed as name, colon, 64-bit little-endian length, colon, payload and bar. |
| `PluginSignature.PluginDigest` | scripts/sign-plugin.py:69-91 | The digest is that of the preimage: id, version, permission text and the scripts by path. |
| `PluginSignature.PreimageIs` | scripts/sign-plugin.py:69-91 | What is hashed, by byte positions: id, version, sorted permissions joined by commas, and for each script by path its path and its body, each framed as name, `:`, eight length bytes with the lowest first, `:`, payload and `|`, and nothing else. |
| `PluginSignature.ByPathIs` | scripts/sign-plugin.py:87-87 | The sorted scripts are the given ones, and no path comes before an earlier one. |
| `PluginSignature.BeforeIs` | scripts/sign-plugin.py:85-87 | The order of permissions and paths is by the first character in which they differ, and a text comes before its continuations. |
| `PluginSignature.FrameSplits` | scripts/sign-plugin.py:57-60 | A frame can be told from whatever follows it. |
| `PluginSignature.SamePreimageIff` | scripts/sign-plugin.py:69-91 | Two plugins have equal preimages if and only if they agree in id, version, permission text and, path by path, in the bodies given for it. |
| `PluginSignature.GrantedIs` | scripts/sign-plugin.py:84-85 | The canonical permissions are strictly increasing and are exactly the given ones. |
| `PluginSignature.ByPathSame` | scripts/sign-plugin.py:87-87 | The stable sort by path gives equal lists if and only if for every path the bodies agree in order. |
| `PluginSignature.PermissionTextIff` | scripts/sign-plugin.py:83-85 | Comma-free permission lists have equal texts if and only if they are equal as sets, or neither names more than the empty permission. |
| `PluginSignature.PermissionsCollide` | scripts/sign-plugin.py:83-85 | With a comma in a permission, or with an empty one, different sets share a text. |
| `PluginSignature.OrderIsIrrelevant` | scripts/sign-plugin.py:83-89 | Order and repetition of permissions, and the order of scripts with distinct paths, never change the preimage. |
| `PluginSignature.ParsedAreCommaFree` | scripts/sign-plugin.py:147-155 | Every input: a parsed permission has no comma and no quote at an end. |
| `PluginSignature.ItemsAppend` | scripts/sign-plugin.py:155-155 | Between the commas blank stretches are passed over, and of the others the blanks and then the quotes are taken off both ends. |
| `PluginSignature.ArrayReadBackIff` | scripts/sign-plugin.py:147-155 | A quoted array reads back as it was written if and only if its items have no comma and no quote at an end. |
| `PluginSignature.SignedPayloadInjective` | scripts/sign-plugin.py:94-96 | Different digests are signed as different bytes. |
| `PluginSignature.SignedPayloadIs` | scripts/sign-plugin.py:94-96 | What is signed is `ozpos-plugin-v1:` and each byte of the digest as two lower-case hexadecimal digits. |
| `Bytes.EncodeInjective` | scripts/sign-plugin.py:62-62 | UTF-8 encodings of different texts differ. |
| `Bytes.EncodedChar` | scripts/sign-plugin.py:62-62 | The bytes of a character are those of the table in section 3 of RFC 3629. |
| `Bytes.EncodeAppend` | scripts/sign-plugin.py:62-62 | And a text is encoded character by character. |
| `Bytes.Le64Read` | scripts/sign-plugin.py:63-63 | The eight length bytes read back as the length. |
| `Bytes.EightBytes` | scripts/sign-plugin.py:63-63 | Eight bytes are read as a number with the lowest first. |
| `ScryptParameters.PickParams` | scripts/extract-updater-seed.py:59-78 | Both loops end in the specified N, r and p. |
| `ScryptParameters.LogIsLargest` | scripts/extract-updater-seed.py:66-69 | The loop's exponent gives the largest power of two not above the cap, at least 2 and at most 2^63. |
| `ScryptParameters.Bounds` | scripts/extract-updater-seed.py:59-78 | For all limits: N is a power of two within the cap or 2, r is 8, p at least 1, r p below 2^30, 4 N r p within the operations, counted as at least 32768, and 128 N r within memlimit if and only if memlimit is at least 2048. |
| `ScryptParameters.DoublingBreaks` | scripts/extract-updater-seed.py:66-74 | N is 2^63, or twice N would exceed the tighter limit: 4 N r the operations, or 128 N r memlimit. |
| `ScryptParameters.ParallelismIsLargest` | scripts/extract-updater-seed.py:75-77 | Where memory is the tighter limit, one more p would exceed a limit; otherwise p is 1. |
| `Base64.DecodeEncode` | scripts/extract-updater-seed.py:249-249 | Strict decoding inverts encoding (RFC 4648, section 4). |
| `Base64.LenientEncode` | scripts/extract-updater-seed.py:243-243 | So does decoding that passes over foreign characters. |
| `Base64.SymbolAt` | scripts/extract-updater-seed.py:215-217 | The alphabet is that of Table 1 of RFC 4648. |
| `Base64.EncodedThree` | scripts/extract-updater-seed.py:215-217 | Three bytes are written as 24 bits, six to a character, the highest first. |
| `Base64.EncodedTwo` | scripts/extract-updater-seed.py:215-217 | Two are filled up with zero bits and one `=`. |
| `Base64.EncodedOne` | scripts/extract-updater-seed.py:215-217 | One is filled up with zero bits and two. |
| `Base64.DecodesPadded` | scripts/extract-updater-seed.py:249-249 | Strict decoding accepts exactly whole groups of the alphabet, the last with at most two `=`. |
| `Base64.SymbolsAppend` | scripts/extract-updater-seed.py:243-243 | Lenient decoding passes over foreign characters wherever they stand. |
| `Bytes.XorTwice` | scripts/extract-updater-seed.py:200-202 | The stream applied twice gives the bytes back. |
| `Bytes.XorAt` | scripts/extract-updater-seed.py:200-202 | A byte of the result has exactly the bits in which the two bytes differ. |
| `UpdaterKey.BuiltOpens` | scripts/extract-updater-seed.py:187-212 | A built blob is 158 bytes with the magic, and opens to the two halves of its secret. |
| `UpdaterKey.OpensIff` | scripts/extract-updater-seed.py:253-261 | The format, byte by byte: a blob of 158 bytes opens if and only if it starts with `EdScB2` and carries the digest of `Ed`, key number and secret, decrypted by the stream that scrypt gives for the salt in bytes 6 to 37 and the parameters of the operations in bytes 38 to 45 and the memory in bytes 46 to 53; it opens to the halves of the secret. |
| `UpdaterKey.OpenedWasBuilt` | scripts/extract-updater-seed.py:253-261 | A blob that opens is the one that would be built from what it holds, so its checksum covers tag, key number and secret. |
| `UpdaterKey.DecryptText` | scripts/extract-updater-seed.py:244-262 | The line scan opens the first line that decodes to a blob, or reports that there is none. |
| `UpdaterKey.FirstHolder` | scripts/extract-updater-seed.py:244-252 | The blob is that of the first line that, trimmed, is no comment and decodes to 158 bytes beginning with `EdScB2`. |
| `UpdaterKey.DecryptFromWrapped` | scripts/extract-updater-seed.py:240-262 | Unwrapping and then the line scan. |
| `UpdaterKey.BuildForSelfTest` | scripts/extract-updater-seed.py:187-217 | The text is the wrapper of the built blob, in base64 once more. |
| `UpdaterKey.WrapperText` | scripts/extract-updater-seed.py:215-216 | The wrapper, word for word. |
| `UpdaterKey.FileTextIs` | scripts/extract-updater-seed.py:120-126 | A key file is taken as it stands when it begins with the comment, and is decoded otherwise if it can be. |
| `UpdaterKey.WrapperOpens` | scripts/extract-updater-seed.py:244-252 | In the text wrapper the scan finds exactly the blob. |
| `UpdaterKey.RoundTrip` | scripts/extract-updater-seed.py:187-262 | For every password and content, seed and public key come back from the wrapped form and from a key file of either form. |
| `UpdaterKey.OpenedTextWasBuilt` | scripts/extract-updater-seed.py:240-262 | Any text that opens has a line that is a blob built from a content with the returned secret. |
| `LocalizedEraser.ScanTag` | scripts/scan-fluent-hardcoded.py:161-172 | The loop finds the tag's end past quoted values. |
| `LocalizedEraser.ScanElement` | scripts/scan-fluent-hardcoded.py:179-207 | The nested loops find where the element closes, or the end of the text. |
| `LocalizedEraser.FindOpen` | scripts/scan-fluent-hardcoded.py:157-159 | What is passed over before the next opening tag is kept. |
| `Text.BlankRange` | scripts/scan-fluent-hardcoded.py:208-210 | Exactly the span is blanked in place, except for its newlines, and nothing else changes. |
| `LocalizedEraser.BlankLocalizedSubtrees` | scripts/scan-fluent-hardcoded.py:146-212 | The in-place loop terminates with the erased text of the specification. |
| `LocalizedEraser.ErasedEach` | scripts/scan-fluent-hardcoded.py:208-212 | Every input: newlines keep their places, every other character is unchanged or a space. |
| `LocalizedEraser.LinesAgree` | scripts/scan-fluent-hardcoded.py:231-232 | A position in the erased text has the line number it has in the source. |
| `LocalizedEraser.ForestCrossed` | scripts/scan-fluent-hardcoded.py:179-206 | Printed children leave the depth as it was, but for one more for each opener among them that nothing closes. |
| `LocalizedEraser.EraseExactIff` | scripts/scan-fluent-hardcoded.py:146-212 | For every printed forest, with any text outside the elements, whose outermost elements close what they open: exactly those elements are blanked if and only if at no place of the text outside them stands an opener with a `>` outside quotes behind it. |
| `LocalizedEraser.EraseExact` | scripts/scan-fluent-hardcoded.py:146-212 | So where the text outside spells no opener exactly the outermost elements are blanked. |
| `LocalizedEraser.ForestInstance` | scripts/scan-fluent-hardcoded.py:146-212 | Forests that meet the conditions of these theorems exist, with a `>` between quotes of either kind. |
| `LocalizedEraser.OpenerErased` | scripts/scan-fluent-hardcoded.py:157-210 | Whatever follows an opener: the tag alone is blanked when a slash stands before its first `>` outside quotes, and otherwise everything until the depth is back at 0, or to the end. |
| `LocalizedEraser.ElementErased` | scripts/scan-fluent-hardcoded.py:179-210 | An element is blanked to its own closing tag, and past it by as many closing tags as openers inside it are left open. |
| `LocalizedEraser.ElementSpelled` | scripts/scan-fluent-hardcoded.py:157-210 | An element with no tag inside is blanked from `<Localized` to `</Localized>`, a `>` in a value between quotes of either kind notwithstanding. |
| `LocalizedEraser.SelfClosingSpelled` | scripts/scan-fluent-hardcoded.py:157-178 | A self-closing one is blanked from `<Localized` to `/>`. |
| `LocalizedEraser.RestErased` | scripts/scan-fluent-hardcoded.py:179-210 | An open element with no tag behind it takes all the rest. |
| `LocalizedEraser.OtherComponent` | scripts/scan-fluent-hardcoded.py:157-207 | So does `<LocalizedErrorBoundary>`, before any text without the two tags. |
| `LocalizedEraser.OtherComponentInstance` | scripts/scan-fluent-hardcoded.py:157-207 | Its own closing tag does not stop it. |
| `LocalizedEraser.ComparisonInstance` | scripts/scan-fluent-hardcoded.py:160-178 | Nor does the end of a self-closing element with a comparison in an attribute. |
| `SelectList.FindHead` | scripts/check-mapper-alignment.py:91-93 | The first SELECT followed by whitespace, in any case. |
| `SelectList.HeadAtIs` | scripts/check-mapper-alignment.py:85-85 | SELECT in any mixture of cases is found if and only if whitespace follows. |
| `SelectList.FromAtIs` | scripts/check-mapper-alignment.py:86-86 | FROM in any mixture of cases is found if and only if no word character stands on either side. |
| `SelectList.DepthIs` | scripts/check-mapper-alignment.py:97-100 | The depth is the number of `(` less the number of `)`. |
| `SelectList.SelectColumnList` | scripts/check-mapper-alignment.py:89-107 | The list is the text from the first SELECT to the first FROM outside parentheses opened since, and there is none exactly when either is missing. |
| `SelectList.SplitTopLevelCommas` | scripts/check-mapper-alignment.py:141-154 | The loop yields the trimmed non-blank stretches between commas at depth 0. |
| `SelectList.PiecesJoin` | scripts/check-mapper-alignment.py:141-153 | Every input: the stretches joined by commas are the text. |
| `SelectList.PiecesOfColumns` | scripts/check-mapper-alignment.py:141-153 | Balanced columns without a comma of their own level are split off exactly. |
| `SelectList.ColumnsReadBack` | scripts/check-mapper-alignment.py:89-154 | For every list of columns with no comma and no FROM of their own level, extracting and splitting returns the trimmed columns. |
| `SelectList.UsualKeywords` | scripts/check-mapper-alignment.py:85-86 | The condition on word characters holds of ASCII letters, digits and the underscore, and the keywords may be in any mixture of cases. |
| `SelectList.TrimmedEach` | scripts/check-mapper-alignment.py:154-154 | Columns that are not blank keep their number and order. |
| `FtlDedupe.LocaleFile.Process` | scripts/dedupe-ftl.py:98-136 | The file ends with its repeated messages dropped when writing, unchanged otherwise, and both line counts are reported. |
| `FtlDedupe.DefinedKeyIs` | scripts/dedupe-ftl.py:91-91 | A line of a letter or hyphen, then letters, digits, underscores and hyphens, blanks and `=` defines that name. |
| `FtlDedupe.DefinedKeyShape` | scripts/dedupe-ftl.py:91-91 | And no other line defines one. |
| `FtlDedupe.KeptWhole` | scripts/dedupe-ftl.py:107-131 | For every file, line by line: a line is taken out if and only if it belongs to a message whose key was defined before. |
| `FtlDedupe.KeysKept` | scripts/dedupe-ftl.py:120-125 | Afterwards no key is defined twice and none is lost. |
| `FtlDedupe.FirstWins` | scripts/dedupe-ftl.py:113-125 | Every key's first definition is unchanged, line for line. |
| `FtlDedupe.FirstBlockIs` | scripts/dedupe-ftl.py:113-116 | That definition is its key line and the lines up to the next key line or comment. |
| `FtlDedupe.LooseSurvives` | scripts/dedupe-ftl.py:127-131 | Everything outside the messages survives in order. |
| `FtlDedupe.LooseExactly` | scripts/dedupe-ftl.py:127-131 | And those are the lines that belong to no message. |
| `FtlDedupe.KeptIsSubsequence` | scripts/dedupe-ftl.py:107-131 | Lines are only ever taken out: what stays is a subsequence of the file's lines. |
| `FtlDedupe.UnchangedIff` | scripts/dedupe-ftl.py:133-136 | Nothing is dropped, and the count stays, if and only if no key is repeated. |
| `FtlDedupe.DedupedAgain` | scripts/dedupe-ftl.py:152-164 | A file visited twice in a run is unchanged by the second visit, with equal counts. |
| `FtlDedupe.RewrittenIff` | scripts/dedupe-ftl.py:133-135 | The text changes if and only if some key is defined twice. |
| `TimeZoneWindows.WindowExact` | scripts/check-tz-invariance.py:170-183 | For every offset, day and time: the window holds exactly the times at which the local date differs from UTC's. |
| `TimeZoneWindows.WindowInDay` | scripts/check-tz-invariance.py:170-183 | And it is a stretch of one day. |
| `TimeZoneWindows.SensitivityGap` | scripts/check-tz-invariance.py:186-213 | The gap is empty when the widest windows from both ends meet, and otherwise the one interval between them. |
| `TimeZoneWindows.MarkWindow` | scripts/check-tz-invariance.py:200-202 | Exactly the hours in the window are marked. |
| `TimeZoneWindows.Runs` | scripts/check-tz-invariance.py:203-213 | The run-length scan returns the uncovered stretch. |
| `TimeZoneWindows.GapMeaning` | scripts/check-tz-invariance.py:186-193 | At every instant, not only at whole hours: all zones show UTC's date exactly inside the gap. |
| `TimeZoneWindows.NoGapIff` | scripts/check-tz-invariance.py:189-192 | There is no gap if and only if at every time of day some zone shows another date than UTC. |

## Left out

- Files, processes, git, argument parsing and console output of all scripts.
- PostgreSQL itself: types, foreign keys, checks, triggers and row security; ALTER TABLE is the catalog step it is described as in `Catalog.dfy` and `Reconciliation.dfy`.
- The schema compiler's dropped indexes, data backfills, seeds and row-level-security output, and its parsing of the migration chain.
- `TopoSort.TopoSort`: table names must be distinct, which a database guarantees; with a repeated name the script keeps the last definition.
- `Evolution.ReplayConverges`: needs fresh table names, columns that are fresh in their table whatever it is called, and settled names; `ReplayIsRunIff` shows that the last is exact.
- `MigrationScript.Database.Migrate`: the index drops, the hand-written statements that run before the indexes, and the UNIQUE indexes written with the tables are not run.
- `FtlAgreement.Agreement`: sentinel and hint are one line, and the text has no carriage return, as reading with universal newlines leaves none.
- `FtlScaffold.CollectBlocks`: a message that is really named `__blank__` is taken for a separator, as in the script.
- `JsonPrinter.MembersRead`: printed macro invocations have a name of more than one character and one string as argument.
- `RustComments.StrippedExactlyIff`: no macro the scan comes to, unless it holds a comment, ends inside a string literal; the scan would go on from the middle of the literal.
- `RustComments.CommentsStripped`: not printed are the character literal of a quote, raw strings whose body holds a quote or ends in a backslash, and block comments inside block comments, behind whose inner end the script goes on in code; `QuoteLiteralInstance` shows what the first does.
- `JsonPrinter.SpecSchemas`: does not model the search for the builder function's `json!` block.
- `MaskPrinter.MaskExactIff`: printed block comments do not nest, as the masker does not nest them.
- `LocalizedEraser.EraseExactIff`: text inside an element spells neither tag, and between an opener and its `>` quotes are paired and no other `>` stands outside them; `OpenerErased` and `ElementErased` say what the code does otherwise.
- `TestModules.CountLines`: which files count as tests is decided by path and left out, as is decoding.
- `PluginSignature.PluginDigest`: payloads are shorter than 2^64 bytes, as every object is where the script runs.
- The plugin manifest's line parser around `_parse_array`, key generation and RSA.
- `Base64.LenientEncode`: foreign characters are passed over; what the library does with data behind the padding is not modelled.
- `UpdaterKey.RoundTrip`: the UTF-8 decoder is a parameter that undoes the encoder on the wrapper text.
- The scrypt memory allowance and the library's refusal of too large parameters.
- The public key check of the updater script against the committed configuration.
- `SelectList.ColumnsReadBack`: word characters include the letters of FROM and exclude commas and whitespace.
- Mapped fields and their comparison with the column list, which the script finds within fixed windows of lines.
- `FtlDedupe.DedupedAgain`: the text has no carriage return, as reading with universal newlines leaves none.
- `TimeZoneWindows.SensitivityGap`: offsets are whole hours, as the script's table has them; the fixture's zone names are left out.
- `scan-unwrap-panic.py`, the set-equality gates, the heuristic linters and one-off fixers of the repository.
