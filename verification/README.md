# Verification of the build and gate tooling

This project models the algorithms behind the repository's build and gate scripts and proves what those scripts promise. Git, npm, the file system, child processes and library parsers are inputs: parsed nodes, spans, offsets, registry state and executor results.

| file | models |
|---|---|
| `GateGraph.dfy`, `GateScheduler.dfy`, `GateOrder.dfy` | the gate scheduler of `scripts/run-gates.ts`: graph validation by depth-first search, a bounded runner in which any running gate may settle next, and the order in which it starts and skips |
| `TypeLookup.dfy`, `TypeExactness.dfy`, `TypeCompleteness.dfy`, `TypeTermination.dfy`, `PathCycles.dfy` | the three-valued path walk of `scripts/gen-config-catalog.ts`, exactly where its answers can be trusted, when they are definite, and when it ends |
| `ExportSearch.dfy`, `ExportBinding.dfy`, `ConfigClosure.dfy` | the search through re-exports of the same script, its answers against the module system of ECMA-262, and the closure of pasted declarations |
| `Publication.dfy`, `ShellQuoting.dfy` | `scripts/publish-npm-baseline.ts`: resumable publication against a registry that keeps state, and the printer of copyable shell commands |
| `LinkScanner.dfy`, `DocSite.dfy` | `scripts/project-doc-site.ts`: locating link destinations in raw Markdown, and splicing replacements from right to left |
| `TranslationBrief.dfy`, `MechanicalUpdate.dfy`, `RawUpdate.dfy` | `scripts/translation-brief.ts`: replacing blocks of lines in place, and the mechanical update of a translation, told of lines and of whole texts |
| `ArchiveDates.dfy`, `ArchiveHeaders.dfy` | `scripts/archived-agent-notes.ts`: date validation by the calendar of ECMA-262, dates compared as strings, and the header of a note |
| `PackageOrder.dfy`, `LayerOrder.dfy` | `scripts/package-graph.ts`: the layered topological sort, and which package comes first |
| `JsDoc.dfy`, `DocLayout.dfy` | `scripts/jsdoc.ts`: the line state machine that turns comments into prose, and the lines of that prose |
| `HtmlComments.dfy`, `CommentReadings.dfy` | `scripts/markdown.ts`: comment ranges, cut up by line and subtracted, and the comments of CommonMark 0.31.2 |
| `PublintPool.dfy` | `scripts/publint-all.ts`: workers that share a counter |
| `PairingRecord.dfy`, `RecordLines.dfy` | `scripts/translation-pairing-record.ts`: paths of a pair, the record's parser and printer, and exactly which texts parse |
| `Graphs.dfy`, `Sorting.dfy`, `Basics.dfy`, `Sources.dfy`, `Texts.dfy`, `Decimals.dfy` | shared vocabulary: walks and cycles, sorting, options and search, files and names, strings and lines, decimal numbers |

Code that changes state step by step is modelled by classes and loop methods (`CycleFinder`, `RunGates`, `PathWalk`, `Searcher`, `Closure`, `RegistryPublication`, the scanners, `ReplaceSpanTexts`, `TopoSort`, `Prose`, `FindComments`, `Pool`), each proved equal to a specification; the theorems are about the specifications and about every run of the state machines. A thrown error is a value of a result type.

## Results where the code and its intention differ

The model follows the code. Each bullet names the lemmas that prove where the code does what it is for; unless a bullet says otherwise the condition is exact, an "if and only if" over all inputs.

- **Path lookup, answers.** Definite answers are right wherever all types that the walk can come upon are plain for the names that it looks up (`LookupIsSound`, one way). There, where no declaration is met twice, the answer is definite exactly when the types decide the path: "found" if every branch has it, "missing" if no branch can (`LookupDecides`). Its conditions are needed construct by construct. Looking through an operator is right exactly for `readonly` (`OperatorSoundExactly`); looking through `Partial`, `Array` and their like exactly when the name is a bare one that the file neither declares nor imports (`BuiltInSoundExactly`; the file's own `Partial` and one from outside the workspace are `ShadowedWrapperIsMissed` and `UnreachableWrapperIsMissed`); a type parameter is answered rightly exactly when the walk finds no declaration of its name (`ParameterSoundExactly`). A path into a literal or an interface is answered rightly exactly when the first property signature spelled like the name is the first member of that key, or there is neither and no keyless signature (`LiteralPathSoundExactly`, `InterfacePathSoundExactly`); for a single step it is enough that a spelled and an owned member both exist, or neither and no keyless signature (`LiteralSoundExactly`, `InterfaceSoundExactly`). A method or a quoted key is reported missing (`MissingCanBeWrong`). The walk asks the first of several interfaces of one name, which is right for the merged type exactly when the others add no key (`MergedSoundExactly`, for interfaces of spelled properties without bases; `MergedMemberIsMissed`).
- **Path lookup, termination.** Indexed access lengthens the path while the cycle guard is keyed on its length. The walk ends where indexed access is well-founded: every declaration can be given room for the steps that it may push (`WellFoundedTerminates`, one way only); `interface A { x: A['x'] }` is such a world (`SelfIndexIsWellFounded`). An alias that leads back to itself exhausts every stack exactly when an indexed access lies on the way, as in `type A = A['x']`, and is "unknown" otherwise (`AliasCycleDivergesExactly`, `SelfIndexingAliasDiverges`). A round through members and array elements that comes back to a declaration and to the front of the path never ends exactly when it never meets a declaration with a path as long as one it had there before (`RoundDivergesExactly`): `interface A { x: A['x']['x'] }` diverges (`DoublyIndexedDiverges`), while `interface A { x: A['y']['x']; y: A['x'] }` makes the path longer in every round and is still ended by the guard (`CrossIndexedEnds`).
- **Export search.** The search takes export statements in their order and every declared type for an exported one; the module system puts named exports before star exports. Without circles the search finds what every name is bound to, in all linked programs with given re-exports whose declared types are exported, exactly when in each file the statement that is asked first for a re-exported name ends at the same declaration as the named export of it (`StructureRightExactly`). The conditions are needed: `StarFirstMisleads`, `UnexportedMisleads`, and for circles, where the shared set leads a search with every named export in front to another declaration, `CircleMisleads`.
- **Publication.** With `latest` as the bundle's own dist-tag, the entry package's `latest` moves before the packages behind it are present; it moves last for every starting state exactly when the dist-tag is another one or the entry package comes last (`LatestMovesLastExactly`).
- **Shell commands.** The tokens always come back; the shell reads the first one as the command exactly when it is not printed bare as an assignment or reserved word (`CommandRoundTripExactly`).
- **Link destinations.** Labels are located exactly when they balance outside escapes, bare destinations exactly when no white space stands outside parentheses and no literal backslash ends the text before more text, angle destinations exactly when they hold no unescaped `>` (`LabelEndExactly`, `BareEndExactly`, `AngleEndExactly`).
- **Mechanical update.** Equal masks mean equal prose exactly when no prose segment holds the placeholder of the block on either side of it (`MaskDeterminesProseExactly`). Lines that end in a carriage return lose it when a block is written and read back; the result holds the current blocks exactly when no changed block has such a line, and updating back is an undo exactly when no current block has one (`UpdateIsExactly`, `UpdatingBackRestoresExactly`).
- **Dates.** `Date.UTC` takes the years 0 to 99 for 1900 to 1999, so real dates before the year 100 are rejected (`ValidDateExactly`). A file name's date need not be real. Comparing accepted dates with it as strings is comparing days exactly when it is real, or names the day right behind a month's last one (such as 31 April, the first of month 13 or the 32nd of month 0), or lies outside the accepted years both by its fields and by its day (`NoteOrderExactly`); an archive date of 1 March is not reported for a note of 31 February, which is 2 March (`UnrealDatesCompareByFields`).
- **HTML comments.** For the scan `<!-->` and `<!--->` open a comment, for section 6.6 of CommonMark 0.31.2 they are one. Both hide the same characters of a node exactly when behind every comment closed so abruptly there are further comments, and nothing else, up to the next close that the scan finds (`ReadingsAgreeExactly`); of `<!--> x` the scan hides the x (`AbruptCommentHidesText`).
- **Pairing records.** A rendered record gives its hashes back exactly when the name can be a key, the hashes are hashes and every further line of a path with line breaks is empty or a comment (`RoundTripExactly`).
- **Pool.** Without workers a nonempty target list ends in the missing-result error; the concurrency computed by the script is never zero for one (`ResultsAreScheduleFree`, `LintAll`).

## Model

| member | source | states |
|---|---|---|
| GateGraph.CycleFinder.Visit | scripts/run-gates.ts:675-692 | a reported list is a closed walk along `needs`; otherwise the path and the active map are as before and the gate is completed |
| GateGraph.CycleFinder.Search | scripts/run-gates.ts:694-698 | visiting every gate reports a cycle exactly when the graph has one |
| GateGraph.FindDependencyCycle | scripts/run-gates.ts:669-699 | no cycle is found if and only if the `needs` graph is acyclic, and what is found is a cycle of it |
| GateGraph.ValidateGateGraph | scripts/run-gates.ts:649-667 | accepted exactly the nonempty lists with unique ids, known needs and no cycle; every rejection carries a genuine witness, the first of its kind, and names the first check that fails |
| GateScheduler.EveryRunIsSafe | scripts/run-gates.ts:719-770 | at every point of every run: never more than `maxActive` running, each gate started at most once and reported exactly when it has its result, started only after all needs passed, and awaiting only when full or with nothing ready |
| GateScheduler.EveryRunTerminates | scripts/run-gates.ts:723-770 | every run has at most two events per gate, whatever settles when |
| GateScheduler.DrainedHasBlocked | scripts/run-gates.ts:734-741 | when nothing runs and nothing is ready but gates are pending, one of them has a failed or skipped need: the "stalled" error is unreachable |
| GateScheduler.RunsNeverStall | scripts/run-gates.ts:723-770 | every unfinished run of a validated graph can go on |
| GateScheduler.Confluence | scripts/run-gates.ts:719-777 | all complete runs of a graph with one executor end in the same states and results, for all settle orders and all bounds |
| GateScheduler.FinalStatuses | scripts/run-gates.ts:735-768 | a gate ends skipped exactly when some gate it needs, directly or not, did not pass, and otherwise has its executor's result |
| GateScheduler.SkipsAreDetermined | scripts/run-gates.ts:735-759 | the skips behind the last settled gate come in one order only, whatever the bound |
| GateScheduler.ExitCodeIsScheduleFree | scripts/run-gates.ts:94-96 | the exit code is zero exactly when every gate that may not fail has final status passed, so it does not depend on the interleaving |
| GateScheduler.RunGates | scripts/run-gates.ts:709-777 | rejects what validation or the concurrency check rejects before anything starts; otherwise its events are a complete valid run and it returns every gate's own result in list order, so the "missing result" error is unreachable |
| GateScheduler.SkipBlocked | scripts/run-gates.ts:735-759 | the skipping loop always finds a gate and leaves every gate with a result |
| GateOrder.RunsFollowTheList | scripts/run-gates.ts:725-768 | told from the events alone: every start is the first gate of the list that may start, every skip is the first one that must be skipped and names exactly its failed and skipped needs in order, and the runner awaits only without a free slot or a gate that may start |
| TypeLookup.PathWalk.LookupPath | scripts/gen-config-catalog.ts:317-403 | the recursive walk over the shared `seen` set computes the specified verdict and set |
| TypeLookup.LookupIsSound | scripts/gen-config-catalog.ts:317-403 | "found" means present and "missing" means absent, whatever `seen` holds and whatever unresolved types and type parameters contain, if in the declarations and types that the walk can come upon: under every name that is looked up, indexed access included, each literal and interface has its first spelled member as its first member of that key (or has neither, and no keyless signature), `readonly` is the only operator, unions are not empty, wrapper and array names with arguments are bare names that the file does not bind, and no type parameter has the name of a declaration that the file resolves |
| TypeCompleteness.LookupDecides | scripts/gen-config-catalog.ts:317-403 | under these conditions, where no declaration is met twice and the stack suffices, the answer is "found" if and only if every branch has the path without help from what cannot be seen, and "missing" if and only if no branch has it whatever cannot be seen; heritage, references and indexed access included |
| TypeCompleteness.StructuralDecides | scripts/gen-config-catalog.ts:361-379 | for types without references and indexed access this holds at every depth beyond the type's height |
| TypeExactness.OperatorSoundExactly | scripts/gen-config-catalog.ts:380 | looking through an operator gives sound answers for all plain operands and paths exactly when it is `readonly` |
| TypeExactness.BuiltInSoundExactly | scripts/gen-config-catalog.ts:388-397 | looking through a wrapper or array name gives sound answers for all plain arguments and paths exactly when it is a bare name that the file neither declares nor imports, from wherever |
| TypeExactness.ShadowedWrapperIsMissed | scripts/gen-config-catalog.ts:392-394 | a member of a file's own `Partial` is present and answered "missing" |
| TypeExactness.UnreachableWrapperIsMissed | scripts/gen-config-catalog.ts:392-394 | a `Partial` that is imported from outside the workspace or declared as a class is answered "missing" for what its argument lacks, though it may hold anything |
| TypeExactness.ParameterSoundExactly | scripts/gen-config-catalog.ts:399-400 | a type parameter is answered soundly whatever is declared exactly when its name resolves to no declaration |
| TypeExactness.LiteralSoundExactly | scripts/gen-config-catalog.ts:335-343 | for a literal and one step the answer is sound exactly when some property signature is spelled like the name if and only if some member has that key, and without one there is no keyless signature |
| TypeExactness.InterfaceSoundExactly | scripts/gen-config-catalog.ts:344-360 | the same for an interface, over all heritage whose bases answer soundly |
| TypeExactness.LiteralPathSoundExactly | scripts/gen-config-catalog.ts:335-343 | for a literal and a longer path the answers are sound, for all member types whose own answers are sound, exactly when the first member spelled like the name is the first of that key, or there is neither and no keyless signature |
| TypeExactness.InterfacePathSoundExactly | scripts/gen-config-catalog.ts:344-360 | the same for an interface, over all member types and all heritage that answer soundly; both may refer to it |
| TypeExactness.InterfacePathSound | scripts/gen-config-catalog.ts:344-360 | under that condition an interface with bases answers soundly if its member's type does, or without a member all its bases do |
| TypeExactness.MissingCanBeWrong | scripts/gen-config-catalog.ts:335-343 | a literal with a method of that name, or with the key in quotes, is answered "missing" though the member is present |
| TypeExactness.MergedSoundExactly | scripts/gen-config-catalog.ts:133-139 | the first of several interfaces of one name answers for the merged type under every name exactly when the others add no key |
| TypeTermination.WellFoundedTerminates | scripts/gen-config-catalog.ts:318-326 | where every declaration stays within the room for pushed steps that it is given, one recursion depth is enough for a site and path, whatever `seen` holds |
| TypeTermination.WalkTerminates | scripts/gen-config-catalog.ts:318-326 | in particular without indexed access |
| TypeTermination.AliasCycleDivergesExactly | scripts/gen-config-catalog.ts:381-385 | an alias that leads back to itself exceeds every depth exactly when an indexed access lies on the way; otherwise the guard answers "unknown" |
| PathCycles.RoundDivergesExactly | scripts/gen-config-catalog.ts:318-326 | a walk that comes back to a declaration and the front of its path, whatever else is on the path, exceeds every depth exactly when it never meets a declaration with a path as long as before, in the round or rounds apart; otherwise it is answered "unknown" |
| PathCycles.CrossIndexedEnds | scripts/gen-config-catalog.ts:318-326 | a round that makes the path longer and still is ended by the guard |
| PathCycles.GrowingRoundIsNotWellFounded | scripts/gen-config-catalog.ts:381-385 | a round on which the path grows is not well-founded under any rooms |
| ExportSearch.Searcher.FindExported | scripts/gen-config-catalog.ts:256-278 | a hit is reachable over re-exports and declares its name; without a hit everything newly seen is exhausted, so the shared set loses nothing |
| ExportSearch.FindExportedTypeDecl | scripts/gen-config-catalog.ts:256-278 | finds a declaration if and only if some reachable file and name declares it, on cyclic and diamond re-exports too; stops only at a reachable file that cannot be loaded; the answer is the first in the order of the export statements |
| ExportBinding.StructureRightExactly | scripts/gen-config-catalog.ts:256-278 | for re-exports without circles: the search finds the binding of every name by section 16.2.1.6.3 of ECMA-262, in all linked programs with these re-exports whose types are exported, exactly when in each file what is asked first for a name re-exported by name leads through named exports to where that export leads |
| ExportBinding.CircleMisleads | scripts/gen-config-catalog.ts:257-259 | in circles the shared set can hide the binding, though every named export comes first |
| ExportBinding.UnexportedMisleads | scripts/gen-config-catalog.ts:260-261 | a type that the file keeps to itself is found instead of the one that it exports |
| ConfigClosure.Closure | scripts/gen-config-catalog.ts:661-717 | no violation if and only if every needed name is known, the config type is local and each name means one declaration or one import; then the pasted declarations are exactly those reached from the config type, once each and under their names, and the references are exactly the imports reached; the config type's declaration is pasted first, nearer declarations before farther ones, in the order of their mentions, and every violation is true of its name |
| Publication.UninterruptedRun | scripts/publish-npm-baseline.ts:625-698 | a run ends within its budget of registry commands in the closed form of outcome and registry state |
| Publication.PublishedExactly | scripts/publish-npm-baseline.ts:630-698 | publication succeeds if and only if no package exists with another integrity and the entry package is there or in the bundle; then every package has its integrity and dist-tag and `latest` points to the version |
| Publication.ResumeAfterInterruption | scripts/publish-npm-baseline.ts:625-654 | stopped after any registry command and run again, it ends in the same outcome and state as an uninterrupted run |
| Publication.ResumeAfterMany | scripts/publish-npm-baseline.ts:625-654 | the same for any number of interruptions |
| Publication.RunOnlyAdds | scripts/publish-npm-baseline.ts:632-649 | no command replaces or removes a published integrity, what is added is the bundle's version with its package's integrity, and only the bundle's tags and the entry package's `latest` change, to the bundle's version |
| Publication.LatestMovesLastExactly | scripts/publish-npm-baseline.ts:649-651 | for every starting state `latest` moves only once all packages are present with integrity and dist-tag, exactly when the bundle's dist-tag is not `latest` or the entry package comes last |
| Publication.RegistryPublication.PublishPackage | scripts/publish-npm-baseline.ts:630-650 | one package: uploaded when missing, left when present, refused on another integrity, then tagged |
| Publication.RegistryPublication.EnsureDistTag | scripts/publish-npm-baseline.ts:755-764 | the tag points to the version afterwards, and the command fails exactly when the package or the version is unknown |
| Publication.RegistryPublication.VerifyRemote | scripts/publish-npm-baseline.ts:662-684 | accepts exactly the states in which every package has its integrity and dist-tag |
| Publication.VerificationExactly | scripts/publish-npm-baseline.ts:656-698 | whatever the registry holds, the verifying commands succeed exactly when every package is present, unaltered and tagged and the entry package's `latest` is this version |
| Publication.RegistryPublication.Publish | scripts/publish-npm-baseline.ts:625-654 | the loop of registry effects reaches the outcome and state of the machine's closed form |
| ShellQuoting.TokenRoundTrip | scripts/publish-npm-baseline.ts:994-1003 | tokenizing the printed command by the quoting rules of section 2.2 of the POSIX.1-2017 Shell Command Language gives back the command and all arguments, for all strings |
| ShellQuoting.CommandRoundTripExactly | scripts/publish-npm-baseline.ts:994-1003 | the shell runs that command with those arguments exactly when the command word is not printed bare as an assignment or a reserved word |
| ShellQuoting.QuotedIsOneToken | scripts/publish-npm-baseline.ts:998-1003 | a quoted argument is one token with the argument as its value, whatever follows |
| ShellQuoting.PrintedBareExactly | scripts/publish-npm-baseline.ts:999 | an argument is printed as it is if and only if it is not empty and holds only the characters that need no quotes |
| ShellQuoting.CommandIsJoined | scripts/publish-npm-baseline.ts:994-996 | the printed line is the printed command and arguments with one space between them |
| LinkScanner.FindLabelEnd | scripts/project-doc-site.ts:71-87 | the index loop with its depth counter finds the bracket that the specification closes the label with |
| LinkScanner.LabelEndExactly | scripts/project-doc-site.ts:71-87 | the label's own closing bracket is found if and only if the label balances outside escapes |
| LinkScanner.BareEndExactly | scripts/project-doc-site.ts:117-131 | a bare destination is read to its end if and only if no white space stands outside parentheses and no literal backslash ends it before more text |
| LinkScanner.AngleEndExactly | scripts/project-doc-site.ts:109-115 | an angle destination is read to its end if and only if it holds no unescaped closing bracket and no dangling escape |
| LinkScanner.LocateDestination | scripts/project-doc-site.ts:89-132 | the loops compute the specified range or failure for every raw node |
| LinkScanner.DestinationIsLocated | scripts/project-doc-site.ts:89-132 | for a balanced label, white space and a readable destination of section 6.3 of CommonMark 0.31.2 the range is exactly the destination's text |
| LinkScanner.LocatingFailsExactly | scripts/project-doc-site.ts:91-105 | which error a raw node gets: none behind the label exactly without a closing bracket, a colon or the opening parenthesis |
| LinkScanner.AngleIsOpenExactly | scripts/project-doc-site.ts:109-115 | behind white space the angle-bracket error comes exactly when an angle bracket opens and no unescaped one closes it |
| DocSite.ReplacementsDisjoint | scripts/project-doc-site.ts:250-268 | replacements of a document are pairwise disjoint and inside it: an image in a link's label lies before the link's destination |
| DocSite.ApplyDoc | scripts/project-doc-site.ts:271-276 | descending splices turn a document into the one with exactly the redirected destinations replaced, between any neighbours |
| DocSite.CollectDoc | scripts/project-doc-site.ts:251-268 | visiting a scannable document locates each redirected destination at its place in the source |
| DocSite.RewriteIsRedirection | scripts/project-doc-site.ts:225-277 | collecting, sorting and splicing equals simultaneous substitution: every redirected destination is replaced and every other character stays |
| DocSite.RewriteMarkdown | scripts/project-doc-site.ts:225-277 | the visiting and splicing loops compute that rewriting, or the scanner's first failure |
| TranslationBrief.LinesRoundTripExactly | scripts/translation-brief.ts:35-43 | written lines read back unchanged if and only if none ends in a carriage return |
| TranslationBrief.SplicingReplaces | scripts/translation-brief.ts:168-176 | splicing from the last block to the first puts every new block in place of the old one and keeps all prose |
| TranslationBrief.ReplaceSpanTexts | scripts/translation-brief.ts:168-176 | the in-place loop writes the document with exactly the named blocks replaced, and fails exactly when a named block does not exist |
| MechanicalUpdate.MaskCodeSpans | scripts/translation-brief.ts:178-180 | computes the mask: the prose with one placeholder line for each block |
| MechanicalUpdate.MaskDeterminesProseExactly | scripts/translation-brief.ts:178-180 | a prose is the only one with its mask if and only if no segment holds the placeholder of the block before or behind it |
| MechanicalUpdate.UpdatesExactlyCodeChanges | scripts/translation-brief.ts:193-203 | for such a prose there is an update if and only if the translation has the confirmed blocks, the prose is untouched and some block changed |
| MechanicalUpdate.UpdateInterleaves | scripts/translation-brief.ts:193-203 | an update is the translation's prose segments interleaved with the source's blocks in order |
| MechanicalUpdate.UpdateIsExactly | scripts/translation-brief.ts:168-203 | the blocks in the result are exactly the current ones if and only if no line of a changed block ends in a carriage return |
| MechanicalUpdate.CutsBack | scripts/translation-brief.ts:173 | cutting the interleaved lines at the shifted spans gives prose and blocks back |
| MechanicalUpdate.UpdatingBackRestoresExactly | scripts/translation-brief.ts:193-203 | updating back restores the normalised translation if and only if no line of a current block ends in a carriage return, and gives nothing otherwise |
| MechanicalUpdate.UpdatingBackIsUndo | scripts/translation-brief.ts:193-203 | on a text whose lines end in line feeds only, updating back gives the translation itself under that condition |
| MechanicalUpdate.ComputeMechanicalUpdate | scripts/translation-brief.ts:193-203 | the method decides and splices as the specification says |
| RawUpdate.LinesOfRaw | scripts/translation-brief.ts:35-39 | of a text whose last line may lack its line feed all lines are read, the last one included; only the carriage returns in front of line feeds go |
| RawUpdate.UpdateOfTexts | scripts/translation-brief.ts:193-203 | for three texts put together from prose and blocks, with or without a last line feed: with prose that the masks cannot mistake there is an update if and only if the prose stayed, a block changed and the translation has the old blocks, and it is the translation's prose, down to its last line, with the new blocks |
| RawUpdate.MaskOfText | scripts/translation-brief.ts:178-180 | the mask is the prose with one numbered line in place of each block |
| ArchiveDates.FieldsOfDay | scripts/archived-agent-notes.ts:76-77 | every real date's day has that year, month and date by section 21.4.1 of ECMA-262 |
| ArchiveDates.FieldsAreReal | scripts/archived-agent-notes.ts:76-77 | every day's fields are a real date that falls on it |
| ArchiveDates.SurvivesExactly | scripts/archived-agent-notes.ts:73-77 | normalising by MakeDay and comparing keeps exactly the real dates from the year 100 on |
| ArchiveDates.TimeIsInRange | scripts/archived-agent-notes.ts:76 | the pattern's years stay within the time range of section 21.4.1.1 of ECMA-262, so the clipped time is never NaN |
| ArchiveDates.ValidDateExactly | scripts/archived-agent-notes.ts:70-78 | a text is accepted if and only if it has the pattern and is a real Gregorian date of the years 100 to 9999 |
| ArchiveDates.NoteOrderExactly | scripts/archived-agent-notes.ts:106 | comparing accepted dates as strings with a file name's date is comparing the days they fall on exactly when that date is real, is the day right behind a month's last one, or lies outside the accepted years by its fields and by its day |
| ArchiveDates.UnrealDatesCompareByFields | scripts/archived-agent-notes.ts:106 | an accepted archive date before a note's day that is not reported, because the note's date is not real |
| ArchiveDates.CheckArchiveLine | scripts/archived-agent-notes.ts:103-108 | no complaint exactly for a date that is accepted and not before the note's; the "predates" complaint exactly for an accepted earlier one |
| ArchiveDates.ValidateHeader | scripts/archived-agent-notes.ts:97-115 | the complaints are exactly those that the six lines deserve, in their order; none if and only if all lines are as required |
| ArchiveHeaders.HeaderExactly | scripts/archived-agent-notes.ts:97-115 | which contents draw no complaint, line by line in literal form |
| ArchiveHeaders.SwitcherLeadsAcross | scripts/archived-agent-notes.ts:110-113 | each language's switcher line links the other language's file of the pair |
| PackageOrder.TopoSort | scripts/package-graph.ts:59-77 | succeeds if and only if no dependency is missing and there is no cycle; the result is the layers by longest chain, each sorted |
| PackageOrder.LayerIsLongestChain | scripts/package-graph.ts:64-67 | a package is in the n-th layer exactly when its longest chain of dependencies has n steps |
| PackageOrder.OrderFollowsDependencies | scripts/package-graph.ts:63-76 | every package stands behind all its dependencies |
| PackageOrder.OrderIsPermutation | scripts/package-graph.ts:63-76 | the result holds each package exactly as often as the input |
| PackageOrder.InputOrderIsIrrelevant | scripts/package-graph.ts:59-77 | with unique names and a total comparison, permuting the input does not change the result |
| PackageOrder.CompareIsTotal | scripts/package-graph.ts:79-85 | under a collation that orders totally and tells texts apart, the comparison is a total order on packages of different names |
| PackageOrder.EntriesAreUnique | scripts/package-graph.ts:60 | the map holds one package for each name, and all of them when names are unique |
| PackageOrder.EntriesAreLast | scripts/package-graph.ts:60 | of packages of one name the map keeps the last |
| LayerOrder.ResultIsInOrder | scripts/package-graph.ts:63-83 | of two packages the one with the shorter longest chain stands first; at equal chains the one whose group comes first in the order, a listed group before an unlisted one; then the collation of the groups decides, then that of the names |
| JsDoc.ParseJsDoc | scripts/jsdoc.ts:32-82 | the line loop builds exactly the paragraphs and lists of the lines before the first tag, the last valid mode, and whether any mode tag is present |
| JsDoc.DescriptionKeepsWords | scripts/jsdoc.ts:43-81 | the description's words are the words of the lines before the first tag, once each and in order |
| DocLayout.DescriptionIsLaid | scripts/jsdoc.ts:43-80 | the description's lines: every paragraph on one line, every item of a list on one of its own, one empty line between blocks and none between the items of a list; a paragraph or item takes the lines up to a blank one or the next item, and behind an item every item up to the next blank line belongs to its list |
| DocLayout.ModeExactly | scripts/jsdoc.ts:62-63 | a line gives a mode exactly when it is the tag, white space and that mode's own word, with white space around |
| DocLayout.LastModeIsLast | scripts/jsdoc.ts:60-63 | the parsed mode is that of the last line that gives one |
| DocLayout.ModeTagExactly | scripts/jsdoc.ts:64 | a line counts as a mode tag exactly when the tag is not the front of a longer word |
| JsDoc.Prose.AddItem | scripts/jsdoc.ts:67-74 | an item flushes the item before it and a paragraph above it, keeps that an open item excludes an open paragraph and a pending list has an open item, and changes nothing of the outcome |
| JsDoc.Prose.FlushPara | scripts/jsdoc.ts:53-57 | everything pending becomes blocks in order and nothing stays open |
| JsDoc.Prose.Read | scripts/jsdoc.ts:58-78 | each kind of line keeps the invariant and the blocks expected from the rest |
| HtmlComments.FindComments | scripts/markdown.ts:112-120 | the found ranges cover exactly the characters that a reader of comments hides, unclosed ones to the end |
| HtmlComments.AllComments | scripts/markdown.ts:109-121 | over all nodes the ranges cover exactly the hidden source positions |
| HtmlComments.LineStands | scripts/markdown.ts:124-137 | the running line offset is where the line stands in the source |
| HtmlComments.LineColumns | scripts/markdown.ts:127-136 | a line's ranges cover exactly its hidden columns, and there are some exactly when a comment touches it or the break behind an empty line |
| HtmlComments.HtmlCommentRanges | scripts/markdown.ts:108-140 | the map has for every line its hidden columns, and no entry for an untouched line |
| HtmlComments.HasRenderedText | scripts/markdown.ts:143-153 | true exactly for an untouched line or one with an uncovered character that is not white space, ranges overlapping or not |
| HtmlComments.MarkdownProseLines | scripts/markdown.ts:160-176 | a line is kept if and only if it is outside code and, when comments touch it, some character that is not white space lies outside every comment |
| CommentReadings.ReadingsAgreeExactly | scripts/markdown.ts:112-120 | the scan hides the same characters of a node as the comments of section 6.6 of CommonMark 0.31.2 exactly when behind every `<!-->` and `<!--->` there are only further comments up to the close that the scan finds |
| PublintPool.EveryRunIsSafe | scripts/publint-all.ts:127-138 | under every interleaving targets start once each and in order, results lie at their own index, and exactly as many lints are in flight as workers and unsettled targets allow |
| PublintPool.NeverStuck | scripts/publint-all.ts:130-138 | while a worker is not finished some lint can settle |
| PublintPool.ResultsAreScheduleFree | scripts/publint-all.ts:127-145 | with a worker the results are those of the targets in order whatever settled when, after one settlement each; without workers a nonempty list ends in the missing-result error for its first target |
| PublintPool.Pool.Resume | scripts/publint-all.ts:131-137 | storing a result and taking the next target in place is the machine's step |
| PublintPool.RunAll | scripts/publint-all.ts:127-145 | the pool ends and returns that outcome for every choice of settlements |
| PublintPool.ConcurrencyExactly | scripts/publint-all.ts:48-61 | without targets no workers; with an unset or empty setting as many as processors, and with the canonical text of a positive safe integer that many, neither above the number of targets; every other text is an error |
| PublintPool.LintAll | scripts/publint-all.ts:156-160 | with the computed concurrency every target's result is returned |
| PairingRecord.MetaPathsInvert | scripts/translation-pairing-record.ts:31-55 | a pair's record path leads back to the pair, and a record path's document back to the record path |
| PairingRecord.MetaPathsExactly | scripts/translation-pairing-record.ts:50-55 | a record path has a pair if and only if it ends as one and its document would not be a translation |
| PairingRecord.MatchExactly | scripts/translation-pairing-record.ts:23 | a line matches exactly when it is a printed entry of a key and a hash |
| PairingRecord.ParseRecord | scripts/translation-pairing-record.ts:64-80 | the loop over the lines parses as specified, duplicates and unexpected keys included |
| PairingRecord.RoundTripExactly | scripts/translation-pairing-record.ts:64-99 | a rendered record parses to itself if and only if the name can be a key, both hashes are hashes and the path's further lines are skipped |
| PairingRecord.ParseRenderParse | scripts/translation-pairing-record.ts:64-99 | what was parsed from any text parses again after rendering, under the path's condition |
| PairingRecord.OneLinePathContinues | scripts/translation-pairing-record.ts:94 | a path without line breaks meets that condition |
| RecordLines.ParsesExactly | scripts/translation-pairing-record.ts:64-80 | a text parses to a record if and only if it has one line for each of the two names, in either order, with that name, a colon, a space and the record's hash, and all other lines are empty or comments |
| RecordLines.NameExactly | scripts/translation-pairing-record.ts:76-77 | a document's name in the record is what stands behind the last slash of its path |
| RecordLines.PairPathsExactly | scripts/translation-pairing-record.ts:31-42 | a path has a pair exactly when it is a stem with the suffix of an English document, and the three paths share that stem |
| RecordLines.RenderedExactly | scripts/translation-pairing-record.ts:89-99 | the rendered lines: the comments, the command with the path, the document's entry, the translation's entry, and a last line feed |

## Left out

- Process spawning, output, signals, timing and environment variables of the scripts; a gate's executor and a lint are functions, and which of them settles next is a free choice. A rejected promise is not modelled: the executors turn failures into results.
- `gatesForMode` and the gate lists: finite tables.
- TypeScript, Markdown, TOML and YAML parsing: parsed nodes, spans and offsets are inputs, taken as ordered, disjoint and in range. Type arguments are not put in for parameters; a name resolves to one declaration, and what that means for merged interfaces is `MergedSoundExactly`.
- TypeLookup.LookupIsSound: union types are not empty, as the parser guarantees; a caller outside its other conditions gets the exact theorems of `TypeExactness.dfy`, each for one construct.
- TypeCompleteness.LookupDecides: a declaration met again with a path of the same length is answered "unknown", so walks that come back to one are left to the theorems about soundness and divergence.
- TypeTermination.WellFoundedTerminates: the recursion depth stands for the call stack. Divergence is characterised for walks with one way to go (`AliasCycleDivergesExactly`, `RoundDivergesExactly`), not for those that branch at heritage, intersections and unions.
- TypeExactness.MergedSoundExactly: for interfaces of properties spelled by their keys, without bases.
- ConfigClosure.Closure: name resolution is a total map over a finite set of questions, and the documentation check of pasted members is not modelled.
- ExportSearch.FindExportedTypeDecl: a file that cannot be loaded ends the search, as the thrown error does.
- ExportBinding.StructureRightExactly: default exports, exports of packages and `export { x as y }` without `from` are left out of the programs it speaks of; a name without exactly one binding does not link.
- Publication: the first publication of a package makes npm move its `latest` by itself; the registry here moves only the tag named in the command. Network failures are interruptions between commands. Identity check, confirmation and the local checks of a bundle are left out.
- DocSite.RewriteIsRedirection: the documents are trees of text, links, images and definitions whose labels balance; which destination gets which address is a parameter, and the resolution of repository paths is left out.
- MechanicalUpdate.UpdatingBackRestoresExactly: that re-parsing the result finds the blocks at their shifted lines is taken from the Markdown parser.
- JsDoc.ParseJsDoc: the comment's delimiters and stars are stripped beforehand, and `{@link X}` is not unwrapped; `parseTags` is left out.
- HtmlComments.MarkdownProseLines: an HTML node's value is taken as the source text at its offset.
- LayerOrder.ResultIsInOrder: the order lists fewer groups than the largest safe integer.
- PackageOrder.InputOrderIsIrrelevant: `localeCompare` is a parameter; that it orders totally and tells different texts apart is assumed where it is needed.
- PublintPool.LintAll: at least one processor is available, as the platform guarantees; `publicationFiles` and the printing of results are left out.
- PairingRecord: paths use forward slashes. The comment lines of a rendered record are parameters: any comments give the same theorems.
- The rendered catalogs of the `gen-*` scripts, `rescope-vendor.ts`, `session-fixture-layout.ts`, `gen-doc-graphs.ts`, `gen-scoped-events.ts` and `test-invariants.ts`: long data, or a meaning that rests on code outside these scripts.
