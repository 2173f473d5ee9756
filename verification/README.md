# The hub's algorithms, verified

This project models the parts of the ARGUS Knowledge Hub that are algorithms and protocols, and proves what they are
for. It stands beside the Python code and runs nothing of it. `dafny verify dfyconfig.toml` checks the whole project.

What is modelled, and the main result of each part:

- **The idempotency-key protocol** (`Idempotency`, `IdempotencyHub`). Many requests, a table with a unique key, a
  clock, crashes and a purge, as a transition system in which reading a row and deleting it are two moves. In every
  reachable state a command is stored at most once, among answers stored within ten minutes of their reservation, to
  captures no later than seven days after it, less what passed between check and reservation; a retry gets that answer
  until it expires, and before there is one is told to wait; no request touches a fresh row that is not its own. Both
  conditions are needed: a promptly stored command whose answer has not expired can be so stored again, reserved at
  its check, if and only if it was captured more than seven days after its reservation, or carries no capture time;
  and a command that is still in time and holds its row can be stored twice before the clock moves if and only if it
  has executed for longer than the ten minutes after which its reservation counts as stale. The class `Hub` holds the
  table and the requests as fields, one method a statement, each tied to its move.
- **Catalogue upgrades** (`CatalogueValues`, `CatalogueMerge`, `CatalogueInstall`, `CatalogueOrder`). A three-way
  merge of each field: the last release, this release, the record. What a person wrote on an adopted record survives
  every later sequence of releases and decisions that keep it; on a record the collection made it survives exactly
  when no release newly states the field. Where a release leaves record and collection apart, that is listed as a
  conflict, but for a local override it does not touch. The same release once more writes nothing. The order of an
  installation exists exactly when nothing required is missing or on a circle, and then lists each collection after
  what it needs; otherwise what it reports is so.
- **The beamline network** (`Graphs`, `BeamNetwork`, `BeamRoutes`, `BeamArcs`, `BeamModel`, `NameOrder`, `BeamNet`,
  `BeamNames`, `BeamSupports`). Built in place from a document, every name in it read as the placement it means; walks
  list exactly what is reached, nearest first, at the true distance; the way between two components is the inside of a
  shortest route; the arcs of a ring partition it; what moves with a support is exactly what is mounted below it, in
  mountings of any shape, and exactly when that is what has the support in its chain.
- **The lattice languages** (`LatticeExpressions`, `LatticeSplit`, `LatticeLines`, `LatticePlacing`, `LatticeNames`,
  `LatticeRpn`). A lazy evaluator against inlining, a bracket-aware splitter that undoes joining, a line expander with
  repeats and reversals, two ways of placing elements that agree, identifiers that stay apart, and a stack machine
  that calculates what was written for it.
- **The matcher** (`MatchScore`, `MatchEvidence`, `MatchWeights`, `MatchRun`, `MatchContest`). Evidence combines in
  any order to a confidence; which evidence is enough to propose and to accept without asking; no asset is proposed
  twice, or while confirmed elsewhere, or to a component it was refused for; who keeps a contested asset beats every
  rival by the margin.
- **The field contract** (`ApiContract`, `ApiMentions`, `ApiChoices`, `ApiNulls`). Exactly the schemas that the
  operations come to, by way of what names what; one pass after which, at any depth, there is no untyped list or
  option, no object or enum default, and no required property whose schema, as rewritten, says that it may be null;
  and, told from the schema as given, which choices of primitive types the pass leaves, and which properties that may
  be null it leaves required.
- **The YAML key editor** (`Scans`, `Blocks`, `WholeReads`, `WholeValues`, `BlockEdit`, `BlockOpens`, `BlockInputs`).
  The editor takes an entry to end at its first blank line. As far as it sees the key reads back, every other key and
  line stays, and twice is once; with the blank lines a value may hold, exactly when it cuts none short.

`Wrappers`, `Texts`, `Lists`, `Folds`, `Sorting` and `Numbering` hold what several parts use.

## What the proofs turned up

Each of these is a lemma below: an input on which the code does what one would not expect, or exactly when it does.

- A command that still holds its row can be stored twice exactly when its execution has lasted longer than
  `STALE_AFTER` (`Idempotency.CanBeStoredTwiceIff`; from the start, `Idempotency.LateAnswerLetsACommandRunTwice`). The
  code says of `STALE_AFTER` only that a process that died is released; a process that is slow is too.
- A command that was promptly stored can be so stored again after its row has expired exactly when the client says
  that it was captured more than seven days after it was reserved, or sends no capture time
  (`Idempotency.CanBeStoredAgainIff`; from the start, `Idempotency.FutureCaptureIsStoredAgain`).
- On a record the collection itself made, a value a person wrote is lost, with no conflict, when a release drops the
  field and the next states it again (`CatalogueMerge.DroppedAndStatedAgainIsOverwritten`; exactly when,
  `CatalogueMerge.WrittenSurvivesIff`).
- A conflict stays listed on a field where release and record have come to agree, in the branches that do not clear it
  (`CatalogueMerge.AgreedButStillListed`; exactly when, `CatalogueMerge.SettledConflictStays`).
- A schema or property called `default` is taken for an object default and dropped from the contract
  (`ApiContract.DefaultPropertyIsLost`; that no other is, `ApiContract.NamesKept`).
- A choice of primitive types is left when its options become primitive only by the rewriting itself
  (`ApiChoices.PrimitiveUnionCanBeLeft`; exactly when, `ApiChoices.PrimitiveUnionLeft`).
- A required property that may be null stays required when only a choice that is dropped said so
  (`ApiNulls.OptionalListStaysRequired`; exactly when, `ApiNulls.NullableStaysRequiredIff`).
- A key that stands under a blank line of its entry is not seen, and is added a second time
  (`BlockEdit.BlankLineHidesAKey`; exactly when an edit leaves one line of the key, `BlockEdit.OneLineOfTheKeyIff`).
- A text with a blank line in it is cut in two by a key that is added after it, and is not replaced whole
  (`BlockInputs.BlankLineCutsAValue`; exactly when, `BlockEdit.EditIsCleanIff`).
- A sequence that does not say its length ends with its last kept element, not with its last element
  (`LatticePlacing.TrailingDriftIsLost`; exactly when it matters, `LatticePlacing.LengthsAgreeIff`).
- Two elements get one identifier when one is named like a later use of the other
  (`LatticeNames.TwoElementsOneIdentifier`; exactly then, `LatticeNames.DistinctIff`).
- A variable called like a number or an operator can be set and never read (`LatticeRpn.NumberIsNotReadBack`,
  `LatticeRpn.OperatorIsNotReadBack`; which words are read back, `LatticeRpn.ReadBackIff`).
- A circle of definitions is reported as another failure when that one is met first
  (`LatticeExpressions.EarlierFailureIsReported`; where no definition that is reached can fail otherwise it is always
  reported, `LatticeExpressions.CircleReportedIff`).
- Of two components of one id, the first can move with a support that no chain upwards comes to
  (`BeamSupports.FirstOfAnIdMoves`). Moving with a support and having it in the chain are the same, for all, exactly
  when every component stands, by the chain, on what each mounting of its id says
  (`BeamSupports.MovesWithIsSupportedIff`).

## Model

| member | source | states |
|---|---|---|
| `Idempotency.NextKeeps` | backend/app/idempotency.py:117-206 | every action, a move of a request, a tick, a purge or an arrival, keeps the invariant over rows, answers and requests |
| `Idempotency.RunKeeps` | backend/app/idempotency.py:117-206 | so does every run of actions |
| `Idempotency.ReachableOk` | backend/app/idempotency.py:117-206 | every reachable state satisfies the invariant |
| `Idempotency.MoveKeepsTable` | backend/app/idempotency.py:140-199 | a move keeps one row per key, each row's times, and the log of stored answers, in which a later answer under one key comes only after the earlier one expired |
| `Idempotency.MoveKeepsMover` | backend/app/idempotency.py:140-199 | the request that moves stands where its next move is safe |
| `Idempotency.MoveKeepsOther` | backend/app/idempotency.py:140-199 | a move leaves what every other request relies on true |
| `Idempotency.PurgeKeeps` | backend/app/idempotency.py:202-206 | a purge takes no row a running request or an unexpired answer needs |
| `Idempotency.PurgeTakesTheExpired` | backend/app/idempotency.py:202-206 | a purge leaves exactly the rows that have not expired, as they are |
| `Idempotency.StoredAgainOnlyAfterExpiry` | backend/app/idempotency.py:44-47 | after a promptly stored answer, the key is reserved and stored again only past the retention, and then only for a command captured more than seven days after the first reservation (less the second's delay between check and reservation) |
| `Idempotency.OverdueIsStoredTwice` | backend/app/idempotency.py:140-199 | whatever else is going on: from every reachable state in which a command in time has held its row for longer than STALE_AFTER there is a run, the clock standing, that stores two answers to it |
| `Idempotency.StoredTwiceIsOverdue` | backend/app/idempotency.py:140-199 | if any run with the clock standing stores two answers to a command that holds its row, it had held it for longer than STALE_AFTER |
| `Idempotency.CanBeStoredTwiceIff` | backend/app/idempotency.py:140-199 | so a command in time that holds its row can be stored twice, the clock standing, exactly when it has executed for longer than STALE_AFTER |
| `Idempotency.SinceThen` | backend/app/idempotency.py:140-206 | what any run with the clock standing stores was reserved just now, or by a request that held its row at the beginning, whatever is dropped and purged meanwhile |
| `Idempotency.CommandStoredOnce` | backend/app/idempotency.py:90-114 | one command, its key and capture time, is stored as done at most once, among answers stored within STALE_AFTER of their reservation and captured no later than seven days after it, less what passed between check and reservation |
| `Idempotency.CanBeStoredAgainIff` | backend/app/idempotency.py:44-47 | from a reachable state with a prompt answer that has not expired there is a run that stores its request again, promptly and reserved at its check, exactly when it was captured more than seven days after the first reservation, or without a capture time |
| `Idempotency.LateCaptureIsStoredAgain` | backend/app/idempotency.py:90-164 | the run: the row expires, a retry takes it, is in time, reserves and is stored |
| `Idempotency.FutureCaptureIsStoredAgain` | backend/app/idempotency.py:90-164 | from an empty table: captured a week and a second from now, stored promptly twice |
| `Idempotency.RetryReplays` | backend/app/idempotency.py:140-175 | until it expires a promptly stored answer is what a retry gets, word for word, and nothing else changes; another request under the key is refused |
| `Idempotency.RowIsTold` | backend/app/idempotency.py:140-175 | what a lookup makes of its key's row, of whatever state and age: expired or stale, it is to be dropped; else another hash is refused, a command at work is told to wait, and a done one gives its answer; nothing else changes |
| `Idempotency.RunningIsBusy` | backend/app/idempotency.py:168-174 | while a request executes, for STALE_AFTER, every retry of its command is told to wait and nothing is run or changed; another request under the key is refused |
| `Idempotency.RereadIsTold` | backend/app/idempotency.py:157-175 | after a refused insert the row there is by then answers, of whatever age; with none, the request is told to wait |
| `Idempotency.FinishedIs` | backend/app/idempotency.py:180-199 | an endpoint's answer goes to whoever asked and onto its row, unless it is a server error, 401, 426 or 429, when the row is deleted; where the row of an answer to be kept is gone the request fails and nothing is stored |
| `Idempotency.GoesOnUntilEnded` | backend/app/idempotency.py:140-199 | no request is ever stuck, none goes on that has ended, and at each point there is one thing to do next, or to crash |
| `Idempotency.ReplayIsOfTheSameRequest` | backend/app/idempotency.py:81-84 | a replay gives the answer stored for a request of the same key and hash |
| `Idempotency.KeyHasOneRow` | backend/app/models/device.py:47-61 | in every reachable state a workspace, principal and key have at most one row |
| `Idempotency.ExecutionsOverlapOnlyWhenStale` | backend/app/idempotency.py:140-165 | two requests execute under one key only when one was reserved more than STALE_AFTER before the other |
| `Idempotency.FreshRowIsItsOwners` | backend/app/idempotency.py:140-199 | no action deletes, completes or overwrites a row that is neither expired nor older than STALE_AFTER, but its own request finishing |
| `Idempotency.OnlyLateAnswersAreLost` | backend/app/idempotency.py:180-199 | an unexpired stored answer is lost only if it was stored later than STALE_AFTER |
| `Idempotency.FreeKeyRunsAgain` | backend/app/idempotency.py:140-165 | a key whose row is absent, expired or stale is free: a retry nobody interrupts comes to execute, with a fresh reservation |
| `Idempotency.FreesTheKey` | backend/app/idempotency.py:140-146 | a lookup of such a key comes to its check, and leaves no row of the key |
| `Idempotency.ReadAsStale` | backend/app/idempotency.py:140-146 | a retry can read an overdue request's row as stale while that request still executes |
| `Idempotency.RunsAgain` | backend/app/idempotency.py:146-199 | once the key's row is gone the retry reserves it, executes and is stored, with a row of its own |
| `Idempotency.LateAnswerLetsACommandRunTwice` | backend/app/idempotency.py:140-199 | from an empty table: an execution one second too late can be stored twice |
| `Idempotency.FramedOnce` | backend/app/idempotency.py:73-78 | what is hashed tells method, path, query and body apart, as none of the first three holds a zero |
| `IdempotencyHub.Hub.constructor` | backend/app/models/device.py:39-61 | a hub starts with no rows, in a state the invariant allows |
| `IdempotencyHub.Hub.Select` | backend/app/idempotency.py:138-140 | the row of a workspace, principal and key, if there is one |
| `IdempotencyHub.Hub.Arrive` | backend/app/idempotency.py:117-137 | a request begins: the protocol's arrival |
| `IdempotencyHub.Hub.LookUp` | backend/app/idempotency.py:140-142 | the lookup is the protocol's: absent, takeable, or answered from the row |
| `IdempotencyHub.Hub.Drop` | backend/app/idempotency.py:143-145 | deleting the row read before is the protocol's move, by id |
| `IdempotencyHub.Hub.Check` | backend/app/idempotency.py:95-114 | the expiry check is the protocol's: unreadable, too old, or on |
| `IdempotencyHub.Hub.Reserve` | backend/app/idempotency.py:152-164 | the insert is the protocol's: refused by the unique key, or a new row with its retention |
| `IdempotencyHub.Hub.Reread` | backend/app/idempotency.py:157-162 | after a refused insert the row there now is answered from |
| `IdempotencyHub.Hub.Finish` | backend/app/idempotency.py:180-199 | an answer is stored on its row, or its row deleted, as the protocol does |
| `IdempotencyHub.Hub.Fail` | backend/app/idempotency.py:181-186 | an endpoint that raises deletes its row |
| `IdempotencyHub.Hub.Purge` | backend/app/idempotency.py:202-206 | the expired rows go, no other, and their number is returned |
| `IdempotencyHub.Hub.Open` | backend/app/idempotency.py:140-146 | uninterrupted: the row's answer and nothing changed, or the key freed |
| `IdempotencyHub.Hub.Admit` | backend/app/idempotency.py:146-164 | uninterrupted: refused with no row made, or the one row reserved for this request |
| `IdempotencyHub.Hub.Execute` | backend/app/idempotency.py:180-199 | uninterrupted: the answer and the row it leaves, for every status and for an exception |
| `IdempotencyHub.Hub.Proceed` | backend/app/idempotency.py:146-199 | from the check on, with the key free: the answer and the rows left |
| `IdempotencyHub.Hub.Run` | backend/app/idempotency.py:117-199 | a whole request nobody interrupts: its answer and exactly the rows it leaves |
| `IdempotencyHub.FreedAlike` | backend/app/idempotency.py:140-146 | a key whose row is expired or stale is treated as one without a row |
| `IdempotencyHub.SentAgain` | backend/app/idempotency.py:117-199 | a request sent again while its kept answer lives gets that answer, writes nothing, and its endpoint does not matter; with another hash it is refused |
| `IdempotencyHub.SentWhileRunning` | backend/app/idempotency.py:140-174 | a request sent again while the first is at work, for STALE_AFTER, is told to wait, writes nothing, and its endpoint does not matter; with another hash it is refused |
| `IdempotencyHub.FreeKeyIsTold` | backend/app/idempotency.py:95-114 | with its key free, a request whose capture time cannot be read, or lies longer ago than the retention, is refused unrun, any other runs; what does not run to an answer leaves no row of its key, and every other row as it was |
| `IdempotencyHub.KeptIff` | backend/app/idempotency.py:190-196 | a request that ran leaves a row of its key exactly when its answer is no server error, 401, 426 or 429; without one a retry runs again |
| `CatalogueValues.SameIsCanon` | backend/app/catalogue/install.py:220-228 | two values count as the same exactly when they stand for one value |
| `CatalogueValues.BlankIs` | backend/app/catalogue/install.py:220-221 | blank is nothing, a text of white space, and a list of nothing |
| `CatalogueValues.PaddedIsSame` | backend/app/catalogue/install.py:220-228 | a text counts as the same with white space about it, and as the number or truth value that is printed so |
| `CatalogueValues.SameIsAnEquivalence` | backend/app/catalogue/install.py:220-228 | counting as the same is reflexive, symmetric and transitive, and never joins a blank with a value |
| `CatalogueMerge.SoundStays` | backend/app/catalogue/install.py:528-624 | through any run of releases, edits and decisions only stated fields are managed |
| `CatalogueMerge.StartsSound` | backend/app/catalogue/install.py:487-526 | so it is for a field created or linked |
| `CatalogueMerge.AfterRelease` | backend/app/catalogue/install.py:542-621 | after a release a managed field is stated and holds the release's value or is in conflict with exactly it; a value is only ever replaced by the release's own |
| `CatalogueMerge.ConflictAfter` | backend/app/catalogue/install.py:559-597 | where a release leaves record and release apart it lists both values as a conflict, unless it is a local override it does not touch, whose conflict stays as it was; where they agree, the conflict of a managed field is cleared and any other stays |
| `CatalogueMerge.ManagedAfter` | backend/app/catalogue/install.py:556-588 | which fields a release takes under the collection: those that were, those whose correction came back, and newly stated ones on a record it made, or where the record has nothing or the same; a correction is closed exactly by coming back |
| `CatalogueMerge.DroppedAfter` | backend/app/catalogue/install.py:547-553 | a release that no longer states a field lets go of it, and leaves value, conflict and correction |
| `CatalogueMerge.DecidedIs` | backend/app/catalogue/views.py:206-240 | a decision settles the conflict; managing takes the collection's value, keeping and proposing keep the record's, and only what is proposed is a correction; refused where nothing is stated |
| `CatalogueMerge.LinkedIs` | backend/app/catalogue/install.py:503-526 | a record is linked unless it differs and nobody has decided; whose value stays, what is managed and what is a correction |
| `CatalogueMerge.WrittenOnlyWhen` | backend/app/catalogue/install.py:554-597 | a release overwrites a value exactly when it is blank or what the last release stated, or the field is newly stated on a record the collection made |
| `CatalogueMerge.InstalledAgain` | backend/app/catalogue/install.py:528-624 | the same release again changes nothing but to clear a settled conflict of a managed field |
| `CatalogueMerge.FirstInstalledAgain` | backend/app/catalogue/install.py:487-597 | the release a field was created or linked by, whatever was decided, changes nothing at all when it is installed again |
| `CatalogueMerge.SettledConflictStays` | backend/app/catalogue/install.py:559-597 | exactly when a release leaves a conflict on a field where release and record agree |
| `CatalogueMerge.AgreedButStillListed` | backend/app/catalogue/install.py:589-597 | there is such a run: a record linked by keeping its own value, a correction, the person taking it, and the next release saying it again |
| `CatalogueMerge.KeepingStep` | backend/app/catalogue/views.py:206-240 | one event a person relies on keeps what they wrote, unless it is the overwriting branch |
| `CatalogueMerge.NeverComesBack` | backend/app/catalogue/install.py:556-597 | a value lost never comes back by releases that do not state it |
| `CatalogueMerge.WrittenSurvivesIff` | backend/app/catalogue/install.py:556-597 | through every run of releases and keeping decisions, what a person wrote is still there exactly when the overwriting branch was never met |
| `CatalogueMerge.AdoptedIsNeverOverwritten` | backend/app/catalogue/install.py:580-588 | on an adopted record that branch is never met |
| `CatalogueMerge.WrittenSurvivesOnAdopted` | backend/app/catalogue/install.py:528-597 | on an adopted record what a person wrote survives every later sequence of releases, dropped and restated fields and returning corrections included |
| `CatalogueMerge.DroppedAndStatedAgainIsOverwritten` | backend/app/catalogue/install.py:572-579 | on a created record there is a run that loses it, with no conflict left |
| `CatalogueMerge.UneditedFollows` | backend/app/catalogue/install.py:556-579 | a created record nobody edits always has what the last release that stated the field said, also while the field is dropped, and no conflict |
| `CatalogueInstall.Entry.constructor` | backend/app/catalogue/install.py:430-441 | a new row has the release's statement, no conflicts, and only stated fields managed |
| `CatalogueInstall.Entry.CompareManaged` | backend/app/catalogue/install.py:560-571 | the three branches for a managed field give the field the merge gives it |
| `CatalogueInstall.Entry.CompareStated` | backend/app/catalogue/install.py:560-597 | the branches for one stated field give the field the merge gives it, write the record exactly when its value changes, and touch no other field |
| `CatalogueInstall.Entry.Compare` | backend/app/catalogue/install.py:542-597 | so with dropped fields and corrections that come back |
| `CatalogueInstall.Entry.CompareAll` | backend/app/catalogue/install.py:542-597 | the loop merges every field either side states, each once, and no other |
| `CatalogueInstall.Entry.Existing` | backend/app/catalogue/install.py:528-624 | a release on an entry: refused with nothing changed, exactly when another collection holds it and no transfer is declared; else every field is merged and exactly the changed values are written |
| `CatalogueInstall.Adopt` | backend/app/catalogue/install.py:500-526 | linking a record: nothing exactly when some differing field is undecided, else each field as decided |
| `CatalogueInstall.InstallTwice` | backend/app/catalogue/install.py:528-624 | the same release a second time writes nothing on the record |
| `CatalogueInstall.Create` | backend/app/catalogue/install.py:486-494 | a record the collection makes has what the release states, all of it managed |
| `CatalogueInstall.CreateThenInstall` | backend/app/catalogue/install.py:486-494 | the release it was made by writes nothing when installed again, and every field stays |
| `CatalogueInstall.AdoptThenInstall` | backend/app/catalogue/install.py:496-526 | so does the release it was linked by, whatever was decided of each field |
| `CatalogueOrder.Visitor.Visit` | backend/app/catalogue/install.py:177-187 | a visit appends one collection and all it requires, each after what it needs; or gives a collection that is reached and is on a circle, or is not shipped |
| `CatalogueOrder.Visitor.VisitAll` | backend/app/catalogue/install.py:189-191 | so for all that are wanted: each and nothing not required, or a problem that one of them reaches and is as it says |
| `CatalogueOrder.Order` | backend/app/catalogue/install.py:173-191 | an order exists exactly when nothing required is missing or on a circle; it lists exactly what is wanted and required, each after what it requires; otherwise the collection named is reached and is on a circle, or is not shipped, as it says |
| `CatalogueOrder.OrderedIsFine` | backend/app/catalogue/install.py:173-191 | whatever an ordered list reaches is in it, shipped and on no circle |
| `CatalogueOrder.OrderedReaches` | backend/app/catalogue/install.py:173-191 | so an ordered list that has what is wanted has all it requires |
| `CatalogueOrder.Earlier` | backend/app/catalogue/install.py:173-191 | what is reached in a step or more stands strictly earlier |
| `BeamNetwork.WalkFrom` | backend/app/beam_model_core/network.py:157-174 | the search lists exactly what is reached outside the start within n, each once, at its true distance, nearest first |
| `BeamNetwork.Turn` | backend/app/beam_model_core/network.py:164-173 | one turn of the queue keeps distances true and nothing missed |
| `BeamNetwork.Expand` | backend/app/beam_model_core/network.py:168-173 | following every link of one node finds its neighbours one step further |
| `BeamNetwork.NoShorter` | backend/app/beam_model_core/network.py:157-174 | no route is shorter than the distance found |
| `BeamNetwork.FoundAreNearest` | backend/app/beam_model_core/network.py:157-174 | when every node found is expanded, what is found is at its distance |
| `BeamRoutes.Trace` | backend/app/beam_model_core/network.py:204-208 | following the way back gives the inside of a route of the distance found |
| `BeamRoutes.Follow` | backend/app/beam_model_core/network.py:212-215 | following a node's links keeps the way back and the distances true |
| `BeamRoutes.Arrived` | backend/app/beam_model_core/network.py:203-211 | the first node found of those looked for ends a shortest route |
| `BeamRoutes.Search` | backend/app/beam_model_core/network.py:198-215 | the search gives the inside of a shortest route, or there is no route |
| `BeamRoutes.Across` | backend/app/beam_model_core/network.py:196-216 | over both directions: nothing exactly when neither reaches the other, else the inside of a shortest route of either, the first direction's when as short |
| `BeamArcs.ArcsPartitionTheRing` | backend/app/beam_model_core/network.py:186-195 | on a ring the two arcs and the two ends are every placement once; the shorter is taken, as long whichever end is named first |
| `BeamArcs.OnwardsIfAsLong` | backend/app/beam_model_core/network.py:186-195 | of two arcs as long the one onwards is taken |
| `BeamArcs.NothingWithin` | backend/app/beam_model_core/network.py:186-195 | between a place and itself there is nothing |
| `BeamArcs.CutInTwo` | backend/app/beam_model_core/network.py:188-193 | cutting a ring at two places leaves the two arcs |
| `BeamArcs.BetweenOnAnOpenPath` | backend/app/beam_model_core/network.py:186-195 | on an open path it is the stretch between, in path order, either way |
| `BeamModel.MirrorsOn` | backend/app/beam_model_core/network.py:128-130 | an edge added to both maps keeps them mirrors of one list of edges |
| `BeamModel.Transposed` | backend/app/beam_model_core/network.py:128-130 | each link downstream is a link upstream, of the same kind, as many times |
| `BeamModel.DownstreamIsUpstream` | backend/app/beam_model_core/network.py:157-174 | y is d downstream of x exactly when x is d upstream of y |
| `BeamModel.PathIsChained` | backend/app/beam_model_core/network.py:113-116 | a path's placements follow one another, and a closed path's last leads to its first |
| `BeamModel.RoundTheRing` | backend/app/beam_model_core/network.py:113-116 | any two placements of a closed path reach each other, in as many steps as the ring has between them |
| `BeamNet.Network.constructor` | backend/app/beam_model_core/network.py:99-126 | the network built is the one the document means: its nodes, rows, edges in order, and both maps; its problems are the connections that name no placement, in order |
| `BeamNet.Network.AddNodes` | backend/app/beam_model_core/network.py:103-111 | a path's nodes in order, a component's later uses numbered |
| `BeamNet.Network.AddPath` | backend/app/beam_model_core/network.py:102-116 | one path adds its row and its edges, and keeps the rest |
| `BeamNet.Network.AddPathEdges` | backend/app/beam_model_core/network.py:113-116 | the edges along a path, and the closing one |
| `BeamNet.Network.AddPaths` | backend/app/beam_model_core/network.py:102-116 | all paths: every node, every row by id, every edge |
| `BeamNet.Network.AddConnections` | backend/app/beam_model_core/network.py:117-125 | each connection that names placements is an edge, and each other one is reported, in order |
| `BeamNet.Network.AddConnection` | backend/app/beam_model_core/network.py:118-125 | one connection is an edge or a problem |
| `BeamModel.UnjoinedAre` | backend/app/beam_model_core/network.py:117-125 | a connection is reported exactly when it is one of the document's and joins nothing |
| `BeamModel.EndIs` | backend/app/beam_model_core/network.py:132-139 | a connection's end is the first placement of the name given, else the first of the component so called, else, with no name, the path's first or last; and it is none exactly when the path has no such placement |
| `BeamModel.JoinsAre` | backend/app/beam_model_core/network.py:117-125 | a connection leads from the placement its one end means, by default the path's last, to the one its other end means, by default the path's first |
| `BeamModel.JoinsNoneIff` | backend/app/beam_model_core/network.py:117-125 | it is no edge exactly when one of its ends means no placement |
| `BeamModel.EndToStart` | backend/app/beam_model_core/network.py:118-120 | with no names it leads from the end of one path to the beginning of the other |
| `BeamNames.PlacementIs` | backend/app/beam_model_core/network.py:103-111 | a path's i-th node is its i-th placement, called by its own id, else by its component, and from the component's second use on by the number of the use |
| `BeamNet.Network.AddEdge` | backend/app/beam_model_core/network.py:128-130 | an edge is added to both maps |
| `BeamNet.Network.Walk` | backend/app/beam_model_core/network.py:157-174 | walking from a component or placement, up or down: exactly what is reached within n, once, nearest first |
| `BeamNames.StartOfComponent` | backend/app/beam_model_core/network.py:148-155 | a walk from a component starts at every placement of it, in order |
| `BeamNames.StartOfPlacement` | backend/app/beam_model_core/network.py:148-155 | one from `path/placement` at the placement so called, failing that at the first of that component, or nowhere; the name is parted at its first slash |
| `BeamNet.Network.Between` | backend/app/beam_model_core/network.py:176-216 | along the path asked for, or the first in order of those that place both, when both are on it; else a shortest way over both directions, or nothing exactly when neither reaches the other |
| `BeamNet.Network.FindPath` | backend/app/beam_model_core/network.py:186-195 | the first of the paths that has both answers |
| `BeamNet.CommonPathsAre` | backend/app/beam_model_core/network.py:176-185 | the paths tried are exactly those with a placement of each component, each once, in alphabetical order |
| `BeamNames.TriedAre` | backend/app/beam_model_core/network.py:176-179 | the paths tried are the one asked for, unless it is blank, else those with a placement of either component, in order |
| `BeamNames.AnswersIff` | backend/app/beam_model_core/network.py:179-184 | a path answers exactly when it has a place of either name |
| `BeamNames.FirstAnswers` | backend/app/beam_model_core/network.py:180-195 | of the paths tried the first that answers is taken |
| `BeamNames.PlaceIs` | backend/app/beam_model_core/network.py:181-185 | a name's place on a path is the first that has it, as component or placement |
| `BeamNames.ClosedIs` | backend/app/beam_model_core/network.py:186 | a path is closed as the first of its id says |
| `NameOrder.InOrderIs` | backend/app/beam_model_core/network.py:176-185 | putting names in order gives the same names, each once, in alphabetical order |
| `BeamNet.CountsAll` | backend/app/beam_model_core/network.py:234-244 | the search from the first node counts as many as there are nodes exactly when it reaches all and none is listed twice |
| `BeamNet.IsConnected` | backend/app/beam_model_core/network.py:234-244 | connected exactly when every node is reached from the first, both ways, and none is listed twice |
| `BeamNet.EdgesInside` | backend/app/beam_model_core/network.py:99-126 | every edge a document means is between its nodes |
| `BeamNet.WalkedBothWays` | backend/app/beam_model_core/network.py:157-174 | y is listed downstream of x at a distance exactly when x is listed upstream of y at it |
| `BeamNet.ListedAt` | backend/app/beam_model_core/network.py:157-174 | what it takes to be listed at a distance, cut at n |
| `BeamSupports.SupportChain` | backend/app/beam_model_core/queries.py:175-182 | every support above a component, each once, the k-th k steps up; it ends on circles and unknown supports |
| `BeamSupports.MovesWith` | backend/app/beam_model_core/queries.py:185-198 | exactly the components below a support, each once |
| `BeamSupports.Children` | backend/app/beam_model_core/queries.py:187-190 | the components mounted on each support, in order |
| `BeamSupports.MovesWithIffSupported` | backend/app/beam_model_core/queries.py:175-198 | on any document a component moves with each support in its chain; and only with those, where every component stands on what each mounting of its id says |
| `BeamSupports.MovesWithIsSupportedIff` | backend/app/beam_model_core/queries.py:175-198 | moving with a support and having it in the chain are the same, for all components and supports, exactly when every component stands, in a step or more, on what each mounting of its id says |
| `BeamSupports.DownThenUp` | backend/app/beam_model_core/queries.py:175-198 | on such a document what is below a support, any number of steps, has it above |
| `BeamSupports.AgreeingAreBorne` | backend/app/beam_model_core/queries.py:175-198 | it is so where components of one id are mounted alike |
| `BeamSupports.BorneWithoutAgreeing` | backend/app/beam_model_core/queries.py:175-198 | and on a document where they are not |
| `BeamSupports.StepsUpAndDown` | backend/app/beam_model_core/queries.py:175-198 | for any ids: one step up is as the last component of the id says, one step down as any of them says |
| `BeamSupports.UpIsDownIff` | backend/app/beam_model_core/queries.py:175-198 | one step of standing on and one of carrying are each other turned round exactly when components of one id are mounted as the last of them, or not at all |
| `BeamSupports.FirstOfAnIdMoves` | backend/app/beam_model_core/queries.py:175-198 | otherwise they need not be: of two components of one id, the first mounted and the last not |
| `BeamSupports.SpreadIsAll` | backend/app/beam_model_core/queries.py:191-198 | when nothing waits, what is listed is exactly what is below |
| `BeamSupports.ClimbedAll` | backend/app/beam_model_core/queries.py:175-182 | a chain that stops is the whole chain |
| `LatticeExpressions.Evaluator.constructor` | backend/app/beam_converters/common.py:30-33 | an evaluator starts with no definitions and nothing busy |
| `LatticeExpressions.Evaluator.Define` | backend/app/beam_converters/common.py:35-36 | a definition replaces the one of its name, in lower case, and no other |
| `LatticeExpressions.Evaluator.Var` | backend/app/beam_converters/common.py:38-50 | the value of a variable, or its failure; what is busy is left as it was either way; it ends on any definitions |
| `LatticeExpressions.Evaluator.Evaluate` | backend/app/beam_converters/common.py:52-80 | the value of an expression, what is busy left as it was |
| `LatticeExpressions.NameIsInlined` | backend/app/beam_converters/common.py:38-80 | from any busy set: a name that leads to no circle and nothing busy has the value of its inlined definition |
| `LatticeExpressions.EvalIsInlined` | backend/app/beam_converters/common.py:65-80 | so has an expression |
| `LatticeExpressions.NameIs` | backend/app/beam_converters/common.py:38-50 | in whatever case, a name that is not defined is a constant, or zero; one that is defined hides the constant, and is zero when blank |
| `LatticeExpressions.LowerIs` | backend/app/beam_converters/common.py:39 | capitals become small letters, and nothing else changes |
| `LatticeExpressions.VariableIsInlined` | backend/app/beam_converters/common.py:38-80 | a variable that reaches no circle has the value, or the failure, of its definition with all definitions inlined |
| `LatticeExpressions.CircleHasNoValue` | backend/app/beam_converters/common.py:38-50 | a variable that reaches a circle has no value, and a circle reported is there and is reached |
| `LatticeExpressions.CircleReportedIff` | backend/app/beam_converters/common.py:38-50 | where no definition that the variable reaches can fail otherwise, a circle is reported exactly when one is reached |
| `LatticeExpressions.OnlyCircles` | backend/app/beam_converters/common.py:52-80 | an expression whose operators have values on all arguments, and that leads to such definitions only, fails by a circle or not at all |
| `LatticeExpressions.EarlierFailureIsReported` | backend/app/beam_converters/common.py:38-80 | otherwise it need not be: `x = 1/0 + x` is on a circle, and fails by its quotient |
| `LatticeExpressions.ValueMeansClear` | backend/app/beam_converters/common.py:52-80 | an expression that has a value leads to no circle |
| `LatticeExpressions.ReportedIsCircular` | backend/app/beam_converters/common.py:38-50 | a circle is reported only of a name that is busy or on one |
| `LatticeLines.ExpandLine` | backend/app/beam_converters/common.py:108-115 | the recursive expansion ends and is the specified one |
| `LatticeLines.ExpandItems` | backend/app/beam_converters/common.py:111-115 | so for the items of a line or group |
| `LatticeLines.ExpandOne` | backend/app/beam_converters/common.py:118-131 | so for one item: repeated, reversed, grouped or named |
| `LatticeLines.ExpandsIffShallow` | backend/app/beam_converters/common.py:108-131 | a line expands exactly when no chain of lines under it is longer than what is left of the depth limit |
| `LatticeLines.NameIs` | backend/app/beam_converters/common.py:118-131 | a name that is no line is an element, one that is a line stands for its items, a level further down |
| `LatticeLines.ElementsAre` | backend/app/beam_converters/common.py:111-115 | a line of elements is those elements, in order |
| `LatticeLines.RepeatedIs` | backend/app/beam_converters/common.py:118-131 | an item taken n times has each of its elements in its place in each of the n; one turned round, in the place as far from the end |
| `LatticeLines.CircularLineFails` | backend/app/beam_converters/common.py:109-110 | a line that comes to one containing itself never expands |
| `LatticeLines.CircleIsDeep` | backend/app/beam_converters/common.py:109-110 | such a line is nested deeper than the limit |
| `LatticeLines.SameWhenShallower` | backend/app/beam_converters/common.py:108-131 | what expands at one depth expands to the same at any smaller one |
| `LatticeLines.ElementsOnly` | backend/app/beam_converters/common.py:118-131 | an expansion names elements only |
| `LatticeLines.ReverseIsFlip` | backend/app/beam_converters/common.py:118-131 | reversing an item is expanding it with the reversal carried in |
| `LatticeLines.AllReversed` | backend/app/beam_converters/common.py:118-131 | reversing a group reverses its order and each of its members |
| `LatticeLines.DoubleReversal` | backend/app/beam_converters/common.py:118-131 | reversing twice is leaving alone |
| `LatticeLines.TimesIsRepeats` | backend/app/beam_converters/common.py:118-131 | n times an item is the group of n of it |
| `LatticeSplit.Split` | backend/app/beam_converters/common.py:83-105 | the scanning loop gives the specified pieces |
| `LatticeSplit.RunKeeps` | backend/app/beam_converters/common.py:83-105 | scanning loses nothing: the pieces and what is held are the text read |
| `LatticeSplit.PiecesJoinBack` | backend/app/beam_converters/common.py:83-105 | for any text the unstripped pieces joined are the text, up to a last separator and a blank |
| `LatticeSplit.ChunkRead` | backend/app/beam_converters/common.py:88-100 | a balanced, closed stretch is read whole, whatever separators it holds |
| `LatticeSplit.SplitUndoesJoin` | backend/app/beam_converters/common.py:83-105 | stripped, balanced, closed parts with no separator at their top are got back from their joined text |
| `LatticePlacing.FromLine` | backend/app/beam_converters/madx.py:236-247 | the running position places each kept element at the sum of the lengths before it |
| `LatticePlacing.FromSequence` | backend/app/beam_converters/madx.py:215-233 | positions resolved against earlier names, moved to the entry by the reference point, sorted stably along the line |
| `LatticePlacing.NameIsTheLast` | backend/app/beam_converters/madx.py:224-227 | a position counted from a name is counted from the last item so named before |
| `LatticePlacing.UnknownNameIsTheStart` | backend/app/beam_converters/madx.py:224-226 | and from the beginning when there is none |
| `LatticePlacing.CountedFrom` | backend/app/beam_converters/madx.py:222-227 | a position counted from a name is that far past the last item before that has it, and from the beginning when none has |
| `LatticePlacing.FromIsOnlyANotation` | backend/app/beam_converters/madx.py:218-231 | rewriting every position to count from the beginning places the same |
| `LatticePlacing.SamePlaces` | backend/app/beam_converters/madx.py:215-247 | elements at the running position, by centre, entry or exit, are placed where the line places them |
| `LatticePlacing.LineAscends` | backend/app/beam_converters/madx.py:236-247 | without negative lengths a line places in order of position |
| `LatticePlacing.LineAndSequenceAgreeIff` | backend/app/beam_converters/madx.py:215-247 | a line and a sequence of the same place the same list exactly when the line's positions never go back, as without negative lengths |
| `LatticePlacing.ElementsTouch` | backend/app/beam_converters/madx.py:236-247 | where everything is kept each element starts where the one before ends |
| `LatticePlacing.EndAndTrailing` | backend/app/beam_converters/madx.py:236-247 | the line is longer than its last kept element by what it drops after it |
| `LatticePlacing.LengthsAgreeIff` | backend/app/beam_converters/madx.py:233-247 | a sequence without a declared length is as long as the line exactly when what is dropped at its end has no length |
| `LatticePlacing.TrailingDriftIsLost` | backend/app/beam_converters/madx.py:232-247 | with a drift at the end that is not kept, the line is three metres long and the sequence one |
| `Sorting.SortAscends` | backend/app/beam_converters/madx.py:232 | the sort puts in order |
| `Sorting.SortPermutes` | backend/app/beam_converters/madx.py:232 | it keeps every element |
| `Sorting.SortKeepsTies` | backend/app/beam_converters/madx.py:232 | it is stable: equals stay in the order they came |
| `LatticeNames.Count` | backend/app/beam_converters/common.py:236-238 | the dictionary counts every name's uses |
| `LatticeNames.Build` | backend/app/beam_converters/common.py:236-244 | an element's identifier is its name, and from the second use on the name and the number of the use |
| `LatticeNames.LookUp` | backend/app/beam_converters/common.py:357-362 | the second form of the document finds for every element the last component of its identifier, and so each element's own exactly when identifiers are distinct |
| `LatticeNames.ById` | backend/app/beam_converters/common.py:357-362 | the dictionary leads from an identifier to its last component |
| `LatticeNames.Again` | backend/app/beam_converters/common.py:357-362 | the identifiers worked out again are the ones given |
| `LatticeNames.TwoElementsOneIdentifier` | backend/app/beam_converters/common.py:236-244 | elements called Q, Q and Q#2 get two identifiers |
| `LatticeNames.DistinctIff` | backend/app/beam_converters/common.py:239-244 | identifiers are distinct exactly when no element is named like a later use of another that is there |
| `Numbering.NumberedTells` | backend/app/beam_converters/common.py:244 | a numbered name tells the name and the number |
| `LatticeRpn.Machine.constructor` | backend/app/beam_converters/elegant.py:42-43 | a machine starts with the variables it is given |
| `LatticeRpn.Machine.Eval` | backend/app/beam_converters/elegant.py:45-71 | the loop runs the words to the specified value or failure, and keeps what was stored, also when it fails |
| `LatticeRpn.WrittenIsCalculated` | backend/app/beam_converters/elegant.py:45-71 | an expression written operands first, its variables called like no number and no word of the machine, leaves its value on what was there and changes no variable, or fails when it has none |
| `LatticeRpn.AnExpressionIsItsValue` | backend/app/beam_converters/elegant.py:45-71 | evaluated alone it gives its value, and fails exactly when it has none |
| `LatticeRpn.DefinitionsAreSet` | backend/app/beam_converters/elegant.py:54-56 | a list of definitions, of words of any kind, sets each to its value given the ones before, and fails exactly when one has none |
| `LatticeRpn.ReadBackIff` | backend/app/beam_converters/elegant.py:52-67 | the word a value was stored under, be it a number's or an operator's, is read as that value exactly when it is written like that very number, or is no number and no operator, and no `sto` with a word after it |
| `LatticeRpn.NumberIsNotReadBack` | backend/app/beam_converters/elegant.py:52-67 | `5 sto 7 7` stores five and reads seven |
| `LatticeRpn.OperatorIsNotReadBack` | backend/app/beam_converters/elegant.py:52-67 | `5 sto chs chs` stores five and changes its sign |
| `LatticeRpn.PopIs` | backend/app/beam_converters/elegant.py:64-65 | `pop` takes away the top, unless a variable is called so |
| `LatticeRpn.StopsAt` | backend/app/beam_converters/elegant.py:54-69 | an operator or `sto` without what it needs, and a word that means nothing, stop the run |
| `LatticeRpn.TopIsGiven` | backend/app/beam_converters/elegant.py:70-72 | a run gives the top of what it leaves |
| `LatticeRpn.RunKeepsBelow` | backend/app/beam_converters/elegant.py:45-71 | a run that succeeds does the same above anything on the stack |
| `MatchScore.Score` | backend/app/beam_model_core/matching.py:236-311 | the evidence found, and the confidence of the loop, caps and penalties over it |
| `MatchScore.Combine` | backend/app/beam_model_core/matching.py:293-296 | the loop multiplies the doubts |
| `MatchScore.OrderDoesNotMatter` | backend/app/beam_model_core/matching.py:293-296 | evidence combines to the same whatever order it was found in |
| `MatchScore.CombinedIsAConfidence` | backend/app/beam_model_core/matching.py:293-296 | it combines to between 0 and 1, and at least to its strongest piece |
| `MatchScore.MoreIsNotLess` | backend/app/beam_model_core/matching.py:292-296 | more evidence never lowers it |
| `MatchScore.PenaltiesOnlyLower` | backend/app/beam_model_core/matching.py:297-310 | caps and penalties only lower it, to 0.45 without an anchor and to 0.2 for an incompatible type |
| `MatchScore.ConfidenceBounds` | backend/app/beam_model_core/matching.py:292-311 | the score is between 0 and 1, and without an anchor or a compatible type below the threshold for proposing |
| `MatchScore.WithMore` | backend/app/beam_model_core/matching.py:292-296 | evidence that holds some, and more, is at least as convincing as the some |
| `MatchWeights.NameTypeAndBeamlineAreEnough` | backend/app/beam_model_core/matching.py:236-311 | the exact name, fully the right type and the right beamline reach the threshold for accepting unasked, whatever else is known, unless far away |
| `MatchWeights.NameAndTypeAreNotEnough` | backend/app/beam_model_core/matching.py:236-311 | the exact name, with the number in it or none, and the type, with nothing else in favour, never do; the confidence reaches the threshold for proposing exactly when no penalty applies |
| `MatchWeights.PlacesCanLookCertain` | backend/app/beam_model_core/matching.py:445-447 | with any tolerances, places and types can reach it without any name, so asking for identity besides is needed |
| `MatchScore.EvidenceIsOf` | backend/app/beam_model_core/matching.py:241-263 | identity evidence is of a name, alias, convention or control name, exactly; type evidence is of a compatible type |
| `MatchEvidence.EachIsRight` | backend/app/beam_model_core/matching.py:236-310 | every piece of evidence is found by the signs for its kind, and weighs what the kind does; being near the more the nearer, a type as much as it is compatible |
| `MatchEvidence.AllIsFound` | backend/app/beam_model_core/matching.py:236-310 | whatever speaks for a match, or against it, is found; of the ways names agree, the strongest |
| `MatchEvidence.OnceEach` | backend/app/beam_model_core/matching.py:236-292 | no kind is found twice |
| `MatchEvidence.ConfidenceIs` | backend/app/beam_model_core/matching.py:292-311 | the confidence is what the evidence comes to, at most 0.45 where nothing ties the asset to the component, at most 0.2 where its type is incompatible, and halved for another beamline and for each way of being more than five tolerances away |
| `MatchScore.FoundKinds` | backend/app/beam_model_core/matching.py:237-292 | the kinds of evidence are those of names, types, sides and places together |
| `MatchRun.Rank` | backend/app/beam_model_core/matching.py:389-396 | the candidates of a component: not refused, with something to say for them, the best first |
| `MatchRun.Propose` | backend/app/beam_model_core/matching.py:385-450 | what one component is proposed before components are compared |
| `MatchRun.Run` | backend/app/beam_model_core/matching.py:384-451 | the run's proposals, each settled against its rivals |
| `MatchRun.PoolIs` | backend/app/beam_model_core/matching.py:389-427 | the pool holds exactly the eligible assets, the best first |
| `MatchRun.EligibleIff` | backend/app/beam_model_core/matching.py:357-364 | told by the bindings: an asset may be proposed for a component exactly when it scores over 0.15, was not refused for it, whatever the relation, and is no component's confirmed asset |
| `MatchRun.BoundIs` | backend/app/beam_model_core/matching.py:358-360 | a component is confirmed for the asset that its last accepted binding for implementing it names |
| `MatchRun.AmbiguousIff` | backend/app/beam_model_core/matching.py:427-437 | it is ambiguous exactly when the best is good enough and another is within the margin |
| `MatchRun.AnswerIsClear` | backend/app/beam_model_core/matching.py:427-437 | what is proposed is eligible, good enough, and ahead of every other eligible asset by the margin |
| `MatchRun.UnmatchedIff` | backend/app/beam_model_core/matching.py:430-432 | a component is unmatched exactly when no eligible asset is good enough |
| `MatchRun.NoAssetTwice` | backend/app/beam_model_core/matching.py:473-490 | no asset is proposed for two components |
| `MatchRun.ProposedIsEligible` | backend/app/beam_model_core/matching.py:357-364 | told by the bindings: nothing proposed is confirmed for any component, or was refused for this one, and a component with a confirmed asset is proposed none |
| `MatchRun.RefusedIsNotProposed` | backend/app/beam_model_core/matching.py:357-392 | an asset refused for a component is not proposed for it |
| `MatchRun.SurvivorBeatsEveryRival` | backend/app/beam_model_core/matching.py:473-490 | whoever keeps a contested asset beats every rival by the margin, and no rival keeps it |
| `MatchRun.ContestedIsKeptIff` | backend/app/beam_model_core/matching.py:473-490 | with a margin, a proposal stands exactly when it beats every rival by it |
| `MatchRun.ConfirmedIsKept` | backend/app/beam_model_core/matching.py:386-426 | told by the bindings: a component is confirmed exactly when it expects an asset and has one confirmed, which it keeps; one that expects none gets none |
| `MatchRun.ScoredByEvidence` | backend/app/beam_model_core/matching.py:393 | with the matcher's score, a proposal has the confidence and the kinds of the evidence found for its asset |
| `MatchRun.AutoAcceptableIff` | backend/app/beam_model_core/matching.py:445-447 | exactly what is proposed, at the confidence for it, with a name and a type to say for it, may be accepted unasked |
| `MatchRun.AutoAcceptableIsBacked` | backend/app/beam_model_core/matching.py:445-447 | what may be accepted unasked is proposed, at the confidence for it, with a name to say for it and a compatible type |
| `MatchRun.ProposedIsAnchored` | backend/app/beam_model_core/matching.py:297-301 | with a threshold over the cap every proposal is anchored and of a compatible type |
| `MatchContest.Group` | backend/app/beam_model_core/matching.py:476-479 | the proposals of each asset, in order |
| `MatchContest.Settle` | backend/app/beam_model_core/matching.py:480-490 | the losers of one asset are demoted in place and nothing else is touched |
| `MatchContest.OneToOne` | backend/app/beam_model_core/matching.py:473-490 | in place, every proposal stays exactly if it clearly beats each rival it had, and is demoted otherwise |
| `MatchContest.LosesIff` | backend/app/beam_model_core/matching.py:483-485 | after ranking, the claims that lose are exactly those with a rival not clearly beaten |
| `MatchContest.Ranking` | backend/app/beam_model_core/matching.py:483 | the ranking has the same claims, the best first, the earlier of equals first |
| `ApiContract.CollectRefs` | backend/app/contract.py:158-167 | the recursion adds exactly the references in a node |
| `ApiContract.CollectAll` | backend/app/contract.py:190-192 | one round adds what the schemas named so far refer to |
| `ApiContract.Reached` | backend/app/contract.py:187-194 | the loop ends with the least set that holds the names and is closed under references |
| `ApiContract.FieldSubset` | backend/app/contract.py:186-196 | the schemas kept are the least closed set of what the operations refer to, rewritten together with them |
| `ApiContract.RewriteIsClean` | backend/app/contract.py:214-248 | at no depth is there a list of untyped items, an untyped option of a choice, an object default, a default beside an enum, or a required property whose schema, as rewritten, says that it may be null |
| `ApiContract.RewriteAddsNoReference` | backend/app/contract.py:214-248 | the rewriting adds no reference |
| `ApiContract.SettleCleans` | backend/app/contract.py:226-244 | the steps at one node leave it clean whatever its children are |
| `ApiContract.SettleKeeps` | backend/app/contract.py:226-244 | they only drop keys and required names |
| `ApiContract.NamesKept` | backend/app/contract.py:225-245 | among named schemas every name but `default` is kept, with its schema rewritten |
| `ApiContract.DefaultPropertyIsLost` | backend/app/contract.py:232-234 | a property called `default` is lost |
| `ApiContract.SubsetIsComplete` | backend/app/contract.py:186-196 | the subset is clean, holds exactly the schemas reached that there are, but `default`, each rewritten, beside the operations rewritten, and no reference left in it to such a schema dangles |
| `ApiMentions.RefsAreMentions` | backend/app/contract.py:158-167 | what is collected of a node is exactly the names that a reference anywhere in it gives, after its last slash |
| `ApiMentions.NeededIff` | backend/app/contract.py:186-196 | the schemas kept are exactly those that the operations come to, a schema mentioning the next |
| `ApiMentions.MentionedIsKept` | backend/app/contract.py:186-196 | every schema there is, other than `default`, that the operations mention is kept |
| `ApiMentions.MentionedByKeptIsKept` | backend/app/contract.py:186-196 | so is every one that a kept schema mentions |
| `ApiMentions.NothingDangles` | backend/app/contract.py:186-196 | what is left mentions no other schema there is than those kept, but `default` |
| `ApiChoices.BecomesUntypedIff` | backend/app/contract.py:202-248 | told from the schema as given: which schemas the rewriting leaves without a type |
| `ApiChoices.ChoiceGoesIff` | backend/app/contract.py:219-244 | which choices go: those of primitive types, and those with an option that becomes untyped |
| `ApiChoices.BecomesPrimitiveIff` | backend/app/contract.py:219-248 | and which options become nothing but a primitive type |
| `ApiChoices.PrimitiveUnionLeft` | backend/app/contract.py:219-244 | a choice of primitive types is left exactly when every option given becomes primitive, two of them differ, and not all were bare |
| `ApiChoices.PrimitiveUnionCanBeLeft` | backend/app/contract.py:219-225 | there is such a choice: a string with an object default, or an integer |
| `ApiNulls.NullableAfterIff` | backend/app/contract.py:206-248 | told from the schema as given: which schemas still say, once rewritten, that they may be null |
| `ApiNulls.NullIsLostIff` | backend/app/contract.py:206-248 | a schema that may be null says so no more exactly when only a null option of a choice that goes said it |
| `ApiNulls.StaysRequiredIff` | backend/app/contract.py:226-231 | a required property stays required exactly when its schema does not say after the rewriting that it may be null, or it is called `default`, or is not there |
| `ApiNulls.NullableStaysRequiredIff` | backend/app/contract.py:226-244 | a required property that may be null as given stays required exactly when only a null option of a choice that goes said so, or it is called `default` |
| `ApiNulls.OptionalListStaysRequired` | backend/app/contract.py:226-244 | an optional list of anything becomes any value, and stays required |
| `Scans.FirstBeyond` | backend/app/catalogue/corrections.py:65-79 | scanning past a replaced stretch finds what it found, as many lines on |
| `Scans.ReadAtGap` | backend/app/catalogue/corrections.py:70-79 | what replaces a stretch reads back alone |
| `Scans.StretchKeepsReading` | backend/app/catalogue/corrections.py:70-79 | reading anything the stretch was no part of is as it was |
| `Blocks.FoundAgain` | backend/app/catalogue/corrections.py:58-67 | after an edit the entry stands where it stood and ends as many lines later as were added |
| `Blocks.NoKeyInAValue` | backend/app/catalogue/corrections.py:73-76 | where a value goes on no other key's line is |
| `Blocks.SetThenRead` | backend/app/catalogue/corrections.py:54-79 | for any format of lines: as far as the edit sees, the key reads back as the new line alone |
| `Blocks.OtherKeysStay` | backend/app/catalogue/corrections.py:54-79 | for any format of lines: as far as the edit sees, every other key reads as before |
| `Blocks.SetTwice` | backend/app/catalogue/corrections.py:54-79 | for any format of lines: the last edit stands |
| `Blocks.OneOwnedIff` | backend/app/catalogue/corrections.py:65-79 | for any format of lines: an entry has one line of the key after the edit exactly when the edit saw all it had |
| `WholeReads.SetAloneIff` | backend/app/catalogue/corrections.py:65-79 | what replaces a stretch is read alone exactly when nothing but blanks follows it |
| `WholeReads.SeenIsAllIff` | backend/app/catalogue/corrections.py:65-79 | what is read up to a place is all there is exactly when it ends before, or nothing but blanks follows |
| `WholeValues.ReadsBackIff` | backend/app/catalogue/corrections.py:65-79 | for any format of lines, with blank lines in values: the key reads back as the new line alone exactly when what was replaced ends before the entry's seeming end, or no value goes on there |
| `WholeValues.ReplacedWholeIff` | backend/app/catalogue/corrections.py:65-79 | and exactly then what is replaced is the key's whole value; none is replaced for want of one exactly when the entry has no line of the key |
| `WholeValues.OtherStaysIff` | backend/app/catalogue/corrections.py:65-79 | every other key's whole value is as before exactly unless the new line is added at the seeming end, where that value goes on |
| `BlockEdit.LocateStart` | backend/app/catalogue/corrections.py:58-61 | the loop finds the line that opens the entry |
| `BlockEdit.LocateEnd` | backend/app/catalogue/corrections.py:65-67 | and where the entry ends |
| `BlockEdit.LocateKey` | backend/app/catalogue/corrections.py:70-78 | and a key's line in it |
| `BlockEdit.LocateValueEnd` | backend/app/catalogue/corrections.py:73-76 | and where a value's own lines end |
| `BlockEdit.LocateGap` | backend/app/catalogue/corrections.py:70-79 | the lines to replace are the key's own, or none, before `sources` or at the end |
| `BlockEdit.SetInBlock` | backend/app/catalogue/corrections.py:54-79 | the edit is the specified one |
| `BlockEdit.EditedIff` | backend/app/catalogue/corrections.py:58-61 | nothing is edited exactly when no line opens the entry |
| `BlockEdit.OnlyTheValueIsReplaced` | backend/app/catalogue/corrections.py:70-79 | one line takes the place of what the edit sees of the key's value, up to a blank line, or of none; every other line stays |
| `BlockEdit.ValueIsReplacedWholeIff` | backend/app/catalogue/corrections.py:65-79 | that is the key's whole value exactly unless a value goes on under the blank line where it ends |
| `BlockEdit.SetReadsBack` | backend/app/catalogue/corrections.py:65-79 | the key then reads back as the new line alone: as far as the edit sees always, and with all lines of the value exactly unless what is replaced ends where the entry only seems to and a value goes on there |
| `BlockEdit.OtherKeysReadAsBefore` | backend/app/catalogue/corrections.py:65-79 | every other key of the entry is unchanged: as far as the edit sees always, and whole exactly unless the new line is added inside its value, at a blank line |
| `BlockEdit.EditIsCleanIff` | backend/app/catalogue/corrections.py:54-79 | the key has the new value alone and every other key its own, whole, exactly unless what is replaced ends at a blank line and the next line that is not blank goes on with a value |
| `BlockEdit.LastEditStands` | backend/app/catalogue/corrections.py:70-79 | the last edit stands, so twice is once |
| `BlockEdit.OneLineOfTheKeyIff` | backend/app/catalogue/corrections.py:54-79 | of the lines an entry has, blank ones included, exactly one is the key's after the edit, exactly when before it none stood at the entry's seeming end or after it and no two before |
| `BlockEdit.BlankLineHidesAKey` | backend/app/catalogue/corrections.py:65-79 | a model under a blank line is added once more, and the other stays |
| `BlockInputs.BlankLineCutsAValue` | backend/app/catalogue/corrections.py:65-79 | a text of two paragraphs: a key that is added goes between them, and setting the text leaves the second |
| `BlockInputs.ParagraphsAreCut` | backend/app/catalogue/corrections.py:65-79 | so for any text of two such paragraphs that is an entry's last value |
| `BlockEdit.KeyLineIsAKey` | backend/app/catalogue/corrections.py:62-76 | a key's line stands at the keys' depth, is of the entry, and ends the value before it |
| `BlockEdit.OneKeyALine` | backend/app/catalogue/corrections.py:71 | a line is of one key only |
| `BlockOpens.WrittenOpens` | backend/app/catalogue/corrections.py:58 | at any depth, in quotes or not, and with white space behind it, an id opens its entry |
| `BlockOpens.OneEntryALine` | backend/app/catalogue/corrections.py:58 | a line opens one entry only, of ids that hold no quote and no white space at their ends |
| `BlockOpens.EntryIs` | backend/app/catalogue/corrections.py:58-67 | the entry found runs from the first line that opens it over all lines that are neither blank nor to the left of its keys, two places in from its dash, to the first that is |
| `BlockOpens.AddedBeforeSources` | backend/app/catalogue/corrections.py:69-79 | a key that no line of it has is added before the first line of its sources, or at its end |
| `BlockOpens.SetInPlace` | backend/app/catalogue/corrections.py:69-77 | one that it has is set in the first line that has it, in place of all lines after it that go on with its value |
| `BlockOpens.KeyLineIff` | backend/app/catalogue/corrections.py:71 | a key's line is the key at the keys' depth, a colon, and anything or nothing |
| `BlockOpens.ContinuesIff` | backend/app/catalogue/corrections.py:73-75 | a value goes on in a line deeper than the keys, or that begins at their depth with a dash and a space |

## Left out

- Databases, the object mapper, HTTP, authentication, mail and the web client: plumbing around what is modelled. SHA-256 is taken as given; `FramedOnce` is about the text it hashes.
- Idempotency: the header's checks and the principal; `created_at` and `expires_at` are set at the moment the row is inserted; deleting a row that is gone is harmless and updating one raises, as the mapper does; response headers are part of the body here.
- Idempotency.CommandStoredOnce: only for answers stored within STALE_AFTER of their reservation; without that it is false, exactly as `CanBeStoredTwiceIff` says; and for commands captured no later than seven days after their reservation, without which it is false, exactly as `CanBeStoredAgainIff` says.
- Catalogue: `plan`'s version and checksum rules, the candidates for linking, merges of vendors, retirement and transfer status, categories and notes. Numbers and truth values are compared by their printed form, as the code compares them; lists and tables structurally. A release states no blank value.
- Network: `positions`, `sources`, `destinations`, `component_edges`. Queue entries carry their distance in the search for a way, for the proof.
- BeamNet.IsConnected: uses the walk's own search, where the code repeats it without distances.
- Queries: apertures, rays, polygons and fiducials: geometry in floating point.
- Evaluator: the text of expressions and its parsing; `element->attr` references, which nothing guards against circles; numbers are exact.
- LatticeExpressions.CircleReportedIff: for definitions that cannot fail otherwise, such as sums and products; with a quotient or a root before the circle it is false, and `EarlierFailureIsReported` is the input.
- Lines: the text of items (`-3*(a, b)`) and its parsing: an item is a tree. A count is a number.
- Placing: parsing, the physics of an element, inheritance between definitions, an element that is not defined; names come in lower case. Numbers are exact.
- Identifiers: all else `build`, `to_v2` and `merge_paths` put in the document; names come in capitals.
- Stack machine: what each operator does to numbers is a parameter that may fail; the words come split, in lower case.
- LatticeRpn.WrittenIsCalculated: for variables called like no number, no operator and neither `sto` nor `pop`; `ReadBackIff` says what becomes of the others.
- MatchScore.Score: the comparing of names, types, places and neighbours by text and geometry, which comes as `Signs`; weights and confidences are not rounded; tolerances are positive, as the code divides by them.
- Matcher: the five candidates listed with a proposal, evidence detail, differences from earlier proposals and notes; unmodelled assets, stale bindings and the summary, which only filter and count. Two components a person confirmed for one asset both keep it.
- Contract: the operations' own ids; an `anyOf` that is neither a list nor absent, in `_nullable`; deep copies.
- ApiContract.RewriteIsClean: a choice of primitive types can be left, exactly when `ApiChoices.PrimitiveUnionLeft` says; and a required property that may be null as given, exactly when `ApiNulls.NullableStaysRequiredIff` says, among properties whose schemas are objects.
- Key editor: how a value is written as a scalar, joining lines to a text, flow-style items and the patches as a whole.
- BlockEdit.SetReadsBack: a value is told by its lines alone, and blank lines at its end are not of it; for keys that are not empty, do not begin with a space or a dash, and hold no colon, as field names are.
