# FlowTex: verified models

FlowTex is a collaborative LaTeX editor. This project models the parts of it whose correctness spans
many functions or whole runs, and proves what they keep. Check everything with
`dafny verify dfyconfig.toml`.

| file | part of the system |
|---|---|
| `YjsDispatch.dfy`, `YjsWorker.dfy`, `YjsCluster.dfy` | the Y.Doc worker tier: one dispatch, one worker process, and any number of workers over one stream, lock table and database |
| `TrackedChanges.dfy`, `TcPatterns.dfy`, `TcMarkup.dfy`, `TcMacros.dfy` | stripping and marking up tracked changes, its regular expressions, and the macro definitions it injects |
| `Savepoints.dfy` | nested transactions flattened to savepoints |
| `CompileLifecycle.dfy`, `FileSync.dfy` | compile slots, table and metrics; writing project files through a hash cache |
| `WsRooms.dfy`, `YjsBudget.dfy` | WebSocket rooms, connection counts and document references; the update budget of one connection |
| `Membership.dfy`, `CompileRate.dfy` | the membership cache; the fixed-window compile limits |
| `Pairing.dfy`, `TokenBucket.dfy`, `CompileLimiter.dfy` | the companion server's pairing windows and compile limiter |
| `TexDeps.dfy`, `Backfill.dfy`, `Csv.dfy` | the file dependency worklist; the paged backfill; the audit-log export against an RFC 4180 parser |
| `Common.dfy` | options, strings and splitting |

Code that computes is modelled by functions; code that changes state by classes and loops, each tied by its
contract to a function of the old state. The theorems are lemmas about those functions: invariants over all
runs, agreement with a simpler meaning, round trips, and exact conditions.

## Reading the models

- What a piece of code computes is stated in the source's own texts and numbers: entry types, macro names,
  extensions, limits and expressions are written out in the lemmas, not taken from the functions they are about.
- A Y.js document is the set of updates merged into it, because merging is commutative and idempotent. A
  row's document is what opening the room would load, text seeded from the plain column included.
- One handler, dispatch, poll, renewal pass or sweep is one atomic step. What Redis, Postgres, the clock and
  the file system answer is a parameter of the step, or part of its event.
- A Dafny `char` is one UTF-16 code unit. Mark ends are JSON numbers, so ranges have real ends that slices
  truncate. Tokens are reals; ticks of the clock are whole.
- Ids of projects, files and users are UUIDs; where the code relies on that, the lemmas say so.
- The files in play of a run are the paths its file lists name; nothing is assumed of other strings.

## Where the code does not do what it says

Each of these is proved with an exact condition or, where it is a matter of one case, with that case, and the
code is modelled as it is.

- A row that cannot be read when its room is opened is taken for empty, served as empty, and overwritten by the
  next write: nothing of it survives but the updates applied since (`YjsDispatch.UnreadableRowIsOverwritten`,
  `YjsCluster.HandleSafeIff`, `StateReplyIsCompleteIff`).
- A stream entry with a bad payload for an unlocked room takes the room's lock and never gives it back; until
  it expires every worker, its owner too, finds the room contended (`YjsDispatch.DispatchLeaksLockIff`, with
  `LeakedLockBlocksEveryone` as its consequence).
- A room dropped by a renewal pass stays open with its old reference and its snapshot timer. Won again, it is not
  written on release (`YjsDispatch.UpdateReachesRowIff`); and although the renewal pass means not to write stale
  state over the new holder's, its timer does (`YjsCluster.StaleSnapshotOverwrites`).
- A snapshot refused because it is empty over non-empty text forgets that there was anything to write
  (`YjsCluster.SnapshotSafeIff`).
- A lock that expires under a living holder lets a second worker in (`YjsCluster.ExpireSafeIff`, with
  `ExpiryAdmitsSecondHolder` as its consequence). A renewal that Redis does not answer counts as a success, so a
  lost lock can stay unnoticed for a pass (`YjsCluster.RenewalRestoresOwnershipIff`).
- `\makeindex` is looked up with a global regular expression that remembers its last index between files and
  between calls, so a project can lose its index files (`TexDeps.CallIsLeastIff`, with `LoneMakeIndex` and
  `EarlierCallHidesIndexFiles` as an example).
- After a failed write the hash cache still names the previous bytes, and going back to them is skipped
  (`FileSync.SyncOneKeepsFaithfulIff`, with `TornWriteIsNotRepaired` as its consequence).
- A stopped compile that exits late removes its project's newer compile from the table
  (`CompileLifecycle.ExitKeepsEntryIff`, `LateExitOrphansNewerCompile`, `LateExitIsReachable`).
- Slots and running compiles part when a compile outlives the limiter's patience, is let through while Redis
  fails, or its release is lost (`CompileLifecycle.RunsHoldExactSlotsIff`).
- Joining another project while documents are held releases them under the wrong project
  (`WsRooms.JoinKeepsRefsIff`, `RunKeepsRefsIff`).
- COMMIT of an aborted block rolls back and reports success, so the pool path returns normally where the
  savepoint path throws (`Savepoints.PoolAgreesIff`).
- The limiter's wait is cut to whole nanoseconds, so "guaranteed admission" after exactly that wait holds only
  for waits without a fraction. With the rate that both limiters ship with all are
  (`TokenBucket.RetryAtWaitIff`, `CompileLimiter.ShippedHeaderIsEnough`); a rate of seven a minute, which the
  program never sets, shows that the header depends on it (`CompileLimiter.HeaderCanFallShort`).
- A pairing window ends up to a second before its 60 seconds, and if its lock file cannot be deleted it can be
  won again (`Pairing.WindowLength`, `RunsAreBounded`, `SurvivingFileIsWonAgain`). The lock file of an expired
  window is not removed, although the file's own comment says so; it only stops being accepted.
- A table whose last row is one empty cell does not survive printing and parsing; the export always has ten
  columns and does (`Csv.RoundTripIff`, `ExportRoundTrip`).
- `String.replace` expands `$` patterns in the document class line, and looks the line up again from the start
  (`TcMacros.PatternInLineIsExpanded`, `DoubledSignsShrink`, `PlaceIsClassLineIff`).
- The backfill starts after the empty id, so a row with that id is never visited (`Backfill.NothingIsLeftIff`).

## Model

| member | source | states |
|---|---|---|
| YjsDispatch.KeyNamesItsRoom | server/yjsWorker.js:350-366 | Renewal and shutdown read a room back from its key by splitting at colons; that gives the same room exactly when neither id contains a colon |
| YjsDispatch.ParseFields | server/yjsWorker.js:125-126 | The stride-two loop leaves, under every name, the value next to the last occurrence of that name, and nothing when that value is missing |
| YjsDispatch.FieldIff | server/yjsWorker.js:125-126 | A name has a value exactly when that value stands next to the last even place that holds the name |
| YjsDispatch.MalformedIff | server/yjsWorker.js:128-132 | A raw entry is malformed exactly when the last value of type, projectId or fileId is missing or empty |
| YjsDispatch.ApplyIff | server/yjsWorker.js:156-188 | It is an apply request with a given update exactly when its last type is "apply", its ids are not empty, and that update is the last one it names |
| YjsDispatch.StateIff | server/yjsWorker.js:189-221 | It is a state request with a given address exactly when its last type is "state", its ids are not empty, and that address is the last one it names |
| YjsDispatch.ReleaseIff | server/yjsWorker.js:223-233 | It is a release request exactly when its last type is "release" and its ids are not empty |
| YjsDispatch.UnknownIff | server/yjsWorker.js:234-236 | Any other nonempty type is unknown |
| YjsDispatch.PublishedEntries | server/services/yjsRoomClient.js:136-185 | The apply, state and release entries that the web tier publishes decode to the three requests they are meant as |
| YjsDispatch.GoodUpdateIff | server/yjsWorker.js:157-176 | An update is taken when it is neither empty nor longer than 4194304 characters |
| YjsDispatch.GoodReplyToIff | server/yjsWorker.js:198-201 | An address is taken when it is the 24 characters of the prefix in any case and 36 hexadecimal digits or dashes |
| YjsDispatch.HeldRoomIsServed | server/yjsWorker.js:209-221 | A raw state entry for a held room stores that room's document under the address it gives, or fails without any other effect |
| YjsDispatch.HeldRoomIsUpdated | server/yjsWorker.js:185-187 | A raw apply entry for a held room adds its update to that room's document and changes nothing else |
| YjsDispatch.HeldRoomIsReleased | server/yjsWorker.js:223-233 | A raw release entry for a held room with one reference closes it, writes its document over the row if it has changed, and gives the lock back |
| YjsDispatch.UnopenedRoomIsUpdated | server/yjsWorker.js:137-187 | A raw apply entry for a free, unopened room locks it, opens it with its row and adds the update |
| YjsDispatch.UnopenedRoomIsServed | server/yjsWorker.js:137-221 | A raw state entry for such a room locks it, opens it and replies with its row |
| YjsDispatch.MissingFileIsRejected | server/yjsWorker.js:177-183 | For a file that is gone nothing is left of the dispatch, the lock included |
| YjsDispatch.AdmitLeaksLockIff | server/yjsWorker.js:137-188 | Whatever the outside answers, the lock step and payload check keep "locks I own are the rooms I hold" exactly when they do not forget a free lock: by a lost reply, a bad payload, or a missing file whose lock cannot be given back |
| YjsDispatch.DispatchLeaksLockIff | server/yjsWorker.js:134-238 | Whatever the outside answers, one dispatch keeps that equality exactly when it neither forgets a lock so nor releases a room whose lock cannot be given back |
| YjsDispatch.UpdateReachesRowIff | server/services/yjsRoom.js:284-303 | All answers good, applying an update to a free room and releasing it puts the update in the row exactly when the room was not still open from an earlier holding, or the row had the update |
| YjsDispatch.FirstAcquisitionIsFlushed | server/yjsWorker.js:223-233 | Apply then release on a first acquisition adds exactly that update to the row, gives the lock back and leaves the worker as it was |
| YjsDispatch.UnreadableRowIsOverwritten | server/services/yjsRoom.js:186-201 | If the row cannot be read when the room is opened, apply then release leaves only that update in the row |
| YjsWorker.Store.SetNx | server/services/yjsLocks.js:82-97 | Takes a free lock, never another's; a call that throws is reported as not acquired, whether it took effect or not |
| YjsWorker.Store.CompareAndDelete | server/services/yjsLocks.js:140-148 | Deletes the lock if and only if it names the caller |
| YjsWorker.Store.Ack | server/yjsWorker.js:280-286 | An acknowledgement that reaches Redis removes that entry and no other from the pending list |
| YjsWorker.HandleAllAppend | server/yjsWorker.js:264-288 | Dispatching two batches one after the other is dispatching their concatenation |
| YjsWorker.DrainStep | server/yjsWorker.js:382-390 | Flushing and unlocking one more room takes the closed form of the drain from one set of rooms to the next, so the order of the set does not matter |
| YjsWorker.Worker.OpenRoom | server/services/yjsRoom.js:142-215 | An open room gains a reference; otherwise the row's document, an empty one if the row cannot be read, or a refusal if there is no row |
| YjsWorker.Worker.CloseRoom | server/services/yjsRoom.js:284-303 | Only the last reference writes a dirty document over its row and closes the room |
| YjsWorker.Worker.AdmitRoom | server/yjsWorker.js:137-188 | Lock, payload check and room opening in the code's order, with the lock given back only when the file is missing |
| YjsWorker.Worker.Perform | server/yjsWorker.js:134-238 | Statement by statement, a decoded request has exactly the outcome and the effect on rooms, locks, rows and replies of the dispatch step |
| YjsWorker.Worker.DispatchEntry | server/yjsWorker.js:115-238 | A raw state entry for a held room stores that room's document under its address, a raw apply entry adds its update, a raw release entry gives up the room; and every dispatch has the outcome and effect that the cluster proofs reason about |
| YjsWorker.Worker.HandleBatch | server/yjsWorker.js:264-288 | A batch is dispatched in order, and an entry is acknowledged when its outcome is not retryable (a throw settles it in the read loop only) |
| YjsWorker.Worker.ReclaimStaleEntries | server/yjsWorker.js:303-346 | The cursor loop dispatches exactly the entries of the pages up to an error, an empty page or a page whose next cursor is the start |
| YjsWorker.Worker.RenewHeldLocks | server/yjsWorker.js:350-366 | A pass keeps exactly the rooms whose lock is still its own or whose renewal was not answered |
| YjsWorker.Worker.Drain | server/yjsWorker.js:371-390 | Shutdown leaves no held room, stored rows for every last reference that could be stored, and no lock of its own that could be released |
| YjsCluster.AppliedAppend | server/yjsWorker.js:185-187 | What has been applied to a room grows with the log of dispatches |
| YjsCluster.DispatchSparesOthers | server/yjsWorker.js:115-238 | A dispatch never touches a room whose lock names another worker: not its lock, not its document |
| YjsCluster.DispatchRows | server/yjsWorker.js:223-233 | Rows change only when a held room is released, and then become the merged document |
| YjsCluster.HandleSafeIff | server/yjsWorker.js:115-238 | One handled entry, delivered or reclaimed, of any kind and with any answers, keeps the cluster safe exactly when it is lossless: a room opened with its row unreadable had nothing merged beyond what it then holds, a room released without its final snapshot was up to date |
| YjsCluster.SnapshotSafeIff | server/services/yjsRoom.js:306-370 | A debounced snapshot keeps the cluster safe exactly when it is not skipped, and so forgets its changes, over an older row |
| YjsCluster.AtMostOneHolder | server/yjsWorker.js:137-153 | No two workers hold one room |
| YjsCluster.LeavingUnheld | server/yjsWorker.js:380-390 | When a worker leaves, the rooms without a holder are those that had none and those it held |
| YjsCluster.ShutdownSafeIff | server/yjsWorker.js:371-390 | A shutdown loses nothing exactly when each room it held, if its row exists, is stored by the flush or already up to date |
| YjsCluster.CrashSafeIff | server/services/yjsRoom.js:305-319 | A crash loses nothing exactly when the row of every room the worker held is up to date |
| YjsCluster.ExpireSafeIff | server/yjsWorker.js:46-47 | A lock that expires is harmless exactly when nobody holds the room |
| YjsCluster.StaleSnapshotOverwrites | server/yjsWorker.js:356-363 | The timer of a room dropped by a renewal pass puts its stale document over the new holder's row, which stays as it was exactly when the two agree |
| YjsCluster.CreateKeepsSafe | server/services/yjsRoom.js:158-185 | A new file with its first document keeps the cluster safe |
| YjsCluster.RenewKeepsSafe | server/yjsWorker.js:350-366 | In a safe cluster a renewal pass drops nothing |
| YjsCluster.StepSafeIff | server/yjsWorker.js:115-390 | In a safe cluster an event of any kind keeps it safe exactly when it is benign, each kind by its own condition on the state before |
| YjsCluster.RunIsSafeIff | server/yjsWorker.js:115-390 | A run from the start is safe in all its states exactly when each of its events is benign |
| YjsCluster.BenignRunIsLossless | server/yjsWorker.js:115-390 | For any number of workers and any run of benign events: at most one holder a room, the holder's document is exactly the base plus every update successfully applied, and so is the row of a room nobody holds |
| YjsCluster.CalmIsBenign | server/services/yjsRoom.js:142-200 | Without expiry, crash, unreadable rows, skipped or unstored snapshots every event is benign |
| YjsCluster.StateReplyIsCompleteIff | server/yjsWorker.js:189-222 | A state request answered in a safe cluster is answered with the base document and every update applied so far exactly when answering it is lossless |
| YjsCluster.EveryRunIsAccounted | server/yjsWorker.js:264-346 | In every run, crashes and expiries included, each delivered entry is pending or acknowledged and never both, and an acknowledgement has a dispatch with a settling outcome behind it |
| YjsCluster.HandledKeepsAccounted | server/yjsWorker.js:280-286 | One acknowledgement moves its entry from pending to acknowledged, with the reason in the log |
| YjsCluster.RunsReadOnce | server/yjsWorker.js:241-290 | Over every run an entry waits in one read loop at most, and read loops dispatch no entry twice |
| YjsCluster.ClaimIsExact | server/yjsWorker.js:296-332 | A claim makes exactly the claimed entries the claimant's and hands it each once more |
| YjsCluster.RenewalRestoresOwnershipIff | server/yjsWorker.js:350-366 | After a renewal pass every held room has the worker's lock behind it exactly when no unanswered renewal concerned a lost lock |
| TrackedChanges.Ranges | shared/trackedChanges.js:192-198 | Filter, clamp and filter keep exactly the proper marks of the wanted kinds whose clamped range is not empty, inside the content |
| TrackedChanges.Sort | shared/trackedChanges.js:203 | The sort is ordered and a permutation |
| TrackedChanges.SortIsStable | shared/trackedChanges.js:84 | Ranges with the same start keep their order, so of two that collide the earlier mark is the one wrapped |
| TrackedChanges.DeletedIsCovered | shared/trackedChanges.js:192-198 | Clamping and truncating changes nothing: a character of the file is deleted, by the ends of some mark as they are stored, if and only if it lies in one of the filtered ranges |
| TrackedChanges.MergeIntoCovers | shared/trackedChanges.js:205-213 | Merging one more range covers exactly what was covered and what the range covers |
| TrackedChanges.MergeRanges | shared/trackedChanges.js:203-213 | The merge loop yields disjoint ranges with gaps that cover exactly the same characters |
| TrackedChanges.Splice | shared/trackedChanges.js:215-223 | The cursor loop returns exactly the characters outside the ranges, in order |
| TrackedChanges.StripPendingDeletions | shared/trackedChanges.js:188-224 | Returns exactly the characters k, in order, for which no del mark with finite ends has from < k + 1 <= to |
| TrackedChanges.StripIgnoresOrder | shared/trackedChanges.js:188-224 | The result depends on the set of marks that delete some character alone: not on order, duplicates, overlap or anything invalid |
| TrackedChanges.OneDeletion | shared/trackedChanges.js:188-224 | One del mark from lo to hi leaves the text before lo and the text from hi on |
| TcPatterns.BreakEndIff | shared/trackedChanges.js:132 | The scanner finds a paragraph break at a place exactly when the expression, read as a grammar, matches there, and up to the same end |
| TcPatterns.NameIsUnique | shared/trackedChanges.js:109-110 | No two sectioning names start at one place, so the order of the alternatives is immaterial |
| TcPatterns.TailIff | shared/trackedChanges.js:109-110 | Star, white space, bracket group and brace are scanned exactly as the expression reads them |
| TcPatterns.HeaderEndIff | shared/trackedChanges.js:109-110 | The scanner accepts a header up to an index exactly when the expression does, for names of which no two start at one place |
| TcPatterns.SectioningHeaderIff | shared/trackedChanges.js:109-110 | For the seven sectioning commands, by name, the scanner finds exactly the headers of the expression |
| TcMarkup.FindClose | shared/trackedChanges.js:118-125 | The depth loop returns the index at which the group opened before the text closes, or -1 |
| TcMarkup.CloseIsFirstMatch | shared/trackedChanges.js:118-125 | An index is found if and only if it is a closing brace and the text before it is balanced: the first matching brace |
| TcMarkup.PartsTileText | shared/trackedChanges.js:143-155 | Splitting with the captured separators cuts the text into consecutive parts |
| TcMarkup.PartsAreClean | shared/trackedChanges.js:143-155 | Text parts hold no paragraph break, break parts are whole breaks |
| TcMarkup.WrapPendingChangesAsMacros | shared/trackedChanges.js:65-100 | The loop over sorted ranges prints exactly the pieces the theorems below are about; one ins mark over a plain text gives the text before, \TCadd{ text } and the text behind, one del mark the same with \TCdel |
| TcMarkup.WrapRanges | shared/trackedChanges.js:88-99 | The cursor loop prints gap and wrapped range in turn, skipping ranges that start before the cursor |
| TcMarkup.WrappedTiles | shared/trackedChanges.js:65-100 | For all content and marks, erasing the inserted markup gives the content back exactly |
| TcMarkup.ArgumentsAreBreakFree | shared/trackedChanges.js:143-179 | No inserted argument contains a paragraph break, and each lies between the stored ends of a mark of its own kind |
| TcMarkup.DeletedArgumentsAreStripped | shared/trackedChanges.js:188-224 | Every source character inside a \TCdel argument is one that stripping removes |
| TcMarkup.PartsAreWrapped | shared/trackedChanges.js:148-154 | Every part of a split range comes out: breaks and blanks as they are, other texts wrapped as paragraphs of their own |
| TcMarkup.FreeRangeIsWrapped | shared/trackedChanges.js:88-99 | A range is wrapped unless one that comes earlier in the loop reaches into it |
| TcMarkup.PlainMarkIsOneArgument | shared/trackedChanges.js:65-100 | In any mark list, a mark with whole ends that no other mark overlaps, over a text without paragraph break or leading sectioning header, becomes exactly one argument over its whole text |
| TcMarkup.LoneMarkIsPrinted | shared/trackedChanges.js:65-100 | Such a mark is printed as \TCadd{ text } for an insertion, \TCdel{ text } for a deletion, between printings whose sources are the text before and the text behind it |
| TcMarkup.OneMarkIsPrinted | shared/trackedChanges.js:65-100 | If it is the only mark, everything around it is printed as it is |
| TcMarkup.PiecesArePrinted | shared/trackedChanges.js:94-95 | Kept text is printed as it is, an inserted argument of every mark list between \TCadd{ or \TCdel{ and a brace |
| TcMarkup.TextIsPlain | shared/trackedChanges.js:109-132 | A text without line feeds and backslashes has neither paragraph break nor sectioning header |
| TcMarkup.WrappingKeepsBalance | shared/trackedChanges.js:65-100 | If the content's braces are balanced, so are the output's |
| TcMarkup.BalanceIsNotReflected | shared/trackedChanges.js:164-179 | The converse fails for a concrete text and mark |
| TcMarkup.SectionTitleIsBalanced | shared/trackedChanges.js:164-179 | In the sectioning case header and closing brace stay outside, the title up to the first matching brace is balanced and one argument, a nonempty tail the other |
| TcMarkup.OtherParagraphsAreOneArgument | shared/trackedChanges.js:164-179 | In every other case the whole paragraph is one argument |
| TcMacros.PreambleArrives | shared/trackedChanges.js:50 | Whatever patterns the class line holds, the inserted text itself comes through whole |
| TcMacros.InjectionIsIdempotent | shared/trackedChanges.js:38-51 | Injecting twice is injecting once, for every text |
| TcMacros.PlaceIsClassLineIff | shared/trackedChanges.js:48-50 | The line is found again at its own place exactly when it is longer than the bare command or no earlier text contains that command |
| TcMacros.PlainLineIsKept | shared/trackedChanges.js:48-50 | Without replacement patterns in the class line, erasing the inserted text gives the source back |
| TcMacros.PatternStandsFor | shared/trackedChanges.js:50 | The four replacement patterns stand for a dollar sign, the match, the text before it and the text behind it |
| TcMacros.OtherStandsForItself | shared/trackedChanges.js:50 | Every other character of a replacement text stands for itself |
| TcMacros.PatternInLineIsExpanded | shared/trackedChanges.js:50 | The first pattern of any class line is replaced by what it stands for, what follows is expanded in turn |
| TcMacros.PatternsCanCancel | shared/trackedChanges.js:50 | With other patterns a line can come out as it was, by accident of what stands before it |
| TcMacros.DoubledSignsShrink | shared/trackedChanges.js:50 | A line whose only patterns are doubled dollar signs loses one for each, so it is kept exactly when it has none |
| TcMacros.DefinedIff | shared/trackedChanges.js:40-42 | The check finds a definition exactly when some \providecommand or \newcommand is followed by white space, maybe a brace, white space and \TCadd |
| TcMacros.ClassLineIff | shared/trackedChanges.js:48 | The class line is the first \documentclass that ends a word, up to the line feed |
| TcMacros.DefinitionsAreInserted | shared/trackedChanges.js:38-51 | Behind a class line without dollar signs the source goes on after the two packages and the definitions of \TCadd (blue, underlined) and \TCdel (red, struck out) |
| TcMacros.OthersAreKept | shared/trackedChanges.js:40-49 | A source that has the definition, or no class line, is returned as it is |
| TcMacros.MacrosAreDefined | shared/trackedChanges.js:43-95 | The commands defined are the ones the markup uses |
| Savepoints.OwnSavepointIsFound | server/db.js:197-222 | After any body, RELEASE and ROLLBACK TO reach the transaction's own savepoint, under all that failed inner ones left behind |
| Savepoints.RunMeans | server/db.js:195-223 | For every tree of nested transactions with failures thrown or swallowed at any level, the flattened commands leave the table, the aborted flag and the outcome of the recursive meaning |
| Savepoints.RunAllMeans | server/db.js:195-223 | The same for a body of operations, with the stack only grown by savepoints named in this run |
| Savepoints.TransactionIsAtomic | server/db.js:195-223 | A failed transaction restores its entry state and leaves only its own savepoint; a successful one keeps its body's effects and the stack as before |
| Savepoints.ReusedNamesBreakNesting | server/db.js:143-197 | With one name for two nested savepoints a failed outer transaction keeps its write, for every write and table: the counter is needed |
| Savepoints.PoolAgreesIff | server/db.js:224-250 | Pool and savepoint path leave the same table, and report the same outcome exactly when the body did not swallow an SQL error and return |
| Savepoints.Client.Query | server/db.js:199-220 | The session's commands: RELEASE removes a savepoint and those above it, ROLLBACK TO only those above, and alone works in an aborted block |
| Savepoints.FailureAborts | server/db.js:199-220 | A statement fails exactly when it leaves the block aborted; ROLLBACK TO fails only for lack of a savepoint of that name, everything else in an aborted block |
| Savepoints.Db.DoTransaction | server/db.js:195-223 | The recursive method issues exactly the commands of the flattened run |
| Savepoints.Db.RunBody | server/db.js:216 | A body runs up to its first throw |
| Savepoints.Db.RunOp | server/db.js:202-215 | Each operation of a body, nested transactions included, acts on the session as the flattened run says |
| Csv.QuotedRoundTrip | server/routes/admin.js:618 | A text with doubled quotes between quotes parses back to the text, up to its own closing quote |
| Csv.QuotedIff | server/routes/admin.js:618 | The quoted fields that parse are exactly the texts with every quote doubled, up to a quote that no other follows |
| Csv.FieldRoundTrip | server/routes/admin.js:612-619 | A printed cell parses back to its guarded text, whatever follows the field |
| Csv.RecordRoundTrip | server/routes/admin.js:632-636 | A printed row parses back to its guarded cells |
| Csv.ParsePrinted | server/routes/admin.js:632-641 | What parsing a printed table gives: the guarded table, less a last row of one empty cell |
| Csv.RoundTripIff | server/routes/admin.js:632-641 | Printing and parsing (section 2 of RFC 4180) returns the guarded table exactly when it does not end in a row of one empty cell behind another row |
| Csv.ExportRoundTrip | server/routes/admin.js:622-642 | Parsing the export returns the headings and every guarded row, with no rows too |
| Csv.HeadingsAreBare | server/routes/admin.js:631 | The headings sent unescaped need no escaping |
| Csv.AuditExportRoundTrip | server/routes/admin.js:622-642 | The audit-log export parses back to its ten headings, by name, and every guarded row |
| Csv.GuardNeutralises | server/routes/admin.js:615-617 | A cell that starts with one of the six formula leaders gets one apostrophe in front, no guarded cell starts with one, and other cells are untouched |
| CompileLifecycle.StepKeepsSound | server/compiler.js:574-837 | Every start, exit, safety timer, stop, abort and reset keeps releases, table and counters consistent |
| CompileLifecycle.RunsAreSound | server/compiler.js:574-837 | Over every run: each slot is released exactly once and only when its compile settles, table entries are running compiles, active is at most the running compiles, total is success plus failed |
| CompileLifecycle.StartIsExact | server/compiler.js:597-656 | A compile whose main file is found and which the limiter lets through runs with an entry in the table, in the counter and, if counted, among the slots |
| CompileLifecycle.SpawnFailureIsSettled | server/compiler.js:820-839 | If its process does not spawn it is settled at once and its slot released; table and counters are as before |
| CompileLifecycle.RefusalLeavesNothing | server/compiler.js:597-640 | A missing main file changes nothing, a full box only prunes slots |
| CompileLifecycle.SettlementIsExact | server/compiler.js:640-718 | Exit and safety timer settle a running compile, take its project out of the table, release its slot and lower the counter; only the exit adds a result; neither touches a settled one |
| CompileLifecycle.StopIsExact | server/compiler.js:298-342 | A stop takes exactly its project out of the table, an abort all of them, and neither touches compiles, slots or metrics |
| CompileLifecycle.StepKeepsSlotsIff | server/services/compileSemaphore.js:64-96 | While the recorded slots are exactly the unsettled compiles, an event keeps them so exactly when it prunes none that runs, lets none through unrecorded, and its release gets through |
| CompileLifecycle.RunsHoldExactSlotsIff | server/services/compileSemaphore.js:64-96 | Held slots are exactly the unsettled compiles throughout a run if and only if each event keeps them so |
| CompileLifecycle.CountedRunsStayInBudget | server/services/compileSemaphore.js:64-81 | While the limiter counts and prunes no compile that still runs, no more compiles run than its limit, even if releases are missed |
| CompileLifecycle.CounterIsExactWithoutReset | server/compiler.js:640-656 | Without a drift reset the counter is the number of unsettled compiles |
| CompileLifecycle.ResetIsExactIff | server/compiler.js:254-261 | After a drift reset, in any state of a run, the counter is exact if and only if it was and every running compile is in the table |
| CompileLifecycle.ExitKeepsEntryIff | server/compiler.js:710-714 | An exit that settles leaves another running compile's table entry in place exactly when the two are of different projects |
| CompileLifecycle.LateExitOrphansNewerCompile | server/compiler.js:710-714 | In that case the newer compile keeps running, can no longer be stopped, and the next reset undercounts |
| CompileLifecycle.LateExitIsReachable | server/compiler.js:584-595 | That state is reached by two starts of one project when the first outlives the wait |
| CompileLifecycle.RecordReflects | server/compiler.js:265-271 | Recording one result keeps the history the last min(300, n) results and the counters their counts |
| CompileLifecycle.RunsReflectRecords | server/compiler.js:265-271 | Over every run the history is the last min(300, total) recorded results, in order, and the counters count all of them |
| CompileLifecycle.CompileService.AcquireCompileSlot | server/services/compileSemaphore.js:64-81 | Prunes, then grants a slot below the limit; a failed call lets the compile through, with its slot recorded or not |
| CompileLifecycle.CompileService.RecordCompile | server/compiler.js:265-271 | Push, then shift beyond 300, equals the record step of the runs |
| CompileLifecycle.CompileService.SettleCompile | server/compiler.js:648-652 | Settling releases the compile's slot once, if the release gets through, and lowers the counter, never below zero |
| CompileLifecycle.CompileService.DoCompile | server/compiler.js:597-839 | A start takes no slot for a missing file or a full box, and settles at once when spawning fails |
| CompileLifecycle.CompileService.OnCompilerExit | server/compiler.js:710-718 | The first of exit and safety timer settles and records; a later exit does nothing |
| CompileLifecycle.CompileService.OnSafetyTimer | server/compiler.js:646-655 | The timer settles an unsettled compile without recording a result |
| CompileLifecycle.CompileService.StopCompilation | server/compiler.js:298-312 | Stopping removes the table entry and leaves slots and counters to the exit |
| CompileLifecycle.CompileService.AbortAllCompilations | server/compiler.js:323-342 | Aborting empties the table and reports how many there were |
| CompileLifecycle.CompileService.ResetDrift | server/compiler.js:256-261 | The periodic check lowers a counter above the table's size and never raises it |
| FileSync.InvalidateIsExact | server/compiler.js:1016-1020 | Invalidation removes exactly the keys of its project |
| FileSync.IsGeneratedIff | server/compiler.js:1022-1062 | The test for generated files holds exactly for a path that is a directory part, a stem without a dot, one of the 27 extensions in any case, and maybe slashes |
| FileSync.Generated | server/compiler.js:1057-1062 | A file is skipped exactly when its name has one of the listed extensions from its first dot on |
| FileSync.SetFileHashKeepsCap | server/compiler.js:999-1005 | The cache never exceeds its cap and its insertion order lists each key once |
| FileSync.SetFileHashIsFifo | server/compiler.js:999-1005 | The stored hash is found again, other keys keep theirs, and the one key that can go is the oldest, pushed out by a new key at the cap |
| FileSync.SyncOneIff | server/compiler.js:1130-1158 | One cached write puts the right bytes on disk exactly when it is not a false hit: a cached file with other bytes of the same hash |
| FileSync.SyncOneKeepsFaithfulIff | server/compiler.js:1111-1159 | A write that completes, tears the file or does not open it keeps every cached hash equal to the hash on disk exactly when it does not tear a file whose old hash is cached, unless what is left has that hash |
| FileSync.SyncWritesAll | server/compiler.js:1104-1162 | With the paths in play distinct on disk, a cached sync without a false hit leaves the disk that writing every loadable file whose name has none of the 27 extensions leaves |
| FileSync.SyncWritesAllIff | server/compiler.js:1104-1162 | With each path listed once, a cached sync leaves the disk that writing everything leaves if and only if it meets no false hit |
| FileSync.WriteAllIgnoresOrder | server/compiler.js:1111-1161 | The order in which a project's files are written does not matter |
| FileSync.SyncFailsIff | server/compiler.js:1111-1161 | A sync fails exactly when some file that is not skipped has no place or is not written whole |
| FileSync.RunsAreFaithful | server/compiler.js:991-1162 | Along every run in which outside changes are followed by invalidation before the next sync and tearing writes are guarded, cached hashes match the disk, the cap holds, and each sync whose writes complete equals writing everything exactly when it meets no false hit |
| FileSync.Compiler.StoreHash | server/compiler.js:999-1005 | The map with insertion order evicts and stores as the FIFO theorems assume |
| FileSync.DropKeys | server/compiler.js:1017-1019 | Visiting the keys by age and deleting those with the prefix leaves exactly the others, values and age included |
| FileSync.Compiler.InvalidateFileCache | server/compiler.js:1016-1020 | Deletes the project's keys and keeps the age of the others |
| FileSync.Compiler.SyncFilesToDisk | server/compiler.js:1104-1162 | The loop with its four ways of skipping a file and two of failing has the effect the theorems are about |
| WsRooms.LeaveIsExact | server/websocket.js:301-309 | Leaving removes exactly the connection's own entry from the room its state names, and a room that becomes empty |
| WsRooms.ConnectIsExact | server/websocket.js:1401-1409 | A connection is accepted and counted exactly while its user has fewer than ten |
| WsRooms.JoinIsExact | server/websocket.js:298-343 | A join takes the connection's own entry out of its room and, if it succeeds, puts a fresh one into the room it names; nobody else moves |
| WsRooms.SubscribeIsExact | server/websocket.js:571-578 | A subscription is granted exactly when the document is held or open or its file exists, and counts one reference the first time |
| WsRooms.CloseIsExact | server/websocket.js:1412-1525 | A close takes the connection's entry out of its room, one off its user's count and one reference off each document it holds |
| WsRooms.JoinKeepsRooms | server/websocket.js:298-343 | A join, refused or not, keeps the room invariant; a successful one is in the room it named |
| WsRooms.CloseKeepsRooms | server/websocket.js:1510-1518 | A close keeps the room invariant |
| WsRooms.ConnectKeepsCounts | server/websocket.js:1401-1409 | An accepted connection keeps the per-user count equal to the open connections |
| WsRooms.CloseKeepsCounts | server/websocket.js:1412-1416 | So does a close, and a user without connections has no entry |
| WsRooms.HoldersAfter | server/websocket.js:571-578 | A change of one connection's state changes a document's number of holders by that connection's part alone |
| WsRooms.SubscribeKeepsRefs | server/websocket.js:571-578 | A subscription keeps reference counts equal to holders |
| WsRooms.CloseKeepsRefs | server/websocket.js:586-593 | A close gives back exactly the references the connection holds |
| WsRooms.JoinKeepsRefsIff | server/websocket.js:298-343 | A join keeps reference counts right exactly when the connection holds no document or names its project again |
| WsRooms.RunsKeepRoomsAndCounts | server/websocket.js:298-1525 | Over every run: no empty room, every entry in a room is one connection's own and in the room that connection's state names, per-user counts equal open connections and never exceed 10 |
| WsRooms.RunsKeepRefs | server/websocket.js:571-593 | While connections that hold documents stay with their project, every reference count equals the open connections holding the document, and with no connection left no document is open |
| WsRooms.RunKeepsRefsIff | server/websocket.js:571-593 | Reference counts are right in every state of a run exactly when no connection changes its project while it holds documents |
| WsRooms.Hub.OnConnection | server/websocket.js:1401-1416 | Refuses the eleventh connection of a user and counts the others |
| WsRooms.Hub.DeleteFromRoom | server/websocket.js:302-308 | Deletes one entry, and the room with its last entry |
| WsRooms.Hub.AddToRoom | server/websocket.js:99-104 | Creates the room on first use and adds the entry to it |
| WsRooms.Hub.HandleJoin | server/websocket.js:298-343 | Leaves the old room first, names the project even when the join is then refused, and enters with a fresh entry |
| WsRooms.Hub.EnsureRoomSubscribed | server/websocket.js:571-578 | A document is referenced once per connection, and not at all when its row is gone |
| WsRooms.Hub.ReleaseYjsRooms | server/websocket.js:586-593 | Releasing the held files in any order lowers each count once and closes those that reach zero |
| WsRooms.Hub.OnClose | server/websocket.js:1412-1525 | The two close handlers together undo what the connection had: count, room entry, references |
| Membership.ProjectDropIff | server/middleware/auth.js:29-34 | The prefix test drops an entry exactly when the id is its project's, or begins with it and a colon and the user's id goes on accordingly |
| Membership.AskedIff | server/middleware/auth.js:90-93 | Only a nonempty user and an id of 8, 4, 4, 4 and 12 hexadecimal digits with dashes between are looked up |
| Membership.AnswerMeans | server/middleware/auth.js:90-105 | An entry less than five seconds old answers; otherwise the database does, and its answer is kept |
| Membership.AnswersAreKept | server/middleware/auth.js:90-105 | After a read that reached the database every read in the next five seconds repeats its answer, whatever the row has become, until an invalidation |
| Common.KeysAreDistinct | server/middleware/auth.js:17-19 | Keys of ids without colons are equal only for equal parts |
| Membership.InvalidationIsExact | server/middleware/auth.js:26-35 | Invalidation drops the named user's entry, or all of the project's, and leaves every other as it was |
| Membership.EntriesAreWitnessed | server/middleware/auth.js:90-105 | Every cached value was the database's at the time stored with it |
| Membership.AnswersAreRecent | server/middleware/auth.js:90-105 | Every answer for a project id and a user was the database's at some moment less than five seconds before |
| Membership.StaysCurrent | server/middleware/auth.js:90-105 | A cache entry that agrees with the database keeps agreeing until its row changes |
| Membership.InvalidationMakesCurrent | server/middleware/auth.js:26-35 | After an invalidation of the user or the whole project, every read up to the next change of that row gives the database's present answer |
| Membership.SweepsAreUnobservable | server/middleware/auth.js:38-43 | Every run answers the same reads the same with its sweeps left out |
| Membership.MembershipCache.IsProjectMember | server/middleware/auth.js:90-105 | No user or no UUID: null without a query; a younger entry answers; otherwise the row is stored and returned |
| Membership.MembershipCache.InvalidateMembership | server/middleware/auth.js:26-35 | The loop over the keys deletes exactly those the prefix test selects |
| Membership.MembershipCache.SweepStale | server/middleware/auth.js:38-43 | The sweep deletes exactly the entries older than five seconds |
| Pairing.SubmitSpendsWinsIff | helper/pair.go:142-178 | A submission spends one possible success for each it grants, except exactly when a match leaves a lock file that still names its window |
| Pairing.SubmitSpendsMissesIff | helper/pair.go:142-178 | The same for wrong codes: the exceptions are exactly a fifth miss, or a match after misses, whose lock file survives |
| Pairing.WindowLength | helper/pair.go:72-78 | A window lasts more than 59 and at most 60 seconds, since its expiry is cut to whole seconds |
| Pairing.OpenKeepsSound | helper/pair.go:72-92 | Opening a window pays for one success and five misses, even if the write fails or tears |
| Pairing.StepKeepsSound | helper/pair.go:72-178 | Every opening, poll, tick and submission keeps the budget and the record of openings |
| Pairing.RunsAreBounded | helper/pair.go:72-178 | Over every run: fewer than 5 attempts counted, successes at most windows opened, misses at most 5 each, counting as opened again a closed window whose lock file survived, and a success only for a code opened in the last 60 seconds |
| Pairing.SurvivingFileIsWonAgain | helper/pair.go:157-162 | That allowance is needed: one window whose lock file cannot be deleted is won twice |
| Pairing.OpenedCodeWorksIff | helper/pair.go:109-164 | Whatever went before, a code that was written and polled is accepted exactly until its expiry, so for at least 59 seconds |
| Pairing.ClosesIff | helper/pair.go:142-178 | A submission closes the window exactly when it is the right code or the fifth wrong one, in time |
| Pairing.PollsKeepTries | helper/pair.go:109-178 | Through any polls of the same lock file, wrong codes are counted and the fifth closes the window for good |
| Pairing.NewCodeGetsFiveTries | helper/pair.go:72-178 | A new code starts with five tries of its own, whatever was used up before |
| Pairing.PairStore.StartPairingWindow | helper/pair.go:72-92 | Writes code and expiry over the file, or leaves it untouched or torn when writing fails |
| Pairing.PairStore.LoadFromFile | helper/pair.go:109-136 | Loads a readable window, resets attempts only for a different code, and deletes an undecodable file |
| Pairing.PairStore.CloseWindow | helper/pair.go:157-162 | Clears code, expiry and attempts and deletes the lock file if that is possible |
| Pairing.PairStore.Consume | helper/pair.go:142-178 | Accepts the unexpired code once, counts wrong ones, and closes the window at the fifth |
| TokenBucket.TokensStayInRange | helper/server.go:515-534 | Over every run 0 <= tokens <= burst |
| TokenBucket.StretchIsBounded | helper/server.go:515-534 | Any stretch of any run from t1 to t2 admits at most burst + rate * (t2 - t1) calls |
| TokenBucket.SomeStretchIsExact | helper/server.go:515-534 | From a full bucket some stretch accounts exactly for all missing tokens: none is lost |
| TokenBucket.AdmittedIffAffordable | helper/server.go:515-534 | A bucket that started full admits a call exactly when no stretch ending with it would exceed burst plus rate times its length |
| TokenBucket.RetryIff | helper/server.go:511-534 | After a rejection the next call is admitted exactly once the exact wait has passed (and never below a burst of one) |
| TokenBucket.RetryAtWaitIff | helper/server.go:530-533 | A retry at the reported wait is admitted exactly when the wait lost no fraction of a nanosecond; one nanosecond later always |
| TokenBucket.CallKeepsGrid | helper/server.go:515-534 | When a token takes a whole number of ticks, a call keeps the bucket at whole ticks and its wait has no fraction |
| TokenBucket.RunsStayOnGrid | helper/server.go:515-534 | So over every run from a full bucket every reported wait is exact |
| CompileLimiter.RetryAfterIsLeast | helper/server.go:237-240 | The header is the least positive number of whole seconds that covers the reported wait |
| CompileLimiter.RetryAfterAdmitsIff | helper/server.go:233-243 | A retry after the header is admitted unless the wait lost a fraction and the rest was a whole number of seconds |
| CompileLimiter.ShippedHeaderIsEnough | helper/server.go:45-61 | With the rate both limiters ship with, and any burst, in every run a retry after the header is admitted |
| CompileLimiter.Limiter.constructor | helper/server.go:500-509 | A new limiter starts full with no slot in use |
| CompileLimiter.Limiter.Allow | helper/server.go:515-534 | The code's arithmetic in seconds and minutes is the bucket call per nanosecond, and the wait is its truncation |
| CompileLimiter.Limiter.AcquireSlot | helper/server.go:538-545 | A free slot is taken unless the deadline has passed and is chosen; without one the request waits until the deadline |
| CompileLimiter.Limiter.ReleaseSlot | helper/server.go:547-549 | Gives one slot back |
| CompileLimiter.Limiter.Admit | helper/server.go:232-256 | Refused for rate exactly when the bucket is empty, with the header above; then started, refused at the deadline without giving the token back, or waiting for a slot |
| CompileLimiter.Limiter.Resume | helper/server.go:538-545 | A waiting request takes no second token, and is refused only once its deadline has passed |
| CompileLimiter.NewCompileLimiter | helper/server.go:69 | Two slots, burst three, sixty a minute |
| CompileLimiter.NewLlmLimiter | helper/server.go:70 | One slot, burst five, sixty a minute |
| YjsBudget.FramesAreBounded | server/websocket.js:451-468 | However a connection times its updates, any stretch of ms milliseconds takes at most 200 + ms / 50 |
| YjsBudget.FrameIsTakenIff | server/websocket.js:451-468 | An update is taken exactly when no stretch ending with it would go over that bound |
| YjsBudget.Connection.TakeYjsUpdateToken | server/websocket.js:454-468 | The lazily created budget, counted in seconds, is the bucket call per millisecond |
| CompileRate.AlikeBump | server/routes/compile.js:66-71 | A call finds and leaves the same window in two tables that agree on open windows |
| CompileRate.SweepsAreUnobservable | server/routes/compile.js:88-97 | However sweeps are placed in a run, every decision is what it would be without them |
| CompileRate.CheckIsAllowedIff | server/routes/compile.js:63-85 | A check passes exactly with fewer than 15 calls of its project and, if it names a user, fewer than 30 of that user in the open windows of 60 seconds |
| CompileRate.CheckCharges | server/routes/compile.js:63-85 | The project is charged in any case, the user unless the project refused, and no other key |
| CompileRate.StepMoves | server/routes/compile.js:63-97 | What one check or sweep can do to the entry of one project or user |
| CompileRate.MovesKeepAccount | server/routes/compile.js:63-97 | Such a step keeps the entry's account of the calls let through since a moment |
| CompileRate.SixtySecondsAreBounded | server/routes/compile.js:63-85 | In any 60 seconds of any run at most 2 * 15 - 1 calls for a project and 2 * 30 - 1 for a user get through |
| CompileRate.OneWindowIsBounded | server/routes/compile.js:63-85 | Calls within one window stay within 15 and 30 |
| CompileRate.BoundIsReached | server/routes/compile.js:63-72 | Twenty-nine calls within two milliseconds do get through |
| CompileRate.RateLimiter.CheckCompileRate | server/routes/compile.js:63-85 | Both tables and the answer after the code's in-place counting, where a refused project is not charged to its user |
| CompileRate.RateLimiter.SweepStale | server/routes/compile.js:88-97 | Deletes exactly the entries two windows old, in both tables |
| CompileRate.SweepTable | server/routes/compile.js:90-92 | Visiting the keys in any order and deleting the stale ones leaves exactly the others |
| TexDeps.MatchAtIff | shared/texDeps.js:7-14 | The scanner matches a command and its argument at a place exactly when the expression, read as a grammar, does, for names of which no two start at one place |
| TexDeps.CommandIsFoundIff | shared/texDeps.js:7-14 | Each of the seven expressions matches exactly where, and up to where, its scanner does |
| TexDeps.MatchesAreAChain | shared/texDeps.js:43-91 | The scan of a text lists the arguments of the leftmost command, then of the leftmost one behind its closing brace, and so on |
| TexDeps.ChainIsUnique | shared/texDeps.js:43-91 | What such a search finds is determined |
| TexDeps.NoneIsLeftOut | shared/texDeps.js:43-91 | Only commands are found, and none is left out unless it starts inside one that is found |
| TexDeps.MatchesIff | shared/texDeps.js:43-91 | An argument is listed exactly when a search of the text finds a command with it |
| TexDeps.ItemIff | shared/texDeps.js:59-80 | Splitting at the commas and trimming gives exactly the items of the list without the white space around them |
| TexDeps.CandidatesIff | shared/texDeps.js:42-93 | The candidates of a text are exactly the existing paths that its commands name: by exact path, .tex, nine image extensions, .bib, .bst, .sty or .cls |
| TexDeps.GraphFits | shared/texDeps.js:42-99 | So the worklist follows exactly the graph of these references, with the .ist and .idx files for files that mention \makeindex |
| TexDeps.Resolve | shared/texDeps.js:112-144 | The candidates are exactly the path itself if it exists, otherwise the existing paths made of the name and an extension |
| TexDeps.ResolveAll | shared/texDeps.js:43-65 | A list of names resolves to exactly what its members resolve to |
| TexDeps.ResolvePath | shared/texDeps.js:112-144 | An exact path wins; otherwise the loop returns every existing path with one of the extensions, in their order |
| TexDeps.WithExts | shared/texDeps.js:119-123 | The candidates are exactly the existing paths made of the name and an extension |
| TexDeps.IndexFiles | shared/texDeps.js:96-98 | Exactly the project's .ist and .idx files |
| TexDeps.BuildMap | shared/texDeps.js:25-26 | The file map lists each path once however often it is given |
| TexDeps.LastFileCounts | shared/texDeps.js:25-26 | Of several files with one path the last counts |
| TexDeps.WalkStaysInside | shared/texDeps.js:31-100 | Nothing outside a closed set containing the main file is collected |
| TexDeps.WalkCloses | shared/texDeps.js:31-100 | Everything a collected text file refers to is collected, except index files hidden by the remembered index |
| TexDeps.CallCloses | shared/texDeps.js:24-103 | Any call collects the main file and what its files refer to, save for a \makeindex of the main file that the remembered index hides |
| TexDeps.CallStaysInside | shared/texDeps.js:24-103 | And nothing outside any set with these properties |
| TexDeps.CallIsLeastIff | shared/texDeps.js:24-103 | From any remembered index the worklist ends, on every cyclic or duplicate-laden project, with exactly the least set of existing paths containing the main file and closed under references, if and only if the index does not hide the main file's \makeindex or every index file lies in every set closed without it |
| TexDeps.FreshCallIsLeast | shared/texDeps.js:24-103 | From a forgotten index every call returns exactly the least closed set |
| TexDeps.EarlierCallHidesIndexFiles | shared/texDeps.js:13 | Two projects resolved in turn: the second loses the index style it would have found on its own |
| TexDeps.Resolver.ResolveUsedFiles | shared/texDeps.js:24-103 | The queue loop returns exactly the worklist's set and remembers its last index; from a forgotten index that is the least set closed under the references of the text |
| TexDeps.Resolver.PushReferences | shared/texDeps.js:42-99 | One text file queues its references in the code's order |
| TexDeps.Resolver.CollectFiles | shared/texDeps.js:25-26 | A later file under the same path replaces the earlier one in its place |
| TexDeps.Resolver.PushUnused | shared/texDeps.js:44-46 | Only candidates that are not used yet are queued, in order |
| Backfill.PageStep | server/migrate-yjs-init.js:58-74 | A page is empty exactly when no text file without a document is left; otherwise it is the next such row and the page after it |
| Backfill.PageAfterFill | server/migrate-yjs-init.js:54-74 | Rows filled so far do not change the pages to come |
| Backfill.FillNext | server/migrate-yjs-init.js:80-91 | Handling the next row moves the filled part up to it and touches no other row |
| Backfill.VisitNext | server/migrate-yjs-init.js:77-79 | The visited rows stay in order, once each, and complete up to the current id |
| Backfill.RestartCompletes | server/migrate-yjs-init.js:8-12 | A run that broke off anywhere, started again, leaves what one whole run leaves |
| Backfill.NothingIsLeftIff | server/migrate-yjs-init.js:44-61 | No qualifying row with text is left exactly when none had the empty id |
| Backfill.Files.All | server/migrate-yjs-init.js:58-74 | The query's page: the first qualifying rows after the last id |
| Backfill.Files.HandleRow | server/migrate-yjs-init.js:77-92 | A row is counted as migrated with its document written, or as skipped |
| Backfill.Files.HandlePage | server/migrate-yjs-init.js:77-93 | A page advances filled rows, visited rows and counters together, up to where the database fails |
| Backfill.Files.Backfill | server/migrate-yjs-init.js:39-98 | For every batch size it ends, having visited every due row exactly once in order and filled exactly those with text; seen is migrated plus skipped at every stop |

## Left out

- YjsCluster.EveryRunIsAccounted: does not model how long an entry must be pending before it can be claimed; any pending entry can be.
- FileSync.Compiler.SyncFilesToDisk: takes path resolution, loading of bytes and the fate of each write as parameters, and each file's look-up and write as one step, where the code starts all files at once; removal of symbolic links is not modelled.
- FileSync.IsGeneratedIff: lower-cases the 26 ASCII letters only; toLowerCase also maps the Kelvin sign to k, and so would skip one more spelling of .fdb_latexmk.
- Savepoints.PoolAgreesIff: is for bodies without nested transactions; on the pool path those run on another connection.
- TcMacros.PlainLineIsKept: a class line with patterns can, by accident of what they stand for, come out as it was (`PatternsCanCancel`), so the condition is exact for doubled dollar signs only.
- TexDeps.Resolver.ResolveUsedFiles: `matchAll` results are computed as lists rather than one by one.
- Backfill.Files.Backfill: rows that other writers fill while it runs are not modelled.
- Interleaving at `await` inside one handler, and messages that arrive while a socket is closing.
- Liveness: that a released lock is eventually taken, or a pending entry eventually claimed.
- Redis, Postgres, Docker, latexmk, HTTP and file-system calls beyond the answers that appear as parameters; their time-outs.
- Presence broadcasts, cursors, chat, roles of write messages, the generic per-message rate limit, and the format-call limit.
- Comment and tracked-change anchors that opening a room backfills; write statistics; trace spans and metrics other than the compile history.
- Floating-point rounding in the token buckets and a clock that runs backwards.
- The environment switch that lifts the compile limits.
- The text of the pairing code and the minting of the bearer token.
- The React client, routes, sign-in, encryption, git and GitHub import, recovery scripts and load tests: outside services or one-branch logic.
