# Verification model of the spider toolkit's in-memory engines

The spider toolkit is a C library in the style of Asterisk. This project models its in-memory
engines in Dafny and proves what they promise:

- **Reference-counted containers** (`src/obj.c`): objects with counters and destructors, hash
  buckets of version-stamped entries, one search engine driven by five flags, and iterators that
  survive changes to the container. `RefCounts`, `Container`, `ContainerSearch`, `ContainerRounds`,
  `ContainerTaken`, `ContainerIter`, `ContainerWorld`, `ContainerRuns` and `BucketLoop` reason about
  values; `ContainerObjects` holds the objects whose fields the C code updates, each method proved against
  those values.
- **Task queue** (`src/taskqueue.c`): producers, one worker and a shutdown, interleaved at every
  lock, wait and signal (`TaskQueue`), and the registry of named queues kept alive by their
  holders (`Registry`, `RegistryObject`).
- **Configuration files** (`src/config.c`): nested comments stripped in place (`CommentStrip`), the
  line parser and the printer (`ConfigText`, `ConfigReader`), the variable list of a section
  (`Sections`).
- **I/O table** (`src/io.c`): parallel arrays addressed through id cells, removal put off while a
  callback runs, stable compaction (`IoTable`, `IoObject`).
- **Scheduler** (`src/scheduler.c`, `src/times.h`, `src/utils.c`): the timed queue, its cache of
  structures, and the arithmetic under it (`Times`, `Scheduler`, `SchedulerRuns`,
  `SchedulerObject`).
- **Lists, strings and the command line** (`src/linkedlist.h`, `src/strings.c`, `src/cli.c`): the
  list macros on heap nodes (`LinkedLists`, `ListTraversal`), trimming and joining (`Strings`), and
  the argument splitter (`Cli`).

Where the C code changes things step by step, a class or a method over an array does the same, and
its postcondition equates the new state with a function of the old one; the theorems are about
those functions and about runs of them.

`dafny verify dfyconfig.toml` checks the whole project.

## Where the code and its intent differ

Followed as written, with the exact condition proved:

- `src/scheduler.c:168` counts nothing, so the queue counter only ever goes down; it equals the
  queue length exactly when the missed insertions are a multiple of 2^32 (`SchedulerRuns.SentIsLength`).
- `src/scheduler.c:138` narrows the wait to an `int` and `src/times.h:137` takes the delay as
  unsigned; `SchedulerRuns.WaitIsLeast` says exactly when the wait is right.
- `src/obj.c:490-571`: a wrapping search that starts at the last bucket and is stopped later with
  nothing to return begins again at bucket 0. `ContainerRounds.EndsExactly` says from the entries,
  the callback and the flags alone which of these searches never end, and
  `ContainerRounds.RunsForEver` that the loop does run for ever on exactly those; one that unlinks
  can end after several rounds (`ContainerRounds.RoundsTakeAll`). All other searches visit each
  bucket at most once (`BucketLoop.VisitsInOrder`).
- `src/obj.c:336-346`: the link index is `abs` of an int hash, remaindered. For the smallest int
  `abs` has no positive counterpart and keeps it, so the index is outside the array unless the
  number of buckets divides it (`Container.LinkIndexInRange`). `Registry.GetKeeps` carries the
  condition; the name `fzlvjp9` is one that fails it (`Registry.UnlinkableName`).
- `src/config.c:826-835`: a comment start at depth 128 is logged without moving on, so a turn there
  changes nothing (`CommentStrip.LimitHangs`), and the loop runs for ever exactly on the lines on
  which the scan meets such a start (`CommentStrip.ScanIsLoop`).
- `src/config.c:836-857`: a comment end outside a comment takes the depth below zero. Text is shown
  exactly outside comments if and only if no end strays like that (`CommentStrip.FilterIsNested`,
  `CommentStrip.LinesAreNested`). Afterwards nothing brings the text back
  (`CommentStrip.StrayEndHidesFile`): a later start writes in front of the array `nest` at
  `src/config.c:832` (`CommentStrip.StartAfterStray`), and the end of the file reads there at
  `src/config.c:891` (`ConfigText.BelowZeroIsOutside`). A line stays inside `nest` and its scan ends
  exactly if every start is met at a depth from 0 to 127 (`CommentStrip.ScanFits`).
- `src/config.c:478-481` does not move `last`; the next append keeps everything exactly when `last`
  is the end of the chain (`Sections.AppendKeepsAll`, `Sections.Section.Update`).
- `src/config.c:211-221` does not copy the kind of a variable, so `=>` is inherited as `=`
  (`ConfigText.ClonedKeeps`); in `src/config.c:383` a section with variables that is added
  to and inherits from itself walks a chain that grows as fast as it is walked, and only then does
  the walk not end (`ConfigText.SelfInheritance`).
- `src/io.c:242-249` leaves `current_ioc` set after an entry without a callback: every wait resets
  it exactly if every entry has one (`IoTable.CurrentIsReset`, `IoTable.NullCallbackLeavesHole`).
- `src/cli.c:393` stops one character into the word in the last usable slot (`Cli.ParseJoin`).
- `src/linkedlist.h:580-589` is meant for a current entry that is still in the list. After a removal
  the list stays valid exactly if an entry is still ahead, which the caller sees in `__list_next`
  (`ListTraversal.Cursor.InsertBeforeCurrent`, `ListTraversal.LateInsertLosesLast`); and where one is
  ahead, removing it after the next step drops the inserted entry with it
  (`ListTraversal.LateInsertIsDropped`).
- `src/taskqueue.c:331-336` joins the worker while the registry is locked; the join returns exactly
  if the one task that may still be started does not use the registry (`TaskQueue.HeldJoinReturns`).

Followed as written, with what the code takes for granted as a precondition:

- `src/linkedlist.h:713-721` takes the new entry's next pointer as it is, so it has to be NULL.
- `src/linkedlist.h:794-796` follows the last entry of the inserted list, so that list must not be
  empty.
- `src/strings.c:192-194` writes in front of a buffer of length 0, so the length must be at least 1.

Modelled as intended, because the line does not compile, is undefined, or would lose everything:

- `src/io.c:147` does not count the new entry (`IoTable.AddAsWrittenIsLost` shows the effect), `:50`
  has a stray semicolon, `:91` drops the reallocated array, and `:58` and `:62` allocate fewer
  entries than `:121` lets be used; the arrays here hold `maxfdcnt + 1` entries as `io_grow` makes them.
- `src/scheduler.c:100` and `:313` name the traversal macro where the head is to be removed; `:142`
  locks where it should unlock, `:341` unlocks inside the loop, `:191` lacks the `data` parameter,
  `:154` declares a structure where a pointer to one is used, and `:158` passes the queue and the
  entry where the macro takes the entry and its field.
- `src/obj.c:623` releases the iterator instead of its container.
- `src/obj.c:337` and `:358` test `!flags & OBJ_NOLOCK`, which is always 0, so linking never takes
  the container's lock; here linking is one atomic step, as its flag intends.

Comments that the code does not bear out: `src/io.c:173-177` announces that the last entry is moved
into the hole, but the entries move up in order; `src/obj.h:650-651` leaves open that an object is
seen twice, which for entries cannot happen (`ContainerIter.NeverTwice`).

## Model

| member | source | states |
|---|---|---|
| RefCounts.RefBalanced | src/obj.c:152-185 | taking or releasing one reference keeps every object's books: the counter is the number of references outstanding, and the destructor runs exactly when the last one goes |
| RefCounts.AllocBalanced | src/obj.c:192-211 | a new object has one reference, its creator's; other objects are untouched |
| RefCounts.DropAllBalanced | src/obj.c:718-741 | dropping one reference per listed entry takes exactly that many from each object |
| Container.LinkKeepsWf | src/obj.c:336-349 | linking keeps each bucket strictly sorted by version below the container's version and the element count exact, and only adds an entry stamped later than all |
| Container.LinkIndexInRange | src/obj.c:336-346 | the index computed on ints is one of the array exactly if the hash is not the smallest int or the number of buckets divides it |
| Container.LinkKeepsPlaced | src/obj.c:336-346 | if the hash can be linked, every entry still lies afterwards in the bucket its hash selects, and that is a bucket of the array |
| Container.LinkOcc | src/obj.c:352-365 | linking adds one entry for the linked object and none for another |
| ContainerSearch.SearchEvolves | src/obj.c:412-571 | one round of a search, over any buckets in any order, with any flags and callback, leaves a well-formed container whose version has moved if anything was unlinked |
| ContainerSearch.MatchConserves | src/obj.c:510-551 | one match, for all flag combinations: the books of every object balance again, with its reference still in the bucket, with the caller, released, or doubled into the result container |
| ContainerSearch.SearchConserves | src/obj.c:471-571 | one round of a search keeps the books of every object: buckets, result container and returned object together hold what its counter says |
| ContainerSearch.SearchMulti | src/obj.c:522-531 | the result container of a multiple search is well formed, and is not touched by other searches |
| ContainerSearch.HashedSearchAgrees | src/obj.c:471-490 | for every hash that can be linked, negative ones included, one round from the hash gives the same object, entries and counters as a scan of all buckets |
| ContainerSearch.HomeIsSearched | src/obj.c:336-341 | for every hash that can be linked, the bucket an object is linked into is among those a search for its hash visits |
| BucketLoop.VisitsInOrder | src/obj.c:490-571 | unless it rescans, the loop over the buckets ends having visited them in rotated order from the hash, each at most once |
| BucketLoop.RescanRepeats | src/obj.c:562-571 | in the remaining case it comes back to bucket 0 within one round |
| ContainerRounds.NodataLookupNeverEnds | src/obj.c:562-571 | a concrete lookup without data whose loop runs for any number of turns |
| ContainerRounds.RunsForEver | src/obj.c:471-571 | for every container, callback and flags: the loop over the buckets is still running after any number of turns exactly if the search is one of those without a result |
| ContainerRounds.EndsExactly | src/obj.c:562-571 | which those are, told before the search: it wraps from the last bucket, no entry there ends the scan, and in front of it an unlinking search that returns nothing has an entry that stops without matching, any other a first halting entry that is not returned |
| ContainerRounds.NeverEnds | src/obj.c:490-571 | in such a search the loop is running after any number of turns, whatever it has unlinked and collected on the way |
| ContainerRounds.SearchEndsIn | src/obj.c:490-571 | all other searches come to an end, with the buckets, counters, results and object of the search function |
| ContainerRounds.RoundsTakeAll | src/obj.c:562-571 | two matches in bucket 0 and a hash on the empty last bucket: an unlinking search without OBJ_MULTIPLE takes both out in two rounds, and ends |
| ContainerRounds.HashedFullSearchAgrees | src/obj.c:471-571 | a search from a hash by a callback that answers only for that hash always ends, and leaves what a scan of all buckets leaves |
| ContainerRounds.FullIsRepeat | src/obj.c:490-571 | every search that ends is a sequence of rounds, each begun only if the one before returned no object |
| ContainerRounds.RepeatConserves | src/obj.c:471-585 | over all rounds of a search, unlinking and collecting ones included, the books of every object stay balanced |
| ContainerRounds.RepeatEvolves | src/obj.c:412-585 | over all rounds the container stays well formed and its version has moved if anything was unlinked |
| ContainerTaken.FullTakes | src/obj.c:412-585 | every search that ends, told from the container before it: the entries shown are those of the visited buckets in order up to the first that ends the search, or all of them if it comes back; the objects of the matching ones among them, in that order, are the result of a search for several; exactly those are gone from the buckets of an unlinking search; a search for one object returns the one it ended at; the two counters record how many entries went |
| ContainerTaken.SearchTakes | src/obj.c:490-571 | the same for one round over any buckets in any order |
| ContainerTaken.RoundsTake | src/obj.c:562-571 | rounds that unlink and end take all matches in front of the last bucket, in order, and nothing else |
| ContainerTaken.ScanTakes | src/obj.c:494-560 | the same for the scan of one bucket |
| ContainerIter.FastPathAgrees | src/obj.c:647-673 | following the cached pointer yields exactly the entry that the version scan would yield |
| ContainerIter.ScanIsLeast | src/obj.c:667-673 | the version scan finds the nearest entry beyond the iterator's position, or there is none |
| ContainerIter.IterSurvives | src/obj.c:650-657 | the iterator's invariant outlives any change to the container: the pointer is followed only while its entry is linked |
| ContainerIter.AdvanceOk | src/obj.c:675-695 | a call leaves the iterator consistent with the container |
| ContainerIter.NeverTwice | src/obj.h:653-663 | over any interleaving of calls with links and unlinks the entries returned strictly increase in (bucket, version); none is returned twice |
| ContainerIter.NothingMissed | src/obj.h:653-659 | when a call returns NULL, every entry linked throughout and beyond the starting place has been returned |
| ContainerIter.FullIteration | src/obj.c:606-616 | for a freshly initialised iterator: every entry present from initialisation until NULL has been returned |
| ContainerIter.TakeOutEvolves | src/obj.c:678-687 | an unlinking call changes the container like any removal and moves one reference from the container to the caller |
| ContainerIter.DrainReturnsAll | src/obj.c:633-698 | an unlinking iterator left alone returns all entries, in bucket order, and leaves the container empty |
| ContainerRuns.StepEvolves | src/obj.c:318-716 | every operation leaves each container that stays alive evolved: entries only disappear or are stamped later, and an unchanged version means nothing changed |
| ContainerRuns.IterationOverRuns | src/obj.h:653-663 | over every run, with any operations between the calls: what an iterator returns strictly increases in (bucket, version), and at NULL every entry present at all calls has been returned |
| ContainerWorld.StepKeeps | src/obj.c:152-741 | every operation of objects, containers, searches of any number of rounds, and iterators keeps the books and the shape of all containers |
| ContainerWorld.RunsConserve | src/obj.c:152-741 | over every run: each object's counter is the number of handles plus entries that refer to it, and its destructor runs once, at zero |
| ContainerWorld.ContainersLiveWhileHeld | src/obj.c:727-741 | a container is alive exactly while somebody holds a reference to it; its destruction releases what it held |
| ContainerObjects.ObjHeap.Ref | src/obj.c:152-185 | the counter update in place, returning the value before |
| ContainerObjects.ObjHeap.Alloc | src/obj.c:192-211 | a new counter starts at one |
| ContainerObjects.HashContainer.Link | src/obj.c:318-365 | for a hash that can be linked, the fields after linking are those of the linking function, the index computed on ints, and the object's counter rises by one |
| ContainerObjects.HashContainer.Match | src/obj.c:510-551 | what a matching entry does in place to buckets, counters and result container is what the functions say whose effect on results and buckets ContainerTaken states |
| ContainerObjects.HashContainer.Visit | src/obj.c:494-560 | one round of the inner loop, tied to the scanning function in mid-bucket |
| ContainerObjects.HashContainer.ScanAt | src/obj.c:490-561 | the safe traversal of one bucket computes the scan of that bucket |
| ContainerObjects.HashContainer.ScanNext | src/obj.c:490-571 | one turn of the outer loop: a bucket is scanned, and the loop variables wrap, go back or move on as the turn function says |
| ContainerObjects.HashContainer.Callback | src/obj.c:412-585 | every search that ends, rescanning ones included: buckets, counters, results and return value are those of the search function, and come to what the entries, the callback and the flags say |
| ContainerObjects.HashContainer.Unlink | src/obj.c:375-385 | unlinking by address is that search with unlink, pointer and nodata |
| ContainerObjects.HashContainer.Destruct | src/obj.c:718-741 | destruction drops one reference per entry, in bucket order, and empties the buckets |
| ContainerObjects.ObjIterator.ScanBucketFor | src/obj.c:669-672 | the traversal stops at the first entry stamped later than the iterator's version |
| ContainerObjects.ObjIterator.Find | src/obj.c:647-673 | fast path and scan find the entry the specification names |
| ContainerObjects.ObjIterator.Next | src/obj.c:633-716 | the call, in both modes: the returned object, the iterator's fields, the container and the counters |
| TaskQueue.StepKeeps | src/taskqueue.c:124-235 | every atomic step of every thread keeps the protocol's invariant |
| TaskQueue.Linearity | src/taskqueue.c:124-179 | under every interleaving executed, in-hand and queued tasks make up the pushed sequence until draining; tasks run in push order at most once, and the size is exact when the lock is free |
| TaskQueue.ServesAll | src/taskqueue.c:135-175 | while the flag is up no task is left behind: from every reachable state with the lock free, the worker comes to wait with the queue empty and every pushed task executed in order |
| TaskQueue.ServingMoves | src/taskqueue.c:135-175 | until then it can always move and comes closer with every step |
| TaskQueue.AtMostOneLateStart | src/taskqueue.c:135-158 | at most one task starts after the run flag has gone down |
| TaskQueue.OneLateStartHappens | src/taskqueue.c:150-158 | an interleaving in which one does |
| TaskQueue.NoLostWakeup | src/taskqueue.c:142-148 | a worker waiting with no signal pending has an empty queue and its flag up, unless a signal is about to come |
| TaskQueue.WorkerProgress | src/taskqueue.c:135-175 | after shutdown the worker can always move and comes closer to returning with every step |
| TaskQueue.JoinReturns | src/taskqueue.c:204-208 | with tasks that return, the join cannot block for ever, and afterwards every pushed task was executed or purged |
| TaskQueue.HeldJoinReturns | src/taskqueue.c:328-337 | with the registry locked during the join: it returns exactly if the task the worker may still start is not one that gets or gives up a queue |
| TaskQueue.HolderMoves | src/taskqueue.c:220-235 | whoever holds the lock has a next step |
| TaskQueue.PushSection | src/taskqueue.c:355-359 | the steps of a push, taken together, add one task at the end and wake a waiting worker |
| TaskQueue.Queue.Push | src/taskqueue.c:341-362 | the fields after a push are those of the protocol state after the producer's steps |
| TaskQueue.Queue.Pop | src/taskqueue.c:220-235 | the same for the worker's pop, on empty and non-empty queues |
| Registry.CaseHashRespects | src/strings.h:273-281 | names that strcasecmp cannot tell apart have the same hash |
| Registry.StrCaseHash | src/strings.h:273-281 | the loop over the characters, signed ones included, computes the hash, on an int that wraps |
| Registry.SignedByte | src/strings.h:273-281 | a byte above 127, which comes in negative |
| Registry.CaseHashSign | src/strings.h:273-281 | the final abs: the hash is negative only as the smallest int |
| Registry.LookupScansAll | src/taskqueue.c:271-276 | the hashed lookup sees what a scan of all buckets would see |
| Registry.LookupExact | src/taskqueue.c:272-276 | a name is found exactly if a live queue has it up to case; that queue gains one reference and nothing else changes |
| Registry.GetKeeps | src/taskqueue.c:260-326 | get stays inside the bucket array exactly if it creates nothing or the hash of the name can be linked; then it returns the live queue of that name with one holder more, or a new one, or NULL when told to create none, keeps the invariant and destroys nothing |
| Registry.UnlinkableName | src/obj.c:336-346 | a name whose hash is the smallest int, for which the index is -2 |
| Registry.UnreferenceKeeps | src/taskqueue.c:328-339 | unreference removes one holder and keeps the invariant: linked while held, counter one above the holders; the queue that is linked again has a hash that can be linked |
| Registry.UnreferenceDestroys | src/taskqueue.c:333-335 | the destructor runs exactly for the queue that lost its last holder |
| Registry.EveryRun | src/taskqueue.c:260-339 | after every run of get and unreference that stays inside the bucket array: one live queue per case-insensitive name, linked exactly while held, counter holders plus one, destroyed once otherwise |
| RegistryObject.Singletons.Find | src/taskqueue.c:272-272 | the container object's search gives that lookup |
| RegistryObject.Singletons.Get | src/taskqueue.c:260-326 | a get that stays inside the bucket array, on the objects: container, counters and names afterwards |
| RegistryObject.Singletons.Unreference | src/taskqueue.c:328-339 | unlink, drop, and link again if others hold it |
| CommentStrip.ScanIsFilter | src/config.c:822-870 | the loop with its cuts and moves leaves exactly the text that one pass over the characters shows, for every depth; it hangs exactly when that pass meets a start at the limit, and leaves `nest` exactly when it meets one below depth 0 |
| CommentStrip.FilterIsNested | src/config.c:826-857 | text is shown exactly at nesting depth 0, with that depth coming out, if and only if no comment end is met outside comments |
| CommentStrip.LinesAreNested | src/config.c:807-870 | for every sequence of lines: the loop leaves what the recursive specification carrying the depth leaves, line by line, and fails to end where that exceeds the limit, if and only if no comment end strays |
| CommentStrip.FewStartsEnd | src/config.c:828-835 | a line with no more comment starts than the limit leaves never hangs, and stays inside `nest` if no end strays |
| CommentStrip.ScanFits | src/config.c:822-870 | the scan of a line ends inside `nest` exactly if every start is met at a depth from 0 up to the limit |
| CommentStrip.LimitHangs | src/config.c:828-835 | at a start at the limit any number of turns of the loop leaves the buffer, the output place and the depth as they were, and the loop running |
| CommentStrip.ScanIsLoop | src/config.c:822-870 | the turns of the loop and the scanning function agree: it is still running after any number of turns exactly if the scan hangs, and else comes within as many turns as there are characters to its end, with the depth and text of the scan, or to a write outside `nest` |
| CommentStrip.TurnKeepsScan | src/config.c:822-869 | a turn inside `nest` changes nothing about what the scan gives; at the limit it changes nothing at all, elsewhere it uses characters up |
| CommentStrip.NegativeStays | src/config.c:836-857 | below depth 0 nothing brings the text back: without a start the depth stays below 0, and a start leaves `nest` |
| CommentStrip.StrayEndHidesFile | src/config.c:807-870 | after a stray end no later line yields text, or one of them leaves `nest`; without starts none does |
| CommentStrip.StrayEndExample | src/config.c:839-842 | two lines for which this happens |
| CommentStrip.StartAfterStray | src/config.c:829-832 | two lines of which the second writes `nest[-1]` |
| CommentStrip.OrdinaryLine | src/config.c:816-822 | a line without a semicolon is text exactly at depth 0 |
| CommentStrip.EscapedLine | src/config.c:823-825 | a line whose semicolons are all escaped is text from end to end |
| CommentStrip.RenderedIsStripped | src/config.c:822-870 | a line written with comments, nested up to the limit, is stripped to its outer texts |
| CommentStrip.LoneSemicolon | src/config.c:858-869 | a semicolon not behind a backslash or two dashes and not in front of exactly two ends the line |
| CommentStrip.StripLine | src/config.c:816-870 | the loop in place on the buffer, for every line whose scan ends inside `nest`: the new depth and the string at process_buf are those of the scanning function |
| CommentStrip.Step | src/config.c:822-869 | one turn of the loop in place, on buffer and `nest`, in all its branches, the one at the limit included |
| CommentStrip.Resume | src/config.c:844-854 | what is left of the line is moved over the cut |
| ConfigText.LoadSave | src/config.c:911-1025 | loading what was saved gives the same sections in order, duplicates included, with their template flags and each variable's name, value and kind |
| ConfigText.ReadHeader | src/config.c:568-632 | a printed header line starts a new section with its name and template flag |
| ConfigText.ReadVar | src/config.c:706-745 | a printed variable line comes back as that variable, with either sign |
| ConfigText.AnyVariable | src/config.c:706-745 | any variable line: what stands before the first equal sign and behind it, or behind the greater sign that follows, without the blanks around |
| ConfigText.OtherLines | src/config.c:568-747 | directives and lines without an equal sign change nothing; a variable before the first section and a header without its closing bracket are errors |
| ConfigText.UnclosedOptions | src/config.c:598-602 | so are options without their closing parenthesis |
| ConfigText.ChunksAre | src/config.c:807-809 | what is read is the file, line by line, a long line in pieces |
| ConfigText.FormatIs | src/config.c:937-1025 | the signs of the format |
| ConfigText.HeaderInherits | src/config.c:619-632 | a header that names another section starts with that section's variables, or fails if there is none |
| ConfigText.HeaderCreates | src/config.c:568-632 | a header with any options but `+`: a new section, its name cut to 79 characters, a template if one says so, with the variables of all sections named, in that order; it fails exactly if one is missing |
| ConfigText.HeaderExtends | src/config.c:603-632 | a header with `+` goes on with the section of that name, with the variables of all sections named, and fails exactly if one is missing |
| ConfigText.HeaderIgnores | src/config.c:573-577 | what follows the bracket counts only if it begins with a parenthesis |
| ConfigText.HeaderIgnoresBehind | src/config.c:598-602 | and only up to the closing one |
| ConfigText.LoadNests | src/config.c:807-892 | a file that loads has no stray comment end, and a load that leaves `nest` has met one |
| ConfigText.BelowZeroIsOutside | src/config.c:826-892 | once the depth is below 0 the load leaves `nest`, at the end of the file if not before |
| ConfigText.ClonedKeeps | src/config.c:211-221 | inherited variables are copies exactly if none was of the object kind |
| ConfigText.SelfInheritance | src/config.c:376-385 | the walk over the variables is going on after any number of turns exactly when a section with variables is added to and inherits from itself, and exactly then the reader hangs; else it ends after the variables of the base with the section of the reader function |
| ConfigText.OwnWalkGoesOn | src/config.c:376-385 | a walk over the chain it appends to never comes nearer its end |
| ConfigText.WalkCopies | src/config.c:376-385 | a walk over another chain ends with its variables appended as copies |
| ConfigReader.StrChr | src/config.c:573-577 | the first place of a character in the string, or none |
| ConfigReader.ParseVariable | src/config.c:713-725 | cutting at the equal sign and stripping both sides in place gives name, value and kind |
| ConfigReader.ParseHeader | src/config.c:568-602 | cutting at the brackets in place gives name and options |
| ConfigReader.NextOption | src/config.c:603-603 | the next option is cut off at its comma |
| ConfigReader.Config.SectionGet | src/config.c:240-255 | the first section of that name up to case, templates included |
| ConfigReader.Config.ApplyOption | src/config.c:604-628 | `!`, `+` and inheritance on the sections |
| ConfigReader.Config.ProcessTextLine | src/config.c:557-747 | a line changes the configuration as the parser function says, or is an error |
| ConfigReader.Fgets | src/config.c:807-809 | the next chunk of the file in the buffer, at most 8191 characters |
| ConfigReader.LoadText | src/config.c:807-892 | chunk by chunk, comments and blanks stripped in place, the file becomes the configuration the reader function gives, and every access to `nest` lies inside it |
| ConfigReader.SaveText | src/config.c:937-1025 | the writer's loops produce the text of the printer function |
| Sections.Section.Append | src/config.c:144-155 | the chain is hung behind `last`; what followed there is lost |
| Sections.Section.Delete | src/config.c:397-445 | the named variable, or all that match, go; the result tells whether any did; a tidy `last` stays tidy |
| Sections.Section.Update | src/config.c:448-484 | the first match is replaced by the new name and value, keeping its kind if that is the object kind, else the variable is added; a tidy `last` stays tidy exactly if there was a match |
| Sections.AppendKeepsAll | src/config.c:148-154 | an append keeps the whole chain exactly when `last` is its end |
| Sections.UpdateThenAppend | src/config.c:478-483 | an added variable is lost by the next append |
| Sections.SurvivorsAre | src/config.c:423-443 | what a deletion leaves are exactly the variables that do not match |
| Sections.SurvivorsJoin | src/config.c:423-443 | in their order and number: every part of the chain is treated by itself |
| Sections.MatchesIs | src/config.c:423-456 | a variable matches by its name, and by its value if one is asked for, but for the case of letters |
| IoTable.ShrinkKeeps | src/io.c:169-194 | compaction keeps exactly the in-use slots, each id leads to the same descriptor, events, callback and data, and the ids keep their order |
| IoTable.AddKeeps | src/io.c:117-150 | a new id leads to the new entry; every other id is unaffected |
| IoTable.ChangeKeeps | src/io.c:152-167 | the descriptor, callback, events and data given become those of that id, what is not given stays, and no other id is touched |
| IoTable.RemoveKeeps | src/io.c:196-220 | removal succeeds exactly for an id in use, and leaves what every other id stands for; compaction waits for a running callback |
| IoTable.OperationsKeep | doc/io.txt:8-18 | every operation keeps each in-use slot's cell holding its index, with no holes unless a callback runs |
| IoTable.AddAsWrittenIsLost | src/io.c:145-149 | without the increment the next addition overwrites the entry |
| IoTable.ServeTracks | src/io.c:237-243 | while a callback runs, additions, changes and removals leave the polled slots where they were |
| IoTable.ServeAdds | src/io.c:117-150 | an addition during a round goes behind all slots, with a new id and the fields given |
| IoTable.TurnTracks | src/io.c:240-250 | one turn takes away exactly the ids its callback removed or refused to keep |
| IoTable.DispatchExact | src/io.c:236-251 | a polled slot is called exactly if it was pending and no earlier call took its id away |
| IoTable.DispatchRight | src/io.c:242-249 | what the calls of the dispatch loop are made with |
| IoTable.WaitRound | src/io.c:227-258 | one wait, whatever the callbacks do: calls in index order, at most one per slot, exactly the pending slots not removed before their turn, none added during the round; each with its id, the events poll reported for it, and the callback, descriptor and data as the calls before it have left them; and the table compact afterwards |
| IoTable.CurrentIsReset | src/io.c:242-249 | every wait resets `current_ioc`, whatever is ready and whatever the callbacks do, exactly if every entry has a callback |
| IoTable.NullStays | src/io.c:240-249 | an event for one entry without a callback leaves `current_ioc` at its index |
| IoTable.NullCallbackLeavesHole | src/io.c:242-249 | an entry without a callback after which a removal leaves a hole |
| IoTable.EveryRun | doc/io.txt:8-18 | over every run of additions with a callback, changes, removals and waits, whatever poll reports and the callbacks do: after each operation the table is compact, every id leads to its slot, and no callback is marked as running |
| IoObject.IoContext.Grow | src/io.c:83-109 | growing keeps what is stored |
| IoObject.IoContext.Add | src/io.c:117-150 | the arrays after an addition |
| IoObject.IoContext.Change | src/io.c:152-167 | the arrays after a change |
| IoObject.IoContext.Shrink | src/io.c:169-194 | the in-place loop computes the compaction |
| IoObject.IoContext.Remove | src/io.c:196-220 | the search, the freed id and the deferred compaction |
| IoObject.IoContext.Dispatch | src/io.c:236-251 | the loop makes the calls of the dispatch function and leaves its table |
| IoObject.IoContext.Wait | src/io.c:227-258 | poll, dispatch and compaction in place |
| Times.FixExact | src/utils.c:108-121 | normalising keeps the instant exactly when the microseconds are not negative |
| Times.AddExact | src/utils.c:123-135 | addition is exact on normal times |
| Times.SubExact | src/utils.c:137-149 | subtraction is exact on normal times |
| Times.CmpExact | src/times.h:100-112 | comparison is comparison of instants |
| Times.DiffMsFloors | src/times.h:65-74 | the millisecond difference is the floor of the exact one, for negative ones too |
| Times.DiffSecTruncates | src/times.h:36-45 | the second difference is the exact one truncated toward zero |
| Times.Samp2TvExact | src/times.h:137-140 | when the rate divides a million, the duration is exact |
| Times.DelayExact | src/scheduler.c:180-180 | a delay in milliseconds becomes exactly that duration, read as unsigned |
| Scheduler.InsertSplit | src/scheduler.c:152-166 | an event goes behind all that are due no later and in front of all others |
| Scheduler.SetTimeBounds | src/scheduler.c:175-186 | a due time is never before the clock reading, and is the old one plus the delay unless that has passed |
| Scheduler.AddKeeps | src/scheduler.c:191-226 | adding keeps the queue sorted, ids distinct, and queue and cache disjoint |
| Scheduler.DelKeeps | src/scheduler.c:239-261 | so does deleting |
| Scheduler.ReleaseKeeps | src/scheduler.c:111-123 | the cache takes a structure back only below 128 |
| SchedulerRuns.RoundSettles | src/scheduler.c:303-342 | an event that has run: with a result it stands in the queue again, changed in its due time alone, which is the old one plus the result if it has its flag and plus its delay otherwise, and not before the clock reading; without one it is gone and its structure is free |
| SchedulerRuns.TurnSettles | src/scheduler.c:303-342 | the same with separate clock readings |
| SchedulerRuns.SettleIs | src/scheduler.c:329-340 | the same, from any state in which the event is in hand |
| SchedulerRuns.AddPuts | src/scheduler.c:191-226 | an addition puts one event in, with a new id and the flag, delay and data given, due when the delay has passed; a delay of zero adds nothing |
| SchedulerRuns.RequestsAre | src/scheduler.c:191-261 | what a callback asks for while it runs: a deletion takes the named event and no other, an addition puts one in |
| SchedulerRuns.RoundKeeps | src/scheduler.c:303-342 | one turn of runall keeps the invariant and makes the queue lighter |
| SchedulerRuns.RunAllBounded | src/scheduler.c:293-345 | at a fixed clock runall ends whatever callbacks add or delete: no event runs more than twice, none added during the call runs, and nothing is due afterwards |
| SchedulerRuns.OverdueRunsTwice | src/scheduler.c:329-337 | two is reached |
| SchedulerRuns.WaitIsLeast | src/scheduler.c:129-145 | the wait is the least number of milliseconds after which runall runs the head, exactly when the difference fits an int |
| SchedulerRuns.WaitOnEmpty | src/scheduler.c:129-145 | the wait is -1 exactly if nothing is scheduled |
| SchedulerRuns.NegativeDelayWaitsZero | src/scheduler.c:138-140 | a negative delay gives a wait of zero for an event far away |
| SchedulerRuns.SentIsLength | src/scheduler.c:168-168 | the queue counter is the queue length exactly when the missed insertions are a multiple of 2^32 |
| SchedulerRuns.DelIsExact | src/scheduler.c:239-261 | deletion removes the named event and no other, and fails exactly if there is none |
| SchedulerRuns.EveryRun | src/scheduler.c:95-345 | over every run, whatever the clock shows each time it is read, within one call of runall too: the queue is sorted, ids are distinct, every structure has one place |
| SchedulerRuns.TurnKeeps | src/scheduler.c:303-342 | one turn of runall keeps the invariant with separate clock readings for the due test, for each request of the callback and for the rescheduling |
| SchedulerRuns.StandingStill | src/scheduler.c:293-345 | a call of runall at a fixed clock is a run of such turns |
| SchedulerObject.SchedContext.AllocStruct | src/scheduler.c:95-109 | a structure from the cache, else a new one |
| SchedulerObject.SchedContext.ReleaseStruct | src/scheduler.c:111-123 | back into the cache, up to its limit |
| SchedulerObject.SchedContext.AddScheduler | src/scheduler.c:152-169 | the traversal inserts as the sorted insertion says |
| SchedulerObject.SchedContext.AddFlag | src/scheduler.c:191-226 | the context after an addition, or -1 for a zero delay |
| SchedulerObject.SchedContext.Delete | src/scheduler.c:239-261 | the context after a deletion |
| SchedulerObject.SchedContext.Wait | src/scheduler.c:129-145 | the wait of the context |
| SchedulerObject.SchedContext.RunHead | src/scheduler.c:309-340 | one turn of runall on the context |
| SchedulerObject.SchedContext.RunAll | src/scheduler.c:293-345 | the loop ends, and its calls and final state are those of the run |
| LinkedLists.List.InsertHead | src/linkedlist.h:693-698 | the entry is the first |
| LinkedLists.List.InsertTail | src/linkedlist.h:713-721 | the entry is the last |
| LinkedLists.List.InsertAfter | src/linkedlist.h:677-682 | the entry is right behind the given one |
| LinkedLists.List.InsertSortAlpha | src/linkedlist.h:733-751 | the entry goes before the first that is not smaller, whatever its own next pointer held; only one that comes last must lead nowhere; a sorted list stays a sorted permutation |
| LinkedLists.List.AppendList | src/linkedlist.h:765-778 | all entries move to the end and the other list is empty |
| LinkedLists.List.InsertListAfter | src/linkedlist.h:794-802 | all entries move behind the given one |
| LinkedLists.List.RemoveHead | src/linkedlist.h:815-824 | the first entry, taken out, or NULL |
| LinkedLists.List.Remove | src/linkedlist.h:836-856 | exactly the given entry goes; NULL exactly if it is not in the list |
| LinkedLists.InsertSorted | src/linkedlist.h:739-749 | insertion before the first that is not smaller keeps a list sorted |
| LinkedLists.CompareTransitive | src/linkedlist.h:739-739 | the order that sorting relies on is transitive |
| LinkedLists.LessIs | src/linkedlist.h:739-739 | it is dictionary order |
| ListTraversal.Cursor.RemoveCurrent | src/linkedlist.h:552-560 | the current entry goes, the others stay in order, and the traversal can go on |
| ListTraversal.Cursor.InsertBeforeCurrent | src/linkedlist.h:580-589 | the new entry comes right before the current one, or, after its removal, before what is ahead; the list is valid afterwards exactly if the current entry was there or an entry is ahead |
| ListTraversal.Cursor.Step | src/linkedlist.h:508-513 | the traversal moves to the next entry, whatever was done to the current one |
| ListTraversal.RemoveAll | src/linkedlist.h:503-560 | removing any subset during a traversal visits every entry once, in order, and leaves the complement in order |
| ListTraversal.WithoutIsComplement | src/linkedlist.h:552-560 | what is left is the complement |
| ListTraversal.LateInsertLosesLast | src/linkedlist.h:580-589 | after an insertion behind a removal with nothing ahead, no sequence of entries fits the list's pointers |
| ListTraversal.LateInsertIsDropped | src/linkedlist.h:552-589 | with an entry ahead, the next step makes it current behind an outdated previous entry, and its removal drops the inserted one too |
| Strings.StripIs | src/strings.c:91-98 | stripping takes blanks off both ends and nothing else, and is determined by that |
| Strings.CaseEqIs | src/config.c:240-255 | two names count as equal exactly if they are as long as each other and differ in nothing but the case of letters |
| Strings.StripSplits | src/strings.c:56-98 | the result has no blank at either end, and only blanks were taken |
| Strings.StripInPlace | src/strings.c:56-98 | the pointer moves past leading blanks, NULs overwrite trailing ones, nothing outside the string changes |
| Strings.StrJoin | src/strings.c:178-195 | as much of the words with blanks between as fits, NUL-terminated |
| Strings.JoinJoin | src/strings.c:178-195 | two lists of words are joined with one blank between them |
| Cli.ParseJoin | src/cli.c:372-435 | splitting a join gives the words back exactly when a slot is to spare or the word in the last usable slot has one character |
| Cli.ParseLine | src/cli.c:392-424 | words of any characters, each written bare, in quotes, or with backslashes, with any blanks and tabs between them and at the ends, are read back as they are, up to max - 2 of them; trailing blanks are reported |
| Cli.ParseQuoted | src/cli.c:397-424 | in quotes every word comes back, blanks, quotes, backslashes and the empty one included |
| Cli.RunSpelled | src/cli.c:397-424 | one word, however it is written; a backslash outside quotes makes the next blank part of the word |
| Cli.RunJoined | src/cli.c:392-424 | what comes out otherwise: the word in the last slot keeps its first character |
| Cli.ParseJoinBuffer | src/strings.c:178-195 | through a buffer that the join fits, up to max - 2 words come back |
| Cli.LastSlotTruncates | src/cli.c:393-396 | three words of which the last is cut |
| Cli.ArgcBelowMax | src/cli.c:393-396 | the number of arguments stays below max, on every input |
| Cli.ParseArgs | src/cli.c:372-435 | the copy and the slots hold the words, the write cursor never passes the read position, and the list ends in NULL |

## Left out

- Sockets, epoll and poll calls, the TCP engine, tinyhttp, daemon and console code: operating-system plumbing; poll appears as an arbitrary choice of pending events.
- `src/internal_db.c`, whose behaviour lies in SQLite; `src/tinyNet/stun.c`; `src/str.c`, `src/str.h` and `src/threadprivdata.c`, whose growth depends on vsnprintf.
- `src/fsm.c`, `src/syslog.c` and the sort and search helpers of `src/spider.c`: would only add easy members.
- Threads and locks below the level of atomic steps, memory exhaustion, logging, and opening, creating and renaming of files; the clock is a parameter.
- Wrap-around of version counters, reference counts and ids: they are unbounded here.
- Containers held in containers: an object that is linked is not itself a container.
- A search callback is a function of the entry it is shown; what it does besides answering is left out.
- Iterators in ContainerWorld are started from the calls that `src/obj.h` provides; the release at `src/obj.c:623` is taken to be of the container.
- Calls of wait, runall or a search from inside their own callbacks.
- TaskQueue.JoinReturns: takes every task to return; a task that needs the registry's lock, held by the destroyer, does not, and TaskQueue.HeldJoinReturns has the exact condition.
- TaskQueue: the statistics field `max_qsize` holds the depth sampled before the wait and can miss a peak; only the number of processed tasks is modelled.
- IoTable.Serve: a change through an id that has already been removed is the caller's error and is ignored.
- IoTable.Wait: the number of ready entries that poll reports is not passed on as a result.
- `src/config.c:190-209`, which returns a variable's name where its value is meant when a section is given.
- Comments kept with sections and variables (`withcomments`), blank-line counts, and line numbers but for those stored in `nest`; which line the warning about an unterminated comment names.
- ConfigText.LoadSave: sections without kept comments; names and values that the line format can carry (one line, trimmed, semicolons only behind a backslash, section names below 80 characters without `]`, variable names without `=` that do not begin like a header or a directive, lines below 8191 characters).
- ConfigText: `#include` and `#exec` lines change nothing, as in the code, where loading is commented out; the messages about them are left out.
- ConfigReader.LoadText: files on which the original never ends (a comment start at the depth limit, self-inheritance) or leaves the array `nest` (a stray comment end) are excluded by its precondition; ConfigText.LoadNests is about the latter.
- ContainerObjects.HashContainer.Callback: searches on which the original never ends are excluded by its precondition; ContainerRounds.RunsForEver is about those.
- ContainerObjects.HashContainer.Link: a hash whose index lies outside the bucket array is excluded by its precondition, as is a get that would link under one; what such a write does is undefined.
- CommentStrip.StripLine: lines on which the original never ends or leaves the array `nest` are excluded by its precondition; CommentStrip.ScanFits says which those are.
- SchedulerObject.SchedContext.RunAll: one clock reading for the whole call, without which it need not end; SchedulerRuns.EveryRun has the separate readings.
- Registry: plain `char` is signed, as on the usual platforms; where it is not, names with bytes above 127 hash differently.
- Registry: thread creation and the name copy always succeed; names are strings of bytes without NUL, lower-cased as in the C locale.
- Cli: `find_cli`, completion and registration of commands.
