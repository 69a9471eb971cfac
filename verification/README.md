# Verified model of the libbase core

This project models the hardest parts of Chromium's libbase (release 76) as it is vendored in the Android port, and proves what they promise. It is plain Dafny 4.11; `dafny verify dfyconfig.toml` checks all of it.

| file | what it models |
|---|---|
| `LazyInstance.dfy` | the race of any number of threads through `GetOrCreateLazyPointer`, one atomic operation a step |
| `AtExit.dfy` | the stack of at-exit managers and the lazy instances registered on it |
| `ObserverList.dfy` | the observer list with tombstones, live, nested, copied and assigned iterators, and compaction |
| `CallbackList.dfy` | the callback list with subscriptions, iterators and the removal callback |
| `SwitchSyntax.dfy`, `ArgvQuoting.dfy` | the shape of a switch; Windows quoting and printing against a decoder of the documented CommandLineToArgvW rules |
| `Basics.dfy` | an option type and one sequence law |
| `Whitespace.dfy`, `CommandLine.dfy` | trimming; the POSIX command line: partition, boundary, last-wins map |
| `FeatureList.dfy` | the feature override parser, its first-registration-wins map and its printer |
| `Barrier.dfy`, `DeferredRunner.dfy`, `CancelableCallback.dfy` | three callback protocols, over every interleaving or trace |
| `Words.dfy`, `Bits.dfy`, `BigEndian.dfy`, `Guid.dfy`, `Base64Url.dfy` | word arithmetic and codecs |

## How the model is built

Where the code changes an object step by step, the model is a class with the same fields, and each method's postcondition ties the new state to a step function of the old one (`View() == Removed(old(View()), obs)`). The theorems are about those step functions: invariants of every operation, then of every run, then what a whole run means. Loops are loops, proved against a function that says what they compute.

Where several threads take part, the model is a transition system with one program counter per thread, each atomic operation or each section under the lock's protection being a step, and a run is any schedule. Memory is sequentially consistent.

Integers are unbounded; machine words are numbers below 2^w, and each wrap-around, cut or sign extension that the code relies on is written out. A closure, a callback or an observer is an identity, 0 or `Null` standing for a null one. Failed debug checks are outcomes (`CheckFailed`, `passed == false`, a `Failure`), not preconditions, unless the code's own callers must rule them out. Random bytes, the target runner's answers, the values creators return and a map's iteration order are parameters.

Assumptions of the concurrency models, from the code's own comments: a creator returns a value with a bit outside the creating mark and does not re-enter its own instance (exactly when the check can fail without this: `CheckFiresIff`); a callback run at exit does not register another; the removal callback of a callback list does not change that list.

Where code and text disagree the model follows the code. The unit test's comment at `callback_list_unittest.cc:282-284` says that a callback added during a notification runs in that notification; this fails when it is added by the callback of the last node, because the iterator has already moved to the fixed end (`AddJoinsQueue`; a run: `SecondCallbackIsSkipped`). The comment on rounding up does not mention that the sum may wrap, in which case the result is 0 (`AlignIsLeastIff`; a word of every width: `AlignCanWrap`). Parsing an argv twice is not always the same as parsing it once: the exact condition is `FixedPoint`, and `ParsingAgainDiffers` gives an argv.

The partners of the main results are independent definitions, so that no result is stated only through the functions it is about: the decoder `ToArgs` and conditions on characters for quoting, the spelling of a switch for the command line, a plain sequence for the observer list, a per-walk history for iterators, a ledger of notifications for the removal callback, the pieces of each list for features, the events of a trace for cancelable callbacks, the recorded builds for lazy instances, 24-bit groups for base64url, base-256 and base-16 numerals for the other codecs, and the bit-by-bit meaning of the word operators.

## Model

| member | source | states |
|---|---|---|
| `LazyInstance.RaceIsSafe` | app/src/main/cpp/chromium/src/base/lazy_instance_helpers.h:58-95 | For any set of threads and any interleaving of their atomic steps, with creators that return an instance: at most one thread is between the winning compare-and-swap and the release store; there is at most one construction, one publication and one destructor registration; every returned value is that one instance, published before the return; the loser's debug check never fires. |
| `LazyInstance.RegistersExactlyOnce` | app/src/main/cpp/chromium/src/base/lazy_instance_helpers.cc:58-60 | In every run: without a destructor nothing is registered; with one, it is registered exactly once as soon as the thread that published the instance is past that step. |
| `LazyInstance.InstancesComeFromCreators` | app/src/main/cpp/chromium/src/base/lazy_instance_helpers.h:80-85 | In every run what is constructed is the value that the creator returned to the thread that ran it. |
| `LazyInstance.FastPath` | app/src/main/cpp/chromium/src/base/lazy_instance_helpers.h:66-94 | Once the instance is published, a call returns it with its first load. |
| `LazyInstance.RunKeepsInv` | app/src/main/cpp/chromium/src/base/lazy_instance_helpers.cc:14-61 | Every reachable state is one of three: nobody has claimed the word, exactly one thread holds it and nobody has an answer, or the one instance is published and every later event is about it. |
| `LazyInstance.ActKeepsInv` | app/src/main/cpp/chromium/src/base/lazy_instance_helpers.cc:14-61 | Each single atomic step (load, compare-and-swap, spin load, reload, construct, release store, register) keeps that three-way invariant. |
| `LazyInstance.CheckFiresIff` | app/src/main/cpp/chromium/src/base/lazy_instance_helpers.h:39-95 | Exactly when the debug check can fail: some schedule trips it iff there are at least two threads and a creator may return 0, for every set of threads and every set of values creators may return. |
| `LazyInstance.NullCreatorTripsTheCheck` | app/src/main/cpp/chromium/src/base/lazy_instance_helpers.h:43-48 | For any two threads, a run in which the creator of one returns null takes the word back to 0 and the other, waiting, fails the check. |
| `LazyInstance.FairSchedulesReturn` | app/src/main/cpp/chromium/src/base/lazy_instance_helpers.cc:26-46 | From every reachable state and for every order of the steps: after rounds in which each thread gets a turn, 6 times as many as there are threads, every call that was in progress has returned. |
| `LazyInstance.EveryCallCanReturn` | app/src/main/cpp/chromium/src/base/lazy_instance_helpers.cc:26-46 | No reachable state is a deadlock: from each there is a continuation after which no call is in progress. |
| `LazyInstance.SomeoneCanMove` | app/src/main/cpp/chromium/src/base/lazy_instance_helpers.cc:26-46 | While a call is unfinished some thread has a step that is not a wait and brings it nearer to its return. |
| `AtExit.RunIsSound` | app/src/main/cpp/chromium/src/base/at_exit.cc:27-102 | At every point of every run with managers enabled and alive when an at-exit instance is accessed: such an instance is created iff exactly one OnExit for it is pending on the stack of managers; builds and destructions of each instance alternate, and its word is the value of its last build with no OnExit since, or 0; every registration is pending or has run exactly once; callbacks run in reverse registration order across shadowed managers. |
| `AtExit.AccessAnswers` | app/src/main/cpp/chromium/src/base/lazy_instance_helpers.h:73-94 | After every such run, an access finds the value of the build that is still alive, or stores exactly what the creator makes; no other instance is touched. |
| `AtExit.WordLastsUntilExit` | app/src/main/cpp/chromium/src/base/lazy_instance.h:151-205 | Between its build and its OnExit an instance keeps its word whatever else is done, so that every access in between answers the same. |
| `AtExit.ProcessRunsTheTop` | app/src/main/cpp/chromium/src/base/at_exit.cc:69-94 | Processing runs the top manager's callbacks, last registered first, and leaves every shadowed manager as it was. |
| `AtExit.LeavingRunsTheTop` | app/src/main/cpp/chromium/src/base/at_exit.cc:36-46 | Leaving a manager does so first and then removes it; when managers are disabled its callbacks never run. |
| `AtExit.NothingOutlivesTheManagers` | app/src/main/cpp/chromium/src/base/at_exit.cc:36-46 | When the last manager is gone every at-exit instance is destroyed and every registration has run; a new manager and an access build the instance afresh. |
| `AtExit.RunKeepsInv` | app/src/main/cpp/chromium/src/base/lazy_instance.h:151-205 | The invariant behind it (order, OnExit matching, history, conservation, reverse order) holds after every run. |
| `AtExit.ApplyKeepsInv` | app/src/main/cpp/chromium/src/base/at_exit.cc:27-102 | Entering and leaving a manager, registering, processing and accessing each keep it. |
| `AtExit.DrainKeepsInv` | app/src/main/cpp/chromium/src/base/at_exit.cc:91-94 | Running any number of callbacks from the top of the stack keeps it. |
| `AtExit.Globals.EnterManager` | app/src/main/cpp/chromium/src/base/at_exit.cc:27-34 | The new manager is on top of the chain, empty; the others are untouched. |
| `AtExit.Globals.RegisterTask` | app/src/main/cpp/chromium/src/base/at_exit.cc:55-66 | The task is pushed on the top manager's stack, every other stack staying as it is, or dropped when there is no manager. |
| `AtExit.Globals.RunTask` | app/src/main/cpp/chromium/src/base/lazy_instance.h:200-205 | OnExit resets the instance's word to 0; other tasks change no word. |
| `AtExit.Globals.ProcessCallbacksNow` | app/src/main/cpp/chromium/src/base/at_exit.cc:69-102 | The loop runs the swapped-out stack from its top down, leaving every other manager alone. |
| `AtExit.Globals.LeaveManager` | app/src/main/cpp/chromium/src/base/at_exit.cc:36-46 | Processes unless disabled, then the shadowed manager is on top again. |
| `AtExit.Globals.Pointer` | app/src/main/cpp/chromium/src/base/lazy_instance.h:151-160 | Returns the existing instance, or builds, publishes and registers a new one; the value returned is the value stored, and no other word changes. |
| `ObserverLists.RunRefinesSequence` | app/src/main/cpp/chromium/src/base/observer_list.h:268-330 | After every run of adds, removes, clears and iterator creations, advances, copies, assignments and destructions, the list seen through its tombstones is what the operations mean for a plain duplicate-free sequence, and tombstones exist only while an iterator is live. |
| `ObserverLists.RefinesSequence` | app/src/main/cpp/chromium/src/base/observer_list.h:138-163 | Each operation acts on the seen list as on a sequence; iterator operations, with the compaction they cause, do not change it. |
| `ObserverLists.WalkVisitsExactly` | app/src/main/cpp/chromium/src/base/observer_list.h:125-178 | Whatever else happens during a walk, it visits in insertion order and once each exactly the registrations it owes and that were not removed before their turn; under EXISTING_ONLY it owes those present at its start, under ALL also every one numbered since; what it owes and has not visited is still in the list, or was removed. |
| `ObserverLists.ApplyKeepsWalk` | app/src/main/cpp/chromium/src/base/observer_list.h:208-221 | Each operation other than ending this iterator keeps the walk's invariant: visited and what lies ahead make up what is due. |
| `ObserverLists.CopyCarriesWalk` | app/src/main/cpp/chromium/src/base/observer_list.h:143-163 | A copied or assigned iterator carries on the walk it was taken from. |
| `ObserverLists.BeginStartsWalk` | app/src/main/cpp/chromium/src/base/observer_list.h:125-136 | A fresh iterator starts a walk that owes what is in the list, standing on the first live entry. |
| `ObserverLists.ApplyKeepsInv` | app/src/main/cpp/chromium/src/base/observer_list.h:324-330 | Every operation keeps insertion order, distinct live observers, iterators within bounds, and no tombstone without an iterator. |
| `ObserverLists.ObserverList.HasObserver` | app/src/main/cpp/chromium/src/base/observer_list.h:296-305 | True iff the observer is in the seen list. |
| `ObserverLists.ObserverList.AddObserver` | app/src/main/cpp/chromium/src/base/observer_list.h:268-275 | Appends unless the observer is in the list. |
| `ObserverLists.ObserverList.RemoveObserver` | app/src/main/cpp/chromium/src/base/observer_list.h:279-293 | Erases the entry, or marks it while an iterator is live. |
| `ObserverLists.ObserverList.Clear` | app/src/main/cpp/chromium/src/base/observer_list.h:308-316 | Empties the list, or marks every entry while an iterator is live. |
| `ObserverLists.ObserverList.Compact` | app/src/main/cpp/chromium/src/base/observer_list.h:324-330 | Exactly the unmarked entries stay, in order. |
| `ObserverLists.ObserverList.Begin` | app/src/main/cpp/chromium/src/base/observer_list.h:237-240 | An iterator outside any list when empty, else on the first live entry. |
| `ObserverLists.ObserverList.Destroy` | app/src/main/cpp/chromium/src/base/observer_list.h:250-261 | Terminates with no live iterator: each has lost the list and keeps its own fields. |
| `ObserverLists.Iter.Invalidate` | app/src/main/cpp/chromium/src/base/observer_list_internal.h:124-129 | Unlinks this iterator only; the entries do not change. |
| `ObserverLists.Iter.SetList` | app/src/main/cpp/chromium/src/base/observer_list_internal.h:117-122 | The iterator is the last of the list's live ones, others unchanged. |
| `ObserverLists.Iter.At` | app/src/main/cpp/chromium/src/base/observer_list.h:125-136 | The list then has this iterator, on the first live entry, with the limit its policy sets. |
| `ObserverLists.Iter.EnsureValidIndex` | app/src/main/cpp/chromium/src/base/observer_list.h:208-215 | Moves to the first unmarked entry at or after the index, within the limit. |
| `ObserverLists.Iter.Next` | app/src/main/cpp/chromium/src/base/observer_list.h:172-178 | Moves to the next live entry; without a list it changes nothing; at the end of an attached list it goes one beyond the limit, where it is no longer an end iterator. |
| `ObserverLists.Iter.GetCurrent` | app/src/main/cpp/chromium/src/base/observer_list.h:201-206 | The observer of the entry under the iterator, null if it was removed meanwhile. |
| `ObserverLists.Iter.IsEnd` | app/src/main/cpp/chromium/src/base/observer_list.h:221-221 | True iff the list is gone or the index is at the clamped limit. |
| `ObserverLists.Iter.Leave` | app/src/main/cpp/chromium/src/base/observer_list.h:138-141 | The only remaining iterator compacts the list as it goes. |
| `ObserverLists.Iter.Copy` | app/src/main/cpp/chromium/src/base/observer_list.h:143-147 | A second iterator at the same place of the same list. |
| `ObserverLists.Iter.Assign` | app/src/main/cpp/chromium/src/base/observer_list.h:149-163 | Leaves the old list (compacting if last) and joins the other's, also when the lists are the same, and for self-assignment. |
| `CallbackLists.RunKeepsInv` | app/src/main/cpp/chromium/src/base/callback_list.h:98-155 | In every run the active count is the number of live iterators; an undestroyed subscription's node is in the list with its callback; null nodes exist only during a walk; iterators stand on nodes of the list; each registration is in the list or was erased exactly once. |
| `CallbackLists.ApplyKeepsInv` | app/src/main/cpp/chromium/src/base/callback_list.h:169-196 | Each operation keeps it. |
| `CallbackLists.RemovalCallbackRuns` | app/src/main/cpp/chromium/src/base/callback_list.h:181-194 | In every run the removal callback has run once per subscription destroyed outside a walk and once per outermost walk during which one was destroyed, counted without looking at the nodes. |
| `CallbackLists.WalkDelivers` | app/src/main/cpp/chromium/src/base/callback_list.h:219-225 | Whatever is added, dropped, opened, copied and closed meanwhile, an iterator delivers in registration order and once each, only what it is owed: what was ahead of it at first and each callback added while it was not past the last node; all of that which is still subscribed is delivered or still to come; nothing dropped is still to come. |
| `CallbackLists.NotifyDelivers` | app/src/main/cpp/chromium/src/base/callback_list.h:219-225 | A notification from any reachable list, whatever happens during it: callbacks are delivered in registration order and once each, only those subscribed at its start or added since; of those subscribed at its start each has been delivered, is still to come or was dropped, so that at its end none is missing that is still subscribed. |
| `CallbackLists.OpenedHasAll` | app/src/main/cpp/chromium/src/base/callback_list.h:122-126 | A fresh iterator has before it exactly the subscribed callbacks, in registration order. |
| `CallbackLists.CopiedHasSame` | app/src/main/cpp/chromium/src/base/callback_list.h:128-132 | A copy has before it what the iterator it was taken from has. |
| `CallbackLists.NextTakesHead` | app/src/main/cpp/chromium/src/base/callback_list.h:140-150 | GetNext delivers the head of the iterator's queue, which is subscribed, or null when the queue is empty. |
| `CallbackLists.AddJoinsQueue` | app/src/main/cpp/chromium/src/base/callback_list.h:98-104 | A callback added during a walk is delivered by it, except when the iterator already stands past the last node. |
| `CallbackLists.AddedByTheLastIsSkipped` | app/src/main/cpp/chromium/src/base/callback_list.h:140-150 | After any run that leaves an iterator past the last node, a callback added then is subscribed and that iterator has nothing to deliver. |
| `CallbackLists.SecondCallbackIsSkipped` | app/src/main/cpp/chromium/src/base/callback_list.h:219-225 | The shortest case: one callback, delivered, adds a second, which is subscribed and not delivered in this notification. |
| `CallbackLists.DropLeavesQueue` | app/src/main/cpp/chromium/src/base/callback_list.h:186-196 | A subscription destroyed during a walk leaves every iterator's queue, the rest staying in order. |
| `CallbackLists.CallbackList.Add` | app/src/main/cpp/chromium/src/base/callback_list.h:98-104 | Appends a live node and returns its identity. |
| `CallbackLists.CallbackList.OnSubscriptionDestroyed` | app/src/main/cpp/chromium/src/base/callback_list.h:186-196 | Nulls the node during a walk, else erases it and notifies. |
| `CallbackLists.CallbackList.Compact` | app/src/main/cpp/chromium/src/base/callback_list.h:169-183 | Erases exactly the null nodes; notifies iff there were any. |
| `CallbackLists.Iterator.constructor` | app/src/main/cpp/chromium/src/base/callback_list.h:122-126 | Counted in, with exactly the subscribed callbacks before it, in order. |
| `CallbackLists.Iterator.Copy` | app/src/main/cpp/chromium/src/base/callback_list.h:128-132 | Counted in, with before it what the other has. |
| `CallbackLists.Iterator.Leave` | app/src/main/cpp/chromium/src/base/callback_list.h:134-138 | Counted out; the last one compacts. |
| `CallbackLists.Iterator.GetNext` | app/src/main/cpp/chromium/src/base/callback_list.h:140-150 | Returns the head of the queue and steps past it. |
| `ArgvQuoting.PrintedDecodes` | app/src/main/cpp/chromium/src/base/command_line.cc:483-512 | For every token list, said by characters alone: decoding the printed arguments by the CommandLineToArgvW rules gives exactly the list iff every argument is non-empty and has no tab unless it has a space, backslash or double quote (or '%' with placeholders), and every token before the terminator that looks like a switch has no space, tab or double quote in its name, does not end at its first '=', and has a value for which the same holds as for an argument. |
| `ArgvQuoting.EscapedReads` | app/src/main/cpp/chromium/src/base/command_line.cc:121-151 | Key lemma: inside quotes, the escaped text and the closing quote read as exactly the argument, with all runs of backslashes, before a quote and at the end. |
| `ArgvQuoting.QuoteRoundTrip` | app/src/main/cpp/chromium/src/base/command_line.cc:107-152 | One quoted argument decodes to itself iff it is non-empty and has no tab unless something makes it quoted. |
| `ArgvQuoting.QuotedIff` | app/src/main/cpp/chromium/src/base/command_line.cc:111-119 | An argument is printed as it is exactly when it has no space, backslash or double quote nor, with placeholders, a '%'; else it is put between quotes. |
| `ArgvQuoting.TextMeans` | app/src/main/cpp/chromium/src/base/command_line.cc:495-509 | A switch is printed as its name, '=' and its value quoted by itself, losing an '=' that nothing follows; an argument is quoted whole. |
| `ArgvQuoting.JoinLength` | app/src/main/cpp/chromium/src/base/command_line.cc:493-494 | Between the printed texts there is one character, and none around them. |
| `ArgvQuoting.QuotedNameIsLost` | app/src/main/cpp/chromium/src/base/command_line.cc:495-496 | A list with a double quote in a switch name never decodes to itself: the decoded arguments hold strictly less text than the list. |
| `ArgvQuoting.QuoteInNameIsLost` | app/src/main/cpp/chromium/src/base/command_line.cc:495-496 | A concrete such switch and what becomes of it. |
| `ArgvQuoting.TokenReadsBack` | app/src/main/cpp/chromium/src/base/command_line.cc:495-509 | Every printed token, switch or argument, decodes to itself alone iff it meets those conditions. |
| `ArgvQuoting.JoinReads` | app/src/main/cpp/chromium/src/base/command_line.cc:493-494 | Texts that close their quotes decode one after another across the separating blanks. |
| `ArgvQuoting.QuoteForCommandLineToArgvW` | app/src/main/cpp/chromium/src/base/command_line.cc:107-152 | The loop over characters and backslash runs computes the quoted form. |
| `ArgvQuoting.GetArgumentsString` | app/src/main/cpp/chromium/src/base/command_line.cc:483-512 | The printing loop, with its terminator, computes the printed form. |
| `CommandLines.CommandLine.InitFromArgv` | app/src/main/cpp/chromium/src/base/command_line.cc:265-271 | For every argv the line is the parse that the following rows describe. |
| `CommandLines.SwitchMapMeans` | app/src/main/cpp/chromium/src/base/command_line.cc:331-344 | For every argv and every name, by the spelling of the tokens alone: the map has the name iff some token before the terminator is one or two dashes, the name and, if anything, '=' and a value; its value is that of the last such token. |
| `CommandLines.SpellsIff` | app/src/main/cpp/chromium/src/base/command_line.cc:48-73 | The parser takes a token for a switch with a given key and value exactly when it is so spelled, for every token, key and value. |
| `CommandLines.PartsKeepOrder` | app/src/main/cpp/chromium/src/base/command_line.cc:76-103 | The switches are exactly the tokens so spelled before the terminator, and the others exactly the rest, both in their original order, by their positions. |
| `CommandLines.TokensAreTrimmed` | app/src/main/cpp/chromium/src/base/command_line.cc:79-85 | The program and every token are the given strings without their outer whitespace, all of it and nothing else. |
| `CommandLines.ParsedLayout` | app/src/main/cpp/chromium/src/base/command_line.cc:350-351 | The program, then the switches up to the boundary, then the others. |
| `CommandLines.StoredMeans` | app/src/main/cpp/chromium/src/base/command_line.cc:345-349 | A switch is stored as it is, but for an '=' that is its first and its last character. |
| `CommandLines.CommandLine.AppendSwitchesAndArguments` | app/src/main/cpp/chromium/src/base/command_line.cc:76-103 | New switches go before the old arguments, everything else last, for any earlier state. |
| `CommandLines.CommandLine.AppendSwitchNative` | app/src/main/cpp/chromium/src/base/command_line.cc:331-352 | Inserts at the boundary, adds a prefix only if missing, overwrites the key's value. |
| `CommandLines.AppendedSwitchMeans` | app/src/main/cpp/chromium/src/base/command_line.cc:331-352 | A switch given by its bare name, or with either prefix, is stored under the bare name, and put last among the switches with its prefix, two dashes if it had none, and '=' and the value if that is not empty. |
| `CommandLines.CommandLine.AppendArgNative` | app/src/main/cpp/chromium/src/base/command_line.cc:405-407 | Appends one argument. |
| `CommandLines.CommandLine.SetProgram` | app/src/main/cpp/chromium/src/base/command_line.cc:277-285 | Only the first element changes, to the trimmed program. |
| `CommandLines.CommandLine.GetArgs` | app/src/main/cpp/chromium/src/base/command_line.cc:379-388 | The part after the boundary without its first terminator. |
| `CommandLines.FixedPoint` | app/src/main/cpp/chromium/src/base/command_line.cc:265-271 | For every argv, parsing the parsed argv again changes nothing iff every switch token is still a switch, and trimmed, once an '=' that nothing follows is dropped. |
| `CommandLines.ParsingAgainDiffers` | app/src/main/cpp/chromium/src/base/command_line.cc:265-271 | A concrete argv that parsing twice changes: a switch that is only a prefix and an '='. |
| `CommandLines.StoredUnchanged` | app/src/main/cpp/chromium/src/base/command_line.cc:345-351 | The switch tokens are stored as given iff none ends at its first '='. |
| `CommandLines.NothingLost` | app/src/main/cpp/chromium/src/base/command_line.cc:87-101 | Switches and others together are the tokens, as multisets, and each switch is one. |
| `CommandLines.LastWinsKeys` | app/src/main/cpp/chromium/src/base/command_line.cc:340-344 | The map has a key iff some switch has it. |
| `CommandLines.LastWinsMeans` | app/src/main/cpp/chromium/src/base/command_line.cc:340-344 | Each key has the value of its last switch. |
| `CommandLines.OthersAreInert` | app/src/main/cpp/chromium/src/base/command_line.cc:89-90 | Arguments never turn back into switches when parsed again: what looks like one follows a terminator. |
| `CommandLines.ArgsMeaning` | app/src/main/cpp/chromium/src/base/command_line.cc:379-388 | With a terminator: the non-switches before it, then every token after it. |
| `CommandLines.ArgsWithoutTerminator` | app/src/main/cpp/chromium/src/base/command_line.cc:379-388 | Without a terminator: all the non-switches. |
| `SwitchSyntax.NameAndValue` | app/src/main/cpp/chromium/src/base/command_line.cc:68-71 | A switch is its name, or its name, '=' and its value, cut at the first '='. |
| `Whitespace.TrimWhitespace` | app/src/main/cpp/chromium/src/base/strings/string_util.cc:266-299 | The two searches and the cut compute the trimmed string. |
| `Whitespace.TrimCutsSpaces` | app/src/main/cpp/chromium/src/base/strings/string_util.cc:384-388 | Only whitespace is cut, at the two ends. |
| `FeatureLists.PrintedOverridesReadBack` | app/src/main/cpp/chromium/src/base/feature_list.cc:378-417 | For every map, iteration order and trial list: printing all overrides and parsing the two lists restores every name with its state and trial iff every entry prints to a non-empty, comma-free text without outer whitespace, its name has no '<' (nor a leading '*' unless starred), and its trial's name finds that trial. |
| `FeatureLists.FirstRegistrationDecides` | app/src/main/cpp/chromium/src/base/feature_list.cc:88-99 | For any lists, trial registrations and reporting associations: if a piece of the disable list names the feature, the first such piece turns it off, or leaves its default if starred; if none does, the first such piece of the enable list turns it on, or leaves its default; if neither list does, the first such trial decides; with none the default holds; reporting never changes it. |
| `FeatureLists.NamesIff` | app/src/main/cpp/chromium/src/base/feature_list.cc:342-370 | A piece of a list registers a name, as default or with the list's state, exactly when it is the name, after a '*' for default, and then nothing or '<' and anything. |
| `FeatureLists.TextsMembers` | app/src/main/cpp/chromium/src/base/feature_list.cc:389-416 | The disable list prints exactly the disabled entries, the enable list all others, starred ones included. |
| `FeatureLists.CommandLineOnlyPrintsKept` | app/src/main/cpp/chromium/src/base/feature_list.cc:389-394 | With command_line_only the lists are those of the entries that have no trial and are on or off, as if they were the whole map. |
| `FeatureLists.SplitJoined` | app/src/main/cpp/chromium/src/base/strings/string_split.cc:72-102 | Texts without commas, joined by commas, split into their trimmed non-empty selves. |
| `FeatureLists.SplitFeatureListString` | app/src/main/cpp/chromium/src/base/feature_list.cc:217-220 | The splitting loop computes the trimmed non-empty pieces between commas. |
| `FeatureLists.FeatureList.RegisterOverride` | app/src/main/cpp/chromium/src/base/feature_list.cc:358-376 | A leading '*' is cut and means default; an existing entry stays. |
| `FeatureLists.FeatureList.RegisterOverridesFromCommandLine` | app/src/main/cpp/chromium/src/base/feature_list.cc:339-356 | Each piece registered in order, split at its first '<'. |
| `FeatureLists.FeatureList.InitializeFromCommandLine` | app/src/main/cpp/chromium/src/base/feature_list.cc:88-99 | Registers both lists; which of them decides is the row of FirstRegistrationDecides. |
| `FeatureLists.FeatureList.AssociateReportingFieldTrial` | app/src/main/cpp/chromium/src/base/feature_list.cc:129-147 | Adds the trial to that entry only if it has none, changes no state and no other entry. |
| `FeatureLists.FeatureList.IsFeatureEnabled` | app/src/main/cpp/chromium/src/base/feature_list.cc:302-323 | The entry's state, or the default without one or with a default one; changes nothing. |
| `FeatureLists.FeatureList.GetFeatureOverrides` | app/src/main/cpp/chromium/src/base/feature_list.cc:378-417 | The two printed lists, entry by entry in the map's order. |
| `Barriers.RunsOnceOnLast` | app/src/main/cpp/chromium/src/base/barrier_closure.cc:31-35 | For N >= 1, at most N calls and any interleaving of their load and fetch-sub steps: the check never fires, the closure has not run before the N-th decrement, then runs once, by the call that made it; when all calls have returned it has run iff there were N. |
| `Barriers.SafeIffAtMostN` | app/src/main/cpp/chromium/src/base/barrier_closure.cc:31-35 | The check is safe in every interleaving exactly for N calls or fewer. |
| `Barriers.RunKeepsInv` | app/src/main/cpp/chromium/src/base/atomic_ref_count.h:34-55 | In every run the count is N minus the decrements made, each call decrements at most once, and only the N-th may run the closure. |
| `Barriers.ZeroRunsAtOnce` | app/src/main/cpp/chromium/src/base/barrier_closure.cc:39-49 | For N = 0 the closure runs during creation and never again. |
| `Barriers.AtomicRefCount.Decrement` | app/src/main/cpp/chromium/src/base/atomic_ref_count.h:34-40 | One less; true while not yet zero. |
| `Barriers.BarrierInfo.Run` | app/src/main/cpp/chromium/src/base/barrier_closure.cc:31-35 | One call after another: the N-th runs the closure, any later one trips the check. |
| `Barriers.BarrierInfo.constructor` | app/src/main/cpp/chromium/src/base/barrier_closure.cc:39-49 | With N = 0 the closure has run and is gone. |
| `DeferredRunners.TargetReceivesPostsInOrder` | app/src/main/cpp/chromium/src/base/deferred_sequenced_task_runner.cc:37-50 | Over any interleaving of posts and starts from many threads, the lock split from the work: the target has received a prefix of the posts in lock order, nothing before a start; with the lock free, all of them (and the queue is empty) or the queue holds all of them; each thread's posts are there once each, unchanged, in its own order; the empty-queue check never fires. |
| `DeferredRunners.RunKeepsInv` | app/src/main/cpp/chromium/src/base/deferred_sequenced_task_runner.cc:91-124 | The invariant behind it, also in the middle of the flush loop. |
| `DeferredRunners.StepKeepsInv` | app/src/main/cpp/chromium/src/base/deferred_sequenced_task_runner.cc:60-87 | Each step of each thread keeps it. |
| `DeferredRunners.OneStartNeverFails` | app/src/main/cpp/chromium/src/base/deferred_sequenced_task_runner.cc:109-113 | With at most one call to start, the started check never fires. |
| `DeferredRunners.WhichCheckFires` | app/src/main/cpp/chromium/src/base/deferred_sequenced_task_runner.cc:80-113 | In every run, the holder of the lock trips a check exactly in these cases: a null task before the start, a second target, a second start, a start without a target. |
| `DeferredRunners.SecondStartFails` | app/src/main/cpp/chromium/src/base/deferred_sequenced_task_runner.cc:75-87 | In every run, once a start has taken the lock of a started runner: whatever the threads do, the target has been given all the posts and is given nothing more, the queue is empty, and that start's next step fails the check its form runs into. |
| `DeferredRunners.DeferredSequencedTaskRunner.PostTask` | app/src/main/cpp/chromium/src/base/deferred_sequenced_task_runner.cc:37-73 | Started: forwarded, with the target's answer; else kept, unless the task is null. |
| `DeferredRunners.DeferredSequencedTaskRunner.Start` | app/src/main/cpp/chromium/src/base/deferred_sequenced_task_runner.cc:75-87 | Passes its checks iff not started and there is exactly one source of the target runner; then all deferred tasks are with the target. |
| `DeferredRunners.DeferredSequencedTaskRunner.StartImpl` | app/src/main/cpp/chromium/src/base/deferred_sequenced_task_runner.cc:109-124 | The flush loop appends the deferred tasks in order and empties the queue. |
| `CancelableCallbacks.ForwarderReachesIffUnbroken` | app/src/main/cpp/chromium/src/base/cancelable_callback.h:94-127 | After any trace, a forwarder handed out and then anything: running it runs the closure given last before the hand-out iff one was wrapped then and no cancel, reset, destruction or once-run came since; else nothing runs. |
| `CancelableCallbacks.WrappedIsLastGiven` | app/src/main/cpp/chromium/src/base/cancelable_callback.h:67-92 | After every trace, from its events alone: what is wrapped is the closure of the last reset or, before any, of the constructor; nothing is wrapped iff the object was destroyed, or cancelled or run in the once form with no reset since, or made empty and never reset. |
| `CancelableCallbacks.OnceFormRunsAtMostOnce` | app/src/main/cpp/chromium/src/base/cancelable_callback.h:123-127 | In the once form all forwarders together run each wrapped callback at most once, in wrapping order. |
| `CancelableCallbacks.ValidForwarderHasCallback` | app/src/main/cpp/chromium/src/base/cancelable_callback.h:118-127 | In every trace a valid forwarder has a non-null callback; running one fails only if it is null or spent. |
| `CancelableCallbacks.RunKeepsInv` | app/src/main/cpp/chromium/src/base/cancelable_callback.h:75-127 | The invariant behind these over every trace. |
| `CancelableCallbacks.CancelableCallback.Cancel` | app/src/main/cpp/chromium/src/base/cancelable_callback.h:75-78 | Every forwarder handed out so far is invalid, the callback dropped. |
| `CancelableCallbacks.CancelableCallback.Reset` | app/src/main/cpp/chromium/src/base/cancelable_callback.h:87-92 | Cancels, then wraps exactly the closure given; a null one fails the check. |
| `CancelableCallbacks.CancelableCallback.Callback` | app/src/main/cpp/chromium/src/base/cancelable_callback.h:95-101 | A forwarder bound to the current flag, or null when cancelled. |
| `CancelableCallbacks.CancelableCallback.Invoke` | app/src/main/cpp/chromium/src/base/cancelable_callback.h:118-127 | Runs the wrapped callback iff the flag is valid; the once form first invalidates all forwarders and gives the callback up. |
| `CancelableCallbacks.CancelableCallback.InvalidateWeakPtrs` | app/src/main/cpp/chromium/src/base/memory/weak_ptr.cc:76-79 | The old flag is invalid and a fresh valid one is in place. |
| `Base64Url.UrlRoundTrip` | app/src/main/cpp/chromium/src/base/base64url.cc:24-45 | For every byte string and every pair of policies, decoding the encoding returns the string, except that for lengths not a multiple of 3 (include, disallow) and (omit, require) fail. |
| `Base64Url.UrlDecodeAccepts` | app/src/main/cpp/chromium/src/base/base64url.cc:47-99 | Every text, split into characters and trailing pads, is decoded iff its characters are base64url, their number is not one more than a multiple of 4, and the policy gets the pads it wants. |
| `Base64Url.EncodesAsTheRfc` | app/src/main/cpp/chromium/src/base/base64url.cc:24-45 | The encoding of every byte string is what sections 4 and 5 of RFC 4648 say: each group of three bytes as a 24-bit number, its four sextets from the highest in the URL-safe alphabet, as many characters as the bits need, and with padding the '=' that fill up four. |
| `Base64Url.DecodesAsTheRfc` | app/src/main/cpp/chromium/src/third_party/modp_b64/modp_b64.cc:189-251 | Every text that is decoded gives the bytes of its groups of four digits as 24-bit numbers, as many as they fill, surplus bits ignored. |
| `Base64Url.UrlDigitIs` | app/src/main/cpp/chromium/src/base/base64url.cc:88-90 | Each character of the URL-safe alphabet has its place there as its digit. |
| `Base64Url.CharsRoundTrip` | app/src/main/cpp/chromium/src/third_party/modp_b64/modp_b64.cc:80-118 | The characters of any byte string decode to it, with every length of the last group. |
| `Base64Url.Base64UrlEncode` | app/src/main/cpp/chromium/src/base/base64url.cc:24-45 | The in-place replacements and the resize compute the encoding. |
| `Base64Url.Base64UrlDecode` | app/src/main/cpp/chromium/src/base/base64url.cc:47-99 | The policy checks, the copy, the replacements and the padding compute the decoding, or None for false. |
| `Base64Url.Base64Encode` | app/src/main/cpp/chromium/src/third_party/modp_b64/modp_b64.cc:80-118 | The group loop and the padded rest compute base64 (section 4 of RFC 4648). |
| `Words.AndBits` | app/src/main/cpp/chromium/src/base/bits.h:36-36 | The model's conjunction has a bit iff both words have it. |
| `Words.NotBits` | app/src/main/cpp/chromium/src/base/bits.h:42-48 | The model's complement of a word has exactly the bits of its width that the word lacks. |
| `Words.OrBits` | app/src/main/cpp/chromium/src/base/guid.cc:58-64 | The model's disjunction has a bit iff one of the words has it. |
| `Bits.IsPowerOfTwoIff` | app/src/main/cpp/chromium/src/base/bits.h:29-37 | True of exactly the numbers 2^k, for any width and sign. |
| `Bits.AlignDownIsGreatest` | app/src/main/cpp/chromium/src/base/bits.h:46-49 | The greatest multiple of the alignment not above the size, for every word width. |
| `Bits.AlignIsLeastIff` | app/src/main/cpp/chromium/src/base/bits.h:40-43 | The least multiple not below the size when the sum does not wrap; when it does, 0. |
| `Bits.AlignCanWrap` | app/src/main/cpp/chromium/src/base/bits.h:40-43 | At every width the largest word, rounded up to a multiple of 8, gives 0. |
| `Bits.LeadingZerosBound` | app/src/main/cpp/chromium/src/base/bits.h:151-162 | The count c has 2^(bits-c-1) <= value < 2^(bits-c), and is the width at 0. |
| `Bits.HalvesAgree` | app/src/main/cpp/chromium/src/base/bits.h:90-98 | The 64-bit count from two 32-bit scans equals the direct one. |
| `Bits.Log2FloorBounds` | app/src/main/cpp/chromium/src/base/bits.h:194-196 | 2^i <= n < 2^(i+1) for n >= 1, and -1 at 0 through the unsigned wrap. |
| `Bits.Log2CeilingBounds` | app/src/main/cpp/chromium/src/base/bits.h:199-204 | 2^(i-1) < n <= 2^i for n >= 1, and -1 at 0 through the unsigned wrap. |
| `Bits.LogsAgreeIff` | app/src/main/cpp/chromium/src/base/bits.h:194-204 | The two agree iff n is 0 or a power of two. |
| `BigEndian.ReadBack` | app/src/main/cpp/chromium/src/base/big_endian.cc:14-44 | For every list of operations, failing ones included, a reader of the final buffer making the matching operations from the same place succeeds and fails where the writer did, recovers every value, and ends at the same position. |
| `BigEndian.ReadBigEndian` | app/src/main/cpp/chromium/src/base/big_endian.h:22-29 | For every width the value is that of the bytes, though the first may be read as a negative char. |
| `BigEndian.WriteBigEndian` | app/src/main/cpp/chromium/src/base/big_endian.h:34-39 | Exactly the n bytes at the position change, to the value's base-256 digits. |
| `BigEndian.ValueBytes` | app/src/main/cpp/chromium/src/base/big_endian.h:22-50 | The digits of a value that fits read back as it. |
| `BigEndian.BytesAt` | app/src/main/cpp/chromium/src/base/big_endian.h:34-39 | Network order: byte j of n is the value divided by 256^(n-1-j), modulo 256. |
| `BigEndian.BytesValue` | app/src/main/cpp/chromium/src/base/big_endian.h:22-50 | The value of n bytes fits n bytes and has them as digits. |
| `BigEndian.WritesGoForward` | app/src/main/cpp/chromium/src/base/big_endian.cc:65-87 | Writing never changes a byte before the cursor, nor the length. |
| `BigEndian.BigEndianWriter.Write` | app/src/main/cpp/chromium/src/base/big_endian.cc:80-87 | Writes and advances, or changes nothing. |
| `BigEndian.BigEndianWriter.WriteBytes` | app/src/main/cpp/chromium/src/base/big_endian.cc:72-78 | Copies and advances, or changes nothing. |
| `BigEndian.BigEndianWriter.Skip` | app/src/main/cpp/chromium/src/base/big_endian.cc:65-70 | Advances, or changes nothing. |
| `BigEndian.BigEndianReader.Read` | app/src/main/cpp/chromium/src/base/big_endian.cc:37-44 | The value at the position and an advance by the width, or nothing. |
| `BigEndian.BigEndianReader.ReadBytes` | app/src/main/cpp/chromium/src/base/big_endian.cc:21-35 | The bytes at the position and an advance, or nothing. |
| `BigEndian.BigEndianReader.Skip` | app/src/main/cpp/chromium/src/base/big_endian.cc:14-19 | Advances, or nothing. |
| `Guids.StrictIffPrinted` | app/src/main/cpp/chromium/src/base/guid.cc:24-43 | The strings that pass the strict check are exactly the printed ones. |
| `Guids.PrintingIsInjective` | app/src/main/cpp/chromium/src/base/guid.cc:81-88 | The printed string determines both 64-bit words. |
| `Guids.PrintedDigits` | app/src/main/cpp/chromium/src/base/guid.cc:81-88 | Without the dashes the first sixteen digits are the first word in hexadecimal and the last sixteen the second. |
| `Guids.HexCharIs` | app/src/main/cpp/chromium/src/base/guid.cc:18-21 | The hexadecimal digits are the characters 0-9 and then a-f. |
| `Guids.GeneratedForm` | app/src/main/cpp/chromium/src/base/guid.cc:47-67 | Every generated GUID is strictly valid with '4' at index 14 and 8, 9, a or b at index 19. |
| `Guids.SameGuidIff` | app/src/main/cpp/chromium/src/base/guid.cc:53-66 | Two random inputs give the same GUID iff they agree outside the six fixed bits. |
| `Guids.GenerateGUID` | app/src/main/cpp/chromium/src/base/guid.cc:47-67 | The and/or masks replace exactly the version and variant bits. |
| `Guids.IsValidGUIDInternal` | app/src/main/cpp/chromium/src/base/guid.cc:24-43 | True iff the length is 36 and each character is the dash or hex digit its place asks for, in either mode. |
| `Guids.PrintfIsDigits` | app/src/main/cpp/chromium/src/base/guid.cc:81-88 | A field that fits is printed with exactly its width of digits, zeros in front. |

## Left out

- Weak memory ordering, the spin loop's clock and sleeping: steps are sequentially consistent and a waiting thread may stutter.
- Lazy creators that return null on purpose: the code asks their callers for synchronisation of their own.
- `DisableAllAtExitManagers`: the flag is modelled, but the run theorems assume it unset.
- Several threads using the at-exit managers: the model is sequential, as the code's comments ask.
- Runs that go on with an observer-list iterator moved past its end: `Iter.Next` says where it is then; the run theorems are about walkers that stop at the end.
- The checked observer storage, `check_empty`, `allow_reentrancy` and the sequence checkers: further debug checks around the same list.
- Destruction of a callback list with subscriptions alive: they are weak pointers and then do nothing.
- The CommandLineToArgvW call itself, the special rules for the program name, `RemoveSwitch` and `PrependWrapper`: the last two do not keep the argv and the map in agreement; Windows lower-casing of switch names.
- FeatureList shared memory, pickling, the singleton, field-trial internals and the feature identity tracker: they rest on other subsystems; a trial is a name that may be found.
- Integer overflow of the barrier's and the iterators' counters, and of a cursor's position plus length.
- `CountTrailingZeroBits`: adds only an easier member of the same kind.
- The bind and callback templates, weak pointers bound to a sequence, the thread identity of the deferred runner: type-level or platform code.
- The app's JNI, activity, tracing, scheduler and start-up files; logging, paths, environment, CPU probing, native libraries: input and output or platform calls.
