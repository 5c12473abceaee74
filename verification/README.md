# Verified models for V6Chat

V6Chat is a peer-to-peer chat client for Windows. This project models the parts of it
whose behaviour is hardest to see from the code, in Dafny 4.11, and proves properties of
the models. `dafny verify dfyconfig.toml` checks everything.

| file | models |
|---|---|
| `StructuredExceptions.dfy` | what the prose of cexcept.h promises: a statement language with Try/Catch, Catch_anonymous, Throw, calls, loops, Break, Continue and Return, and its big-step meaning |
| `SetjmpMachine.dfy` | the C that the macros expand to, and a machine with a control stack, `penv`, `caught`, `etmp`, jmp_bufs, setjmp and longjmp |
| `CexceptCorrectness.dfy` | the simulation between the two, construct by construct, and the handler chain |
| `CexceptTheorems.dfy` | the results over whole programs, and what goes wrong when a jump leaves a Try clause |
| `CexceptThread.dfy` | the machine in place, as an exception context and a thread whose methods overwrite their fields |
| `RetransmissionPool.dfy` | `WaitACKMsgSender`: the class, with its erase-while-iterating loop, and the fate of each position in a pass |
| `PoolRuns.dfy` | one story for each message over every run: conservation, callbacks, tries, spacing, ids, undefined acknowledgements |
| `PoolFairness.dfy` | how often a message can be skipped, how soon each message leaves, in passes and in real time, and how soon the pool drains |
| `Compositing.dfy` | alpha compositing without a division, and PNG_ROWBYTES |
| `SignedShift.dfy` | RIGHT_SHIFT in both variants, and DESCALE |
| `RecvFileList.dfy` | received files, their numbers, lookups and download flags |
| `IntegerFacts.dfy`, `Options.dfy` | shared facts about quotients, and the Option type |

Every lemma carries `{:induction false}`: each proof by induction is written out.

## Notes on the models

**Exceptions.** The source language evaluates expressions without side effects, except
that the expression of a Catch may be `base[++i]`. A program is a map from names to
bodies; calling a name that is not there does nothing. A function has one parameter and
its own locals; a local that was never assigned reads as 0. The machine runs the macro
bodies piece by piece. A longjmp unwinds the control stack to the block of the jmp_buf;
if that block is no longer live, or its setjmp has not been called, the machine becomes
`Undefined`. A `Platform` chooses everything that C leaves indeterminate at a longjmp:
automatic variables assigned since the setjmp, `exception__prev` if it was assigned since
the setjmp, and also `penv` and `caught`, because the context itself may be an automatic
variable and only `etmp` is volatile (lines 203-207 of cexcept.h). Every result holds for
every platform. `WellFormed` is the header's own rule, read off the text of a program: no
Break, Continue or Return out of a Try clause. The header gives such a jump no meaning,
so its structured outcome is `Forbidden`; a program is `Permitted` if it never makes one,
and every well-formed program is. Break and Continue are the C jumps of the enclosing
loop, which in a Try clause is the hidden `do`. The header's prose says a Throw that is
not caught "may crash"; in the code it is a longjmp through a null `penv`, and the
structured meaning calls it `Thrown` at the top.

**Pool.** The constants are those of `V6ChatDef.h`: 3 tries, -1 for forever, 5 seconds
between passes. Times are true milliseconds; the code sees them modulo 2^32, as it sees
its id counter. AddMsg reads the clock before it sends; a pass reads it once to test an
element and again after sending it, so an `Event` carries all these times. `serial`,
`stampedAt`, the log and the sets of deleted and expired messages are history: no branch
reads them. The readings of a pass are in order. A callback is a log entry.

A callback takes its text as a `const std::string &`, but DeleteMsg passes on a
`const char *` that is null by default, and a std::string made of a null pointer is
undefined. Such a deletion is not `Defined`: `DeleteMsg` then sets the ghost flag
`undefined` and promises nothing more, and a `Valid` run makes none.

Four findings.

- An acknowledgement with a null text is undefined exactly if the oldest message that waits
  with its id has a callback (`NullTextIsUndefined`; `NullTextFails` is an input). The one
  such call, P2PUserInfo.cpp:61, acknowledges a message that has no callback, which is
  defined as long as nothing has waited through 2^32 additions (`NullTextToRecent`).
- The first repetition of a message can follow its first send by less than the interval,
  by as much as AddMsg took between its stamp and its send; every continuation of a run
  keeps the interval if and only if that delay is a multiple of 2^32 ms, in practice 0
  (`FirstGapIsKept`).
- A forever message, whose stamp is never renewed, is not spaced at all
  (`ForeverIsNotSpaced`), and is not sent on every pass either: a pass sends it exactly if
  the message before it does not expire in that pass and the time since AddMsg's stamp,
  modulo 2^32, exceeds the interval (`ForeverSchedule`); so it pauses for one interval at
  every wrap (`ForeverMissesAPass`), and is stepped over behind an expiring message even
  when due (`ForeverMissesItsTurn`).
- The ids of the last 2^32 messages find their own messages if and only if nothing older
  is still waiting (`IdFindsItsMessage`); after 2^32 + 1 additions an acknowledgement for
  the newest can remove the oldest (`OldestHidesNewest`).

**Arithmetic.** Words are integers with the reduction modulo the word size written out.
RIGHT_SHIFT's mask is `32-(shft)` whatever the width of an INT32, which is a `long`; with
more than 32 bits the zero-filling variant is right exactly for numbers of at least -2^32.
`CanShift` asks what C asks: a count below the width, and for the zero-filling variant at
most 32, so that the mask is not shifted by a negative count. Signed overflow in DESCALE
is modelled as wrapping.

**Files.** The std::map is the sequence of its entries in iteration order. The lookups
compare an `int` parameter with an unsigned field, which converts the parameter.

## Model

| member | source | states |
|---|---|---|
| CexceptTheorems.MeaningIsPreserved | kernel/libpng/cexcept.h:211-245 | for every program that makes no forbidden jump, so for every well-formed one, the macro expansion ends with a result (final store, or the value of the escaping exception) if and only if the structured meaning has that result; so it also diverges exactly when the meaning does |
| CexceptTheorems.WellFormedIsPermitted | kernel/libpng/cexcept.h:146-154 | the header's rule about jumps, checked on the text, keeps every run from making a forbidden jump |
| CexceptTheorems.HandlerChainIsKept | kernel/libpng/cexcept.h:213-245 | in every state of every run nothing undefined has happened, `penv` denotes the innermost active Try at every application assignment, branch, loop, call, Try, Throw and jump, and every longjmp goes to that Try, whose block is live and whose setjmp has been called; `penv` is null at a longjmp only with no Try around |
| CexceptTheorems.TryRestoresPenv | kernel/libpng/cexcept.h:213-226 | a Try/Catch in any surroundings ends, normally, by a permitted jump or by an exception from its Catch clause, with `penv` as before and no enclosing Try's locals changed |
| CexceptTheorems.Outrun | kernel/libpng/cexcept.h:165-172 | given fuel the meaning needs, the machine stops with the same result after sound states only; without it, the machine is still running after that many steps |
| CexceptTheorems.ReturnFromClauseIsUndefined | kernel/libpng/cexcept.h:146-149 | in any surroundings, even inside another Try, calling a function whose body is a Try with any clause that ends by Return, and throwing when it is back, has undefined behaviour |
| CexceptTheorems.CallLeavesPenvDangling | kernel/libpng/cexcept.h:146-149 | such a call comes back to its caller, whatever follows there, with `penv` pointing at the callee's block, which is nowhere on the caller's stack |
| CexceptTheorems.ReturnLeavesPenvDangling | kernel/libpng/cexcept.h:214-226 | any clause that ends by Return leaves its block with `penv` pointing at that block's jmp_buf, which is then nowhere on the stack |
| CexceptTheorems.JumpFromClauseStaysInside | kernel/libpng/cexcept.h:146-149 | a Break or Continue out of any Try clause leaves only the hidden `do`: control is at the end of the same Try with `penv` restored; after a Continue `caught` is clear |
| CexceptTheorems.BreakLeavesFlagStale | kernel/libpng/cexcept.h:217-229 | a Break that is the whole clause ends at the end of the same Try with `caught` and `etmp` as they were before it |
| CexceptTheorems.StaleFlagDecides | kernel/libpng/cexcept.h:229-232 | so a Try whose clause is a Break runs its Catch clause, with the value of an earlier exception, if and only if `caught` was set before |
| CexceptCorrectness.Simulate | kernel/libpng/cexcept.h:211-245 | running any expanded statement, with any control stack below it, reaches exactly the outcome of its structured meaning unless that is a forbidden jump, keeping `penv` and the locals of every enclosing Try |
| CexceptCorrectness.SimulateClause | kernel/libpng/cexcept.h:211-229 | at the `if`, `caught` is 1 exactly when this clause was left by an exception, however nested statements used the flag; `etmp` holds the value of that very Throw; `penv` is restored; a clause that ends by a jump has reached that jump inside the `do` |
| CexceptCorrectness.LeaveByJump | kernel/libpng/cexcept.h:224-227 | after a longjmp `penv` is restored although automatic locals, `penv` and `caught` became arbitrary, because `exception__prev` is not written after setjmp |
| CexceptCorrectness.DecideHandler | kernel/libpng/cexcept.h:229-232 | the Catch expression is evaluated, once, exactly if an exception was caught, and is assigned `etmp` |
| CexceptCorrectness.EnterClause | kernel/libpng/cexcept.h:211-217 | entering a Try saves `penv`, links the new jmp_buf into the chain and fills it before the clause starts |
| CexceptCorrectness.SimulateThrow | kernel/libpng/cexcept.h:243-245 | a Throw copies its value to `etmp` and then longjmps through `penv`, whatever is on the stack |
| CexceptCorrectness.LinkedIsLive | kernel/libpng/cexcept.h:213-217 | a chain kept in order always leads to a filled jmp_buf of a live block that lands just outside the innermost clause |
| StructuredExceptions.MeaningIsUnique | kernel/libpng/cexcept.h:132-138 | the outcome of every statement in every store does not depend on the fuel it is given |
| StructuredExceptions.HandlerSees | kernel/libpng/cexcept.h:156-160 | in a Catch clause static storage and volatile variables are as the Throw left them, automatic variables not assigned in the Try clause are as before the Try, and those assigned there are lost |
| StructuredExceptions.HandlerStarts | kernel/libpng/cexcept.h:132-144 | an exception that leaves a Try clause makes the Catch clause run, after one assignment of that very exception, in a store that is given variable by variable; with Catch_anonymous after none |
| StructuredExceptions.ExceptionLaws | kernel/libpng/cexcept.h:132-138 | a Try whose clause ends normally is its clause; an exception that a Catch throws on arrives outside unchanged; nothing after a Throw or a jump is reached |
| StructuredExceptions.CallLaws | kernel/libpng/cexcept.h:164-170 | an exception leaves a function as a Return does, with the value thrown, the caller's locals and the callee's static storage |
| StructuredExceptions.LocalsChangeByWriting | kernel/libpng/cexcept.h:156-160 | however a statement ends, through any nesting of calls and catches, a local of its function that it did not assign has kept its value |
| StructuredExceptions.UnassignedIsKept | kernel/libpng/cexcept.h:156-160 | through any nesting of calls, throws and catches, and however the statement ends, a variable keeps its value if neither the text of the statement nor, unless it is a local, that of any function assigns it |
| StructuredExceptions.Bind | kernel/libpng/cexcept.h:140-144 | the target of a Catch holds the exception, and the counter in it has moved by one |
| StructuredExceptions.BindChanges | kernel/libpng/cexcept.h:140-144 | the expression of a Catch changes its target, or one element and the counter, and no other variable of any storage |
| StructuredExceptions.SetChangesOne | kernel/libpng/cexcept.h:231 | an assignment changes one variable and no other |
| StructuredExceptions.CalleeReads | kernel/libpng/cexcept.h:132-138 | a function that is called starts with its argument, static storage as it is, and nothing of its caller's locals |
| StructuredExceptions.CallerReads | kernel/libpng/cexcept.h:156-160 | after a call a function has its own locals and what the callee left in static storage |
| StructuredExceptions.JumpsStayInside | kernel/libpng/cexcept.h:146-154 | a well-formed statement never makes a forbidden jump, and is left by Break, Continue or Return only where its surroundings allow it |
| CexceptThread.ExceptionContext.Init | kernel/libpng/cexcept.h:209 | init_exception_context clears `penv` |
| CexceptThread.Thread.Evaluate | kernel/libpng/cexcept.h:213-232 | evaluating the pieces of the macros in place has the value and the effects of the specification |
| CexceptThread.Thread.LongJump | kernel/libpng/cexcept.h:244 | longjmp in place: if the handler chain is kept, it goes to the handler of the innermost Try with `etmp` untouched, or, with no Try around, through null; in any case it reaches the filled jmp_buf of a live block or is undefined |
| CexceptThread.Thread.Step | kernel/libpng/cexcept.h:211-245 | one step in place is one step of the machine |
| CexceptThread.Thread.Execute | kernel/libpng/cexcept.h:211-245 | a permitted program run in place is in a sound state after any number of steps, so never undefined, and when it stops it stops with a result its structured meaning has |
| RetransmissionPool.WaitACKMsgSender.AddMsg | kernel/Sender/WaitACKMsgSender.cpp:39-69 | hands out the next id modulo 2^32, appends the message, and sends exactly that id and content to the given peer; FindMsg would now find it |
| RetransmissionPool.WaitACKMsgSender.DeleteMsg | kernel/Sender/WaitACKMsgSender.cpp:71-95 | removes the first message with that id and calls its callback, if it has one, with the arguments of the branch taken; otherwise changes nothing; becomes undefined exactly if it would make a text of a null pointer |
| RetransmissionPool.WaitACKMsgSender.FindMsg | kernel/Sender/WaitACKMsgSender.cpp:97-108 | true exactly if some pending message has the id |
| RetransmissionPool.WaitACKMsgSender.Overdue | kernel/Sender/WaitACKMsgSender.cpp:117-138 | the send comes first; without tries left the callback and the erase follow, otherwise a try is used and the stamp renewed, unless the message is forever |
| RetransmissionPool.WaitACKMsgSender.TraverseAllMsg | kernel/Sender/WaitACKMsgSender.cpp:110-141 | the erase-while-iterating loop does to each position what its fate says: the one after an expired one is not looked at, every other one is, once |
| RetransmissionPool.Stages | kernel/Sender/WaitACKMsgSender.cpp:114-140 | the vector, log and iterator after each element of a pass, as the loop sees them, end in the state that the fates of all positions specify |
| RetransmissionPool.First | kernel/Sender/WaitACKMsgSender.cpp:75-77 | the first match of a scan, and nothing before it matches |
| PoolRuns.EveryRunIsConserved | kernel/Sender/WaitACKMsgSender.cpp:39-141 | after any run that has done nothing undefined, ids are in list order and below the counter; every message ever added is pending, deleted or expired, in exactly one way; and the log contains for it just the sends and the one callback that its state implies |
| PoolRuns.LifeOfMessage | kernel/Sender/WaitACKMsgSender.cpp:55-58 | after such a run: no callback while pending and exactly one, if there is one, afterwards; sends so far plus tries left is MAX_TRY_TIMES; an expired message was sent MAX_TRY_TIMES + 1 times, a deleted one at most MAX_TRY_TIMES times; a forever message never expires |
| PoolRuns.AddDoes | kernel/Sender/WaitACKMsgSender.cpp:39-69 | field by field, the message an addition files and the text it sends |
| PoolRuns.DeleteDoes | kernel/Sender/WaitACKMsgSender.cpp:71-95 | an acknowledgement removes the oldest message that waits with the id and no other, and calls its callback, if it was added with one, with the given ip or else the peer's, the peer's port, and the given text or the message; if none waits it does nothing |
| PoolRuns.PassDoes | kernel/Sender/WaitACKMsgSender.cpp:110-141 | for every message, forever or not: if the one before it expires in the pass or its time has not come, nothing happens to it; otherwise it is sent exactly once, and without tries left it expires and its callback is told the failure, else one try is used and it is stamped with the clock read after the send, unless it is forever |
| PoolRuns.PassKeepsOthers | kernel/Sender/WaitACKMsgSender.cpp:110-141 | a pass brings in nobody and says nothing about messages that do not wait |
| PoolRuns.LogTells | kernel/Sender/WaitACKMsgSender.cpp:47-91 | over any run, every send carries the peer, id and content its message was added with, and every call is of its callback with the arguments its expiry or acknowledgement determines |
| PoolRuns.SendsAreInOrder | kernel/Sender/WaitACKMsgSender.cpp:39-141 | over any run, the sends of all messages together are logged in the order of time |
| PoolRuns.NullTextIsUndefined | kernel/Sender/WaitACKMsgSender.cpp:77-90 | after any run, an acknowledgement is undefined if and only if `hasSend` is true, its text is null, and the oldest message that waits with its id was added with a callback |
| PoolRuns.NullTextToRecent | kernel/Sender/WaitACKMsgSender.cpp:79-86 | the condition for the call at P2PUserInfo.cpp:61: after any run in which nothing has waited through 2^32 additions, acknowledging one of the last 2^32 messages with a null text is defined if and only if the message was added without a callback or has left the pool |
| PoolRuns.NullTextFails | kernel/Sender/WaitACKMsgSender.cpp:79-86 | a message with a callback, acknowledged with a null text right after it was added, is such an undefined acknowledgement |
| PoolRuns.SendsAreSpaced | kernel/Sender/WaitACKMsgSender.cpp:116-137 | two consecutive sends of a message that is not forever are more than three loop times apart in true time, across wraps of the tick counter and without any bound on the time between passes; before the first repetition, less the time AddMsg took to send |
| PoolRuns.FirstGapIsKept | kernel/Sender/WaitACKMsgSender.cpp:59-67 | from any reachable pool, every continuation keeps the distance between AddMsg's send and the first repetition above the interval if and only if the delay between AddMsg's stamp and its send is a multiple of 2^32 ms |
| PoolRuns.ForeverSchedule | kernel/Sender/WaitACKMsgSender.cpp:116-138 | the stamp of a forever message stays AddMsg's; a pass sends it if and only if the message before it does not expire in that pass and the time since the stamp, modulo 2^32, exceeds the interval; it is still pending afterwards |
| PoolRuns.ForeverIsNotSpaced | kernel/Sender/WaitACKMsgSender.cpp:133-137 | runs whose passes send a forever message any given time apart, even 1 ms or none |
| PoolRuns.ForeverPausesAtWrap | kernel/Sender/WaitACKMsgSender.cpp:116 | for one interval after each multiple of 2^32 ms since its stamp no pass sends a forever message |
| PoolRuns.ForeverMissesAPass | kernel/Sender/WaitACKMsgSender.cpp:116 | a run in which one pass sends a forever message and a later pass, at the wrap, does not |
| PoolRuns.ForeverIsSteppedOver | kernel/Sender/WaitACKMsgSender.cpp:120-132 | a pass that expires the message before it does not send a forever message, due or not |
| PoolRuns.ForeverMissesItsTurn | kernel/Sender/WaitACKMsgSender.cpp:114-132 | a run after which a pass steps over a forever message that is due |
| PoolRuns.DueInTrueTime | kernel/Sender/WaitACKMsgSender.cpp:116 | in a reachable pool the code's test says exactly that the true time since the stamp, modulo 2^32, exceeds the interval |
| PoolRuns.TicksMeasureTime | kernel/Sender/WaitACKMsgSender.cpp:116 | the 32-bit difference never exceeds the true elapsed time and equals it below 2^32 ms |
| PoolRuns.IdFindsItsMessage | kernel/Sender/WaitACKMsgSender.cpp:75-107 | after any run, every id of the last 2^32 is found exactly between AddMsg and removal, and its first match is its own message, if and only if no message has waited while 2^32 others were added |
| PoolRuns.OldestHidesNewest | kernel/Sender/WaitACKMsgSender.cpp:75-79 | a run of 2^32 + 1 additions after which the id of the newest message finds the first |
| PoolRuns.DuplicateAckIsIgnored | kernel/Sender/WaitACKMsgSender.cpp:75-94 | as long as no message has waited through 2^32 additions, an acknowledgement of any of the last 2^32 messages that was acknowledged or expired before, however long ago and whatever came between, changes nothing and calls nobody |
| PoolRuns.SurvivorsKeepOrder | kernel/Sender/WaitACKMsgSender.cpp:114-132 | what is left after a pass is still in order of addition |
| PoolRuns.SurvivorAt | kernel/Sender/WaitACKMsgSender.cpp:114-140 | every position that does not expire survives, at the place of the survivors before it |
| PoolRuns.SurvivorFrom | kernel/Sender/WaitACKMsgSender.cpp:114-140 | every survivor comes from one position that did not expire, changed as its fate says |
| PoolRuns.NoiseOf | kernel/Sender/WaitACKMsgSender.cpp:123-129 | a pass adds to a message's story only what happens at its own position |
| PoolRuns.TraverseKeeps | kernel/Sender/WaitACKMsgSender.cpp:110-141 | a pass keeps the invariant of all stories |
| PoolRuns.AddKeeps | kernel/Sender/WaitACKMsgSender.cpp:39-69 | so does an addition |
| PoolRuns.DeleteKeeps | kernel/Sender/WaitACKMsgSender.cpp:71-95 | and a deletion |
| PoolFairness.UnfairnessIsBounded | kernel/Sender/WaitACKMsgSender.cpp:114-132 | over any run, a message is stepped over at most as often as there are messages before it; the first never is |
| PoolFairness.PassDrains | kernel/Sender/WaitACKMsgSender.cpp:116-138 | if no message needs more than b passes, counting one for each message before it, then after a pass that finds every message due none needs more than b - 1 |
| PoolFairness.PoolDrains | kernel/Sender/WaitACKMsgSender.cpp:114-138 | with nothing added, no forever messages and passes that find every message due, the pool is empty after as many passes as tries are owed, and also after one pass per message and MAX_TRY_TIMES - 1 more |
| PoolFairness.SpreadPassesDrain | kernel/Sender/WaitACKMsgSender.cpp:116 | passes that test every message more than the interval after the event before them find every message due, if the run adds nothing and ends less than 2^32 ms after every stamp |
| PoolFairness.MessageLeaves | kernel/Sender/WaitACKMsgSender.cpp:114-138 | from any reachable pool and over any run, with additions, forever messages and passes that find others not due, a message at position i that is not forever is gone once i + leftTryTimes + 1 passes have found it due |
| PoolFairness.LeavesByDeadline | kernel/Sender/WaitACKMsgSender.cpp:110-151 | if at most `gap` ms lie between the start of a pass and the end of the next, the message is gone when i + leftTryTimes + 1 times the interval and the gap have passed, unless that is 2^32 ms after its stamp |
| PoolFairness.AnsweredInTime | kernel/Sender/WaitACKMsgSender.cpp:39-151 | if passes are frequent, a message that is not forever, added behind n others, has been acknowledged or has expired, with exactly one call of its callback if it has one, n + MAX_TRY_TIMES intervals and gaps after its first send, whatever else happens to the pool, unless that is 2^32 ms after its stamp |
| Compositing.ShiftAddDivides | kernel/libpng/png.h:2835-2838 | for every even base B and every x with x + B/2 < B*B, adding B/2, adding the quotient by B and dividing by B gives (x + (B-2)/2) / (B-1) |
| Compositing.RoundedIsNearest | kernel/libpng/png.h:2840-2842 | that quotient is the nearest integer to x / (B-1), and the only one |
| Compositing.CompositesAgree | kernel/libpng/png.h:2849-2866 | for all 8-bit samples the division-free macro equals the dividing one and is the nearest integer to the exact blend, and no intermediate needs more than 16 bits |
| Compositing.Composites16Agree | kernel/libpng/png.h:2855-2871 | the same for 16-bit samples and 32-bit intermediates |
| Compositing.CompositeIsNearest | kernel/libpng/png.h:2849-2853 | the result is the one integer within half of 255 of (alpha * fg + (255 - alpha) * bg) when multiplied by 255 |
| Compositing.Composite16IsNearest | kernel/libpng/png.h:2855-2859 | the same for 16-bit samples |
| Compositing.BlendSteps | kernel/libpng/png.h:2849-2853 | one step of alpha moves the exact blend by fg - bg, from m times bg at 0 |
| Compositing.CompositeIsBetween | kernel/libpng/png.h:2849-2853 | the result lies between the samples, and is bg at alpha 0 and fg at full alpha |
| Compositing.CompositeGrows | kernel/libpng/png.h:2849-2853 | it moves monotonically towards fg as alpha grows |
| Compositing.CompositeSwaps | kernel/libpng/png.h:2849-2853 | exchanging the samples and complementing alpha changes nothing |
| Compositing.Composite16IsBetween | kernel/libpng/png.h:2855-2859 | the 16-bit result lies between the samples and is exact at both ends |
| Compositing.Composite16Grows | kernel/libpng/png.h:2855-2859 | the 16-bit result is monotone in alpha |
| Compositing.Composite16Swaps | kernel/libpng/png.h:2855-2859 | the 16-bit result treats the samples alike |
| Compositing.RowBytesIsExact | kernel/libpng/png.h:3038-3041 | PNG_ROWBYTES is the fewest bytes that hold the row if and only if the depth is below 8 or a multiple of 8 and the product does not wrap, for every depth and width |
| Compositing.RowBytesOfAcceptedImages | kernel/libpng/pngconf.h:860-862 | so it is exact for every PNG depth up to 64 and every width up to PNG_USER_WIDTH_MAX |
| SignedShift.MaskedShiftIsFloor | kernel/libjpeg/jpegint.h:283-286 | for every width of at least 32 bits and every count below the width and at most 32, the zero-filling shift with its mask is the floor of x / 2^n if and only if x is at least -2^32 |
| SignedShift.ArithmeticShiftIsFloor | kernel/libjpeg/jpegint.h:289 | for every width and every count below it, the sign-copying shift is the floor of x / 2^n for every x |
| SignedShift.MaskedShiftOf32Bits | kernel/libjpeg/jpegint.h:281-290 | with 32-bit words both variants agree for every x |
| SignedShift.OrWithHighOnes | kernel/libjpeg/jpegint.h:285 | or-ing the mask in keeps the low bits and sets all others |
| SignedShift.DescaleRounds | kernel/libjpeg/jdct.h:358-363 | DESCALE is the nearest integer, ties upward, for either sign, if and only if adding the half does not overflow and, for the zero-filling variant, the sum is at least -2^32 |
| SignedShift.DescalingTwice | kernel/libjpeg/jdct.h:358-363 | when descaling by a + b does not overflow, and for the zero-filling variant x plus half a unit of the first step is at least -2^32, DESCALE by a and then by b exceeds DESCALE by a + b by one exactly if x is less than half a unit of the first step below a tie of the whole, and otherwise equals it |
| RecvFileList.List.AddFileName | kernel/FileList/RecvFileList.cpp:27-36 | files the path behind all other entries, under the counter, with whatever uid and flag the memory held, and returns the number |
| RecvFileList.List.AddFileItem | kernel/FileList/RecvFileList.cpp:38-50 | files exactly the given user, file, path and flag behind all other entries, under the counter, and returns the number |
| RecvFileList.List.DeleteFileItem | kernel/FileList/RecvFileList.cpp:52-58 | removes the item with that number, if there is one |
| RecvFileList.List.GetDownloadedFilePath | kernel/FileList/RecvFileList.cpp:71-83 | the path of the first finished download that matches, or none if none does |
| RecvFileList.List.GetDownloadedFileNumber | kernel/FileList/RecvFileList.cpp:85-97 | the number of the first finished download that matches, or none if none does |
| RecvFileList.List.ChangeFileState | kernel/FileList/RecvFileList.cpp:99-116 | flips the flag of the first match if it differs, and says whether it did |
| RecvFileList.AddDoes | kernel/FileList/RecvFileList.cpp:38-50 | an addition appends one entry with the package it was given |
| RecvFileList.DeleteDoes | kernel/FileList/RecvFileList.cpp:52-58 | a deletion removes the entry with that number and no other |
| RecvFileList.ChangeDoes | kernel/FileList/RecvFileList.cpp:99-116 | a change of state sets the flag of the first match and alters no other field and no other entry |
| RecvFileList.AddedIsFound | kernel/FileList/RecvFileList.cpp:38-97 | a finished download that is added is what the lookups select, unless an earlier entry of the same file is finished |
| RecvFileList.FirstMatch | kernel/FileList/RecvFileList.cpp:102-104 | where the scan stops: the first match, or the end if nothing matches |
| RecvFileList.NumbersAreNotReused | kernel/FileList/RecvFileList.cpp:34-35 | over any run, a number handed out and deleted is never in the list again, as long as the counter does not overflow |
| RecvFileList.LookupsAgree | kernel/FileList/RecvFileList.cpp:71-97 | both lookups select the same entry, the one of least number |
| RecvFileList.FinishedIsFound | kernel/FileList/RecvFileList.cpp:74-109 | after ChangeFileState(uid, fid, true) has returned true, both lookups select exactly the entry it changed |
| RecvFileList.UnfinishedMayBeFound | kernel/FileList/RecvFileList.cpp:74-109 | after ChangeFileState(uid, fid, false) has returned true, the lookups find something if and only if a later entry of the same file is finished |
| RecvFileList.SuccessesAlternate | kernel/FileList/RecvFileList.cpp:99-115 | over any run that does not delete the first match, the successful changes of one file's state strictly alternate |

## Left out

- goto and jumps into a clause: the language has Break, Continue and Return only.
- Several exception contexts in one thread: the header calls them confusing; there is one context.
- Exceptions that are structures: an exception is an integer, copied as a whole.
- Reading uninitialised locals: they read as 0, and a caller's locals are invisible to its callees.
- WaitACKMsgSender.Loop, Instance, Release, GetObj: the endless driver and the singleton; the runs of PoolRuns are all orders of events it and its callers can produce, and its sleep is the gap between passes in PoolFairness.
- UDP sockets, the choice between IPv4 and IPv6, and the JSON encoding: a send is a log entry with its payload.
- Callback bodies, and callbacks that call back into the pool.
- SimpleCriticalSection: each method is one step because it holds the lock throughout.
- RecvFileList.NumbersAreNotReused: says nothing about the list after 2^31 files, because the signed counter has then overflowed, which C++ leaves undefined; in the model it is unbounded.
- RecvFileList.List: the counter is unbounded in the same way, and the std::map is a sorted sequence, so its tree is not modelled.
- RecvFileList::GetFilePath and SendFileList: one lookup, insertion or removal by number each, as in the list that is modelled.
- UserList, ServerList and UnreadMsgList: they keep entries in containers, store them in SQLite and notify the windows.
- The XMPP, socket and database interfaces: they hand each call on to gloox, Winsock or SQLite.
- FIX and the DCT routines: floating point, or declared in these headers only.
