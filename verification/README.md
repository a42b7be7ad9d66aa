# TIDorb verification

A Dafny model of four parts of TIDorb, and proofs about them:

* the threading kernel `TIDThr`: the recursive monitor, condition waits and interruption, the
  `Counter`, the count of daemon threads, thread groups, and reference-counting handles;
* CORBA fixed-point decimals (`CORBA::Fixed`) and the 256-bit integers (`BigInt`) below them;
* lazy unmarshalling of Anys (`AnyImpl`), the CDR values that they hold, and their client, the
  argument lists of a request (`NVListImpl`);
* the scan of the command line for ORB options (`ConfORB`).

`dafny verify dfyconfig.toml` checks the whole project.

## How it is modelled

The concurrent parts are transition systems over any number of threads. In `Monitor` every access to
the shared owner/count record, every call of a `pthread` primitive and every access to an
interruption flag is a step of its own; `pthread_mutex_lock` on an error-checking mutex answers
EDEADLK to its holder, and any sleeper may wake up spuriously at any time. `Counter` runs on top of
that system, so its theorems hold for every interleaving of the micro-steps of the monitor.
`Daemon` and `Handles` are systems of the same kind, and `DaemonCounter` puts `Thread::start`,
`threadDeath` and `waitThreadTermination` on top of `Counter`. A run is a sequence of enabled steps,
and the main results are about every run.

`Fixed` speaks about the numbers that mantissas and scales stand for through integers: `Seen(f, k)`
is the mantissa of `f` at any scale `k` that is fine enough, and `Nearest(q, n, d)` says that `q` is
`n / d` rounded half away from zero. A `DATA_CONVERSION` exception is `None`; the predicates
`AddReturns`, `MulReturns` and so on say in mantissas and scales when there is none. `BigInt` says as
functions on integers what each operator computes; `Magnitude` and `BigIntOperators` contain the
loops over the 32 octets and prove that they compute just that.

`AnyChain` keeps the objects of the program: streams with a position and a mark, Anys with a state,
a predecessor, a stream and a value. A ghost `Session` lists the Anys read from one stream, and
`Valid` ties each of them to what an eager reader finds at its place. `Placed` says that every
`long double` of a value stands where the next multiples of 8 and of 16 coincide.

| file | part of the program |
|---|---|
| `Monitor.dfy`, `MonitorLocks.dfy` | `RecursiveMutex`, `Condition`, the interruption flags of `Thread`; the calls of `lock`, `trylock`, `unlock`, and notifications |
| `Counter.dfy`, `CounterCalls.dfy` | `Counter` on `Monitor` |
| `Daemon.dfy`, `DaemonCounter.dfy`, `DaemonExact.dfy` | `Thread::start` and `threadDeath`; the same on `Counter`, and `waitThreadTermination` |
| `Handles.dfy`, `HandlePointers.dfy` | `HandleT` and `RefCounter` |
| `ThreadGroup.dfy`, `ThreadListing.dfy` | `ThreadGroup` |
| `Octet.dfy`, `Cdr.dfy`, `CdrPlaces.dfy`, `AnyChain.dfy`, `NVList.dfy` | CDR streams and values, `AnyImpl`, `NVListImpl` |
| `Decimal.dfy`, `BigInt.dfy`, `Magnitude.dfy`, `BigIntOperators.dfy`, `BigIntText.dfy` | `BigInt` |
| `Fixed.dfy`, `FixedOperators.dfy`, `FixedComparisons.dfy`, `FixedVariable.dfy` | `CORBA::Fixed` |
| `Text.dfy`, `FixedText.dfy`, `FixedForms.dfy`, `FixedRefused.dfy`, `FixedPrinted.dfy`, `FixedStrings.dfy` | parsing and printing of `CORBA::Fixed` |
| `Argv.dfy` | `ConfORB::get_parameters` |

## What does not hold

The model follows the code. Where a promise fails, a lemma says exactly when it holds.

* `BigInt::operator+` of a positive and a negative computes the sum and returns its left operand, so
  `Fixed` addition is exact only if not (left > 0 and right < 0): 5 + -3 is 5 (`PlusIsRight`,
  `FiveMinusThree`).
* `BigInt::operator-` of two different negatives loses the last borrow: -1 - -2 is 2^256 - 1
  (`MinusIsRight`, `MinusOneMinusMinusTwo`). In `BigInt` alone it is right again when the difference
  is just half of the range (`MinusIsExact`). So differences of equal numbers may differ
  (`DifferencesOfEquals`), and when the result has to be rounded the difference of two close
  negatives throws (`MinusReturnsUnless`, `CloseNegatives`).
* With at most 31 digits and scales from 0 to 31, `+`, `/` and the six comparisons always return, `-`
  does unless of two close negatives, but `*` throws when the aligned product and half a unit do not
  fit in 256 bits: 31 nines times 31 nines at scale 31 (`TimesReturnsIff`, `NinesTimesNines`).
* `a *= b` may throw where `a = a * b` returns: 1 at scale -16 times 1 at scale 31
  (`TimesAssignIsTimes`, `TimesAssignThrows`).
* `BigInt::operator<=` is false for equal numbers other than zero, and true for zero and a negative;
  so are `<=` and `>` of `Fixed` wrong exactly there (`TwoAreRightUnless`). The other four
  comparisons are right.
* `power10` of a negative exponent is 1 or 10, so a quotient at a scale of -2 or less is right only
  if it rounds to zero (`DivAtNegativeScale`, `FiveHundredByOne`). Dividing by zero gives zero.
* Ten times a negative `BigInt` by `operator*(int)` is never right, so a negative number with an odd
  power of ten beyond its digits is read wrongly (`TimesTenIsRight`, `TimesTenToTheOfNegative`,
  `TextIsRead`): "-5e1" is read as -65486 (`MinusFiftyIsMisread`).
* A number that is printed as an integer of more than 32 digits cannot be read back (`PrintThenRead`).
* `to_string` writes its terminator at `WrittenLength` (`PrintIn`), past the end of its buffer if a
  number needs 100 characters or more, as at scales of -99 or less and of 98 or more
  (`BufferIsOverrun`); 31 digits and a scale between -31 and 31 need at most 63 (`BufferIsEnough`).
* A `long double` is read at a multiple of 8 and skipped at a multiple of 16
  (`LongDoubleIsSkippedWrong`). A value in which no string and no sequence follows a long double is
  skipped to its end if and only if each of its long doubles stands where both coincide
  (`SkipIsRightIffPlaced`); behind one that does not, a string may make up for it (`RightByAccident`),
  and the next Any of a chain comes out wrong (`SecondComesOutWrong`).
* If `Counter::inc` wraps from `SIZE_MAX` to 0, the sleepers of that moment are not told, and just
  they may sleep on at a count of 0 (`NoLostWakeUp`); since a `dec` at 0 wraps to `SIZE_MAX`, an
  unbalanced `dec` is enough (`UnderflowLosesAWakeUp`), and a balanced run loses nobody
  (`EverybodyIsWoken`).
* `Thread::start` never enters the running state, so `setDaemon` on a live thread makes the count of
  daemons wrong (`BecomingADaemonTooLate`, where it wraps to `SIZE_MAX`, and `CeasingToBeADaemon`),
  and the same object can be started twice; the count is right throughout a run if and only if every
  death finds the flag that its start found (`AlwaysRightIffFlagsKept`).

## Model

| member | source | states |
|---|---|---|
| Monitor.StepInv | source/TIDThr/tidthr/tidthr/RecursiveMutex.C:80-189 | every micro-step of lock, trylock, unlock, wait, signal, broadcast and interrupt by any thread keeps the invariant that places each thread's nesting depth, the mutex owner, the record and the flags |
| Monitor.MutualExclusion | source/TIDThr/tidthr/tidthr/RecursiveMutex.C:80-189 | in every run: at most one thread inside, it owns the mutex, between operations the record is its identity and depth, and EDEADLK never meets a count of 0 |
| MonitorLocks.DepthIsLocksLessUnlocks | source/TIDThr/tidthr/tidthr/RecursiveMutex.C:80-189 | in every run: the nesting depth of a thread is its granted lock and trylock calls less its granted unlock calls, counted from the calls and the answers of the mutex alone; between calls it holds the mutex if and only if it made more of the first, and then the record is its name and the difference |
| MonitorLocks.OperationsEnd | source/TIDThr/tidthr/tidthr/RecursiveMutex.C:80-189 | who is not asleep and does not wait for the mutex of another thread can take its next step, and each own step brings its call nearer to its return |
| MonitorLocks.SignalWakesOne | source/TIDThr/tidthr/tidthr/Condition.C:309-322 | a signal takes exactly one waiter off the condition, sends it for the mutex and changes nothing else; without waiters it changes nothing |
| MonitorLocks.BroadcastWakesAll | source/TIDThr/tidthr/tidthr/Condition.C:328-343 | a broadcast takes all waiters off and changes nothing else |
| MonitorLocks.SleepersLeaveWhenTold | source/TIDThr/tidthr/tidthr/Condition.C:197-230 | a sleeper leaves the condition if and only if it is told to by a signal to it, a broadcast or a spurious wake-up, and joins it by its own wait only, giving the mutex back in the same step |
| Monitor.RacyReadsAreRight | source/TIDThr/tidthr/tidthr/RecursiveMutex.C:121-189 | the unprotected read of the owner after EBUSY, and the one in unlock, tell the holder from everybody else |
| Monitor.WaitRestoresDepth | source/TIDThr/tidthr/tidthr/Condition.C:197-230 | over any run during which a thread is inside wait, it returns with the mutex and with the owner and depth it entered with |
| Monitor.WaitReturnsTheRecordItTook | source/TIDThr/tidthr/tidthr/Condition.C:197-230 | the owner/count record on return from wait is the record at the call |
| Monitor.WaitThrowsIffInterrupted | source/TIDThr/tidthr/tidthr/Thread.C:316-399 | a wait throws if and only if it was interrupted at least once while inside, and leaves no interruption behind |
| Monitor.NoInterruptionLeaks | source/TIDThr/tidthr/tidthr/Thread.C:316-399 | in every reachable state an interrupted thread is in a wait, and a new wait starts uninterrupted |
| Counter.StepInv | source/TIDThr/tidthr/tidthr/Counter.C:42-76 | every step of inc, dec, waitForZero and of the monitor below keeps the invariant of the counter |
| Counter.NoLostWakeUp | source/TIDThr/tidthr/tidthr/Counter.C:42-76 | in every run, at any time: if the monitor is free and the count is 0, a thread in waitForZero sits un-notified if and only if it has slept since an inc wrapped |
| Counter.EverybodyIsWoken | source/TIDThr/tidthr/tidthr/Counter.C:42-76 | if no inc of a run meets SIZE_MAX, as in every run of at most SIZE_MAX steps in which no dec meets 0, nobody ever sits un-notified at count 0 with the monitor free |
| Counter.ReturnsOnlyAtZero | source/TIDThr/tidthr/tidthr/Counter.C:65-76 | waitForZero leaves its loop only at count 0 with the monitor held, whatever woke it, also when held recursively |
| CounterCalls.CallsKeepDepth | source/TIDThr/tidthr/tidthr/Counter.C:42-76 | whatever happens during a call of inc, dec or waitForZero, also if its wait throws, its caller is afterwards as deep in the monitor as before |
| CounterCalls.InterruptionLeaves | source/TIDThr/tidthr/tidthr/Counter.C:65-76 | a wait that threw ends waitForZero through the unlock; one that did not is followed by a new test |
| CounterCalls.CountMovesByOne | source/TIDThr/tidthr/tidthr/Counter.C:42-63 | the bodies of inc and dec move the count by one modulo 2^64, and no other step moves it |
| Counter.UnderflowLosesAWakeUp | source/TIDThr/tidthr/tidthr/Counter.C:42-63 | a run with a dec at 0 that ends with count 0, a free monitor and an un-notified sleeper |
| Daemon.StepKeepsLaw | source/TIDThr/tidthr/tidthr/Thread.C:429-491 | each step of start, a failed or successful pthread_create, death and setDaemon keeps the balance of the counter |
| Daemon.Conservation | source/TIDThr/tidthr/tidthr/Thread.C:429-491 | in every run the counter is the number of outstanding daemon starts plus missed decrements less extra ones, modulo 2^64 |
| Daemon.CounterIsOutstanding | source/TIDThr/tidthr/tidthr/Thread.C:429-491 | with flags fixed before start, the counter is the number of outstanding daemon starts modulo 2^64, and below that zero exactly when none is left |
| Daemon.AlwaysRightIffFlagsKept | source/TIDThr/tidthr/tidthr/Thread.C:429-491 | in any run the counter is right in every state if and only if every death finds the daemon flag that its start found |
| Daemon.BecomingADaemonTooLate | source/TIDThr/tidthr/tidthr/Thread.C:176-196 | setDaemon(true) on a live thread takes the counter from 0 to SIZE_MAX with nothing outstanding |
| Daemon.CeasingToBeADaemon | source/TIDThr/tidthr/tidthr/Thread.C:176-196 | setDaemon(false) on a live thread leaves the counter at 1 with nothing outstanding |
| Daemon.EndedForGood | source/TIDThr/tidthr/tidthr/Thread.C:429-491 | an object that died or whose creation failed is so marked and never started again, in any run |
| Daemon.StartedTwice | source/TIDThr/tidthr/tidthr/Thread.C:429-460 | a run in which an object that is running is started again and counted twice |
| DaemonCounter.StepKeepsInv | source/TIDThr/tidthr/tidthr/Thread.C:429-491 | start, the two outcomes of pthread_create and death as calls of inc and dec on the micro-steps of Counter and Monitor keep the invariant that ties every call to its activity |
| DaemonCounter.Conservation | source/TIDThr/tidthr/tidthr/Thread.C:429-491 | in every run the value of the Counter is the number of outstanding starts plus the drift of wrong deaths, modulo 2^64 |
| DaemonCounter.TerminationIsSeen | source/TIDThr/tidthr/include/TIDThr/Thread.h:190-198 | in every run with flags fixed before start, the Counter is 0 exactly when no counted start is outstanding, and none is when waitThreadTermination leaves its loop |
| DaemonExact.AlwaysRightIffFlagsKept | source/TIDThr/tidthr/tidthr/Thread.C:429-491 | on the Counter object and in every interleaving: every death of a run finds the flag of its start if and only if the Counter is right in every state and no unpaired dec is called but not yet executed at the end |
| DaemonExact.NeverStuck | source/TIDThr/tidthr/tidthr/Thread.C:429-491 | in every reachable state the thread that starts or ends an activity can take a step, or it waits for the mutex of the counter and the holder of that mutex can take one |
| DaemonExact.EndedForGood | source/TIDThr/tidthr/tidthr/Thread.C:429-491 | the same on the Counter object |
| Handles.StepKeepsInv | source/TIDThr/tidthr/include/TIDThr/HandleT.h:49-135 | creating, copying, assigning and destroying handles, one count at a time, keep the invariant of counts, deletions and pending pointers |
| Handles.CountIsHolders | source/TIDThr/tidthr/include/TIDThr/RefCounter.h:67-106 | in every run the reference count is the number of handles counted in |
| Handles.DeletedOnceWithTheLast | source/TIDThr/tidthr/include/TIDThr/RefCounter.h:87-106 | an object is deleted at most once, and is deleted or due exactly when it was used and its last handle is gone |
| Handles.NoUseAfterDelete | source/TIDThr/tidthr/include/TIDThr/HandleT.h:123-135 | no handle ever counts at an object that is deleted or due to be, and a due deletion has one owner |
| HandlePointers.PointsToWhatItWasGiven | source/TIDThr/tidthr/include/TIDThr/HandleT.h:49-135 | after a creation or an assignment, until the next operation on the handle and whatever the others do, it is bound for the pointer that its source had, and points there when the operation is over; to nothing for null |
| HandlePointers.DestroyedIsGone | source/TIDThr/tidthr/include/TIDThr/HandleT.h:66-76 | a destroyed handle only counts itself out, and is gone when that is over |
| HandlePointers.OperationsEnd | source/TIDThr/tidthr/include/TIDThr/HandleT.h:49-135 | an operation on a handle is never blocked and ends after at most three steps of its own |
| HandlePointers.CountIsPointers | source/TIDThr/tidthr/include/TIDThr/RefCounter.h:67-106 | in a reachable state in which every handle is quiet, the count of an object is the number of handles that point to it |
| ThreadGroup.EnumerateThreads | source/TIDThr/tidthr/tidthr/ThreadGroup.C:157-193 | fills exactly the first min(size, total) places with the threads of the tree in order, returns that count, changes nothing else, terminates |
| ThreadGroup.EnumerateGroups | source/TIDThr/tidthr/tidthr/ThreadGroup.C:235-270 | the same for the groups below a group: its own groups first, then those of each child |
| ThreadListing.ListThreads | source/TIDThr/tidthr/tidthr/ThreadGroup.C:157-193 | in terms of the tables: without recursion the first of the group's own threads, with it these first, the count is the least of the size and the total of all tables of the tree, and with room enough the threads are those of all tables, each as often as it stands there |
| ThreadListing.ThreadsInOrder | source/TIDThr/tidthr/tidthr/ThreadGroup.C:157-193 | the listing starts with the threads of the group, and what is listed of each child stands right behind that of the children before it |
| ThreadListing.ListGroups | source/TIDThr/tidthr/tidthr/ThreadGroup.C:235-270 | the same as ListThreads for the tables of groups |
| ThreadListing.GroupsInOrder | source/TIDThr/tidthr/tidthr/ThreadGroup.C:235-270 | the same as ThreadsInOrder for groups |
| ThreadGroup.FlatHolds | source/TIDThr/tidthr/tidthr/ThreadGroup.C:157-193 | the listing has what some group of the tree has, and nothing else |
| Cdr.RoundTrip | source/TIDorbC/orb/include/TIDorb/core/cdr/CDRInputStream.h:197-366 | wherever the octets of a written value stand, reading its type gives the value and its end |
| Cdr.ReadIsTyped | source/TIDorbC/orb/include/TIDorb/core/cdr/CDRInputStream.h:197-366 | whatever is read has the type asked for, and takes as many octets as it would be written in at that place |
| CdrPlaces.NumbersAreRead | source/TIDorbC/orb/include/TIDorb/core/cdr/CDRInputStream.h:197-330 | an octet is read where it is, a short at the next multiple of 2, a long of 4, a long long and a long double of 8, as 1, 2, 4, 8 and 16 octets |
| CdrPlaces.NumbersAreSkipped | source/TIDorbC/orb/TIDorb/core/cdr/CDRInputStream.C:260-285 | skipping looks for each of them at a multiple of its size |
| CdrPlaces.StringsAreRead | source/TIDorbC/orb/include/TIDorb/core/cdr/CDRInputStream.h:330-366 | a string is its length in four octets at a multiple of 4, and so many octets with the NUL; a length of 0 throws |
| CdrPlaces.SequencesAreRead | source/TIDorbC/orb/TIDorb/core/typecode/SequenceTypeCode.C:72-81 | a sequence is its length in four octets at a multiple of 4, and then its items one behind the other |
| CdrPlaces.StructsAreRead | source/TIDorbC/orb/TIDorb/core/typecode/StructTypeCode.C:220-233 | the members of a structure stand one behind the other, with nothing before the first |
| Cdr.MembersRoundTrip | source/TIDorbC/orb/TIDorb/core/NVListImpl.C:315-352 | the same for values written one after the other |
| Cdr.SkipEndsWhereReadEnds | source/TIDorbC/orb/TIDorb/core/typecode/TypeCodeImpl.C:206-264 | skipping a readable value whose long doubles all stand where multiples of 8 and 16 coincide ends where reading it ends |
| Cdr.SkipArrayEnds | source/TIDorbC/orb/TIDorb/core/cdr/CDRInputStream.C:851-875 | the same for an array: one jump over numbers ends where reading them one by one ends, and the long doubles of other elements must be in place |
| Cdr.SkipIsRightIffPlaced | source/TIDorbC/orb/TIDorb/core/typecode/TypeCodeImpl.C:206-264 | for types in which no string or sequence follows a long double, sequences of such fixed elements among them, skip ends where read ends if and only if every long double stands where both alignments coincide |
| Cdr.NoLongDoubleIsPlaced | source/TIDorbC/orb/TIDorb/core/typecode/TypeCodeImpl.C:206-264 | values of types without long double meet that condition at every position |
| Cdr.LongDoubleIsSkippedWrong | source/TIDorbC/orb/TIDorb/core/cdr/CDRInputStream.C:260-285 | a long double is skipped to its end exactly if the next multiples of 8 and of 16 coincide |
| Cdr.RightByAccident | source/TIDorbC/orb/TIDorb/core/typecode/TypeCodeImpl.C:206-264 | a misplaced long double and a string behind it that are skipped to their end all the same |
| AnyChain.AnyImpl.ReadValue | source/TIDorbC/orb/TIDorb/core/AnyImpl.C:627-846 | the whole effect of read_value on the Any and the stream: joining the chain, reading a basic value, keeping or skipping a structured one |
| AnyChain.AnyImpl.SkipValue | source/TIDorbC/orb/TIDorb/core/AnyImpl.C:849-873 | asked by its successor, an Any gives a stream at its end, whatever part of the chain was resolved before |
| AnyChain.AnyImpl.Extract | source/TIDorbC/orb/TIDorb/core/AnyImpl.C:1124-1162 | extraction of a scalar or string gives the value of an eager reader and keeps the session valid |
| AnyChain.AnyImpl.InitValue | source/TIDorbC/orb/TIDorb/core/AnyImpl.C:188-204 | forcing a structured Any never throws and gives the value of an eager reader |
| AnyChain.Force | source/TIDorbC/orb/TIDorb/core/AnyImpl.C:1124-1162 | forcing any Any of a session, in any state of the chain, gives what an eager reader found there |
| AnyChain.ReadNext | source/TIDorbC/orb/TIDorb/core/AnyImpl.C:627-846 | reading one more Any extends the session by the value that an eager reader finds next, if the one before it can be passed over |
| AnyChain.PlacedIsPassable | source/TIDorbC/orb/TIDorb/core/AnyImpl.C:849-873 | a value with its long doubles in place can be passed over |
| AnyChain.SecondComesOutWrong | source/TIDorbC/orb/TIDorb/core/AnyImpl.C:849-873 | two Anys read from one stream, the first a struct with a misplaced long double: forcing the second gives another value than an eager reader |
| NVList.WriteValue | source/TIDorbC/orb/TIDorb/core/AnyImpl.C:876-904 | appends the held value, or the one still in its stream, and throws exactly if there is none |
| NVList.WriteParamsIn | source/TIDorbC/orb/TIDorb/core/NVListImpl.C:336-352 | appends the values of the in and inout arguments in order |
| NVList.InsAreInAndInout | source/TIDorbC/orb/TIDorb/core/NVListImpl.C:315-352 | the arguments that are written and read are the in and the inout ones, in the order of the list, and no out argument |
| NVList.ReadParamsIn | source/TIDorbC/orb/TIDorb/core/NVListImpl.C:315-334 | turns the in and inout Anys into a valid session over the eager values, changing nothing else, if every value but the last can be passed over |
| NVList.ForceAll | source/TIDorbC/orb/TIDorb/core/AnyImpl.C:849-873 | forcing Anys of a session in any order, with repetitions, gives the eager values |
| NVList.Transfer | source/TIDorbC/orb/TIDorb/core/NVListImpl.C:315-352 | reading what write_params_in wrote restores every in and inout value however they are forced, and leaves out arguments alone, if the long doubles of all values but the last are in place |
| Magnitude.AddMagnitudes | source/TIDorbC/orb/TIDorb/types/BigInt.C:258-271 | the octet loop adds, with the carry out |
| Magnitude.SubMagnitudes | source/TIDorbC/orb/TIDorb/types/BigInt.C:624-646 | the octet loop subtracts modulo 2^256 and says whether a borrow is lost |
| Magnitude.Compare | source/TIDorbC/orb/TIDorb/types/BigInt.C:871-898 | the loop from the highest octet orders magnitudes |
| Magnitude.TimesOctet | source/TIDorbC/orb/TIDorb/types/BigInt.C:300-312 | the loop multiplies by one octet, with the carry out |
| Magnitude.ShiftOctets | source/TIDorbC/orb/TIDorb/types/BigInt.C:387-407 | multiplies by a power of 256, and throws exactly on overflow |
| Magnitude.TimesMagnitude | source/TIDorbC/orb/TIDorb/types/BigInt.C:667-699 | schoolbook multiplication is the product, and throws exactly on overflow |
| Magnitude.Hundred | source/TIDorbC/orb/TIDorb/types/BigInt.C:336-384 | 64, 32 and 4 times a number add up to 100 times, and it throws exactly on overflow |
| Magnitude.Divide | source/TIDorbC/orb/TIDorb/types/BigInt.C:701-804 | long division by trial gives quotient and remainder |
| BigIntOperators.Plus | source/TIDorbC/orb/TIDorb/types/BigInt.C:245-287 | the operator computes what `BigInt.Plus` says, exception included |
| BigIntOperators.Minus | source/TIDorbC/orb/TIDorb/types/BigInt.C:605-664 | the operator computes what `BigInt.Minus` says |
| BigIntOperators.Times | source/TIDorbC/orb/TIDorb/types/BigInt.C:667-699 | the operator computes the product, or throws if it does not fit |
| BigIntOperators.Quotient | source/TIDorbC/orb/TIDorb/types/BigInt.C:701-830 | the quotient is truncated toward zero for all signs, and untouched by a divisor of zero |
| BigIntOperators.Less | source/TIDorbC/orb/TIDorb/types/BigInt.C:871-917 | the operator is the order of the numbers |
| BigIntOperators.AtMost | source/TIDorbC/orb/TIDorb/types/BigInt.C:919-962 | the operator computes what `BigInt.AtMost` says |
| BigIntOperators.Equal | source/TIDorbC/orb/TIDorb/types/BigInt.C:850-862 | the operator is equality of the numbers |
| BigIntText.ToString | source/TIDorbC/orb/TIDorb/types/BigInt.C:490-580 | the rows of the table, the carry between them and the trimming of rows that gave nothing make the decimal numeral with its sign, within the buffer of 101 digits |
| BigIntText.NextRow | source/TIDorbC/orb/TIDorb/types/BigInt.C:521-536 | each row keeps: digits so far and carry are the octets times the low digits of the powers of 256 |
| BigIntText.RowsEnough | source/TIDorbC/orb/TIDorb/types/BigInt.C:1098-1181 | 80 rows are enough for 32 octets |
| BigInt.PlusIsExact | source/TIDorbC/orb/TIDorb/types/BigInt.C:245-287 | the sum is right if and only if it is not a positive plus a negative |
| BigInt.MinusIsExact | source/TIDorbC/orb/TIDorb/types/BigInt.C:605-664 | the difference is right if and only if it is not of two different negatives, or is half of the range |
| BigInt.AtMostIsRight | source/TIDorbC/orb/TIDorb/types/BigInt.C:919-962 | `<=` is right if and only if the numbers are not equal and non-zero, nor zero and a negative |
| BigInt.HundredfoldIs | source/TIDorbC/orb/TIDorb/types/BigInt.C:336-358 | x100 is a power of one hundred, and throws exactly on overflow |
| BigInt.TimesTenIsRight | source/TIDorbC/orb/TIDorb/types/BigInt.C:296-333 | ten times a number by operator*(int) is right if and only if the number is not negative |
| BigInt.TenTimesMinusFive | source/TIDorbC/orb/TIDorb/types/BigInt.C:296-333 | ten times -5 by operator*(int) is -65486 |
| BigInt.TimesTenReturns | source/TIDorbC/orb/TIDorb/types/BigInt.C:296-333 | it never throws for numbers of 31 octets |
| Fixed.Power10Is | source/TIDorbC/orb/TIDorb/core/Fixed.C:937-956 | power10 is the power of ten, hundreds first, for every exponent from 0 up, and 1 or 10 below |
| Fixed.RescaleRounds | source/TIDorbC/orb/TIDorb/core/Fixed.C:1047-1090 | rescale gives the number at the new scale rounded half away from zero, exact when digits are added |
| Fixed.RescaleTruncates | source/TIDorbC/orb/TIDorb/core/Fixed.C:1047-1090 | without rounding it cuts toward zero, by less than one unit |
| Fixed.RescaleReturnsIff | source/TIDorbC/orb/TIDorb/core/Fixed.C:1047-1090 | rescale returns if and only if the mantissa with its new digits, or with half a unit of the digits dropped, fits in 256 bits |
| Fixed.TruncateReturnsIff | source/TIDorbC/orb/TIDorb/core/Fixed.C:1047-1090 | without rounding rescale returns if and only if the new digits fit, or at most 77 are dropped |
| Fixed.RescaleOfEqualNumbers | source/TIDorbC/orb/TIDorb/core/Fixed.C:1047-1090 | rescale depends on the number alone, not on its mantissa and scale |
| Fixed.RescaleUpAndDown | source/TIDorbC/orb/TIDorb/core/Fixed.C:1047-1090 | rescaling up and back is the identity |
| Fixed.TruncationComposes | source/TIDorbC/orb/TIDorb/core/Fixed.C:569-584 | truncating to m and then to n <= m digits is truncating to n, whenever the three of them return |
| Fixed.AlignIs | source/TIDorbC/orb/TIDorb/core/Fixed.C:593-612 | transform gives the same number at the finer scale |
| Fixed.AlignReturnsIff | source/TIDorbC/orb/TIDorb/core/Fixed.C:593-612 | transform returns if and only if both mantissas fit at the finer scale |
| Fixed.AddRounds | source/TIDorbC/orb/TIDorb/core/Fixed.C:1100-1135 | add gives the sum (the left operand for a positive and a negative) rounded at the scale of the result |
| Fixed.SubRounds | source/TIDorbC/orb/TIDorb/core/Fixed.C:1144-1179 | sub gives the difference (its complement for two different negatives) rounded at the scale of the result |
| Fixed.MulRounds | source/TIDorbC/orb/TIDorb/core/Fixed.C:1188-1221 | mul gives the product rounded at the scale of the result |
| Fixed.AddReturnsIff | source/TIDorbC/orb/TIDorb/core/Fixed.C:1100-1135 | add returns if and only if the operands align, their sum fits, and it can be rescaled |
| Fixed.SubReturnsIff | source/TIDorbC/orb/TIDorb/core/Fixed.C:1144-1179 | sub returns if and only if the operands align and the difference, as it is computed, can be rescaled |
| Fixed.MulReturnsIff | source/TIDorbC/orb/TIDorb/core/Fixed.C:1188-1221 | mul returns if and only if the operands align, the aligned product fits, and so does the product plus half a unit |
| Fixed.DivReturnsIff | source/TIDorbC/orb/TIDorb/core/Fixed.C:1231-1278 | div returns if and only if the operands align, the enlarged dividend fits, and the quotient leaves room for its half unit |
| Fixed.GuardDigit | source/TIDorbC/orb/TIDorb/core/Fixed.C:1262-1276 | truncating with one guard digit and then rounding it equals rounding the exact quotient, for all signs |
| Fixed.DivRounds | source/TIDorbC/orb/TIDorb/core/Fixed.C:1231-1278 | for a result scale from -1 up and any non-zero divisor, div returns under the exact condition, and then it is the exact quotient rounded half away from zero |
| Fixed.DivAtNegativeScale | source/TIDorbC/orb/TIDorb/core/Fixed.C:1231-1278 | at a scale of -2 or less div is right if and only if the quotient is below 1/2 (even scale) or 5 (odd scale) |
| Fixed.DivByZero | source/TIDorbC/orb/TIDorb/core/Fixed.C:1231-1278 | dividing by zero gives zero |
| FixedOperators.PlusIsRight | source/TIDorbC/orb/TIDorb/core/Fixed.C:783-803 | with k the greater scale and i the greater number of digits before the point: if k + i + 1 <= 31 the result has scale k and is exact if and only if it is not a positive plus a negative; otherwise it has scale 30 - i and is the nearest number there; it returns if and only if that scale is at most 31 and add returns |
| FixedOperators.MinusIsRight | source/TIDorbC/orb/TIDorb/core/Fixed.C:808-825 | the same for differences, exact if and only if not of two different negatives, and what these give instead |
| FixedOperators.TimesIsRight | source/TIDorbC/orb/TIDorb/core/Fixed.C:830-846 | up to 31 digits together the product is exact at the sum of the scales; otherwise it is the nearest number at 31 - a.digits - b.digits + a.scale + b.scale; it returns if and only if that scale is at most 31 and mul returns |
| FixedOperators.DivideIsRight | source/TIDorbC/orb/TIDorb/core/Fixed.C:851-868 | for scales from 0 to 31 the quotient always returns, nearest at the scale of the dividend, and zero for a divisor of zero |
| FixedOperators.AlignAlwaysReturns | source/TIDorbC/orb/TIDorb/core/Fixed.C:593-612 | transform never throws for scales from 0 to 31 |
| FixedOperators.PlusAlwaysReturns | source/TIDorbC/orb/TIDorb/core/Fixed.C:783-803 | + never throws for scales from 0 to 31 |
| FixedOperators.MinusReturnsUnless | source/TIDorbC/orb/TIDorb/core/Fixed.C:808-825 | - throws for scales from 0 to 31 if and only if two different negatives, whose difference must be rounded, differ by at most half a unit of the digits dropped |
| FixedOperators.TimesReturnsIff | source/TIDorbC/orb/TIDorb/core/Fixed.C:830-846 | * returns for scales from 0 to 31 if and only if the new scale is at most 31 and the aligned product plus half a unit is below 2^256 |
| FixedOperators.NinesTimesNines | source/TIDorbC/orb/TIDorb/core/Fixed.C:830-846 | 31 nines times 31 nines at scale 31 throws although the new scale is accepted |
| FixedOperators.CloseNegatives | source/TIDorbC/orb/TIDorb/core/Fixed.C:808-825 | the difference of two negatives of 31 digits that differ by 1 throws |
| FixedOperators.FiveMinusThree | source/TIDorbC/orb/TIDorb/core/Fixed.C:783-803 | 5 + -3 is 5 |
| FixedOperators.MinusOneMinusMinusTwo | source/TIDorbC/orb/TIDorb/core/Fixed.C:808-825 | -1 - -2 is 2^256 - 1 |
| FixedOperators.FiveHundredByOne | source/TIDorbC/orb/TIDorb/core/Fixed.C:851-868 | 500 / 1 at scale -2 is 50000 |
| FixedComparisons.FourAreRight | source/TIDorbC/orb/TIDorb/core/Fixed.C:876-934 | ==, !=, < and >= are those of the numbers, for all mixed scales at which both fit |
| FixedComparisons.TwoAreRightUnless | source/TIDorbC/orb/TIDorb/core/Fixed.C:910-926 | <= and > are those of the numbers if and only if these are not equal and non-zero, nor zero and a negative |
| FixedComparisons.ComparisonsReturnIff | source/TIDorbC/orb/TIDorb/core/Fixed.C:876-934 | each of the six comparisons returns if and only if both mantissas fit at the finer scale |
| FixedComparisons.ComparisonsAlwaysReturn | source/TIDorbC/orb/TIDorb/core/Fixed.C:876-934 | for scales from 0 to 31 all six always return |
| FixedComparisons.AtMostIsNotReflexive | source/TIDorbC/orb/TIDorb/core/Fixed.C:918-926 | a <= a holds of zero alone |
| FixedComparisons.LessIsTransitive | source/TIDorbC/orb/TIDorb/core/Fixed.C:897-905 | < is transitive |
| FixedComparisons.Trichotomy | source/TIDorbC/orb/TIDorb/core/Fixed.C:876-905 | exactly one of a < b, a == b, b < a holds |
| FixedComparisons.EqualIsAnEquivalence | source/TIDorbC/orb/TIDorb/core/Fixed.C:876-884 | == is reflexive, symmetric and transitive |
| FixedComparisons.OperationsRespectEquality | source/TIDorbC/orb/TIDorb/core/Fixed.C:1100-1278 | equal operands give equal results of +, -, * and / at every scale, also by zero, the differences of two different negatives aside |
| FixedComparisons.DifferencesOfEquals | source/TIDorbC/orb/TIDorb/core/Fixed.C:1144-1179 | -1 and -1.0 are equal, and -1 - -2 and -1.0 - -2 are not |
| FixedVariable.Variable.Assign | source/TIDorbC/orb/TIDorb/core/Fixed.C:648-657 | assignment leaves the nearest number at the variable's scale, and throws above 31 digits after writing |
| FixedVariable.Variable.AddAssign | source/TIDorbC/orb/TIDorb/core/Fixed.C:662-668 | the whole new state after +=, and when it throws |
| FixedVariable.Variable.SubAssign | source/TIDorbC/orb/TIDorb/core/Fixed.C:673-679 | the whole new state after -=, and when it throws |
| FixedVariable.Variable.MulAssign | source/TIDorbC/orb/TIDorb/core/Fixed.C:684-690 | the whole new state after *=, and when it throws |
| FixedVariable.Variable.DivAssign | source/TIDorbC/orb/TIDorb/core/Fixed.C:695-701 | the whole new state after /=, and when it throws |
| FixedVariable.Variable.Adjust | source/TIDorbC/orb/TIDorb/core/Fixed.C:618-642 | terminates, keeps the number, leaves a mantissa that is not a multiple of ten |
| FixedVariable.AdjustedIsUnique | source/TIDorbC/orb/TIDorb/core/Fixed.C:618-642 | equal adjusted numbers have the same mantissa and scale |
| FixedVariable.PlusAssignIsPlus | source/TIDorbC/orb/TIDorb/core/Fixed.C:662-668 | a += b leaves what a = a + b leaves, unless the table exceeds 31 digits |
| FixedVariable.MinusAssignIsMinus | source/TIDorbC/orb/TIDorb/core/Fixed.C:673-679 | the same for a -= b |
| FixedVariable.TimesAssignIsTimes | source/TIDorbC/orb/TIDorb/core/Fixed.C:684-690 | when a * b returns within 31 digits of the table: when a *= b returns and when a = a * b does, exactly, in mantissas and scales; when both do they leave the same |
| FixedVariable.TimesAssignThrows | source/TIDorbC/orb/TIDorb/core/Fixed.C:684-690 | 1 at scale -16 times 1 at scale 31: a *= b throws, a = a * b returns |
| FixedText.TimesTenToTheIs | source/TIDorbC/orb/TIDorb/core/Fixed.C:179-202 | timesTenToThe multiplies numbers that are not negative by the power of ten, and throws exactly on overflow |
| FixedText.TimesTenToTheOfNegative | source/TIDorbC/orb/TIDorb/core/Fixed.C:179-202 | for a negative it does so if and only if the power is even |
| FixedText.TimesTenToTheReturns | source/TIDorbC/orb/TIDorb/core/Fixed.C:179-202 | it never throws for 32 digits and powers up to 31 |
| FixedText.PrintThenRead | source/TIDorbC/orb/TIDorb/core/Fixed.C:214-488 | for every normalised number of at most 31 digits, reading what was printed gives the same number, if and only if it is zero, has a scale from 0 up, or at most 32 printed digits |
| FixedForms.FormIsUnwrapped | source/TIDorbC/orb/TIDorb/core/Fixed.C:218-281 | spaces, a plus sign, the exponent and the suffix d or D are taken off any text of that form, and the exponent is the number that it says |
| FixedForms.BodyIsRead | source/TIDorbC/orb/TIDorb/core/Fixed.C:282-369 | sign, digits, point and digits are read as mantissa and scale, if they fit in 256 bits |
| FixedForms.TextIsRead | source/TIDorbC/orb/TIDorb/core/Fixed.C:214-391 | every text of spaces, sign, digits, point, digits, exponent and suffix is read if and only if at most 32 digits count and the exponent is at most 31, with which scale and digit count, and then it is the number that the text says if and only if this is not a negative with an odd power of ten beyond its digits |
| FixedRefused.StrayD | source/TIDorbC/orb/TIDorb/core/Fixed.C:240-260 | a d that is not the last character makes any text throw |
| FixedRefused.TwoSigns | source/TIDorbC/orb/TIDorb/core/Fixed.C:226-234 | so does a plus sign before a minus sign |
| FixedRefused.NoDigit | source/TIDorbC/orb/TIDorb/core/Fixed.C:282-300 | and a character that is no digit in a number without a point |
| FixedForms.MinusFiftyIsMisread | source/TIDorbC/orb/TIDorb/core/Fixed.C:214-391 | "-5e1" is read as -65486 |
| FixedStrings.BigIntFromText | source/TIDorbC/orb/TIDorb/types/BigInt.C:101-194 | the loop over pairs of digits reads the decimal value, and throws exactly on a bad character or overflow |
| FixedStrings.ExtractFromString | source/TIDorbC/orb/TIDorb/core/Fixed.C:214-391 | the loops of the parser compute `Extracted`, whose meaning `TextIsRead` states |
| FixedStrings.ToString | source/TIDorbC/orb/TIDorb/core/Fixed.C:396-488 | printing through the 100-character buffer gives `Printed`, and stays within the buffer if `WrittenLength` is below 100 |
| FixedPrinted.PrintedShape | source/TIDorbC/orb/TIDorb/core/Fixed.C:396-488 | a printed number other than zero has a minus sign exactly if it is negative, no leading zero but the one before a point, a point exactly if its scale is positive, and no zero at the end of its fraction but a single one |
| FixedPrinted.ZeroIsPrinted | source/TIDorbC/orb/TIDorb/core/Fixed.C:398-403 | zero is printed as "0" |
| FixedStrings.PrintIn | source/TIDorbC/orb/TIDorb/core/Fixed.C:396-488 | in a buffer of any size that is large enough, the text is `Printed` and the terminator is written at `WrittenLength` |
| FixedStrings.BufferIsEnough | source/TIDorbC/orb/TIDorb/core/Fixed.C:411-487 | at most 63 characters are written for 31 digits and a scale between -31 and 31 |
| FixedStrings.BufferIsOverrun | source/TIDorbC/orb/TIDorb/core/Fixed.C:411-487 | for numbers other than zero at scales of -99 or less and of 98 or more, `WrittenLength` is 100 or more; 1 at scale -99 writes its terminator just past the buffer |
| Argv.ModifyParameters | source/TIDorbC/orb/TIDorb/core/ConfORB.C:411-418 | takes n words out in place, keeps the order and the tail of the array |
| Argv.GetParameters | source/TIDorbC/orb/TIDorb/core/ConfORB.C:437-1028 | the scan in place is `Strip`: argv[0] kept, argc drops by two per pair, settings in order, also when it throws; argc - i decreases |
| Argv.StripTakesThePairs | source/TIDorbC/orb/TIDorb/core/ConfORB.C:437-1028 | from any command line of foreign words and accepted pairs exactly the pairs are taken, in order |
| Argv.AcceptedHasPieces | source/TIDorbC/orb/TIDorb/core/ConfORB.C:437-1028 | conversely an accepted command line is made of such words and pairs, but for the last word, which is never looked at |
| Argv.EveryPairTakesTwo | source/TIDorbC/orb/TIDorb/core/ConfORB.C:1025-1026 | the words left and twice the settings are as many as the words given |
| Argv.StripTwice | source/TIDorbC/orb/TIDorb/core/ConfORB.C:437-1028 | a second scan takes nothing |

## Left out

- Nesting counts and reference counts are unbounded; the wrap of a `size_t` is modelled for the value of `Counter` and the count of daemons.
- The deadline arithmetic and the result code of the timed `wait`, and the `wait` on a plain mutex. A timed `wait` takes the steps of the untimed one, and a time-out is the step `Wake`, so the theorems about waits cover it.
- `Monitor`, `Counter`, `Daemon` and `Handles` are state machines over the steps of the code, not classes: they say nothing about the layout of objects in memory. Callers of `wait` are inside the monitor, and a handle is not changed while another one copies it.
- Handles: objects own no handles themselves, so an assignment that releases the last owner of its own right-hand side is not covered.
- Thread groups are read as a value; the insertion and removal of table entries, and `destroy`, are plain map updates. Thread priorities, attributes, signals and `sleep` are calls of the system.
- Scales and digit counts are unbounded integers: the 16-bit wrap of a scale beyond 32767 is not modelled.
- The zero with a minus sign that `BigInt` makes of "-0" is zero here, with the digit count 0 that the code gives it; its unequal comparison with zero is not modelled. `atoi` does not overflow.
- The table of `BigInt::toString` is taken to hold at row j the digit j of each power of 256, and to start no row too late (`Heads`); its 2800 entries are not compared one by one. The cached text is not modelled.
- FixedStrings.ToString: asks for fewer than 100 characters, since the code writes more past its buffer (`PrintIn` states where).
- FixedForms.TextIsRead: texts without any digit, and texts with other characters, are not of its form; `Extracted` models them all.
- Conversions of `Fixed` from and to machine integers and floating point, `++`, `--`, unary operators, `round` beyond `Rescale`.
- CDR: one flat buffer in one byte order, so no chunks and no byte swapping; numbers are their octets; bounds of strings and sequences, enumerations, unions, arrays, aliases, wide characters, object references and nested Anys are not among the types. The null string and `extract_Value` are not modelled.
- AnyChain.ReadNext: asks that an eager reader can read the next value, and that the value before it, if structured, is skipped to its end.
- NVList.ReadParamsIn: asks for the same of all arguments, and that no Any stands twice in the list.
- NVList.Transfer: asks for the same of the arguments of the server, and that the long doubles of all values of the client but the last are in place.
- Anys are read from a stream that an eager reader can read; after a MARSHAL exception in the middle of a chain nothing is said. Overwriting an Any of a chain before it is forced, `equal` and `create_input_stream` are not modelled. `write_value` of an Any that is still dependent throws, as in the code, and is therefore outside `Transfer`, whose client holds its values.
- The meaning of the single ORB options, files and policies: an option is a name with the values that it accepts. The pointer behind the last word of `argv` is not modelled.
- Sockets, SSL, selectors, policies, contexts and the remaining ORB services.
