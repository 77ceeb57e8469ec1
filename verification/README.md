# Lengineset: verified model

A Dafny model of the parts of Lengineset that carry their own logic, with proofs of what
they promise. `dafny verify dfyconfig.toml` checks the project.

- `PathSplitter.dfy` and `MakeDirs.dfy`: `SplitPath` cuts a path at `/`, `\` and `:` through
  a buffer of 261 characters, and `MKdirIsNotExist` creates the missing directories on it.
  The file system is any set of entries closed under parents together with any answer to
  every `mkdir` call.
- `SdsHeader.dfy`: the packed headers of hiredis strings, over an array of bytes. The bytes
  refine a record of type, length and allocation, and the accessors are compared with the
  comment in their header.
- `TickTimer.dfy` and `FrameLoop.dfy`: the tick timer and the main loop it paces, over any
  clock and any calling pattern.
- `EventAdapters.dfy` and `MaskAdapters.dfy`: the event-library adapters of hiredis against
  one pair of interest bits, and what happens when a handler tears the connection down.
- `HiredisOracle.dfy`, `RedisNoBlock.dfy` and `RedisClient.dfy`: the two Redis clients over a
  hiredis that may fail at every call. Contexts and replies have identities, so freeing
  something twice or using it after it was freed violates a precondition.
- `TimeVals.dfy`: `timeval` addition, subtraction and comparison, with aliased operands.

Outside decisions are parameters that every theorem quantifies over: clock readings
(`Clock.at`), granted `mkdir` calls (`FileSystem.grants`), results of hiredis calls
(`Hiredis.connects`, `Hiredis.answers`, the arrivals of a breath), callbacks that call `Exit`
(`World.quits`) and what handlers do (`Act`).

Six places where the code does not do what its comments, names or return values suggest
are kept as the code has them, with the exact condition:

- `SplitPath` drops a character of the path whenever 261 characters come without a
  separator (`NothingLostIff`, `LongNameLosesACharacter`).
- `sdsalloc() = sdsavail() + sdslen()` holds exactly when the length does not exceed the
  allocation; computed in `size_t` only type 32 breaks it (`AllocLawIff`,
  `AllocLawInSizeTIff`, `AllocLawFails`).
- `LRedisNOBlock::Connect2Redis` keeps a refused context, so the next call reports success
  although nothing was ever sent (`RefusedThenSuccess`). A success means a context that was set
  up if and only if none was held before the call, or the last attempt that brought a context
  had succeeded (`Connect2Redis`, `SetUpIffLastOk`).
- The timer that is to call `LoopFps` every frame and `LoopSec` every second loses exactly the
  remainders of its divisions (`ExactLoss`, `HalfAUnitLost`), so nothing if and only if the
  readings at every credit step differ by a multiple of the unit (`LosslessIff`); how much it can
  lose is bounded in `LossBound`, `HalfRateAtMiss` and `PolledRateAtMiss`.
- `evutil_timercmp` compares times correctly for all seconds exactly when the microseconds
  differ by less than a second (`TimerCmpIff`).
- Cleaning up in a handler silences a libuv adapter at once (`SilentAfterCleanup`), but the glib
  source still calls the read handler of that dispatch, exactly when both directions are ready
  and the write handler cleaned up (`LateReadIff`).

## Model

| member | source | states |
|---|---|---|
| PathSplitter.SplitPath | include/fileutil.h:78-125 | the buffer loop returns the specified components of the text before the first NUL, none for a null path; no component is empty or holds a separator but the '/' in front of the first, and together they are that '/' and all other characters of the path iff every 261 characters hold a separator |
| PathSplitter.Feed | include/fileutil.h:96-109 | one character is held, or what is held is pushed and the character dropped; the buffer stays NUL- and separator-free before pos and zero after |
| PathSplitter.Clear | include/fileutil.h:106 | memset empties the buffer |
| PathSplitter.TokensAtSeparator | include/fileutil.h:96-109 | splitting distributes over every separator in every string |
| PathSplitter.TokensOfRun | include/fileutil.h:81-109 | a separator-free run is cut by the buffer's capacity and by nothing else |
| PathSplitter.TokensDetermined | include/fileutil.h:78-125 | any function obeying the two laws above is the splitting function |
| PathSplitter.ChunksShape | include/fileutil.h:96-115 | a run of n characters gives ceil(n/261) pieces, piece k being the characters from 261k on, at most 260 |
| PathSplitter.SplitRange | include/fileutil.h:78-125 | the possible results are exactly the lists of non-empty separator-free names of at most 260 characters, the first possibly with a leading '/' |
| PathSplitter.LeadingSlashIff | include/fileutil.h:88-121 | no component exactly for separators only; the first one starts with '/' exactly when the path starts with '/' or ':' |
| PathSplitter.SplitCutsOut | include/fileutil.h:38-121 | the same law for the specification, with the three characters and the numbers 260 and 261 written out |
| PathSplitter.SplitAtSeparator | include/fileutil.h:96-121 | once there is a component, a separator only starts new ones: what follows is split as after a backslash |
| PathSplitter.SplitAtStart | include/fileutil.h:88-121 | of several separators at the start the first counts; '/' and ':' put a '/' before the first component, a backslash does not |
| PathSplitter.SplitObeys | include/fileutil.h:78-125 | the specification obeys these laws and cuts separator-free text by capacity only |
| PathSplitter.SplitDetermined | include/fileutil.h:78-125 | and is the only function that does |
| PathSplitter.SplitOfJoin | include/fileutil.h:91-121 | joining a list of components as MKdirIsNotExist does and splitting it again gives the list back |
| PathSplitter.SplitRoundTrip | include/fileutil.h:91-154 | split, join, split is split, for every path |
| PathSplitter.NothingLostIff | include/fileutil.h:96-109 | the components hold all non-separator characters in order if and only if every 261 consecutive characters contain a separator |
| PathSplitter.LongNameLosesACharacter | include/fileutil.h:96-109 | a path of 261 letters loses its last letter |
| MakeDirs.FileSystem.constructor | include/fileutil.h:127-157 | a host is any set of entries and any answers to mkdir |
| MakeDirs.FileSystem.Access | include/fileutil.h:141 | access tells whether the entry exists |
| MakeDirs.FileSystem.MakeDir | include/fileutil.h:143 | mkdir succeeds when granted, missing and below an existing parent; it adds that one entry or nothing |
| MakeDirs.MKdirIsNotExist | include/fileutil.h:127-157 | result and final file system are those of the specified walk over the components of the path |
| MakeDirs.MakeAllOutcome | include/fileutil.h:136-156 | from the first missing prefix on, mkdir is called on the prefixes in order until one is refused; the entries gained are exactly the prefixes up to there, and 1 is returned iff none was refused |
| MakeDirs.OutcomeUnique | include/fileutil.h:136-156 | that description leaves one final file system and one result |
| MakeDirs.SucceedsIff | include/fileutil.h:141-149 | 1 is returned iff the host grants a call for each missing prefix, and iff all prefixes exist afterwards |
| MakeDirs.EveryCallIsNeeded | include/fileutil.h:141-143 | every mkdir call is for a missing path not tried before in the call and below an entry that exists by then |
| MakeDirs.ParentOfPrefix | include/fileutil.h:139-153 | each path tested is the one before it, a '/' and the next component, so its parent is the one before it |
| MakeDirs.StaysParentClosed | include/fileutil.h:136-156 | the file system stays closed under parents |
| MakeDirs.NothingLeftToDo | include/fileutil.h:136-156 | after a success, the same path, any leading part of it and the string that was built need no mkdir call and give 1 |
| MakeDirs.RetryConverges | include/fileutil.h:143-149 | after any number of failed attempts a success leaves the entries one fully granted call leaves |
| SdsHeader.SdsLen | include/hiredis/sds.h:86-101 | reads the length of the record at the layout's offset for each of the eight tags |
| SdsHeader.SdsAlloc | include/hiredis/sds.h:179-194 | reads the allocation of the record |
| SdsHeader.SdsSetLen | include/hiredis/sds.h:129-151 | the whole memory afterwards is the one with only the length field rewritten |
| SdsHeader.SdsIncLen | include/hiredis/sds.h:153-176 | the whole memory afterwards is the one with only the length field rewritten, added in size_t and cut to the field |
| SdsHeader.SdsSetAlloc | include/hiredis/sds.h:196-215 | the whole memory afterwards is the one with only the allocation field rewritten; nothing for type 5 |
| SdsHeader.DecodeAppend | include/hiredis/sds.h:46-75 | a byte is its own value and later bytes count 256 times more per byte before them |
| SdsHeader.LenBytes | include/hiredis/sds.h:86-101 | the length as a sum over the bytes in memory, for every tag |
| SdsHeader.AllocBytes | include/hiredis/sds.h:179-194 | the allocation as a sum over the bytes in memory, for every tag |
| SdsHeader.AvailValue | include/hiredis/sds.h:103-127 | sdsavail from sdslen and sdsalloc, with the wrap of each type as a number |
| SdsHeader.WritesInNumbers | include/hiredis/sds.h:129-215 | what sdslen and sdsalloc return after each write: the number modulo 2^5, 2^8, 2^16, 2^32 or 2^64 in its field, the other field as before |
| SdsHeader.SetLenShort | include/hiredis/sds.h:129-151 | the byte sdssetlen leaves for types 5 and 8 |
| SdsHeader.OpRefines | include/hiredis/sds.h:46-215 | one write acts on the record modulo 2^5, 2^8, 2^16, 2^32 or 2^64 and keeps the tag |
| SdsHeader.OpFrame | include/hiredis/sds.h:129-215 | one write changes no byte outside its field |
| SdsHeader.RunRefines | include/hiredis/sds.h:46-215 | any sequence of writes refines the sequence on the record; payload, neighbours, tag and upper flag bits survive |
| SdsHeader.RunsAgreeIff | include/hiredis/sds.h:129-215 | two sequences of writes leave the same memory iff they do the same to the record |
| SdsHeader.RunsCompose | include/hiredis/sds.h:129-215 | a sequence of writes goes on from where the one before it left off, and one write is what the accessor does |
| SdsHeader.IncrementsAdd | include/hiredis/sds.h:153-176 | two increments are one increment by their size_t sum, byte for byte |
| SdsHeader.IncrementUndone | include/hiredis/sds.h:153-176 | an increment by the two's complement restores the memory |
| SdsHeader.FieldsIndependent | include/hiredis/sds.h:129-215 | writes of length and allocation commute, byte for byte |
| SdsHeader.SetLenExactIff | include/hiredis/sds.h:86-151 | sdslen returns what sdssetlen stored iff the type has room for it |
| SdsHeader.SdsAvail | include/hiredis/sds.h:103-127 | allocation minus length; when the length is larger, that plus 2^32 for type 32 and plus 2^64 otherwise |
| SdsHeader.AllocLawIff | include/hiredis/sds.h:178-194 | the commented law holds, as numbers, iff len <= alloc |
| SdsHeader.AllocLawInSizeTIff | include/hiredis/sds.h:117-127 | in size_t the law holds iff the type is not 32 or len <= alloc |
| SdsHeader.AllocLawFails | include/hiredis/sds.h:117-120 | nine concrete bytes that break it |
| SdsHeader.GrowWithinAvail | include/hiredis/sds.h:103-194 | an increment within sdsavail keeps len <= alloc and sdsalloc, and lowers sdsavail by itself |
| SdsHeader.GrowRepeatedly | include/hiredis/sds.h:103-194 | so does any sequence of increments whose total fits |
| TickTimer.LUTimer.constructor | include/ltimer.h:57-60 | a new timer is one just initialised, with credit 0 |
| TickTimer.LUTimer.Initialize | include/ltimer.h:63-68 | both clock marks are reset, credit and history are empty |
| TickTimer.LUTimer.GetPass | include/ltimer.h:70-73 | whole units since m_pass, cut towards zero in both directions, for one reading |
| TickTimer.LUTimer.Ticking | include/ltimer.h:75-90 | fields, result and number of clock readings follow the specified step, and are written out in the two readings, also for a clock that goes back |
| TickTimer.Conservation | include/ltimer.h:75-90 | after every history m_ticker is the credit minus the calls let through, and at least -1 |
| TickTimer.CreditWithinTime | include/ltimer.h:70-82 | credit never exceeds the time between initialize and m_pass |
| TickTimer.RateBound | include/ltimer.h:63-90 | for every monotone clock and every calling pattern at most 1 + floor(elapsed units) calls are let through |
| TickTimer.ExactLoss | include/ltimer.h:70-82 | for every clock and calling pattern the time gone past, apart from the gaps, is the credit plus the sum of the remainders of the divisions |
| TickTimer.LossBound | include/ltimer.h:77-82 | each credit step loses less than one unit besides the gap between its two readings, for every clock |
| TickTimer.LossAtMostHalf | include/ltimer.h:77-82 | the time accounted for stays below twice the credit, for every clock |
| TickTimer.LosslessIff | include/ltimer.h:70-82 | credit never exceeds the time accounted for, and equals it iff the readings at every credit step differ by a multiple of the unit |
| TickTimer.NothingLostIff | include/ltimer.h:70-82 | those remainders sum to zero iff the unit divides the difference of the readings at every credit step |
| TickTimer.HalfAUnitLost | include/ltimer.h:70-82 | a unit of two ticks and one call after three: half a unit is never credited |
| TickTimer.MissMeansCaughtUp | include/ltimer.h:85-89 | a call not let through proves that exactly one call more than the credit was let through and less than a unit is pending |
| TickTimer.HalfRateAtMiss | include/ltimer.h:75-90 | at every miss, calls let through cover at least half of the elapsed time, whatever the pattern |
| TickTimer.PolledDrift | include/ltimer.h:70-82 | called at most delta apart (less than a unit), the timer credits one unit at a time and drifts by at most delta per unit |
| TickTimer.PolledRateAtMiss | include/ltimer.h:75-90 | then at every miss the rate is at least one call per unit plus delta |
| TickTimer.CatchUp | include/ltimer.h:85-89 | a ticker of b lets the next b + 1 calls through, whatever the clock says |
| TickTimer.CatchUpEnds | include/ltimer.h:77-89 | without new credit the call after those is not let through |
| FrameLoop.FpsInLowestTerms | project/app/myapp.h:7 | counting units of 1/18 s with the reduced ratio gives the same number |
| FrameLoop.LuMyApp.constructor | project/app/myapp.h:57-59 | not running, two independent timers |
| FrameLoop.LuMyApp.Init | project/app/myapp.cpp:14-21 | both timers start anew, the seconds timer first |
| FrameLoop.LuMyApp.Exit | project/app/myapp.cpp:52-56 | the running flag is cleared |
| FrameLoop.LuMyApp.Loop | project/app/myapp.cpp:41-50 | one iteration: LoopMSec, then LoopFps and LoopSec as their timers say |
| FrameLoop.LuMyApp.FpsIfDue | project/app/myapp.cpp:45-46 | LoopFps runs iff its timer lets the call through: with m_ticker at -1, iff 18 times the nanoseconds since m_pass are at least 10^9 |
| FrameLoop.LuMyApp.SecIfDue | project/app/myapp.cpp:48-49 | LoopSec runs iff its timer lets the call through: with m_ticker at -1, iff at least 10^9 nanoseconds have passed since m_pass |
| FrameLoop.LuMyApp.Callback | project/app/myapp.h:53-55 | a callback is logged and clears the running flag iff it calls Exit |
| FrameLoop.LuMyApp.Run | project/app/myapp.cpp:31-39 | sets the flag and iterates while it stays set |
| FrameLoop.FramesKeep | project/app/myapp.cpp:31-50 | after any number of iterations the callback counts are the timers' hits, each timer was asked once per iteration and its readings are in order |
| FrameLoop.CallbackBounds | project/app/myapp.cpp:14-50 | LoopMSec runs once and each timer is asked once per iteration; for n iterations and d nanoseconds LoopFps runs at most min(n, 1 + 18 d / 10^9) and LoopSec at most min(n, 1 + d / 10^9) times, in the order of the loop body |
| FrameLoop.FrameEndsByExit | project/app/myapp.cpp:41-56 | an iteration leaves the flag set iff none of its callbacks called Exit |
| FrameLoop.LoopUntilExit | project/app/myapp.cpp:31-56 | any loop ended by Exit alone goes on iff no callback so far has called Exit |
| FrameLoop.ExitEndsLoop | project/app/myapp.cpp:31-56 | in any such loop the first iteration in which Exit is called is completed and is the last |
| FrameLoop.RunsUntilExit | project/app/myapp.cpp:31-56 | the iterations of Run go on iff no callback so far has called Exit |
| FrameLoop.ExitEndsRun | project/app/myapp.cpp:31-56 | the first iteration of Run in which Exit is called is completed and is the last |
| FrameLoop.ExitLawOfFrames | project/app/myapp.cpp:31-56 | read off the callbacks of a run: it goes on iff none called Exit, has then made every iteration, and no LoopMSec follows a callback that called Exit |
| FrameLoop.InitAndRun | project/app/myapp.cpp:14-56 | a new application after Init and Run meets the bounds from the readings Init took, the order of the callbacks and the exit law |
| EventAdapters.OnlyLastHookCounts | include/hiredis/async.h:79-86 | after any sequence of hooks each direction is as the last hook naming it says, so hooks are idempotent |
| EventAdapters.WantedIff | include/hiredis/async.h:79-86 | from nothing on, a direction is wanted iff some hook added it and no later one deleted it |
| EventAdapters.AlternationBalances | include/hiredis/adapters/ae.h:59-93 | strictly alternating calls have one registration more than deletions exactly while a direction is on |
| EventAdapters.FlagAdapter.Attach | include/hiredis/adapters/ae.h:102-126 | nothing is watched or registered |
| EventAdapters.FlagAdapter.AddReadHook | include/hiredis/adapters/ae.h:59-66 | read is watched, registered once, and calls stay alternating |
| EventAdapters.FlagAdapter.DelReadHook | include/hiredis/adapters/ae.h:68-75 | read is not watched, deleted only if registered |
| EventAdapters.FlagAdapter.AddWriteHook | include/hiredis/adapters/libev.h:86-94 | write is watched, started once, and calls stay alternating |
| EventAdapters.FlagAdapter.DelWriteHook | include/hiredis/adapters/libev.h:96-104 | write is not watched, stopped only if started |
| EventAdapters.FlagAdapter.Drive | include/hiredis/adapters/libev.h:66-104 | after every sequence of hooks the flags are the reference interest and both directions alternate |
| EventAdapters.FlagAdapter.Cleanup | include/hiredis/adapters/ae.h:95-100 | from every reachable state exactly what is registered is deleted, nothing is left, and the adapter is freed, after which no hook may be called |
| EventAdapters.AttachAndDrive | include/hiredis/adapters/ae.h:59-126 | a new adapter after any hooks: each flag is up iff its direction was added and not deleted since, and iff there is one registration more than deletions of it |
| EventAdapters.QtAdapter.constructor | include/hiredis/adapters/qt.h:72-73 | nothing is held or created |
| EventAdapters.QtAdapter.AddReadHook | include/hiredis/adapters/qt.h:96-100 | a notifier is created only if there is none; created minus deleted is what is held |
| EventAdapters.QtAdapter.DelReadHook | include/hiredis/adapters/qt.h:102-106 | the read notifier, if any, is deleted once |
| EventAdapters.QtAdapter.AddWriteHook | include/hiredis/adapters/qt.h:108-112 | as for read |
| EventAdapters.QtAdapter.DelWriteHook | include/hiredis/adapters/qt.h:114-118 | as for read |
| EventAdapters.QtAdapter.Drive | include/hiredis/adapters/qt.h:96-118 | after every sequence of hooks the notifiers held are the reference interest |
| EventAdapters.QtAdapter.Cleanup | include/hiredis/adapters/qt.h:120-123 | every notifier ever created has been deleted |
| EventAdapters.AttachAndDriveQt | include/hiredis/adapters/qt.h:72-118 | a new adapter after any hooks holds a notifier iff the direction was added and not deleted since; created minus deleted is what it holds |
| MaskAdapters.LibuvAdapter.Attach | include/hiredis/adapters/libuv.h:91-121 | context present, mask and handle empty |
| MaskAdapters.LibuvAdapter.Hooked | include/hiredis/adapters/libuv.h:32-73 | bit 1 of the mask follows the read hooks and bit 2 the write hooks; the mask is the reference interest, and an open handle watches for exactly the mask, stopped when it is zero |
| MaskAdapters.LibuvAdapter.Cleanup | include/hiredis/adapters/libuv.h:83-88 | no context, handle inactive for good |
| MaskAdapters.LibuvAdapter.Perform | include/hiredis/adapters/libuv.h:32-88 | any sequence of hooks and cleanups a handler may run: interest as by its hooks, context gone iff it cleaned up |
| MaskAdapters.LibuvAdapter.Poll | include/hiredis/adapters/libuv.h:16-29 | which handlers one event reaches, by status and the bits 1 and 2, given what they do while they run; and the interest by the hooks of those that ran |
| MaskAdapters.LibuvAdapter.Take | include/hiredis/adapters/libuv.h:16-88 | context, interest and handler calls after one event or one sequence of actions |
| MaskAdapters.LibuvAdapter.Drive | include/hiredis/adapters/libuv.h:16-88 | context, interest and handler calls over any run of events and actions; the handle watches for the mask while there is a context |
| MaskAdapters.SilentAfterCleanup | include/hiredis/adapters/libuv.h:23-28 | after any run in which cleanup has run, no later step of any event calls a handler |
| MaskAdapters.ReadCleanupIsLast | include/hiredis/adapters/libuv.h:23-28 | when the read handler cleans up it is the last handler ever called, the write half of the same event included |
| MaskAdapters.HooksOfEach | include/hiredis/adapters/libuv.h:32-88 | of what a handler does each hook counts, in order |
| MaskAdapters.RunsCompose | include/hiredis/adapters/libuv.h:16-88 | a run of events and actions goes on from where the run before it left off |
| MaskAdapters.AttachAndHook | include/hiredis/adapters/libuv.h:32-121 | a new adapter after any hooks: bit 1 iff read was added and not deleted since, bit 2 iff write was, no other bit, and the handle watches for that mask |
| MaskAdapters.HookAndDeliver | include/hiredis/adapters/libuv.h:16-121 | then an event for all that is watched calls the handlers of the directions last added, the write handler unless the read handler cleaned up |
| MaskAdapters.GlibSource.New | include/hiredis/adapters/glib.h:122-151 | nothing wanted, nothing pending, the descriptor attached |
| MaskAdapters.GlibSource.Hooked | include/hiredis/adapters/glib.h:16-50 | bit 1 of the mask follows the read hooks and bit 4 the write hooks; the mask is the reference interest and holds no other bit |
| MaskAdapters.GlibSource.Drive | include/hiredis/adapters/glib.h:16-50 | after every sequence of hooks too |
| MaskAdapters.GlibSource.RemovePoll | include/hiredis/adapters/glib.h:111-120 | the descriptor is removed from the source at most once |
| MaskAdapters.GlibSource.Cleanup | include/hiredis/adapters/glib.h:52-69 | nothing is wanted and a valid descriptor has been removed exactly once |
| MaskAdapters.GlibSource.Perform | include/hiredis/adapters/glib.h:16-69 | any sequence of hooks and cleanups a handler may run: cleanup withdraws both interests and invalidates the descriptor |
| MaskAdapters.GlibSource.DispatchWrite | include/hiredis/adapters/glib.h:94-97 | the write half of a dispatch |
| MaskAdapters.GlibSource.DispatchRead | include/hiredis/adapters/glib.h:99-102 | the read half of a dispatch |
| MaskAdapters.GlibSource.Ready | include/hiredis/adapters/glib.h:71-85 | prepare and check say ready iff a wanted direction is pending, bit 1 for reading and bit 4 for writing |
| MaskAdapters.GlibSource.Dispatch | include/hiredis/adapters/glib.h:87-109 | write handler for bit 4, then read handler for bit 1 of revents, whatever they do; interest, descriptor and cleanup follow what the handlers that ran did, and prepare and check then say not ready |
| MaskAdapters.LateReadIff | include/hiredis/adapters/glib.h:94-102 | the read handler is called after a cleanup of the same dispatch iff both bits are set and the write handler cleaned up |
| MaskAdapters.GlibAfterOne | include/hiredis/adapters/glib.h:16-69 | one act of a handler: a hook changes the interest as everywhere, a cleanup ends it |
| MaskAdapters.GlibAfterAppend | include/hiredis/adapters/glib.h:16-69 | the acts of a handler take effect one after the other |
| MaskAdapters.NewAndHook | include/hiredis/adapters/glib.h:16-151 | a new source after any hooks: bit 1 iff read was added and not deleted since, bit 4 iff write was, and no other bit |
| MaskAdapters.HookAndDispatch | include/hiredis/adapters/glib.h:16-151 | then a dispatch with all that is wanted ready calls the handlers of the directions last added, writing first |
| HiredisOracle.Hiredis.FreeReply | project/hiredis/redisdef.h:50-58 | a reply is freed at most once |
| HiredisOracle.Hiredis.Free | project/hiredis/redisdef.h:30-38 | a context is freed at most once |
| RedisNoBlock.SawMessageIff | project/hiredis/redisnoblock.cpp:122-194 | a message was seen iff, before the first read that brings no reply, there is an array of at least three whose first is a string beginning with message or MESSAGE |
| RedisNoBlock.LRedisNOBlock.constructor | project/hiredis/redisnoblock.cpp:4-12 | no context, no settings, no wish to unsubscribe |
| RedisNoBlock.LRedisNOBlock.Init | project/hiredis/redisnoblock.cpp:34-55 | all settings are stored, an address of at most 32 and a password of at most 31 characters whole and longer ones cut to that; or none is |
| RedisNoBlock.LRedisNOBlock.Uninit | project/hiredis/redisnoblock.cpp:19-32 | the context is freed and the settings are cleared, the wish to unsubscribe is not |
| RedisNoBlock.LRedisNOBlock.Connect2Redis | project/hiredis/redisnoblock.cpp:58-100 | success iff a context was held or a usable one was made; a context is held then and also after a refusal; success means a context that was set up iff none was held before or the last attempt to bring one had succeeded; a success on a new context has sent AUTH and SELECT with the settings and the two SUBSCRIBEs, with nothing left to write |
| RedisNoBlock.SetUpIffLastOk | project/hiredis/redisnoblock.cpp:58-128 | the newest context has received its setup iff it was usable; a refused one has not been sent AUTH |
| RedisNoBlock.LRedisNOBlock.Open | project/hiredis/redisnoblock.cpp:67-86 | one attempt: the context is kept unless there is none, and set up iff usable |
| RedisNoBlock.LRedisNOBlock.SetUp | project/hiredis/redisnoblock.cpp:71-86 | the new context has received the four commands and everything is written |
| RedisNoBlock.LRedisNOBlock.Send | project/hiredis/redisnoblock.cpp:71-72 | one command more on the context held, and its reply freed |
| RedisNoBlock.LRedisNOBlock.Flush | project/hiredis/redisnoblock.cpp:117-120 | the loop ends with nothing left to write |
| RedisNoBlock.LRedisNOBlock.TryGetReply | project/hiredis/redisnoblock.cpp:130-137 | a reply iff the read succeeds and one is complete |
| RedisNoBlock.LRedisNOBlock.ProcessChannelMsg | project/hiredis/redisnoblock.cpp:163-194 | the wish to unsubscribe is set by a message array of more than two elements only |
| RedisNoBlock.LRedisNOBlock.SendBlock | project/hiredis/redisnoblock.cpp:107-115 | UNSUBSCRIBE messagechat first iff wished, which ends the wish, then PING |
| RedisNoBlock.LRedisNOBlock.Drain | project/hiredis/redisnoblock.cpp:122-127 | every reply is freed and the wish is set iff a message was among them |
| RedisNoBlock.LRedisNOBlock.Breath | project/hiredis/redisnoblock.cpp:102-128 | UNSUBSCRIBE messagechat exactly if wished, then PING, and nothing is left to write; the wish is renewed by what is drained |
| RedisNoBlock.AskedIffSawBefore | project/hiredis/redisnoblock.cpp:107-112 | in every history a breath unsubscribes iff the breath before it on the object saw a message, across reconnects |
| RedisNoBlock.CommandsOfContext | project/hiredis/redisnoblock.cpp:71-128 | every context has received AUTH and SELECT with the settings at its opening and the two SUBSCRIBEs, if usable; then one PING per breath, directly after UNSUBSCRIBE messagechat iff the breath asked; and nothing else |
| RedisNoBlock.MakeCall | project/hiredis/redisnoblock.cpp:19-128 | one public call changes settings, context, attempts and history as specified; what Init, Connect2Redis, Breath and Uninit do first of all is written out |
| RedisNoBlock.AnyRun | project/hiredis/redisnoblock.cpp:19-128 | every sequence of public calls has exactly the specified effect and is made up to a breath without context, if there is one; one unfreed context iff one is held, and no unfreed reply |
| RedisNoBlock.RunsCompose | project/hiredis/redisnoblock.cpp:19-128 | a run of calls goes on from where the run before it left off, and one call is one step |
| RedisNoBlock.BreathsOfRun | project/hiredis/redisnoblock.cpp:102-128 | the breaths in the history are the breath calls made, in order, each with whether a message was among its replies |
| RedisNoBlock.SawOfCallsAt | project/hiredis/redisnoblock.cpp:102-128 | the n-th of these belongs to the n-th breath call |
| RedisNoBlock.AskedIsDelayedSaw | project/hiredis/redisnoblock.cpp:107-128 | over a whole history the wishes carried out are the messages seen, one breath later |
| RedisNoBlock.PingLawOfHistory | project/hiredis/redisnoblock.cpp:71-128 | in the commands of every history one PING per breath, the n-th directly after UNSUBSCRIBE messagechat iff that breath asked, and UNSUBSCRIBE nowhere else |
| RedisNoBlock.FlatLog | project/hiredis/redisnoblock.cpp:71-128 | the commands of all contexts, one after the other, are the setups and blocks of the history in order |
| RedisNoBlock.RunOfNew | project/hiredis/redisnoblock.cpp:4-128 | a new object and any sequence of calls: among all commands sent there is one PING per breath made, and the n-th comes directly after UNSUBSCRIBE messagechat iff a message was among the replies of the breath call before it; UNSUBSCRIBE occurs nowhere else |
| RedisNoBlock.RefusedThenSuccess | project/hiredis/redisnoblock.cpp:64-69 | the failing case: after a refused connect a second call returns 1 on a context that has received nothing |
| RedisClient.LRedisClient.constructor | project/hiredis/redisclient.cpp:4-11 | no context, no settings |
| RedisClient.LRedisClient.FreeRes | project/hiredis/redisclient.cpp:27-31 | the context held, if any, is freed and forgotten |
| RedisClient.LRedisClient.Init | project/hiredis/redisclient.cpp:33-54 | all settings are stored, an address of at most 32 and a password of at most 31 characters whole and longer ones cut to that; or none is |
| RedisClient.LRedisClient.Uninit | project/hiredis/redisclient.cpp:18-31 | the context is freed, the settings are cleared |
| RedisClient.LRedisClient.Connect | project/hiredis/redisclient.cpp:56-82 | success iff a context was held or a usable one was made; attempts and log in every case; a refused context is kept |
| RedisClient.LRedisClient.Ask | project/hiredis/redisclient.cpp:84-132 | AUTH or SELECT: nothing without a context; otherwise sent once, success iff there is an answer, which is freed |
| RedisClient.LRedisClient.Login | project/hiredis/redisclient.cpp:141-145 | SELECT is sent only after AUTH was answered; success iff both were |
| RedisClient.LRedisClient.Connect2Redis | project/hiredis/redisclient.cpp:134-156 | 1 iff connected and both commands were answered, and 1 iff a context is held afterwards; what was tried and sent in every case |
| RedisClient.LRedisClient.ReConnect2Redis | project/hiredis/redisclient.cpp:158-173 | the same from no context, so on success the session runs on a new context that has received AUTH and SELECT only |
| RedisClient.LRedisClient.Store | project/hiredis/redisclient.cpp:175-190 | the command is sent once if its arguments pass; success iff the answer is there and is no error; it is freed |
| RedisClient.LRedisClient.GetString | project/hiredis/redisclient.cpp:192-214 | GET is sent once if the arguments pass; success iff the answer is a string shorter than the buffer, which then holds its text and NULs; otherwise untouched |
| RedisClient.LRedisClient.StrNCpy | project/hiredis/redisclient.cpp:207-208 | the buffer begins with the text up to its first NUL and holds NULs from there on |
| RedisClient.LRedisClient.GetByte | project/hiredis/redisclient.cpp:278-298 | the command is sent once if the arguments pass; copies what fits, returns how much, leaves the rest of the buffer |
| RedisClient.MakeCall | project/hiredis/redisclient.cpp:18-298 | one public call changes settings, context, attempts and log as specified; when a context is held after it and how many commands it issues is written out |
| RedisClient.AnyRun | project/hiredis/redisclient.cpp:18-298 | every sequence of public calls has exactly the specified effect and is made up to a store or get without context, if there is one; one unfreed context iff one is held, and no unfreed reply |
| RedisClient.RunsCompose | project/hiredis/redisclient.cpp:18-298 | a run of calls goes on from where the run before it left off, and one call is one step |
| RedisClient.StepInOrder | project/hiredis/redisclient.cpp:18-298 | one public call keeps the laws of `RunInOrder` |
| RedisClient.RunInOrder | project/hiredis/redisclient.cpp:18-298 | over every run every command issued is in the log, no context was sent anything before AUTH, and the one held has been sent AUTH and SELECT first |
| RedisClient.RunOfNew | project/hiredis/redisclient.cpp:4-298 | a new object after any sequence of public calls meets the laws of `RunInOrder` |
| TimeVals.TimerAdd | include/libevent/event2/util.h:518-526 | exact in microseconds for all operands and every aliasing; normalised iff the microseconds sum to 0 or more and less than two seconds; on normal operands the normal time of the sum |
| TimeVals.TimerSub | include/libevent/event2/util.h:527-535 | exact likewise; normalised iff the microseconds differ by at most a second downwards and less than one upwards; on normal operands the normal time of the difference |
| TimeVals.AddThenSub | include/libevent/event2/util.h:518-535 | adding and then subtracting in place restores the first operand |
| TimeVals.SubThenAdd | include/libevent/event2/util.h:518-535 | subtracting and then adding in place restores the first operand |
| TimeVals.AddIntoSecond | include/libevent/event2/util.h:518-535 | a sum written over the second operand is undone by subtracting the first |
| TimeVals.SubIntoSecond | include/libevent/event2/util.h:527-535 | a difference written over the second operand is undone by doing it again |
| TimeVals.SumDifference | include/libevent/event2/util.h:518-535 | on normal times addition and subtraction undo each other, in either order and either operand |
| TimeVals.TimerCmpMeans | include/libevent/event2/util.h:547-550 | when the microseconds differ by less than a second, ==, <=, <, >= and > compare seconds times 10^6 plus microseconds |
| TimeVals.TimerCmpAgrees | include/libevent/event2/util.h:547-550 | all five comparisons are those of total microseconds |
| TimeVals.TimerCmpIff | include/libevent/event2/util.h:547-550 | they are for all seconds iff the microseconds differ by less than a second |
| TimeVals.AddingKeepsOrder | include/libevent/event2/util.h:518-550 | adding the same time on both sides changes no comparison |
| TimeVals.AddToBoth | include/libevent/event2/util.h:518-550 | adding the same time to both in place changes no comparison |

## Left out

- SplitPath: the loop index is an int in the source and never overflows here.
- FileSystem: entries are names only; ".", "..", symbolic links, permissions, Windows drives and changes made by others during a call are not modelled.
- SdsHeader: fields are little-endian; the C code leaves the byte order to the machine.
- LUTimer: 64-bit overflow of the product inside duration_cast and of m_ticker is not modelled; the LUClock getters only repeat one cast.
- LuMyApp.Run: the loop may run forever, so it is observed for at most a given number of iterations, and the theorems hold for every number; sleeping only moves the clock.
- LuMyApp.Callback: a callback may call Exit and nothing else of the object.
- FlagAdapter: one class stands for ae.h and libev.h, whose hooks are the same flags around their library's two calls; those calls are taken to succeed.
- FlagAdapter.Attach: a context that already has event data, which is refused, and failing allocation are not modelled; the same holds for the other adapters.
- FlagAdapter.Cleanup: freeing the adapter is a mark after which no method may be called; memory itself is not modelled.
- LibuvAdapter.Attach: failures of allocation and of uv_poll_init, and a context that already has event data, are not modelled.
- LibuvAdapter.Hooked: failures of uv_poll_start are not modelled.
- LibuvAdapter.Cleanup: a closed handle is taken to stay inactive; freeing it later in on_close is not modelled.
- QtAdapter: signal connections and the destructor are not modelled.
- GlibSource: waking the main context and the user callback of dispatch are not modelled.
- The libevent, ivykis and macosx adapters start with other interests and are not part of this model.
- Hiredis: the bodies of the library are not part of this model; a command counts as sent when redisCommand was called with it.
- LRedisNOBlock.Flush: every redisBufferWrite is taken to make progress; on a write error the loop in the source would not end.
- LRedisNOBlock.Breath: it needs a context, since redisCommand dereferences it; the same holds for the store and get methods of LRedisClient.
- LRedisClient.Store: one method stands for SetString, SetByte and HSetByte; how values are formatted into commands is not modelled.
- LRedisClient.GetString: a null output buffer is treated like one of length 0; both give 0 and send nothing.
- LRedisClient.GetByte: stands for HGetByte as well; a null output buffer is treated like one of length 0.
- TimeVals: overflow of time_t is not modelled.
- RMdirIsExist, console output and error logging.
- ProcessPing only prints; LRedisAsyncClient is callbacks of the library.
