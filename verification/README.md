# Verified model of the Modbus-to-DNP3 gateway

A Dafny model of the gateway in `RPI_slavednp3` and of two small opendnp3 state
machines, with proofs about every input, every run and every interleaving.

The gateway reads points from Modbus devices, one thread per point, and publishes
them into a DNP3 outstation; commands travel the other way. Its points come from a
text file that a web page edits.

| file | models |
|---|---|
| `PointTypes.dfy`, `Text.dfy` | value types of the gateway; trimming, getline, `stoi` and decimal printing on byte strings |
| `PointsCsv.dfy`, `FileHeader.dfy` | the points file: parser, printer, loader, writer |
| `ConfigStore.dfy`, `PointForm.dfy`, `TypedForm.dfy`, `Startup.dfy` | add, delete and clear on the raw text, the add form, what a start does |
| `RegisterCodec.dfy`, `Modbus.dfy` | values to registers and back, device memory, reads and writes |
| `PointState.dfy`, `Commands.dfy`, `Gateway.dfy` | point states, the command map, the gateway object end to end |
| `OutstationDatabase.dfy` | the database layout builder |
| `Threads.dfy`, `Publishing.dfy`, `Collisions.dfy` | all threads interleaved over four mutexes |
| `DeviceRuns.dfy` | the same over the memory of the devices |
| `Deployment.dfy` | the parts together |
| `WebText.dfy`, `EventLog.dfy` | form encoding, query parser, HTML and JSON escaping; the recent-log buffer |
| `ResourceManager.dfy`, `ListenCallbacks.dfy` | opendnp3's resource manager and the example's session list |

Loops and objects of the source are methods and classes proved against
specification functions; what the source promises is proved about those functions.
Blocking, scheduling, connection outcomes and times are arbitrary. `dafny verify
dfyconfig.toml` checks everything.

## What the code does not promise

Where a natural property is false of the code, the exact condition is proved.

- Two points with one (binary/analog, index) key, possible in a hand-edited file,
  overwrite each other's entry: `Collisions.NonInterferenceExactly`.
- An added line is written raw. With a newline in it, it is accepted as one point
  and read back as two, which can get past the key check. When it agrees with the
  list, and when keys stay unique: `ConfigStore.AddAgreesExactly`,
  `ConfigStore.AddStaysDistinctExactly`; a failing family:
  `ConfigStore.NewlineBreaksUniqueness`, which `TypedForm.NewlineArrives` sends
  through the form.
- Index 65535 keeps the 16-bit counter loop of the database builder from ending, so
  a start never finishes. The index text `-1` is stored as 65535:
  `Deployment.StartBuilderEndsExactly`, `Deployment.MinusOneHangsBuilder`.
  `OutstationDatabase.FillDense` and `ConfigureDatabase` therefore require smaller
  indices.
- The database layout depends on the order of two analog points at one index with
  different variations: `OutstationDatabase.OrderIrrelevantExactly`.
- Old example points stay listed but not running when the file could not be
  cleared: `Startup.ListedResolveExactly`, at `Startup.OldExampleStays`.
- A second start changes the file when the first had to write it and could not:
  `Startup.StartTwice`, at `Startup.SecondStartCreates`.
- With one session id on two connections, a close removes only the first of them:
  `ListenCallbacks.CloseAgreesExactly`, at `ListenCallbacks.ReusedIdBreaksMap`.

## Model

| member | source | states |
|---|---|---|
| `Collisions.NonInterferenceExactly` | RPI_slavednp3/src/Dnp3.cpp:88-194 | For every point list: in every reachable state of every interleaving each database entry equals the published value of its own point's whole read history, or of all of it but the last read, if and only if no two points share a (binary/analog, index) key |
| `Collisions.CollisionInterferes` | RPI_slavednp3/src/Dnp3.cpp:88-105 | With two points on one key a concrete reachable run leaves one point's entry showing the other's zero |
| `Collisions.CollidingRun` | RPI_slavednp3/src/Dnp3.cpp:110-171 | That run: two good reads of one point, one failed read of the other, and the value the shared entry ends with |
| `Collisions.PollEffect` | RPI_slavednp3/src/Dnp3.cpp:110-171 | The lock-by-lock code of a poll, run alone, has exactly the effect of one sequential poll on state, entry and history |
| `Collisions.PollReaches` | RPI_slavednp3/src/Dnp3.cpp:110-171 | From any quiet reachable state a whole poll of any point leads to a quiet reachable state with that sequential effect |
| `Publishing.DistinctDoNotInterfere` | RPI_slavednp3/src/Dnp3.cpp:72-194 | With distinct keys no thread ever disturbs another point's entry: it follows its own history, at most one outcome behind |
| `Publishing.EntriesShowReads` | RPI_slavednp3/src/Dnp3.cpp:72-194 | The same in terms of the reads alone: every entry shows the last good reading of its own point, or 0 when there was none or the last five or more reads failed, of all its reads or all but the last |
| `Publishing.PublishedShows` | RPI_slavednp3/src/Dnp3.cpp:72-86 | The published value of a history is the one that description asks for |
| `Publishing.PollKeeps` | RPI_slavednp3/src/Dnp3.cpp:110-171 | Through every step of a poll the entry follows the history, and the state is whole whenever the data mutex is free |
| `Publishing.StepKeeps` | RPI_slavednp3/src/Dnp3.cpp:88-171 | Every step of any thread, job starts included, keeps that for all points at once |
| `Publishing.ReachableKeeps` | RPI_slavednp3/src/Dnp3.cpp:88-194 | It therefore holds in every reachable state, from the initial publication on |
| `Publishing.IdleShowsWholeHistory` | RPI_slavednp3/src/Dnp3.cpp:88-171 | While a point's thread is between polls its entry shows its whole read history, nothing lags |
| `Publishing.SnapshotsAreWhole` | RPI_slavednp3/src/Interface.cpp:98-99 | When a page reads the states under its two locks, each state is that of a whole history, never a half-done update |
| `DeviceRuns.CommandThenPolls` | RPI_slavednp3/src/Dnp3.cpp:243-418 | In every interleaving over the devices' memory: after a successful command to a point, until a write overlaps it, every poll of it that reads well reads the commanded value, and between its polls its entry shows that value once one of its last five reads was good and made since the command |
| `DeviceRuns.RunReads` | RPI_slavednp3/src/Modbus.cpp:58-135 | Over every such run the device keeps what the point reads, and every good read returns it |
| `DeviceRuns.CommandsHappen` | RPI_slavednp3/src/Dnp3.cpp:243-418 | From every quiet reachable state a worker can carry any command to any point that takes it as far as the device write |
| `DeviceRuns.StepReads` | RPI_slavednp3/src/Modbus.cpp:225-361 | One step of any thread keeps that, another point's register or coil write included |
| `DeviceRuns.RunsAreReachable` | RPI_slavednp3/src/Dnp3.cpp:88-194 | Runs over device memory are runs of the interleaved machine, so all its results hold of them |
| `DeviceRuns.WrittenSample` | RPI_slavednp3/src/Modbus.cpp:225-361 | A successful command makes its point read the commanded value; non-overlapping points read as before on every outcome |
| `DeviceRuns.RecentGoodIsShown` | RPI_slavednp3/src/Dnp3.cpp:72-86 | A history with a good reading among its last five shows the value all good readings since then had |
| `Threads.JobOrdered` | RPI_slavednp3/src/Dnp3.cpp:93-166 | Every path of poll, command, log and page code takes locks in one order, releases only what it holds, touches shared data only under its mutex, and ends holding nothing |
| `Threads.JobEffects` | RPI_slavednp3/src/Dnp3.cpp:110-166 | A poll's path reads once and publishes once, only the two transactions write a device and each once, only a page's reads the states |
| `Threads.StepDisciplined` | RPI_slavednp3/src/Dnp3.cpp:93-104 | Every step keeps every thread on that order and every mutex with one holder |
| `Threads.ReachableDisciplined` | RPI_slavednp3/src/Main.cpp:47-58 | So does every run, for any number of points and other threads |
| `Threads.SomeoneCanStep` | RPI_slavednp3/src/Dnp3.cpp:93-104 | From any waiting thread the chain of holders climbs in lock order to a thread that can step |
| `Threads.NoDeadlock` | RPI_slavednp3/src/Modbus.cpp:225-309 | No reachable state is deadlocked: while some thread is mid-work some thread can step, nested logging and page locks included |
| `Threads.NoRace` | RPI_slavednp3/src/Dnp3.cpp:93-166 | No two threads are ever both about to touch what one mutex guards |
| `Threads.WorkDrains` | RPI_slavednp3/src/Dnp3.cpp:93-166 | From every reachable state the work under way can be finished until every thread is idle and every mutex free |
| `Threads.EveryScheduleDrains` | RPI_slavednp3/src/Dnp3.cpp:93-166 | Every schedule does so: from a reachable state steps alone go on for at most as many instructions as are under way, and exactly when that many are done every thread is idle, every mutex free and nothing can step |
| `Threads.StepsRemaining` | RPI_slavednp3/src/Dnp3.cpp:93-166 | Every step of every thread takes exactly one instruction off the work under way |
| `Threads.StuckIsQuiet` | RPI_slavednp3/src/Dnp3.cpp:93-104 | A state in which no thread can step is one where every thread is idle and every mutex free, and conversely |
| `Threads.Drain` | RPI_slavednp3/src/Modbus.cpp:225-309 | Constructs that finishing run |
| `PointState.FailuresMeaning` | RPI_slavednp3/src/Config.cpp:234-262 | failure_count is the length of the failure run the history ends in |
| `PointState.ConnectedMeaning` | RPI_slavednp3/src/Config.cpp:234-262 | connection_status is whether the last read succeeded |
| `PointState.ChangedMeaning` | RPI_slavednp3/src/Config.cpp:234-262 | connection_changed as a read leaves it is whether that read flipped the outcome |
| `PointState.SinceMeaning` | RPI_slavednp3/src/Config.cpp:234-262 | last_change_time is the time of the latest outcome flip, or the start |
| `PointState.StoredValue` | RPI_slavednp3/src/Config.cpp:234-262 | The stored value is the last good reading, or 0 after five failures or with no success |
| `PointState.ValueMeaning` | RPI_slavednp3/src/Dnp3.cpp:72-86 | Exactly one value is the expected one after a history, the state holds it, and the failure guard in publishing never changes what is published |
| `Gateway.AnalogCommandThenPoll` | RPI_slavednp3/src/Dnp3.cpp:395-418 | With distinct keys: after a successful analog command at a holding point's index a poll of the point publishes the rounded commanded value (the carried 32 bits for float); whatever the outcome, points on other registers poll as before |
| `Gateway.CrobThenPoll` | RPI_slavednp3/src/Dnp3.cpp:243-312 | The same for coils: the published binary is true unless the operation was LATCH_OFF or PULSE_OFF |
| `Gateway.AnalogCommandPublishes` | RPI_slavednp3/src/Dnp3.cpp:395-418 | On a healthy connection to a device that has the registers, an analog command at a holding point's index i succeeds, for an integer type if and only if the value is strictly within half a unit of its range; the next poll then sets the analog entry i to the commanded value and touches no other entry; an out-of-range value is OUT_OF_RANGE and changes no device |
| `Gateway.CrobPublishes` | RPI_slavednp3/src/Dnp3.cpp:243-312 | The same for a control relay at a coil's index i, which always succeeds: the next poll sets the binary entry i and no other |
| `Gateway.PollWritesOwnIndex` | RPI_slavednp3/src/Dnp3.cpp:72-105 | A poll writes the entry of the point's own kind and DNP3 index, and no other |
| `Gateway.FailedCommandsChangeNothing` | RPI_slavednp3/src/Modbus.cpp:225-361 | An unmapped command is NOT_SUPPORTED, and neither it nor one whose connection breaks before the device acts changes any device |
| `Gateway.PollsFollowReads` | RPI_slavednp3/src/Dnp3.cpp:110-171 | Over any run of polls, whatever the devices and connections do between them: a poll reads well exactly when its connection is healthy and its device has what it reads, the kept state is that of the reads, and each poll publishes the last good reading, or 0 when there was none or the last five or more failed |
| `Gateway.HoldingWriteThenPoll` | RPI_slavednp3/src/Modbus.cpp:225-309 | A successful register write is what the next poll of the addressed point publishes; others poll as before |
| `Gateway.CoilWriteThenPoll` | RPI_slavednp3/src/Modbus.cpp:311-361 | The same for a coil write |
| `Gateway.SelectMatchesOperate` | RPI_slavednp3/src/Dnp3.cpp:232-260 | Select answers SUCCESS or NOT_SUPPORTED, and SUCCESS exactly when no Operate at that index is answered NOT_SUPPORTED, for all values, operations, devices and connections |
| `Gateway.FoundTakes` | RPI_slavednp3/src/Config.cpp:372-402 | Every command a lookup finds is the command of some configured point that takes it |
| `Gateway.InitialEntriesAreZero` | RPI_slavednp3/src/Dnp3.cpp:173-194 | The initial update writes zero or false at exactly the points' keys |
| `Gateway.Gateway.ApplyInitialState` | RPI_slavednp3/src/Dnp3.cpp:173-194 | Every state starts over at the time read for its point; exactly the points' entries are overwritten |
| `Gateway.Gateway.ReadModbusPoint` | RPI_slavednp3/src/Modbus.cpp:58-135 | The read is the sample that `Modbus.BitSampleExactly` and `RegisterSampleExactly` determine, or a failure on a connection that is not healthy |
| `Gateway.Gateway.FillRegisters` | RPI_slavednp3/src/Modbus.cpp:58-83 | Reads the registers in order, or fails when the device lacks one |
| `Gateway.Gateway.HandleCommunicationSuccess` | RPI_slavednp3/src/Config.cpp:251-262 | The field-by-field update is the history step for a success; other points' states are untouched |
| `Gateway.Gateway.HandleCommunicationFailure` | RPI_slavednp3/src/Config.cpp:234-249 | The same for a failure, including zeroing at five |
| `Gateway.Gateway.PollPoint` | RPI_slavednp3/src/Dnp3.cpp:110-171 | One poll is the sequential poll of its point and the database update that `PollWritesOwnIndex` places at the point's own index; every other state and entry is untouched |
| `Gateway.Gateway.WriteHoldingRegister` | RPI_slavednp3/src/Modbus.cpp:225-309 | Status and device memory after the write are those `Modbus.HoldingWriteExactly` determines for every connection outcome; nothing else changes |
| `Gateway.Gateway.OperateAnalogCommand` | RPI_slavednp3/src/Dnp3.cpp:395-418 | The answer and the devices afterwards are those `AnalogCommandPublishes` and `FailedCommandsChangeNothing` speak of |
| `Gateway.Gateway.OperateCrobCommand` | RPI_slavednp3/src/Dnp3.cpp:243-312 | The answer and the devices afterwards are those `CrobPublishes` and `FailedCommandsChangeNothing` speak of; an unknown operation writes 1 |
| `Gateway.Gateway.constructor` | RPI_slavednp3/src/Main.cpp:47-58 | A new gateway holds the automatic command maps of its points |
| `Modbus.HoldingWriteRead` | RPI_slavednp3/src/Modbus.cpp:225-309 | After a successful register write the addressed point reads the rounded value; non-overlapping points read as before on every outcome |
| `Modbus.CoilWriteRead` | RPI_slavednp3/src/Modbus.cpp:311-361 | After a successful coil write the coil reads the written bit; every other point reads as before |
| `Modbus.HoldingWriteExactly` | RPI_slavednp3/src/Modbus.cpp:225-309 | A register write succeeds if and only if the connection is healthy, the device has the registers and the type takes the value; each failure has its own status (OUT_OF_RANGE, TIMEOUT, FORMAT_ERROR, DOWNSTREAM_FAIL); a broken connection, a refusing device and a rejected value leave every device as it was, a lost answer leaves it written |
| `Modbus.CoilWriteExactly` | RPI_slavednp3/src/Modbus.cpp:311-361 | The same for a coil, which takes every value |
| `Modbus.BitSampleExactly` | RPI_slavednp3/src/Modbus.cpp:58-135 | A coil or input point reads its own table's bit at the low 16 bits of its address, as 0 or 1, and fails exactly when its device or that bit is missing |
| `Modbus.RegisterSampleExactly` | RPI_slavednp3/src/Modbus.cpp:58-135 | A register point reads one word, or two, of its own table from the low 16 bits of its address on, and fails exactly when its device or a word is missing |
| `Modbus.InputReadsLikeHolding` | RPI_slavednp3/src/Modbus.cpp:84-125 | On a device whose two register tables agree, a holding and an input point of one data type and address read the same, for all five data types |
| `Modbus.StoredWordsRead` | RPI_slavednp3/src/Modbus.cpp:84-125 | Stored registers decode, at any point the command addresses, to the decoded payload |
| `Modbus.StoredWordsElsewhere` | RPI_slavednp3/src/Modbus.cpp:58-135 | Stored registers are not seen by any point of any type that does not overlap the target |
| `Modbus.WordsReadBack` | RPI_slavednp3/src/Modbus.cpp:261-286 | Registers written at an address read back in the same order |
| `Modbus.WordsElsewhere` | RPI_slavednp3/src/Modbus.cpp:261-286 | Registers outside the written range neither change nor become readable or unreadable |
| `RegisterCodec.EncodeExactly` | RPI_slavednp3/src/Modbus.cpp:138-223 | For every integer holding type encoding succeeds exactly when min-0.5 < x < max+0.5, else OUT_OF_RANGE, and decoding gives the rounded value |
| `RegisterCodec.RoundingExactly` | RPI_slavednp3/src/Modbus.cpp:138-223 | The rounding used is the one nearest integer with halves away from zero, characterised without its formula |
| `RegisterCodec.RangeInReals` | RPI_slavednp3/src/Modbus.cpp:138-223 | The integer range check in terms of the real commanded value |
| `RegisterCodec.DecodeOfEncode` | RPI_slavednp3/src/Modbus.cpp:84-125 | Every value in range survives encode then decode, high word first, two's complement for negatives |
| `RegisterCodec.EncodeOfDecode` | RPI_slavednp3/src/Modbus.cpp:84-125 | Every register content decodes to a value that encodes to the same registers |
| `RegisterCodec.FloatBitsSurvive` | RPI_slavednp3/src/Modbus.cpp:84-125 | A float command and a later read carry the same 32 bits |
| `RegisterCodec.WordsRejoin` | RPI_slavednp3/src/Modbus.cpp:138-223 | Splitting 32 bits in two words and joining them is the identity |
| `RegisterCodec.DecodeExactly` | RPI_slavednp3/src/Modbus.cpp:84-125 | Each of the eight integer register types reads as the one value of its range congruent to its words taken as a number, high word first |
| `RegisterCodec.DecodeFloat` | RPI_slavednp3/src/Modbus.cpp:84-125 | A float point reads as the float whose bits are its two words, high word first |
| `RegisterCodec.WritableTypes` | RPI_slavednp3/src/Modbus.cpp:138-223 | Types that are not holding are rejected as NOT_SUPPORTED; a float type takes every value |
| `RegisterCodec.BuildHoldingRegisterWritePayload` | RPI_slavednp3/src/Modbus.cpp:138-223 | The in-place encoder fills the buffer with the specified words, or rejects leaving it untouched |
| `Commands.LookupExactly` | RPI_slavednp3/src/Modbus.cpp:4-14 | Lookup finds a command at an index exactly when some point takes commands there, and it is the first such point's in file order |
| `Commands.LookupByKind` | RPI_slavednp3/src/Config.cpp:372-402 | An analog target exists at an index exactly when a holding point has it, a binary one exactly when a coil has it |
| `Commands.FindExactly` | RPI_slavednp3/src/Modbus.cpp:4-14 | In any list the search gives the first command with the index and the target, and nothing only when no command has both |
| `Commands.CommandReachesPublisher` | RPI_slavednp3/src/Config.cpp:372-402 | With distinct keys a command at a point's own index addresses that point's device, register and type |
| `Commands.BuildAutomaticCommandMappings` | RPI_slavednp3/src/Config.cpp:372-402 | The two loops build the maps of holding and coil points, in file order |
| `Commands.FindCommandConfig` | RPI_slavednp3/src/Modbus.cpp:4-14 | The search loop returns the first match or nothing |
| `OutstationDatabase.OrderIrrelevantExactly` | RPI_slavednp3/src/Dnp3.cpp:4-70 | The layout is the same for every order of the points if and only if no two analog points at one index ask for different variations |
| `OutstationDatabase.SameDatabase` | RPI_slavednp3/src/Dnp3.cpp:4-70 | Any two orders of consistent points give the same layout |
| `OutstationDatabase.DistinctIsConsistent` | RPI_slavednp3/src/Dnp3.cpp:53-67 | Distinct keys are consistent |
| `OutstationDatabase.LayoutCoversExactly` | RPI_slavednp3/src/Dnp3.cpp:15-51 | Inputs and output statuses of a kind cover exactly 0 up to the largest index used by a point of the kind |
| `OutstationDatabase.LastPointDecides` | RPI_slavednp3/src/Dnp3.cpp:53-67 | An analog entry has the variation of the last point at its index |
| `OutstationDatabase.VariationFits` | RPI_slavednp3/src/Config.cpp:133-147 | The float variation is given to exactly the float types and the 16-bit one to exactly the types of one register |
| `OutstationDatabase.LayoutValues` | RPI_slavednp3/src/Dnp3.cpp:27-67 | Every entry is of class 1 and of its fixed groups |
| `OutstationDatabase.VariationOfSome` | RPI_slavednp3/src/Config.cpp:133-147 | Gaps get Group30Var1, every other index the variation of a point at it |
| `OutstationDatabase.EveryPointHasItsEntry` | RPI_slavednp3/src/Dnp3.cpp:4-70 | Every point has its input and its output status |
| `OutstationDatabase.FillLoopEndsExactly` | RPI_slavednp3/src/Dnp3.cpp:27-51 | The 16-bit filling loop ends if and only if the largest index is below 65535 |
| `OutstationDatabase.MaxIndex` | RPI_slavednp3/src/Dnp3.cpp:10-25 | An upper bound of a kind's indices that some point attains, 0 when the kind is unused |
| `OutstationDatabase.FindExtents` | RPI_slavednp3/src/Dnp3.cpp:10-25 | The scan finds use and largest index of both kinds |
| `OutstationDatabase.FillDense` | RPI_slavednp3/src/Dnp3.cpp:27-51 | The counter loop fills exactly 0..max and ends, for max below 65535 |
| `OutstationDatabase.SetVariations` | RPI_slavednp3/src/Dnp3.cpp:53-67 | After the last pass every analog entry is last-wins and the binary entries are as before |
| `OutstationDatabase.ConfigureDatabase` | RPI_slavednp3/src/Dnp3.cpp:4-70 | The whole builder ends and produces the specified layout for every list with indices below 65535, the empty list included |
| `PointsCsv.LoadSaveLoad` | RPI_slavednp3/src/Config.cpp:315-370 | For every file text whatsoever, load, save, load gives the first load again |
| `PointsCsv.SaveLoadExactly` | RPI_slavednp3/src/Config.cpp:349-370 | Save then load is the identity on exactly the lists of canonical points (trimmed one-line fields without ';', name not starting with '#', canonical count and status index) |
| `PointsCsv.LoadedIsCanonical` | RPI_slavednp3/src/Config.cpp:315-347 | Everything any file text can load is canonical |
| `PointsCsv.ParsedIsCanonical` | RPI_slavednp3/src/Config.cpp:315-347 | So is whatever a single line parses to |
| `PointsCsv.ParseOfPrint` | RPI_slavednp3/src/Config.cpp:349-370 | A canonical point prints as one line that parses back to the point |
| `PointsCsv.KindRoundTrip` | RPI_slavednp3/src/Config.cpp:158-220 | Printed type names are read back as the same type, for all twelve types |
| `PointsCsv.KindExactly` | RPI_slavednp3/src/Config.cpp:158-193 | A table and a data type make one point type exactly when that type has both; bits are boolean only, registers never |
| `PointsCsv.NamesInAnyCase` | RPI_slavednp3/src/Config.cpp:149-193 | Type names are read in any case and with any blanks around them |
| `PointsCsv.BitTableAliases` | RPI_slavednp3/src/Config.cpp:163-164 | The other names of the two bit tables mean the same as the printed ones |
| `PointsCsv.RegisterTableAliases` | RPI_slavednp3/src/Config.cpp:165-166 | The same for the two register tables |
| `PointsCsv.NarrowDataAliases` | RPI_slavednp3/src/Config.cpp:168-187 | The same for bool and the 16-bit data types |
| `PointsCsv.WideDataAliases` | RPI_slavednp3/src/Config.cpp:186-190 | The same for the 32-bit data types |
| `PointsCsv.SplitOfJoin` | RPI_slavednp3/src/Config.cpp:277-286 | Splitting at ';' undoes joining, empty fields included, when the last field is not empty |
| `PointsCsv.LoadAppend` | RPI_slavednp3/src/Config.cpp:471-488 | Loading newline-terminated text does not depend on what is appended |
| `PointsCsv.LoadBody` | RPI_slavednp3/src/Config.cpp:349-370 | The printed body of canonical points loads as the points |
| `PointsCsv.LoadOfSave` | RPI_slavednp3/src/Config.cpp:349-370 | Save then load is the identity on canonical points, for any header of comment lines |
| `PointsCsv.SplitSemicolonLine` | RPI_slavednp3/src/Config.cpp:277-286 | The getline loop yields the trimmed fields; a trailing separator opens no field |
| `PointsCsv.TryBuildReadPointFromCsvLine` | RPI_slavednp3/src/Config.cpp:315-347 | Same result or refusal as the specification: comment, blank, too few fields, unknown type, bad number |
| `PointsCsv.LoadConfiguredPoints` | RPI_slavednp3/src/Config.cpp:471-488 | The loop loads exactly the parsable lines in order, all canonical |
| `PointsCsv.SaveReadPoints` | RPI_slavednp3/src/Config.cpp:349-370 | The loop writes header and lines; the text ends in a newline |
| `FileHeader.HeaderLoadsNothing` | RPI_slavednp3/src/Config.cpp:356-358 | The three comment lines the program writes load as no point and end in a newline |
| `Text.StoiPrint` | RPI_slavednp3/src/Config.cpp:335-343 | Reading a printed 32-bit integer gives it back, extremes and negatives included |
| `Text.StoiDigits` | RPI_slavednp3/src/Config.cpp:335-343 | A digit run reads as its value and fails exactly outside 32 bits |
| `Text.StoiExactly` | RPI_slavednp3/src/Config.cpp:335-343 | All of stoi: leading spaces, an optional sign and the longest digit run give the value, anything behind is ignored, no digits or a value outside 32 bits fails |
| `Text.PrintNatIsShort` | RPI_slavednp3/src/Config.cpp:349-370 | The decimal printer writes no leading zero |
| `Text.DigitsValuePrint` | RPI_slavednp3/src/Config.cpp:349-370 | The decimal printer's digits have the printed value |
| `Text.ItemsAppend` | RPI_slavednp3/src/Config.cpp:277-286 | A getline loop over delimiter-terminated text splits independently of what follows |
| `Text.TrimCopyExactly` | RPI_slavednp3/src/Interface.cpp:46-52 | For every text the result is exactly the slice that is trimmed and has nothing but blanks cut off at its two ends |
| `ConfigStore.RunAgrees` | RPI_slavednp3/src/Interface.cpp:567-614 | Over every run of accepted or refused add, delete and clear requests with one-line adds: the file loads as the list machine's list, ends in a newline, and no two points share a key |
| `ConfigStore.RunFromCreated` | RPI_slavednp3/src/Interface.cpp:268-322 | The same from the file the program creates |
| `ConfigStore.ApplyAgrees` | RPI_slavednp3/src/Interface.cpp:268-322 | One request keeps the file standing for the list with the request applied |
| `ConfigStore.AddAgreesExactly` | RPI_slavednp3/src/Interface.cpp:268-296 | Appending an accepted line adds just the parsed point if and only if exactly one of the pieces the line is cut into at its newlines parses, and it parses to that point; a newline-free line always does |
| `ConfigStore.AddStaysDistinctExactly` | RPI_slavednp3/src/Interface.cpp:268-296 | For every accepted line, with or without newlines: keys stay unique if and only if the points read in the added text have distinct keys, none of them in the file before |
| `ConfigStore.RunReads` | RPI_slavednp3/src/Interface.cpp:567-614 | Over every run of requests with any lines at all, the file stays newline-terminated and loads as the list on which an accepted add appends every point its text reads as |
| `ConfigStore.ApplyReads` | RPI_slavednp3/src/Interface.cpp:268-322 | The same for one request |
| `ConfigStore.CollectedOneExactly` | RPI_slavednp3/src/Config.cpp:471-488 | Lines load as one given point if and only if exactly one of them parses, to that point |
| `ConfigStore.NewlineBreaksUniqueness` | RPI_slavednp3/src/Interface.cpp:268-296 | A failing family: for any two points with one key, one line with a newline in it is accepted as the first and read back as both |
| `ConfigStore.DistinctAfter` | RPI_slavednp3/src/Interface.cpp:276-286 | Every request keeps keys distinct on the list |
| `ConfigStore.VerdictAdded` | RPI_slavednp3/src/Interface.cpp:276-286 | The scan accepts a point exactly when no existing point has its key |
| `ConfigStore.VerdictExactly` | RPI_slavednp3/src/Interface.cpp:276-286 | Otherwise the first existing point that is the same or has the key decides which refusal it is |
| `ConfigStore.AddExactly` | RPI_slavednp3/src/Interface.cpp:268-296 | An add appends the line to the text exactly when it reads as a point with a free key and the file opens; each refusal has its own answer and leaves the text alone |
| `ConfigStore.RemoveExactly` | RPI_slavednp3/src/Interface.cpp:298-322 | A delete at i leaves a list one shorter, the same before i and moved up by one from i on; a position past the end or a file that does not open changes nothing |
| `ConfigStore.ClearExactly` | RPI_slavednp3/src/Interface.cpp:585-597 | A clear leaves the header and no point; a file that does not open stays |
| `ConfigStore.ScanExisting` | RPI_slavednp3/src/Interface.cpp:276-286 | The scan loop reports the first same point or taken key |
| `ConfigStore.ConfigFile.AppendPoint` | RPI_slavednp3/src/Interface.cpp:268-296 | The outcome is the list machine's verdict on the loaded points, and the text changes only when it is an acceptance, as `ApplyAgrees` requires |
| `ConfigStore.ConfigFile.RemovePoint` | RPI_slavednp3/src/Interface.cpp:298-322 | After an accepted delete the file loads as the old list without exactly the point at the index, order kept; otherwise the text is unchanged |
| `ConfigStore.ConfigFile.ClearPoints` | RPI_slavednp3/src/Interface.cpp:585-597 | After an accepted clear the file loads as no point; otherwise the text is unchanged |
| `Startup.StartTwice` | RPI_slavednp3/src/Config.cpp:405-458 | A second start without an edit runs with the same points, and leaves the file alone if and only if the first had nothing to write, could write, the second cannot, or the file is just the header already |
| `Startup.SecondStartCreates` | RPI_slavednp3/src/Config.cpp:405-430 | The failing input: a missing file that could not be created is created by the second start |
| `Startup.ListedResolveExactly` | RPI_slavednp3/src/Config.cpp:490-509 | After a start every listed point resolves to an equal running point if and only if no readable old examples stayed because the file could not be written |
| `Startup.OldExampleStays` | RPI_slavednp3/src/Config.cpp:405-458 | Failing inputs: any canonical point with an old example's name, alone in a file that cannot be written, is listed and does not run |
| `Startup.OldExampleIsOne` | RPI_slavednp3/src/Config.cpp:289-293 | A concrete such point |
| `Startup.LegacyLineExactly` | RPI_slavednp3/src/Config.cpp:289-293 | A line is an old example's if and only if its first field is one of the two names |
| `Startup.OneLineLegacyExactly` | RPI_slavednp3/src/Config.cpp:295-313 | Behind comment lines, one line alone decides whether only old examples are left |
| `Startup.OnlyLegacyExactly` | RPI_slavednp3/src/Config.cpp:295-313 | For any number of content lines: only old examples are left exactly when there is one and each of them names an old example in its first field |
| `Startup.StartExactly` | RPI_slavednp3/src/Config.cpp:405-458 | A start creates a missing file with the header alone, brings one with only old examples back to it, and loads any other and leaves it alone |
| `Startup.OrdinaryPointKeepsFile` | RPI_slavednp3/src/Config.cpp:295-313 | One loaded point with another name is enough for a start to run with everything in the file and leave it alone |
| `Startup.SameCanonicalIsEqual` | RPI_slavednp3/src/Config.cpp:490-499 | On loaded points the page's comparison is equality |
| `Startup.RuntimeIndex` | RPI_slavednp3/src/Config.cpp:501-509 | The first running point the page takes for the listed one, or none |
| `Startup.FileHasOnlyLegacyExamples` | RPI_slavednp3/src/Config.cpp:295-313 | The loop decides what `OnlyLegacyExactly` describes: content, and all of it old example lines |
| `Startup.BuildConfigFileProfile` | RPI_slavednp3/src/Config.cpp:405-458 | Points and file after a start are those `StartExactly` and `OrdinaryPointKeepsFile` determine, for missing, example-only and ordinary files |
| `Startup.FindRuntimePointIndex` | RPI_slavednp3/src/Config.cpp:501-509 | The search loop returns that first position or -1 |
| `PointForm.FormAddsPoint` | RPI_slavednp3/src/Interface.cpp:599-614 | Sending a named point through the page's form, source protocol field included and however encoded, adds that point to the file's list, at its end, if and only if the file opens and no listed point has its key; otherwise the list stays |
| `PointForm.FormLineExactly` | RPI_slavednp3/src/Interface.cpp:230-255 | A point sent through the form, however encoded, makes exactly its own file line if and only if name and IP are not empty, and no line otherwise |
| `PointForm.FormRoundTrip` | RPI_slavednp3/src/Interface.cpp:383-394 | All eight form fields arrive as typed for every encoding that decodes to them, whatever bytes are in them, with the page's ninth field beside them |
| `PointForm.PrintedLineExactly` | RPI_slavednp3/src/Config.cpp:361-367 | A point's line is its eight fields in the order of the file's header line |
| `PointForm.ForcedExactly` | RPI_slavednp3/src/Interface.cpp:245-251 | Exactly four of the names for bit registers force the data type to bool |
| `PointForm.OwnEncoding` | RPI_slavednp3/src/Interface.cpp:501-516 | The program's own encoder is such an encoding for all byte strings |
| `TypedForm.FormAddsSpelled` | RPI_slavednp3/src/Interface.cpp:599-614 | For any eight typed fields without separators and newlines: sending them adds the point they spell, at the end of the file's list, if and only if they spell one, the file opens and no listed point has its key; otherwise the list stays |
| `TypedForm.FormAddsSpelledExactly` | RPI_slavednp3/src/Interface.cpp:268-296 | For any typed fields without separators, newlines allowed, that spell a point with a free key: exactly that point is added if and only if one piece of their line, cut at its newlines, parses to it and no other parses |
| `TypedForm.TypedLineExactly` | RPI_slavednp3/src/Config.cpp:315-347 | A form line is read as exactly the point its trimmed fields spell, blanks at either end, a blank index and a name that makes it a comment included |
| `TypedForm.FormPartsExactly` | RPI_slavednp3/src/Interface.cpp:230-255 | Which parameter becomes which part of the point: name, ip, port, slave_id, reg, address, data_type and dnp_index, the index by its low 16 bits |
| `TypedForm.NewlineArrives` | RPI_slavednp3/src/Interface.cpp:230-255 | The line on which unique keys fail arrives through the form: a newline in the index field, however encoded, puts two points with one key in the file |
| `TypedForm.SplitOfOpenJoin` | RPI_slavednp3/src/Config.cpp:277-286 | A last field that is empty opens no field when the joined line is split |
| `PointForm.BuildCsvLineFromForm` | RPI_slavednp3/src/Interface.cpp:230-255 | The line of the eight parsed fields; empty when one is missing; bit registers forced to bool |
| `Deployment.EditedGatewayWorks` | RPI_slavednp3/src/Interface.cpp:567-614 | From the created file, after any one-line page requests: the next start's database builder ends if and only if only old examples are left or every index asked for is below 65535; no interference under any interleaving, an order-independent layout, and every command index addresses the point that publishes there |
| `Deployment.EditedPoints` | RPI_slavednp3/src/Config.cpp:405-458 | Those points are the list machine's list (none when only old examples are left) and have distinct keys |
| `Deployment.BuilderEndsExactly` | RPI_slavednp3/src/Dnp3.cpp:27-51 | The database builder ends if and only if every point's index is below 65535 |
| `Deployment.PollsFitTheDatabase` | RPI_slavednp3/src/Dnp3.cpp:4-105 | Whatever a poll of a configured point writes is at an index the builder lays out for its kind |
| `Deployment.StartBuilderEndsExactly` | RPI_slavednp3/src/Config.cpp:405-458 | After any requests at all, the builder ends on the points of a start if and only if the file holds only old examples or every index in it is below 65535 |
| `Deployment.ProgramHeaderHasNoContent` | RPI_slavednp3/src/Config.cpp:356-358 | The lines the program writes first are comments |
| `Deployment.KindEndsExactly` | RPI_slavednp3/src/Dnp3.cpp:27-51 | The same for one kind's loops |
| `Deployment.TopIndexHangsBuilder` | RPI_slavednp3/src/Dnp3.cpp:27-51 | After one accepted line with index 65535 the next start runs with that point and its builder never ends, unless the line is an old example's, and then it runs with none and the builder ends |
| `Deployment.MinusOneHangsBuilder` | RPI_slavednp3/src/Config.cpp:335-343 | With the program's own header, an added point with index text -1 runs as 65535 and keeps the builder from ending if and only if its name is not an old example's |
| `Deployment.LineWithIndexParses` | RPI_slavednp3/src/Config.cpp:315-347 | A canonical point's line with any readable index text parses to the point with that index wrapped to 16 bits |
| `WebText.QueryRoundTrip` | RPI_slavednp3/src/Interface.cpp:535-549 | For every query built from key=encode(value) pairs with keys free of '&' and '=', the parser returns each key's (first) value exactly, and empty for other keys |
| `WebText.QueryParses` | RPI_slavednp3/src/Interface.cpp:535-549 | Whatever encoded the values, the parser returns the decoding of the first pair with the key, empty without one |
| `WebText.UrlRoundTrip` | RPI_slavednp3/src/Interface.cpp:77-94 | Decoding undoes the form encoding for every byte string, '%', '+', '&' and NUL included |
| `WebText.UrlEncodedIsPlain` | RPI_slavednp3/src/Interface.cpp:501-516 | Encoded text holds only unreserved characters, '%' and '+' |
| `WebText.UrlEncodedEscapes` | RPI_slavednp3/src/Interface.cpp:501-516 | Percent signs stand only before two upper-case hexadecimal digits |
| `WebText.UrlEncodedSpaces` | RPI_slavednp3/src/Interface.cpp:501-516 | There is one plus sign for every space and no other |
| `WebText.UnreservedUnchanged` | RPI_slavednp3/src/Interface.cpp:501-516 | Unreserved text is sent as it is |
| `WebText.OddEscapes` | RPI_slavednp3/src/Interface.cpp:77-94 | What escapes that are no two digits decode to, by strtol's rules |
| `WebText.HtmlRoundTrip` | RPI_slavednp3/src/Interface.cpp:212-227 | Escaped text has no raw angle bracket or quote and a five-entity decoder recovers the input |
| `WebText.JsonRoundTrip` | RPI_slavednp3/src/Interface.cpp:54-75 | Escaped text has no raw control byte, is a well-formed string body by section 7 of RFC 8259, and decodes to the input |
| `WebText.JsonByteLength` | RPI_slavednp3/src/Interface.cpp:54-75 | Quote, backslash and five control bytes get short escapes, the other control bytes long ones, nothing else is escaped |
| `WebText.UrlEncodeSimple` | RPI_slavednp3/src/Interface.cpp:501-516 | The loop produces exactly the encoding that `UrlRoundTrip` inverts |
| `WebText.UrlDecodeLoop` | RPI_slavednp3/src/Interface.cpp:77-94 | The in-place index skips decode every text as specified, short and malformed escapes included |
| `WebText.GetQueryParam` | RPI_slavednp3/src/Interface.cpp:535-549 | The token loop returns the first matching key's decoded value |
| `WebText.HtmlEscapeLoop` | RPI_slavednp3/src/Interface.cpp:212-227 | The loop produces exactly the escape that `HtmlRoundTrip` inverts |
| `WebText.JsonEscapeLoop` | RPI_slavednp3/src/Interface.cpp:54-75 | The loop produces exactly the escape that `JsonRoundTrip` inverts |
| `EventLog.RecentCalls` | RPI_slavednp3/src/Log.cpp:63-79 | After any n calls the buffer is exactly the last min(n, 200) entries, newest first |
| `EventLog.RecentLogs.LogLine` | RPI_slavednp3/src/Log.cpp:63-79 | One call in place is one step of that run, and the bound of 200 is kept |
| `ResourceManagers.FromStart` | opendnp3/cpp/lib/src/ResourceManager.cpp:26-50 | Over every interleaving of Bind, Detach and any number of two-phase Shutdown calls: everything Bind returned is in exactly one of tracked, detached, or one call's copy; none is shut down twice; nothing is tracked once shutting down |
| `ResourceManagers.EveryRunOwned` | opendnp3/cpp/lib/src/ResourceManager.cpp:26-50 | That invariant is kept by every run from any state that has it |
| `ResourceManagers.BindOwned` | opendnp3/cpp/lib/src/ResourceManager.h:45-62 | Kept by Bind, with a null creation and while shutting down |
| `ResourceManagers.DetachOwned` | opendnp3/cpp/lib/src/ResourceManager.cpp:26-30 | Kept by Detach |
| `ResourceManagers.BeginOwned` | opendnp3/cpp/lib/src/ResourceManager.cpp:32-43 | Kept by the locked phase of Shutdown |
| `ResourceManagers.OneOwned` | opendnp3/cpp/lib/src/ResourceManager.cpp:44-49 | Kept by each shutdown outside the lock |
| `ResourceManagers.StepsExactly` | opendnp3/cpp/lib/src/ResourceManager.cpp:26-50 | While the manager is up Bind returns and tracks what was created; Detach stops tracking one resource; a Shutdown call takes over everything tracked and shuts its own down one at a time |
| `ResourceManagers.ShutdownIsFinal` | opendnp3/cpp/lib/src/ResourceManager.h:45-62 | After the flag is set Bind never returns a resource again |
| `ResourceManagers.FinishedShutdownsCoverAll` | opendnp3/cpp/lib/src/ResourceManager.cpp:32-50 | When every Shutdown call has finished, exactly the resources bound and not detached were shut down |
| `ResourceManagers.ResourceManager.Bind` | opendnp3/cpp/lib/src/ResourceManager.h:45-62 | Null without tracking while shutting down, otherwise what was created, tracked unless null |
| `ResourceManagers.ResourceManager.BeginShutdown` | opendnp3/cpp/lib/src/ResourceManager.cpp:32-43 | Sets the flag and moves everything tracked to the copy |
| `ResourceManagers.ResourceManager.Shutdown` | opendnp3/cpp/lib/src/ResourceManager.cpp:32-50 | A lone call shuts down exactly the tracked resources, each once |
| `ListenCallbacks.RunRefinesMap` | opendnp3/cpp/examples/master-gprs/ExampleListenCallbacks.cpp:140-192 | Over every event sequence with distinct ids and sessions the vector is a map from address to session: same lookups, same sessions shut down in the same order, none twice |
| `ListenCallbacks.RunFromEmpty` | opendnp3/cpp/examples/master-gprs/ExampleListenCallbacks.cpp:140-192 | The same from the empty list |
| `ListenCallbacks.FirstFrameAgrees` | opendnp3/cpp/examples/master-gprs/ExampleListenCallbacks.cpp:140-179 | A first frame overrides its address as the map does, whatever the ids |
| `ListenCallbacks.FirstFrameEffect` | opendnp3/cpp/examples/master-gprs/ExampleListenCallbacks.cpp:140-179 | After a first frame the vector holds the new session and every other session of another address; at most the overridden session is shut down |
| `ListenCallbacks.CloseEffect` | opendnp3/cpp/examples/master-gprs/ExampleListenCallbacks.cpp:181-192 | A close takes out the first session with the id and nothing else |
| `ListenCallbacks.CloseAgreesExactly` | opendnp3/cpp/examples/master-gprs/ExampleListenCallbacks.cpp:181-192 | A close removes what the map removes if and only if at most one entry has the id |
| `ListenCallbacks.ReusedIdBreaksMap` | opendnp3/cpp/examples/master-gprs/ExampleListenCallbacks.cpp:181-192 | A failing run from the empty list: two first frames with one id at two addresses, then its close, leave an entry the map has dropped |
| `ListenCallbacks.LateCloseIsHarmless` | opendnp3/cpp/examples/master-gprs/ExampleListenCallbacks.cpp:181-192 | The late close of an overridden connection changes nothing, and its session was shut down |
| `ListenCallbacks.FirstFrameDistinct` | opendnp3/cpp/examples/master-gprs/ExampleListenCallbacks.cpp:140-179 | A first frame with a new id and session keeps ids, sessions and shut-down sessions all different |
| `ListenCallbacks.CloseDistinct` | opendnp3/cpp/examples/master-gprs/ExampleListenCallbacks.cpp:181-192 | So does a close |
| `ListenCallbacks.UniqueAddressesAtAll` | opendnp3/cpp/examples/master-gprs/ExampleListenCallbacks.cpp:140-179 | Unique addresses means no two places in the vector share one |
| `ListenCallbacks.ExampleListenCallbacks.GetOutstationSession` | opendnp3/cpp/examples/master-gprs/ExampleListenCallbacks.cpp:114-120 | For every map the vector represents, the search returns the map's session at the address, or none |
| `ListenCallbacks.ExampleListenCallbacks.OnFirstFrame` | opendnp3/cpp/examples/master-gprs/ExampleListenCallbacks.cpp:140-179 | Erase and append in the vector are the first-frame event that `RunRefinesMap` relates to the map, and the returned session is the one it shuts down |
| `ListenCallbacks.ExampleListenCallbacks.OnConnectionClose` | opendnp3/cpp/examples/master-gprs/ExampleListenCallbacks.cpp:181-192 | Erasing the first entry with the id is the close event that `RunRefinesMap` relates to the map |

## Left out

- OutstationDatabase.ConfigureDatabase: requires every index below 65535, because at 65535 the source's loop does not end (`Deployment.BuilderEndsExactly`).
- OutstationDatabase.FillDense: the same bound, for the same reason (`OutstationDatabase.FillLoopEndsExactly`).
- Gateway.Gateway.OperateAnalogCommand: requires commanded values below 2^63 in magnitude for integer points, because `llround` is not defined beyond.
- ConfigStore.RunAgrees: covers adds of one line each; every run with any lines is `ConfigStore.RunReads`.
- ListenCallbacks.RunRefinesMap: covers runs whose session ids and sessions are new; what a reused id does is `ListenCallbacks.CloseAgreesExactly`.
- Sockets, HTTP framing and its 8 KB request limit, page text, console input, log formatting and error texts: input, output and presentation.
- libmodbus and opendnp3 internals: connecting, reading and writing are arbitrary outcomes over device memory, `Apply` is one atomic update of a map, and the link, transport and application layers are not part of this model.
- A device's four Modbus tables are taken to be separate, and devices to be identified by IP text, port and slave id.
- The devices' memory is taken to change only by this gateway's own writes: `DeviceRuns.CommandThenPolls`, `DeviceRuns.RunReads` and the poll that follows a command in `Gateway` rest on it, while real devices and other masters write too.
- An address is sent as its low 16 bits, which is what the request's address field holds; how the library puts it there is not part of this model.
- TypedForm.FormAddsSpelled: covers typed fields without ';'; a field with one shifts those after it.
- IEEE arithmetic: the float32 conversion is any pair of functions, and values are reals; commanded values for integer types lie below 2^63 in magnitude, where `llround` is defined.
- 32-bit overflow of `failure_count`, and the clock: times are arbitrary integers.
- Files without a final newline under an append, which no run from the created file leads to.
- Progress is proved of the machine with arbitrary read outcomes; `DeviceRuns` adds the device memory for what is read and published, not for progress.
- The path a thread takes through its code is fixed when its job starts; since outcomes are arbitrary no behaviour is lost.
- Job paths in `Threads` list the log calls of each path but not their texts; the log buffer itself is `EventLog`.
- Four-digit JSON escapes above 255 in the JSON decoder: the escaper writes none.
- `DNP3ManagerImpl` calls after its own Shutdown; the Java and .NET bindings; sequence numbers, class fields, flags and label tables.
- The set of hidden deleted indexes: nothing calls the function that reads it.
- Identity of resources and sessions: they are numbers, so a resource bound, detached and bound again counts as tracked again.
