# crosvm, verified parts

A Dafny model of the parts of crosvm with the most state, branching and arithmetic, and proofs of what
those parts are for. Code that computes is modelled by functions; code that changes things step by step by
methods and classes that are proved against functions; threads and processes by state machines over their
atomic steps, with theorems about every run.

| file | models |
|---|---|
| `GpuBuffer.dfy`, `GpuPixels.dfy`, `VolatileMemory.dfy` | transfers between scatter-gather lists and a rectangle of a mapped GPU buffer |
| `Channel.dfy`, `ProxyWire.dfy`, `Proxy.dfy` | a device in a child process: the two queues, the 24-byte messages, and what the parent sees |
| `VcpuControl.dfy` | vcpu threads, the start barrier, the kill flag and the kick signal |
| `Balloon.dfy` | the balloon controller of the main loop |
| `Arguments.dfy`, `ArgumentsRoundTrip.dfy`, `ArgumentErrors.dfy` | the command line parser |
| `Bits.dfy`, `BitField.dfy`, `BitFieldLayout.dfy` | structs of bit fields that a macro generates |
| `KvmSlots.dfy` | memory slot numbers of a VM |
| `Bus.dfy`, `Serial.dfy`, `SerialLaws.dfy`, `PortsOnBus.dfy` | the bus, the serial port, and serial ports on a bus |
| `CommandBuffer.dfy` | the virgl command buffer |
| `IdAllocator.dfy` | object ids of the plugin library |
| `KernelCmdline.dfy` | the kernel command line builder |
| `Arithmetic.dfy`, `Common.dfy` | facts about products and remainders, machine integers, results |

## Main results

- A write to a GPU buffer depends on a fragment list only through its concatenation, changes exactly the
  pixel bytes of its rectangle (and the row padding on the whole-row path), and reading any rectangle back
  gives the written pixels where the two meet and the old ones elsewhere. When a transfer succeeds is exact
  (`WriteFromSg`, `ReadToVolatile`, `WriteThenRead`).
- A proxied device makes exactly the parent's calls in order, whatever fails, and any list of calls can be
  completed. Each reply is the one to its own request as long as nothing has timed out; in general it is late by
  exactly the number of timeouts so far, because a late reply stays in the queue (`DeviceMakesTheCalls`,
  `AllCallsComplete`, `ReplyLagsByTimeouts`, `StaleReply`).
- With any number of vcpu threads and in any interleaving, nobody enters the guest before all have met at
  the barrier, after the kill flag is set nobody enters it more than once or takes more than six steps, and every
  thread signals its exit once. Without the flag a thread leaves its loop only for a reason of its own, and never
  enters the guest again after it. A kick is lost exactly when it arrives between the test of the flag and the
  clearing of the signal (`NobodyEntersEarly`, `FewStepsAfterKill`, `LeavesForAReason`, `NoEntryOnTheWayOut`,
  `KickStaysPending`, `LostKick`).
- The argument parser inverts every rendering of a list of settings. Its documentation promises that an
  error of the callback ends the parse; that is false for one error, and `ErrorsStopExactlyWhen` says exactly
  when it holds.
- The bus, an ordered map, routes as a search of the accepted ranges does, exactly as long as the 64-bit overlap
  test judges the insertions correctly; each serial port on it behaves as if it were alone (`RoutesAsList`,
  `MisjudgedMisroutes`, `PortsAreIsolated`).

## Where promise and code differ

- `src/argument.rs:266-267` promises that an error of the callback is returned. An `ExpectedValue` error for a
  bare option is taken as a request for the next word instead (`CallbackErrorEnds`, `ErrorsStopExactlyWhen`,
  `SwallowedError`).
- `kvm/src/lib.rs:317-321` explains that with no gaps the number of slots in use is a free slot. That fails
  once a gap was popped for a registration that KVM refused (`CollidesExactlyWhen`, `LostGapCollides`).
- `devices/src/bus.rs:86-87` says that no two devices can overlap. The test adds in 64 bits, so a range that
  ends at or beyond the last address can be accepted over others, and others over it (`SoundExactlyWhen`,
  `WrappingRangeIsAccepted`, `RangeUnderWrappingOneIsAccepted`). A debug build panics on that addition; the
  model follows a release build. An insertion is called judged when it meets nothing or the test notices that
  it does; that is the exact condition.
- The balloon device can hold another size than the controller's current one: a send that fails is only logged
  (`DeviceKnows`, `DeviceIsNotTold`, `SilentAtMaximum`). The adjustment request of a control socket sends four
  bytes, and the device ignores messages that are not eight bytes long.
- The data-ready bit of the serial port is wrong after an input whose interrupt could not be raised, which a guest
  in loop mode can cause (`RunIsHonest`, `HiddenByte`), and after an empty input (`PhantomByte`). The empty input
  is one of the interface only: `src/linux.rs:846` takes an empty read for the end of the input.
- `src/linux.rs:752` says 500MB for what is 512 MiB in the code; the model follows the code.
- A test in `gpu_buffer/src/lib.rs` expects two bytes per pixel in the second plane of NV12 and the code gives
  one. The model takes the pixel size of a plane as given.

## Model

| member | source | states |
|---|---|---|
| `VolatileMemory.VolatileSlice.GetSlice` | data_model/src/volatile_memory.rs:393-403 | a part of a slice exists exactly when it lies inside it |
| `VolatileMemory.VolatileSlice.Offset` | data_model/src/volatile_memory.rs:164-183 | a slice without its front ends where the slice ended, and exists exactly when the front is no longer than the slice |
| `VolatileMemory.CopyToVolatileSlice` | data_model/src/volatile_memory.rs:235-239 | copies the smaller of the two sizes as if all bytes were read first, and nothing else changes |
| `GpuBuffer.Map` | gpu_buffer/src/lib.rs:480-541 | a mapping succeeds only for a rectangle inside the buffer, and covers the rows from the first mapped pixel on |
| `GpuBuffer.MapSucceeds` | gpu_buffer/src/lib.rs:488-531 | a mapping succeeds if and only if the rectangle lies in the buffer, plane and format are known, libgbm maps it and the rows have a 32-bit size |
| `GpuBuffer.MapErrors` | gpu_buffer/src/lib.rs:488-531 | which error a rectangle that cannot be mapped meets, in the order of the tests |
| `GpuBuffer.RectFits` | gpu_buffer/src/lib.rs:516-541 | every line of a mapped rectangle lies inside the mapped slice, so no slice or offset call of a transfer can fail |
| `GpuBuffer.FragmentAt` | gpu_buffer/src/lib.rs:609-622 | fragment `k` is the stretch of the flattened source that follows the fragments before it |
| `GpuBuffer.CopyFragment` | gpu_buffer/src/lib.rs:653-661 | one copy puts the next bytes of the source in place and moves on by as much |
| `GpuBuffer.WriteRows` | gpu_buffer/src/lib.rs:605-632 | the whole-row loop places the source bytes that line up with the rows, however they are fragmented |
| `GpuBuffer.SkipGap` | gpu_buffer/src/lib.rs:664-674 | after a line, source and rows move on over the gap, which stays as it is |
| `GpuBuffer.WritePart` | gpu_buffer/src/lib.rs:653-675 | one round of the loop places what the fragment has of the line, and makes progress |
| `GpuBuffer.WriteLines` | gpu_buffer/src/lib.rs:633-676 | the loop over lines places the source bytes that line up with the lines and leaves the gaps alone, and it ends |
| `GpuBuffer.WriteFromSg` | gpu_buffer/src/lib.rs:584-679 | succeeds if and only if the rectangle is empty, or the offset is at most `isize::MAX` and the rectangle can be mapped; errors change nothing; otherwise memory is the flat plan of the write, which knows the fragments only by their concatenation |
| `GpuBuffer.LinesThatFit` | gpu_buffer/src/lib.rs:570-577 | how many lines a destination takes: all before the first that does not fit |
| `GpuBuffer.ReadRows` | gpu_buffer/src/lib.rs:558-559 | the whole-row path copies as many bytes as both sides have |
| `GpuBuffer.ReadLines` | gpu_buffer/src/lib.rs:560-578 | the lines that fit are copied, and the first that does not is the error |
| `GpuBuffer.ReadMapped` | gpu_buffer/src/lib.rs:558-578 | on either path, as much is copied as the destination takes, and lines that it does not take are the error |
| `GpuBuffer.ReadToVolatile` | gpu_buffer/src/lib.rs:544-581 | succeeds if and only if the rectangle is empty, or can be mapped and is as wide as the buffer or its last line fits the destination; result and memory are those of the flat plan of the read, on both paths |
| `GpuPixels.Placement` | gpu_buffer/src/lib.rs:516-541 | the bytes that a transfer touches, among those of pixels, are exactly those of the pixels of its rectangle |
| `GpuPixels.WritePixels` | gpu_buffer/src/lib.rs:605-676 | a write changes exactly the pixels of its rectangle, to the source bytes that line up with them |
| `GpuPixels.WriteRowBytes` | gpu_buffer/src/lib.rs:605-676 | of the bytes of the mapped rows, a full-width write takes all, padding included, and any other those of its own pixels in each row |
| `GpuPixels.WriteOutsideRows` | gpu_buffer/src/lib.rs:605-676 | nothing before or behind the mapped rows is written |
| `GpuPixels.ReadPixels` | gpu_buffer/src/lib.rs:558-578 | a read returns every pixel byte of its rectangle whose line fits the destination, whether or not all lines fit |
| `GpuPixels.ReadRowBytes` | gpu_buffer/src/lib.rs:560-578 | a narrower read fills the lines that fit, and leaves the gaps and the other lines of the destination alone |
| `GpuPixels.ReadWholeRows` | gpu_buffer/src/lib.rs:558-559 | a full-width read copies as many bytes as both sides have |
| `GpuPixels.WriteThenRead` | gpu_buffer/src/lib.rs:804-836 | writing one rectangle and reading another gives the written bytes where they meet and the source reaches, and the old bytes elsewhere |
| `Channel.RunKeepsInv` | devices/src/proxy.rs:48-106 | every run keeps the account of what is sent, served, answered and taken |
| `Channel.RepliesLagByTimeouts` | devices/src/proxy.rs:183-194 | messages are served in order, and the reply taken for request n answers request n - t after t timeouts |
| `Channel.Lockstep` | devices/src/proxy.rs:160-233 | without timeouts every reply answers its own request and both queues are empty between requests |
| `Channel.SentInRun` | devices/src/proxy.rs:217-242 | what is sent is the requests in order and then at most the shutdown |
| `Channel.QuietAfterLast` | devices/src/proxy.rs:93-105 | nothing reaches the device after the shutdown |
| `Channel.StaleReply` | devices/src/proxy.rs:183-189 | after one timeout, the next request gets the late reply to the one before |
| `Channel.Exchange` | devices/src/proxy.rs:160-194 | from a quiet state a request that the server answers completes in four steps, and all is quiet again |
| `Channel.OneOutcomeEach` | devices/src/proxy.rs:217-232 | in every run each attempt to send has exactly one outcome, but for the one still waited for |
| `ProxyWire.LeRoundTrip` | devices/src/proxy.rs:160-181 | an integer written and read back keeps the low bytes of its width |
| `ProxyWire.DecodeEncode` | devices/src/proxy.rs:67-99 | the child decodes every message to the parent's call in its wired form |
| `ProxyWire.ReplyBody` | devices/src/proxy.rs:69-95 | the last eight bytes of a reply are the result over what the message had there |
| `ProxyWire.DecodeShutdown` | devices/src/proxy.rs:235-242 | the message sent on drop is decoded as the request to stop |
| `ProxyWire.Layout` | devices/src/proxy.rs:160-181 | the bytes of every message: command number, length or register, offset, data |
| `ProxyWire.WiredIsExact` | devices/src/proxy.rs:196-215 | the device gets the caller's own call exactly when a read buffer is zero and no number of a configuration call is cut to 32 bits |
| `ProxyWire.BuildCmd` | devices/src/proxy.rs:160-167 | filling the buffer field by field gives the message of the call |
| `ProxyWire.BuildConfigCmd` | devices/src/proxy.rs:169-181 | the same for configuration calls |
| `Proxy.ServeBuffer` | devices/src/proxy.rs:67-99 | one iteration of the child, in place on the received buffer, for every datagram: which of the device's operations is called with which fields, where its result goes, and that it stops exactly on a shutdown, an unknown command or a length without room |
| `Proxy.ChildProc` | devices/src/proxy.rs:48-106 | the loop of the child serves messages until one that stops it or has the wrong size |
| `Proxy.ReadReaches` | devices/src/proxy.rs:69-73 | a read call reaches the device's read with its offset and a zeroed buffer, and the bytes filled in come back |
| `Proxy.WriteReaches` | devices/src/proxy.rs:74-78 | a write call reaches the device's write with its offset and bytes |
| `Proxy.ConfigReadReaches` | devices/src/proxy.rs:79-86 | a configuration read reaches the device's with the low 32 bits of the register, brings its value back and leaves the device as it is |
| `Proxy.ConfigWriteReaches` | devices/src/proxy.rs:87-92 | a configuration write reaches the device's with the low 32 bits of register and offset and its bytes |
| `Proxy.ShutdownReaches` | devices/src/proxy.rs:93-95 | the shutdown is echoed, leaves the device as it is and is the last message served |
| `Proxy.WrongSizeStops` | devices/src/proxy.rs:53-59 | a datagram of another size ends the loop with nothing done |
| `Proxy.ServesAllCalls` | devices/src/proxy.rs:48-106 | given any calls and then the shutdown, the loop makes and answers them all and ends, whatever comes behind |
| `Proxy.DeviceMakesTheCalls` | devices/src/proxy.rs:48-106 | in every run, with any failures and timeouts, the device is as after the parent's calls made directly, once each and in order |
| `Proxy.ReplyLagsByTimeouts` | devices/src/proxy.rs:183-233 | in every run, the caller gets the result of the call as many calls back as there were timeouts, made directly, followed by the rest of that call's message, cut to the size of its own call |
| `Proxy.ReplyIsOwn` | devices/src/proxy.rs:183-233 | without timeouts each call returns what it returns when made directly |
| `Proxy.QuietBetweenCalls` | devices/src/proxy.rs:183-233 | without timeouts, between calls nothing is under way and the device has made all of them |
| `Proxy.AllCallsComplete` | devices/src/proxy.rs:183-233 | any list of calls has a run in which every one returns what it returns when made directly |
| `VcpuControl.StepKeepsBarrier` | src/linux.rs:811-825 | every step of any thread or of main keeps the barrier's account of who has arrived |
| `VcpuControl.StepKeepsJoin` | src/linux.rs:999-1011 | every step keeps the account of which threads have been kicked and joined |
| `VcpuControl.RunKeepsInv` | src/linux.rs:595-676 | the invariant of the whole protocol holds in every reachable state |
| `VcpuControl.NobodyEntersEarly` | src/linux.rs:626-629 | no thread enters the guest before all threads and main have reached the barrier |
| `VcpuControl.AtMostOneLateEntry` | src/linux.rs:663-665 | once the kill flag is set no thread enters the guest more than once again |
| `VcpuControl.AllSpawnedAtBarrier` | src/linux.rs:811-825 | main comes to the barrier only after it has spawned every thread |
| `VcpuControl.LeavesForAReason` | src/linux.rs:628-665 | in every run, while the kill flag is not set a thread leaves its loop only after a halt, a fatal error or a failure to set its signal mask |
| `VcpuControl.NoEntryOnTheWayOut` | src/linux.rs:645-674 | in every run, a thread that halts, fails, has no signal mask or has left its loop never enters the guest again |
| `VcpuControl.GuestReturns` | src/linux.rs:628-632 | a thread at the top of its loop can enter the guest and come back with any reason |
| `VcpuControl.LeavesAtOnce` | src/linux.rs:645-673 | after a halt or a fatal error the next two steps of a thread finish it and write the exit event |
| `VcpuControl.SystemEventStopsAll` | src/linux.rs:647-665 | after a system event a thread sets the kill flag, sees it and finishes in three steps |
| `VcpuControl.LoopsOn` | src/linux.rs:630-670 | after any other exit, with the flag not set, a thread clears the signal and enters the guest again in four steps |
| `VcpuControl.KillHasAReason` | src/linux.rs:647-649 | in every run the kill flag is set only if main stopped or the guest raised a system event |
| `VcpuControl.KillAfterBarrier` | src/linux.rs:999-1001 | the kill flag is set only after the barrier has opened |
| `VcpuControl.FewStepsAfterKill` | src/linux.rs:628-673 | in every run, a thread takes at most six own steps after the kill flag is set, and the sixth finishes it |
| `VcpuControl.ExitIsSignalledOnce` | src/linux.rs:671-673 | exit events are as many as finished threads, one each, with no bus access after it |
| `VcpuControl.JoinedThreadsAreFinished` | src/linux.rs:1002-1011 | when main is done, every thread whose kick was delivered has finished |
| `VcpuControl.AllFinishedAtTheEnd` | src/linux.rs:1002-1011 | when every kick of a run is delivered and main is done, all threads have finished and signalled |
| `VcpuControl.WaitsOnlyForKicked` | src/linux.rs:1002-1011 | in every run main waits only for a thread whose kick was delivered, and passes over one whose kick was not |
| `VcpuControl.KickStaysPending` | src/linux.rs:663-669 | a kick stays pending if and only if it was not cleared after arriving between the test of the flag and the clearing |
| `VcpuControl.LostKick` | src/linux.rs:663-669 | there is a run in which main waits for a thread that is in the guest with no signal pending |
| `Balloon.Loop.constructor` | src/linux.rs:749-759 | the controller starts with nothing taken |
| `Balloon.Loop.OnLowMemory` | src/linux.rs:907-941 | the handler makes the controller's low-memory step, a sixteenth of the maximum up to all of it, whether the send to the balloon device works or not |
| `Balloon.Loop.OnLowmemTimer` | src/linux.rs:942-950 | the handler makes the controller's timer step |
| `Balloon.Loop.OnCheckAvailableMemory` | src/linux.rs:877-906 | the handler makes the controller's check step: a sixteenth of the maximum, or what is left, is given back exactly when the host has its margin and twice that sixteenth in MiB available, whether the send works or not |
| `Balloon.Loop.OnBalloonAdjust` | vm_control/src/lib.rs:253-261 | a control request sends four bytes to the balloon device and leaves the controller as it is |
| `Balloon.RunKeepsInv` | src/linux.rs:877-950 | every run keeps the controller's invariant |
| `Balloon.ControllerIsSafe` | src/linux.rs:749-759 | in every run the guest keeps 1 GiB, half or all of its memory, polling and timers alternate, and memory taken implies a timer to return it |
| `Balloon.GivesBackExactlyWhen` | src/linux.rs:888-905 | when a check gives memory back, how much, what is sent, and that nothing else changes |
| `Balloon.NothingToGiveBack` | src/linux.rs:880-886 | with nothing taken a check only disarms its timer, if that works |
| `Balloon.ChangesSize` | src/linux.rs:877-919 | the handlers change the current size exactly on a low-memory event below the maximum and on a check that finds enough memory while some is taken |
| `Balloon.StepAgrees` | src/linux.rs:900-919 | from agreement, the balloon device stops holding the current size exactly when the send at such a change fails; one that works restores agreement from any state |
| `Balloon.DeviceKnows` | devices/src/virtio/balloon.rs:177-190 | in every run the balloon device holds the current size until, and not after, a send fails at such a change; control requests play no part |
| `Balloon.DeviceIsNotTold` | src/linux.rs:913-919 | in a guest of 2 GiB, one low-memory event whose send fails takes 64 MiB that the device never hears of |
| `Balloon.SilentAtMaximum` | src/linux.rs:913-919 | at the maximum no size is sent again, right or wrong, until memory is given back |
| `Balloon.RateLimited` | src/linux.rs:921-928 | low-memory events and timer events alternate |
| `Balloon.Grows` | src/linux.rs:907-919 | n low-memory events take exactly n sixteenths of the maximum, or all of it |
| `Balloon.Drains` | src/linux.rs:888-905 | n successful checks return exactly n sixteenths of the maximum, or all that was taken |
| `Balloon.SeventeenAlarms` | src/linux.rs:758-759 | from any state, seventeen low-memory events leave a guest of 1.5 GiB or more exactly 1 GiB, one of 512 MiB or more half, and a smaller one everything |
| `Balloon.SeventeenReturns` | src/linux.rs:758-759 | from any state, seventeen successful checks return everything |
| `Arguments.FindArgument` | src/argument.rs:276-296 | the loop over the list finds what the search function finds |
| `Arguments.SetArguments` | src/argument.rs:180-298 | the loop over the words makes the calls and ends as the recursive parse does |
| `Arguments.ResolvedIsDeclared` | src/argument.rs:277-292 | a name found stands for an entry that takes a value exactly when one is given |
| `Arguments.CallsAreDeclared` | src/argument.rs:264-266 | for every input, every call of the callback names a declared argument, with a value exactly when it takes one |
| `ArgumentsRoundTrip.ResolveNamed` | src/argument.rs:277-292 | in a list with distinct names, a long or short name finds its entry or the error that its value is missing or unwanted |
| `ArgumentsRoundTrip.ItemsParse` | src/argument.rs:197-247 | each spelling of a setting is parsed to that setting |
| `ArgumentsRoundTrip.PositionalsParse` | src/argument.rs:248-251 | all words after the first positional one are positional |
| `ArgumentsRoundTrip.RoundTrip` | src/argument.rs:180-298 | parsing any rendering of any settings and positional words gives exactly those, in order |
| `ArgumentsRoundTrip.CallbackErrorEnds` | src/argument.rs:264-267 | a word whose call fails ends the parse with that error if and only if it is not `ExpectedValue` for a word that can wait for a value |
| `ArgumentsRoundTrip.ErrorsStopExactlyWhen` | src/argument.rs:264-267 | over a whole parse, every word whose call fails is the last one read and its error the outcome, if and only if no word swallows an error |
| `ArgumentsRoundTrip.FailedCallIsLast` | src/argument.rs:264-267 | then a call that fails is the last in the history, and its error is the outcome |
| `ArgumentsRoundTrip.CallbackErrorIsReturned` | src/argument.rs:264-267 | for every callback that returns no `ExpectedValue`, a call that fails is the last and its error is returned |
| `ArgumentsRoundTrip.SwallowedError` | src/argument.rs:217-220 | for every flag, an `ExpectedValue` error of its callback is swallowed and the parse succeeds |
| `ArgumentsRoundTrip.TrailingOptionIsDropped` | src/argument.rs:252-258 | an option at the end that waits for its value is dropped, and the parse succeeds |
| `ArgumentErrors.UnknownExactlyWhen` | src/argument.rs:276-296 | a name is unknown if and only if no entry has it as its long or short name, and then the callback is not called |
| `ArgumentErrors.UnknownLongEnds` | src/argument.rs:197-226 | a long name that no entry has ends the parse with `UnknownArgument`, with a value or without |
| `ArgumentErrors.UnknownShortEnds` | src/argument.rs:227-242 | so does a short name, whatever follows it |
| `ArgumentErrors.UnknownPositionalEnds` | src/argument.rs:243-251 | so does a positional word when no entry has the empty name |
| `ArgumentErrors.LoneDashEnds` | src/argument.rs:227-231 | a dash alone is a syntax error, and nothing is called |
| `ArgumentErrors.NoNameEnds` | src/argument.rs:206-209 | so is a value without a name |
| `ArgumentErrors.NoValueEnds` | src/argument.rs:210-213 | so is an equals sign with nothing behind it |
| `ArgumentErrors.WideShortPanics` | src/argument.rs:232-233 | a short name outside ASCII panics |
| `ArgumentErrors.MoreDashes` | src/argument.rs:200-201 | more than two dashes before a long option are two |
| `Bits.Bit8OfWith` | bit_field/bit_field_derive/bit_field_derive.rs:308-322 | writing a bit of a byte sets that bit and no other |
| `Bits.CutWord` | bit_field/bit_field_derive/bit_field_derive.rs:339-347 | writing the low digits of a word keeps its remainder |
| `Bits.BitsOfWord` | bit_field/bit_field_derive/bit_field_derive.rs:325-336 | a word is determined by its digits |
| `BitField.SameBitsSameData` | bit_field/bit_field_derive/bit_field_derive.rs:295-305 | arrays with equal bits are equal |
| `BitField.Struct.constructor` | bit_field/bit_field_derive/bit_field_derive.rs:173-175 | a new struct has no bit set |
| `BitField.Struct.ReadBit` | bit_field/bit_field_derive/bit_field_derive.rs:295-305 | reads one bit of the array |
| `BitField.Struct.WriteBit` | bit_field/bit_field_derive/bit_field_derive.rs:308-322 | writes one bit of the array and no other |
| `BitField.Struct.Get` | bit_field/bit_field_derive/bit_field_derive.rs:325-336 | the loop gives the number whose digits are the bits of the range |
| `BitField.Struct.Set` | bit_field/bit_field_derive/bit_field_derive.rs:339-347 | the loop writes the low digits of the value over the range and nothing else |
| `BitFieldLayout.ReadField` | bit_field/bit_field_derive/bit_field_derive.rs:193-197 | the generated getter reads its own field |
| `BitFieldLayout.WriteField` | bit_field/bit_field_derive/bit_field_derive.rs:199-203 | the generated setter writes its own field |
| `BitFieldLayout.GetAfterSet` | bit_field/bit_field_derive/bit_field_derive.rs:263-279 | for every schema, get after set gives the value cut to the width, so the value itself exactly when it fits |
| `BitFieldLayout.OtherFieldsKept` | bit_field/bit_field_derive/bit_field_derive.rs:181-208 | setting a field changes no other getter |
| `BitFieldLayout.NewIsZero` | bit_field/bit_field_derive/bit_field_derive.rs:172-176 | every field of a new struct reads zero |
| `BitFieldLayout.FieldPlace` | bit_field/bit_field_derive/bit_field_derive.rs:181-203 | digit i of a field is the bit of its byte, lowest first, that lies i behind the sum of the widths before the field |
| `BitFieldLayout.FieldsDetermineData` | bit_field/bit_field_derive/bit_field_derive.rs:157-178 | structs with equal fields have equal bytes |
| `BitFieldLayout.AnyFieldsCanBeSet` | bit_field/bit_field_derive/bit_field_derive.rs:181-208 | setting the fields one after the other leaves each with the value it was given |
| `BitFieldLayout.SetAll` | bit_field/bit_field_derive/bit_field_derive.rs:199-203 | the setters turn any bytes into bytes with any given field values that fit, so bytes and tuples of values are in bijection |
| `KvmSlots.Vm.AddDeviceMemory` | kvm/src/lib.rs:307-340 | succeeds if and only if the address and the registration are good, adds the mapping at the slot it returns and changes no other, and as long as no gap is lost that slot is the lowest free one |
| `KvmSlots.Vm.RemoveDeviceMemory` | kvm/src/lib.rs:345-359 | returns the mapping of the slot and takes just that away, or the error of a slot not in use or of the registration with nothing changed |
| `KvmSlots.RunKeepsInv` | kvm/src/lib.rs:307-359 | over every run, slots in use, gaps and lost gaps are disjoint and fill an interval behind guest memory |
| `KvmSlots.CollidesExactlyWhen` | kvm/src/lib.rs:317-325 | after every run, the next slot is one in use if and only if no gap is left, one was lost, and the next number was not |
| `KvmSlots.ChoosesLowestFree` | kvm/src/lib.rs:317-325 | after every run that loses no gap, the next slot is the lowest free one |
| `KvmSlots.AddsAtLowestFree` | kvm/src/lib.rs:307-340 | after every run that loses no gap, the slot returned is the lowest free one behind guest memory, and holds the mapping |
| `KvmSlots.OutcomeIs` | kvm/src/lib.rs:307-359 | which error each call returns, and that no error changes a mapping |
| `KvmSlots.RemoveReturnsWhatWasAdded` | kvm/src/lib.rs:345-359 | after any run, removal gives back the mapping that was added, if nothing in between removed the slot or was added there; without lost gaps only a removal can do that |
| `KvmSlots.LostGapCollides` | kvm/src/lib.rs:322-337 | from any state with two mappings and no gaps, three calls make the next mapping replace one in use |
| `KvmSlots.LostGapBlocks` | kvm/src/lib.rs:322-336 | or, if KVM refuses a slot in use, every further addition fails and leaves all as it is |
| `Bus.DeviceMap.MeetsAny` | devices/src/bus.rs:128-131 | the loop over the ranges finds one that the 64-bit test takes for overlapping, if there is one |
| `Bus.DeviceMap.InsertOrdered` | devices/src/bus.rs:133-137 | the entry goes behind all smaller bases; an entry with that base keeps its range and gets the device |
| `Bus.DeviceMap.Insert` | devices/src/bus.rs:121-140 | in any state the map stays ordered, and nothing changes or the new device is at its base; on disjoint ranges a judged range is added exactly when it is not empty and meets none, they stay disjoint, and a failure changes nothing |
| `Bus.RoutedToOwner` | devices/src/bus.rs:99-118 | in an ordered map of disjoint ranges, an address in a range goes to its device with the offset or the full address |
| `Bus.RoutedNowhere` | devices/src/bus.rs:106-118 | an address in no range goes nowhere |
| `Bus.MeetsIsSharing` | devices/src/bus.rs:57-62 | non-empty ranges meet if and only if they have an address in common |
| `Bus.SeenMeets` | devices/src/bus.rs:58-61 | ranges that the 64-bit test takes for overlapping do overlap; the reverse holds if both end before the last address |
| `Bus.OverlapsIsSeen` | devices/src/bus.rs:58-61 | the 64-bit test finds exactly the ranges each of which begins below the wrapped end of the other |
| `Bus.InsertedWhenFree` | devices/src/bus.rs:121-140 | a judged insertion succeeds exactly for a non-empty range that meets no other, adds just that range, and changes nothing when it fails |
| `Bus.InsertedRouting` | devices/src/bus.rs:121-140 | a judged insertion that succeeds routes its own range to the new device and every other address as before |
| `Bus.RoutesAsList` | devices/src/bus.rs:99-140 | after every run of judged insertions, lookup agrees with a search of the accepted ranges, and so does the next insertion |
| `Bus.MisjudgedMisroutes` | devices/src/bus.rs:99-140 | and only then: the first insertion of a new device that is not judged makes lookup and search disagree |
| `Bus.SoundExactlyWhen` | devices/src/bus.rs:58-61 | for any range and any map of disjoint ranges, insertion is sound if and only if the range is empty, meets nothing, meets a range that is seen, or its device is at that base already |
| `Bus.RunSoundExactlyWhen` | devices/src/bus.rs:121-140 | a whole run of insertions is sound if and only if each is judged against those accepted before it |
| `Bus.ShortIsJudged` | devices/src/bus.rs:58-61 | among ranges that end before the last address every insertion is judged |
| `Bus.WrappingRangeIsAccepted` | devices/src/bus.rs:128-131 | a range to the last address is accepted over another device |
| `Bus.RangeUnderWrappingOneIsAccepted` | devices/src/bus.rs:128-131 | a short range is accepted over a device in the last addresses, of which those behind it then go nowhere |
| `Serial.Port.constructor` | devices/src/serial.rs:66-80 | the registers after construction |
| `Serial.Port.QueueInputBytes` | devices/src/serial.rs:94-100 | the method makes the input step, with the event failing or not |
| `Serial.Port.TransmitByte` | devices/src/serial.rs:163-176 | the transmit branch: loop mode, output, and what each failure leaves undone |
| `Serial.Port.Write` | devices/src/serial.rs:188-196 | a bus write of one byte is the write of its register, and of any other length nothing |
| `Serial.Port.TakeByte` | devices/src/serial.rs:206-212 | the receive branch |
| `Serial.Port.Read` | devices/src/serial.rs:198-226 | a bus read of one byte is the read of its register, and of any other length leaves the buffer as it was |
| `SerialLaws.InputIsConserved` | devices/src/serial.rs:94-100 | over every run, what was accepted is what was delivered, in order, followed by what is in the buffer |
| `SerialLaws.LoopIsBounded` | devices/src/serial.rs:164-168 | in every run no guest operation takes the buffer beyond the loop size or its length, so it is at most the larger of the loop size and its first length, and what the host put in |
| `SerialLaws.OutputIsInOrder` | devices/src/serial.rs:256-267 | over every run, the output is the transmitted bytes in order, without those whose write failed |
| `SerialLaws.RunKeepsPlausible` | devices/src/serial.rs:118-128 | the interrupt register always says none or which are pending, never both |
| `SerialLaws.PendingAfter` | devices/src/serial.rs:118-153 | which of the two interrupts is pending after each operation, in both directions |
| `SerialLaws.RaisedWhen` | devices/src/serial.rs:130-149 | an event is written if and only if an enabled interrupt is set and the write works |
| `SerialLaws.RegistersReadBack` | devices/src/serial.rs:177-180 | a register reads as what was written, of the interrupt enable register the low four bits |
| `SerialLaws.RegistersStayApart` | devices/src/serial.rs:155-184 | a write to one register leaves the others, and a write to one that cannot be written leaves everything |
| `SerialLaws.StatusRegisters` | devices/src/serial.rs:213-224 | what the status registers read as, and that reading the interrupt identification clears it |
| `SerialLaws.AfterReset` | devices/src/serial.rs:66-80 | what a guest reads of every register of a new port |
| `SerialLaws.RunIsHonest` | devices/src/serial.rs:138-145 | the data-ready bit is right until, and not after, an operation of the stated kind |
| `SerialLaws.PolledByteIsNext` | devices/src/serial.rs:270-288 | a guest that polls gets the oldest byte that was not delivered yet |
| `SerialLaws.HiddenByte` | devices/src/serial.rs:163-168 | a guest in loop mode whose interrupt cannot be raised has a byte in the buffer that the port says is not there |
| `SerialLaws.PhantomByte` | devices/src/serial.rs:94-100 | an empty input, which the interface allows, makes the guest read a byte that nobody sent |
| `SerialLaws.DivisorReadsBack` | devices/src/serial.rs:157-162 | both halves of the divisor are written and read back, and nothing else changes |
| `PortsOnBus.PortsAreIsolated` | devices/src/bus.rs:145-164 | after any judged insertions and accesses, each port is as if it were alone and given the accesses to its own range |
| `PortsOnBus.ReadsAreIsolated` | devices/src/bus.rs:142-152 | a bus read returns what the port that owns the address would return alone, and leaves the buffer untouched when nobody owns it |
| `PortsOnBus.OutputOfPort` | devices/src/bus.rs:154-164 | the output of a port is what the guest transmits in its range, in order |
| `CommandBuffer.IsValid` | gpu_renderer/src/command_buffer.rs:77-83 | the loop ends on every buffer and says whether the walk ends at its end |
| `CommandBuffer.Builder.Finish` | gpu_renderer/src/command_buffer.rs:94 | the assertion holds and a walk gives all commands so far, as long as each fits its header |
| `CommandBuffer.Builder.EClear` | gpu_renderer/src/command_buffer.rs:86-95 | the buffer stays the words of all commands pushed; the assertion holds as long as each fits |
| `CommandBuffer.Builder.ECreateSurface` | gpu_renderer/src/command_buffer.rs:98-114 | the same for surfaces |
| `CommandBuffer.Builder.ESetFbState` | gpu_renderer/src/command_buffer.rs:117-130 | the same for the framebuffer state |
| `CommandBuffer.LengthIsExact` | gpu_renderer/src/command_buffer.rs:57-59 | the header tells the length of the payload exactly for at most 0xfffd surface handles |
| `CommandBuffer.ClearLayout` | gpu_renderer/src/command_buffer.rs:86-93 | the nine words of a clear command |
| `CommandBuffer.SurfaceLayout` | gpu_renderer/src/command_buffer.rs:105-112 | the six words of a surface command |
| `CommandBuffer.LayerWord` | gpu_renderer/src/command_buffer.rs:112 | both layers share the last of them when the first has 16 bits |
| `CommandBuffer.FbStateLayout` | gpu_renderer/src/command_buffer.rs:118-128 | the words of a framebuffer state: the number of handles, the depth buffer or zero, the handles |
| `CommandBuffer.WalkRecovers` | gpu_renderer/src/command_buffer.rs:57-130 | a walk recovers exactly the commands pushed if and only if each fits its header |
| `CommandBuffer.StaysValid` | gpu_renderer/src/command_buffer.rs:94-130 | a command that fits keeps a valid buffer valid and adds one record to it |
| `CommandBuffer.DecodesBack` | gpu_renderer/src/command_buffer.rs:86-130 | the arguments can be read back from a record exactly when none was cut or mixed with another |
| `CommandBuffer.OverlongStaysValid` | gpu_renderer/src/command_buffer.rs:117-130 | with 0xfffe small handles the assertion still holds, and the walk finds a command for each word |
| `IdAllocator.Counter.Alloc` | crosvm_plugin/src/lib.rs:119-121 | the atomic addition makes the allocation step |
| `IdAllocator.Counter.Free` | crosvm_plugin/src/lib.rs:123-126 | the compare-and-swap makes the free step |
| `IdAllocator.IdsStayDistinct` | crosvm_plugin/src/lib.rs:115-127 | in every interleaving with single frees and a 32-bit counter, live ids are distinct and below the counter |
| `IdAllocator.AnyFreeKeepsInv` | crosvm_plugin/src/lib.rs:332-342 | a free of any id, also a repeated one, keeps that if and only if the id was not the last and reused |
| `IdAllocator.AnyAllocKeepsInv` | crosvm_plugin/src/lib.rs:119-121 | an allocation keeps it if and only if the counter has not passed 32 bits onto a live id |
| `IdAllocator.NestedFreesRestore` | crosvm_plugin/src/lib.rs:123-126 | well-nested lifetimes set the counter back to where it was |
| `IdAllocator.DoubleFreeRepeats` | crosvm_plugin/src/lib.rs:123-126 | a repeated free makes two live objects share an id |
| `KernelCmdline.ValidElement` | kernel_cmdline/src/kernel_cmdline.rs:54-64 | accepts exactly printable strings without space and equals sign |
| `KernelCmdline.AcceptedExactlyWhen` | kernel_cmdline/src/kernel_cmdline.rs:84-135 | an insertion is accepted if and only if its text is valid and the line with it is shorter than the capacity, and then stands at the end of the line |
| `KernelCmdline.RefusedWith` | kernel_cmdline/src/kernel_cmdline.rs:46-64 | which error a refused insertion has |
| `KernelCmdline.Cmdline.Insert` | kernel_cmdline/src/kernel_cmdline.rs:106-121 | the first error found, or the pair at the end; the assertion on the capacity holds |
| `KernelCmdline.Cmdline.InsertStr` | kernel_cmdline/src/kernel_cmdline.rs:124-135 | the same for text |
| `KernelCmdline.LineIsPrintable` | kernel_cmdline/src/kernel_cmdline.rs:84-103 | after every run the line is printable and shorter than the capacity |
| `KernelCmdline.LineReadsBack` | kernel_cmdline/src/kernel_cmdline.rs:105-135 | after every run of insertions, splitting the line at spaces and each word at its first equals sign gives what the accepted insertions say, in order |
| `KernelCmdline.PairsReadBack` | kernel_cmdline/src/kernel_cmdline.rs:105-121 | for pairs that is exactly the accepted pairs |

## Left out

- GpuBuffer.WriteFromSg: what libgbm maps is trusted to be memory with rows no shorter than the buffer's, and the fragments are taken to lie apart from the mapped rows; a fragment list that changes while it is walked is not modelled.
- GpuBuffer.ReadToVolatile: the destination is taken to lie apart from the mapped rows.
- VolatileMemory.CopyToVolatileSlice: the order of the single byte accesses is undefined in the source and not modelled.
- Pixel formats: the table of bytes per pixel is a parameter, between one and four.
- Proxy.ServeBuffer: a length that reaches past the message panics in the child; the model lets the child stop there.
- ProxyWire.LeRoundTrip: native byte order is little endian.
- VcpuControl.JoinedThreadsAreFinished: that `join` returns at all is not claimed, since a kick can be lost; the failure of `clear_signal`, which panics, is not modelled.
- Balloon.ControllerIsSafe: the send of a control request's answer and the other requests are not modelled; handler errors that end the main loop end a run; the length of timers and their jitter are not modelled.
- BitField.Struct.Get: 64-bit words are numbers, and shifting and masking single bits is arithmetic on them.
- KvmSlots.Vm.AddDeviceMemory: slot numbers do not wrap at 32 bits, the heap is a list in the order it pops, and whether KVM accepts a registration is a parameter.
- Bus.DeviceMap.Insert: the balanced tree is a sorted sequence; `BusRange::contains` has no caller and is left out.
- Serial.Port.Write: registers are numbers, and those of which the code uses single bits are those bits.
- CommandBuffer.Builder.EClear: floating-point arguments are given by their bits; the constants of the protocol are those of the payloads pushed.
- IdAllocator.Counter.Alloc: atomic operations are steps of one run; memory ordering is not modelled.
- KernelCmdline.Cmdline.Insert: strings are sequences of characters, and only printable ASCII is ever measured or added.
- Kernel calls, KVM, the GPU libraries, jails, sockets and files appear only as results that are given.
- Device creation, the 9p and vsock servers, PCI, virtio queues, Wayland, the plugin protocol, kernel loading and the architecture crates.
- Small devices (CMOS, i8042, PL030), endian wrappers and CPUID conversion, whose behaviour shows in one branch each.
