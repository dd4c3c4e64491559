# WineHua: verified models of its stateful cores

WineHua runs Windows programs on a phone: guest processes render through a broker, a render thread shows their frames, an
audio broker mixes their sound, and two replay programs feed captured shaders and draws to the graphics driver. Most of
the repository is glue around platform calls. This project models the parts that carry state, arithmetic or parsing, and
proves what they promise:

- **SPIR-V reflection** (`SpirvModule`, `SpirvContract`, `SpirvReflect`, `SpirvMeaning`, `SpirvSpecIds`,
  `DescriptorPool`). The words of a module (section 2.3 of the SPIR-V Specification) are walked once into id-indexed
  tables; the tables give the descriptor bindings, an output, the specialization ids and a pool histogram. The
  specification is declarative: for every id and every kind of fact the last instruction that states it decides. The loops are proved against it, and the
  specification is shown not to depend on the order of the instructions and, in opcodes and operand words, to find exactly
  the bindings that a module declares.
- **Zero-copy presentation** (`ZeroCopyProtocol`, `ZeroCopyPhases`, `ZeroCopyRenderer`, `FrameSignals`). Every method of
  the renderer is a list of single writes; other threads act between any two of them. Safety is proved at every write of
  every run. The objects keep a ghost trace of the states that their writes leave behind, and are proved to leave exactly
  those of the lists, in that order; what other threads do to the objects is proved to be what the protocol assumes. Call
  by call, every run is proved to be one of a machine of four phases.
- **Audio broker** (`AudioBrokerSpec`, `AudioStreamRuns`, `AudioBroker`, `AudioMixer`, `AudioCapture`, `AudioRing`,
  `AudioStreams`, `AudioTable`, `RateConversion`). Runs of connections, commands and shutdowns; a broker over stream
  objects with a ring each; what a run means for one stream; the saturating mixer over the real ring buffers; the rate
  arithmetic.
- **Captured replay** (`CaptureImages`, `StagingSlots`, `StagingLayout`, `CaptureStaging`, `ImageOwnership`, `Fnv`,
  `CaptureVerification`, `CaptureReadback`). The bump allocator for uploads and readback in wrapping 64-bit arithmetic,
  handles shared between images, and what hash verification can and cannot miss.
- **Input** (`InputQueue`, `PointerButtons`, `InputRuns`, `InputManagers`). The in-place merge of an event batch against a
  client that observes it, the button and relative-motion bookkeeping over whole runs with delayed releases, and what the
  client has after every run.
- **Host configuration** (`HostConfig`, `HostSettings`, `LaunchString`, `HostFingerprint`). Validation, what the modes
  mean for every variable, the launch string together with the process that takes it apart, and the fingerprint.

`MachineInts`, `Wrappers`, `Sequences` and `BitMask` are the common ground: integer widths, options, permutations, and bit
masks defined bit by bit. `dafny verify dfyconfig.toml` checks everything.

## What the proofs found

Some promises hold only under a condition, which the lemmas named here state exactly.

- A ready marker can outlive its compositor key: destroying a published surface drops the key
  (`entry/src/main/cpp/wl_core.cpp:109-111`), and when a surface of the same key is created again neither polls nor frames
  put it back. A marker implies its key exactly while the run has dropped the key of none this way
  (`MarkerMeansKeyInRun`, `LostIffDropped`, `RecreatedSurfaceStaysUncovered`, `MarkerWithoutKeyIsReachable`).
- A key left out of CPU composition can lose its ready marker: the marker file cannot be opened, the broker shuts down or
  sweeps its markers. Then the guest draws to shared memory that nobody composes, and polls and shown frames do not repair
  it. It has a marker or a pending fallback exactly while the run has taken its marker in none of these ways
  (`KeyMeansMarkerInRun`, `MissingIffTaken`, `StrandedKeyStays`, `StrandedKeyIsReachable`).
- The comment at `entry/src/main/cpp/egl_renderer.cpp:417-422` promises that a fallback waits for a new frame. A
  revocation that does not find the layer keeps the old baseline, and if commits have passed that, the next poll shows the
  old frame (`FallbackWaitsIff`, `HastyFallbackIsReachable`; over whole runs, `FallbackIff`).
- Resetting a capture stream leaves the shared capturer running exactly if it was the only started one (`ExactCommand`,
  `ResetLeavesCapturer`); the next stop, close or cleanup repairs that (`CapturerRecovers`).
- `Stop` of the audio broker releases its lock while the old server finishes, so the broker can be launched in between.
  The new server counts its connections from one again: then the cleanup of an old connection can take the streams of a
  new one (`OverlapLosesStream`; exactly when, `CleanupIsItsOwnIff`), and the end of the stop leaves the new broker
  without a renderer (`OverlapSilences`; exactly when, `RendererKeptIff`). Without such a launch ids are unique and each
  stream obeys the connection that opened it (`ConnectionsAreNew`). Nothing in this repository calls `Stop` at present.
- A release shortly after a press is queued by a sleeping thread. If the button is pressed again before, the late release
  takes it from the client while the mask keeps it. Mask and client part exactly there (`PartedIff`, `LateExactly`), two
  quick clicks do it (`QuickClicksPart`), and runs in which no press overtakes a release never do (`CalmRunsNeverPart`).
- Merging two adjacent enters of one surface would keep the first one's coordinates; for arbitrary batches merging is
  exact if and only if such enters agree (`MergeIsExactIff`). The entry points never queue adjacent enters, so in every
  run merging is exact (`MergeIsExactInRuns`).
- The two walkers over a SPIR-V module agree on the SpecIds exactly if the first loses none to its bound or to its limit
  of sixteen (`WalkersAgreeIff`, `StrayTargetDisagrees`, `SeventeenDisagree`).
- A NUL character in a path or in the shadow mode of a host configuration is accepted, but the launched process reads its
  parameters as a C string. The settings arrive if and only if there is no such character (`RoundTrip`, `NulIsLost`).
  Nothing in this repository passes one: the fields come from C strings (`entry/src/main/cpp/virgl_child.cpp:137-177` and
  `550-562`), and such configurations always arrive (`CStringsRoundTrip`).
- The fingerprint's framing determines its fields exactly if none holds the byte 0xff (`DeterminedIff`,
  `TerminatorConfuses`); configurations of text are always told apart (`ConfigsAreTold`), and so are any two that differ
  in one byte of one field, by the hash itself (`OneByteIsSeen`). The launch string tells less: it is the same exactly for
  configurations with the same effect (`SameLaunchIff`), so a changed fingerprint, which asks for a restart of the app
  (`entry/src/main/cpp/graphics_broker.cpp:1207-1219`), does not always mean another process (`HashedMoreThanLaunched`).
- If the first image that fails does so between `vkCreateImage` and the end of `create_image_levels`, nobody owns what was
  created of it, and cleanup leaves it behind; in every other case cleanup leaves nothing (`CreateAndCleanUp`,
  `OrphansHappen`).
- The 32-bit bounds test of the SPIR-V walk is right for modules of up to 2^32 - 65535 words, and beyond only where
  nothing runs past the end (`SizeLimitIsExact`).

## Model

| member | source | states |
|---|---|---|
| SpirvModule.ParseFlatten | smoke/venus_spirv_replay.c:421-479 | walking the concatenation of any well-formed instructions returns exactly those instructions |
| SpirvModule.FlattenParse | smoke/venus_spirv_replay.c:421-479 | what a walk returns is well formed and re-assembles to the words it was given |
| SpirvModule.ParseSucceedsIff | smoke/venus_spirv_replay.c:423-428 | the walk succeeds exactly on concatenations of well-formed instructions |
| SpirvReflect.RecordInstruction | smoke/venus_spirv_replay.c:429-477 | one turn of the opcode switch updates exactly the rows and facts that the instruction states, keeps at most sixteen SpecIds and never indexes outside the tables |
| SpirvReflect.WalkInstructions | smoke/venus_spirv_replay.c:421-479 | fails exactly on words that cannot be walked; otherwise every row holds the last word on its id, and the first sixteen SpecIds are kept in order |
| SpirvReflect.CollectBindings | smoke/venus_spirv_replay.c:480-502 | the first sixteen set-0 bound variables with a supported type, in id order, and the first preferred output among them |
| SpirvReflect.DeclaredAt | smoke/venus_spirv_replay.c:483-494 | accepts a variable exactly if it is bound in set 0 and its pointer resolves, inside the tables, to a supported type |
| SpirvReflect.ChooseOutput | smoke/venus_spirv_replay.c:503-511 | the first NonReadable storage image whose number fits an int if there is one, else the first storage resource, else failure |
| SpirvReflect.SortBindings | smoke/venus_spirv_replay.c:512 | sorts the kept bindings by number in place, as a permutation, and leaves the rest of the array alone |
| SpirvReflect.ReflectContract | smoke/venus_spirv_replay.c:391-541 | succeeds exactly for a good header, walkable words and a fitting output; the contract is then a sorted permutation of the kept bindings with the specified output and SpecIds |
| SpirvReflect.SizeLimitIsExact | smoke/venus_spirv_replay.c:421-428 | the 32-bit test for instructions that run past the end is right for all instructions at all offsets if and only if the words plus 65534 fit 32 bits |
| SpirvMeaning.DeclaredIff | smoke/venus_spirv_replay.c:374-389 | in a consistent module, in opcodes, operand words and decorations: variable `id` is taken for a binding of a type exactly if it is declared in set 0, bound, and points to a sampler, a sampled image, an image with the Sampled word 1 or 2, or has the storage class of a storage buffer |
| SpirvMeaning.CollectedIff | smoke/venus_spirv_replay.c:480-502 | the collected bindings are exactly the declared ones |
| SpirvMeaning.DeclaredInOrder | smoke/venus_spirv_replay.c:480-502 | they come from ascending ids, one from every id that declares one |
| SpirvMeaning.ContractMeans | smoke/venus_spirv_replay.c:480-512 | every binding of a contract is declared by the module, and every declared one is in it unless there are more than sixteen |
| SpirvMeaning.KeepsTheFirst | smoke/venus_spirv_replay.c:461-512 | a contract has the first sixteen of the collected bindings and of the SpecIds, or all if there are fewer |
| SpirvMeaning.ReflectsIff | smoke/venus_spirv_replay.c:391-428 | in numbers: the magic word, a bound of 1 to 65536, words that can be walked, and an output that fits an int |
| SpirvMeaning.OutputIff | smoke/venus_spirv_replay.c:498-511 | the output is the first storage image that is only written to and has a number an int holds, and without one the first storage resource |
| SpirvMeaning.OutputIsStored | smoke/venus_spirv_replay.c:503-511 | the output of a contract is a storage buffer, or an image whose Sampled word is 2 |
| SpirvMeaning.SpecIdIff | smoke/venus_spirv_replay.c:461-466 | the collected SpecIds are exactly the words behind a decoration with 1 of an id below the bound |
| SpirvContract.LastStatedIsStated | smoke/venus_spirv_replay.c:417-420 | an entry of the tables was stated by some instruction, and has its default only if none states it |
| SpirvContract.TableOrderFree | smoke/venus_spirv_replay.c:429-477 | if no two instructions disagree about a fact of an id, any permutation of the instructions fills the same tables |
| SpirvContract.SpecIdsOrderFree | smoke/venus_spirv_replay.c:461-466 | the SpecIds, as a multiset, never depend on the order of the instructions |
| SpirvContract.ReflectionOrderFree | smoke/venus_spirv_replay.c:421-511 | reordering the instructions of such a module changes neither success nor the kept bindings |
| SpirvContract.ContractsOrderFree | smoke/venus_spirv_replay.c:421-512 | any two contracts of two orders have the same bindings up to ties in number, the same output, and the same multiset of SpecIds if none was dropped |
| SpirvContract.SortedUnique | smoke/venus_spirv_replay.c:365-372 | a multiset of binding numbers has one sorted arrangement, so any sort by number agrees up to ties |
| SpirvSpecIds.HasSpecId | smoke/venus_heaven_material_replay.c:1523-1540 | the second walker finds an id exactly if a walkable instruction before the first malformed one decorates with it |
| SpirvSpecIds.FindsIff | smoke/venus_heaven_material_replay.c:1530-1539 | its answer is about the walkable instructions and nothing else |
| SpirvSpecIds.SpecIdsMembers | smoke/venus_spirv_replay.c:461-466 | the collected SpecIds are exactly those that decorate an id below the bound |
| SpirvSpecIds.WalkersAgree | smoke/venus_heaven_material_replay.c:1523-1540 | the second walker finds every SpecId the first kept, and with fewer than sixteen and all targets below the bound no other |
| SpirvSpecIds.WalkersAgreeIff | smoke/venus_heaven_material_replay.c:1523-1540 | the two walkers agree on all ids if and only if every decorating SpecId is collected and every collected one is among the first sixteen |
| SpirvSpecIds.StrayTargetDisagrees | smoke/venus_heaven_material_replay.c:1535-1537 | one concrete module with a decoration of an id that is not below the bound: only the second walker sees it |
| SpirvSpecIds.SeventeenDisagree | smoke/venus_spirv_replay.c:461-466 | one concrete module with seventeen SpecIds: only the second walker sees the last |
| DescriptorPool.SizePool | smoke/venus_spirv_replay.c:658-674 | the pool is the histogram of the bindings by type: one entry for each type that occurs, with its exact count, summing to the number of bindings |
| DescriptorPool.CountBinding | smoke/venus_spirv_replay.c:665-673 | one turn of the loop turns the histogram of some bindings into that of one more |
| DescriptorPool.CountOrderFree | smoke/venus_spirv_replay.c:658-674 | the histogram does not depend on how the sort ordered the bindings |
| DescriptorPool.OutputIsServed | smoke/venus_spirv_replay.c:498-511 | the output of a contract names one of its storage bindings, and a pool sized for the contract has that type |
| ZeroCopyProtocol.CallGood | entry/src/main/cpp/egl_renderer.cpp:126-282 | whatever the idle renderer calls, every single write on the way is safe and the method ends at rest |
| ZeroCopyProtocol.PerformanceIsSafe | entry/src/main/cpp/egl_renderer.cpp:423-526 | every state that a performance of such writes puts on record is backed, its last state is the net effect, and the renderer is then at rest |
| ZeroCopyProtocol.AlwaysGood | entry/src/main/cpp/egl_renderer.cpp:423-526 | safety at every write of every run, with commits, broker shutdowns, marker sweeps and surface destruction between any two writes |
| ZeroCopyProtocol.WeakerGood | entry/src/main/cpp/graphics_broker.cpp:658-684 | what other threads take away cannot make the rest of a method unsafe |
| ZeroCopyProtocol.PublishedIsBacked | entry/src/main/cpp/egl_renderer.cpp:423-454 | a ready marker or a surface left out of CPU composition always belongs to a registered renderer with an image and a GPU frame of that surface |
| ZeroCopyProtocol.MarkerMeansKey | entry/src/main/cpp/compositor/desktop_compositor.cpp:102-106 | every ready marker has its compositor key exactly if no marker belongs to a key on record as lost |
| ZeroCopyProtocol.LostIffDropped | entry/src/main/cpp/compositor/desktop_compositor.cpp:102-106 | a key is on record as lost exactly if the run destroyed its surface while it was left to the GPU and the renderer has not edited the key since |
| ZeroCopyProtocol.MarkerMeansKeyInRun | entry/src/main/cpp/compositor/desktop_compositor.cpp:102-106 | so every ready marker has its compositor key exactly if the run has dropped the key of none this way |
| ZeroCopyProtocol.MarkerMeansKeyUndestroyed | entry/src/main/cpp/egl_renderer.cpp:423-447 | in runs that destroy no surface every ready marker has its compositor key |
| ZeroCopyProtocol.RecreatedSurfaceStaysUncovered | entry/src/main/cpp/egl_renderer.cpp:423-434 | once a published key was dropped by surface destruction, polls and frames neither put it back nor take the marker away |
| ZeroCopyProtocol.MarkerWithoutKeyIsReachable | entry/src/main/cpp/wl_core.cpp:109-111 | a concrete run ends in such a state |
| ZeroCopyProtocol.MissingIffTaken | entry/src/main/cpp/graphics_broker.cpp:629-684 | a key is on record as missing its marker exactly if the marker could not be made, or another thread took it, and the renderer has not made it or taken it back since |
| ZeroCopyProtocol.KeyMeansMarkerInRun | entry/src/main/cpp/egl_renderer.cpp:423-434 | between two methods of any run, every key left out of CPU composition has a ready marker or a pending fallback, exactly if the run has taken the marker of none this way |
| ZeroCopyProtocol.StrandedKeyStays | entry/src/main/cpp/egl_renderer.cpp:423-425 | a key without both stays so under polls and shown frames |
| ZeroCopyProtocol.StrandedKeyIsReachable | entry/src/main/cpp/graphics_broker.cpp:99-112 | a concrete run ends in such a state |
| ZeroCopyProtocol.PendingKeepsKey | entry/src/main/cpp/egl_renderer.cpp:152-166 | a pending fallback has no ready marker, and its key stays set until the write that ends it is next |
| ZeroCopyPhases.PhaseOfRun | entry/src/main/cpp/egl_renderer.cpp:126-421 | between two methods of any run the renderer's flags, key and count are those of a machine of four phases, driven by the calls alone |
| ZeroCopyPhases.FailuresAreCounted | entry/src/main/cpp/egl_renderer.cpp:302-333 | in every run the counter of a bound surface is the number of failed updates since the last one that did not fail, or since the bind, cut to 32 bits |
| ZeroCopyPhases.RevokedOnEighth | entry/src/main/cpp/egl_renderer.cpp:302-333 | in every run a failed update takes the marker back exactly if the surface is published and exactly seven updates have failed since the last one that did not, or since the bind |
| ZeroCopyPhases.AttachedIsBound | entry/src/main/cpp/egl_renderer.cpp:455-525 | between two methods of any run the broker has attached at most the bound surface, and exactly that one if it was never shut down |
| ZeroCopyProtocol.EightFailures | entry/src/main/cpp/egl_renderer.cpp:302-331 | after n failures in a row from a published state nothing but the count has changed for n below eight, and for eight exactly marker, flags and, if the layer is known, baseline have |
| ZeroCopyProtocol.BaselineFresh | entry/src/main/cpp/egl_renderer.cpp:318-322 | until a client commits again, the serial does not pass the baseline read at revocation, even if the surface is destroyed and created again |
| ZeroCopyProtocol.FallbackWaitsForCommit | entry/src/main/cpp/egl_renderer.cpp:152-166 | after a revocation that read the baseline, a poll drops the key only if a commit has happened since |
| ZeroCopyProtocol.FallbackIff | entry/src/main/cpp/egl_renderer.cpp:152-166 | in every run, counted from any point since which the baseline was kept and no surface destroyed: a poll ends a pending fallback exactly once the commits have carried the serial past the baseline |
| ZeroCopyProtocol.FallbackWaitsIff | entry/src/main/cpp/egl_renderer.cpp:313-324 | the fallback after a revocation waits for a new frame if and only if the layer was found or the old baseline is not behind the serial; otherwise the next poll ends it at once |
| ZeroCopyProtocol.HastyFallbackIsReachable | entry/src/main/cpp/egl_renderer.cpp:313-324 | a concrete run ends with a fallback that does not wait |
| ZeroCopyProtocol.RecoveryRestoresBoth | entry/src/main/cpp/egl_renderer.cpp:377-387 | a frame during a pending fallback, uninterrupted, clears the flag first and then puts key, marker and ready flag back, and no later poll drops the key |
| ZeroCopyProtocol.RecoveryUnderInterference | entry/src/main/cpp/egl_renderer.cpp:377-387 | with any steps of other threads between its writes, the renderer ends published, without a pending fallback, on the same key, which is covered unless other threads dropped it, and polls have nothing to do |
| ZeroCopyRenderer.Broker.ShutdownVirglIpc | entry/src/main/cpp/graphics_broker.cpp:658-684 | removes the markers of all attached surfaces and detaches them all |
| ZeroCopyRenderer.Interrupt | entry/src/main/cpp/wl_core.cpp:104-111 | commits, surface destruction, broker shutdown and marker sweeps do to the objects exactly what the protocol assumes of other threads |
| ZeroCopyRenderer.EglRenderer.PublishZeroCopyActive | entry/src/main/cpp/egl_renderer.cpp:423-434 | leaves behind, one after the other, the states after key, marker and flag, and nothing when published already |
| ZeroCopyRenderer.EglRenderer.UnpublishZeroCopyReady | entry/src/main/cpp/egl_renderer.cpp:436-446 | leaves behind the state without the marker before the one without the flag, and the key in both |
| ZeroCopyRenderer.EglRenderer.ReleaseZeroCopyBinding | entry/src/main/cpp/egl_renderer.cpp:455-525 | leaves behind, write by write, the states of the release, in the order of the source, from any state |
| ZeroCopyRenderer.EglRenderer.PollLayer | entry/src/main/cpp/egl_renderer.cpp:126-170 | leaves behind, write by write, the release when the layer is gone, or the end of a pending fallback with a newer commit, and otherwise writes nothing |
| ZeroCopyRenderer.EglRenderer.BindSurface | entry/src/main/cpp/egl_renderer.cpp:201-278 | leaves behind, write by write, the binding exactly if image, listener and broker agree, and the release of what was taken otherwise |
| ZeroCopyRenderer.EglRenderer.UpdateZeroCopyFrame | entry/src/main/cpp/egl_renderer.cpp:283-421 | leaves behind, write by write, the states of the failure, of a vanished layer or of a shown frame, in the order of the source |
| ZeroCopyRenderer.EglRenderer.UpdateFailed | entry/src/main/cpp/egl_renderer.cpp:302-333 | counts the failure on 32 bits and goes through the revocation under exactly the condition of the source |
| ZeroCopyRenderer.EglRenderer.Revoke | entry/src/main/cpp/egl_renderer.cpp:313-324 | leaves behind the state with the new baseline before the marker goes, and the pending flag last |
| FrameSignals.NoSignalLost | entry/src/main/cpp/egl_renderer.cpp:285-294 | under every interleaving an unconsumed signal is announced or about to be; consumed signals plus empty updates are updates plus coalesced signals |
| FrameSignals.IdleMeansAnnouncedOrConsumed | entry/src/main/cpp/egl_renderer.cpp:66-72 | when both sides are idle the flag is up or every signal is consumed |
| FrameSignals.TwoReadsCatchUp | entry/src/main/cpp/egl_renderer.cpp:285-294 | once callbacks are quiet, at most two more reads consume everything |
| FrameSignals.SignalCounters.OnZeroCopyFrameAvailable | entry/src/main/cpp/egl_renderer.cpp:66-72 | leaves behind the state with the new count and then the one with the flag |
| FrameSignals.SignalCounters.ConsumeSignals | entry/src/main/cpp/egl_renderer.cpp:285-294 | leaves behind the state without the flag and then the one that has read the count, with a callback in between if there is one |
| AudioBrokerSpec.AlwaysSound | entry/src/main/cpp/audio_broker.cpp:508-539 | in every run, overlapping servers included, the snapshots are the table split by direction; a started capture stream means a running capturer, which means a capturer and a capture stream |
| AudioBrokerSpec.CommandKeeps | entry/src/main/cpp/audio_broker.cpp:184-337 | every command, whatever the platform answers, keeps this |
| AudioBrokerSpec.CleanupKeeps | entry/src/main/cpp/audio_broker.cpp:155-182 | so does the cleanup of a connection |
| AudioBrokerSpec.ExactCommand | entry/src/main/cpp/audio_broker.cpp:255-337 | "capturer running exactly if a capture stream is started" survives every command but a reset, and a reset exactly if it does not stop the only started capture stream |
| AudioBrokerSpec.ResetLeavesCapturer | entry/src/main/cpp/audio_broker.cpp:304-316 | a run of five steps after which the capturer runs and no capture stream is started |
| AudioBrokerSpec.AlwaysExact | entry/src/main/cpp/audio_broker.cpp:255-337 | in runs without a reset the capturer runs exactly while a capture stream is started |
| AudioBrokerSpec.CapturerRecovers | entry/src/main/cpp/audio_broker.cpp:283-302 | the next stop, close or cleanup of a capture stream repairs what a reset left |
| AudioStreamRuns.StreamInRun | entry/src/main/cpp/audio_broker.cpp:184-337 | in every run a stream is in the table exactly if it was opened and not closed since, captures exactly if it was opened to, and is started exactly if the last start, stop or reset accepted for it was a start whose capturer, if it needed one, started |
| AudioStreamRuns.OthersUntouched | entry/src/main/cpp/audio_broker.cpp:184-337 | a command leaves every stream alone but the one it names, also those of its own connection |
| AudioStreamRuns.OpenAddsIff | entry/src/main/cpp/audio_broker.cpp:184-253 | an open adds its stream, stopped, exactly if the broker runs, the format is right, the device is there and the ring was created |
| AudioStreamRuns.NamedStream | entry/src/main/cpp/audio_broker.cpp:255-337 | what start, stop, reset and close do to the stream they name, of either direction |
| AudioStreamRuns.StatusOfOpen | entry/src/main/cpp/audio_broker.cpp:184-253 | an open returns 0 exactly if it added its stream, -22 exactly for a wrong format of a running broker, and else -5 |
| AudioStreamRuns.StatusOfOthers | entry/src/main/cpp/audio_broker.cpp:51-62 | the other commands return -2 exactly for no such stream, -1 exactly for one of another connection, -5 exactly for a start that did not start, and else 0 |
| AudioStreamRuns.IdsAndDevices | entry/src/main/cpp/audio_broker.cpp:196-224 | which commands take an id and which make a capturer, even where the ring then fails |
| AudioStreamRuns.CapturerAfter | entry/src/main/cpp/audio_broker.cpp:255-337 | the capturer starts for a stream that needs it and is stopped by the stop or close of a capture stream exactly if no started one is left |
| AudioStreamRuns.NothingAfterShutdown | entry/src/main/cpp/audio_broker.cpp:117-127 | the end of a stop leaves no stream, no snapshot and no device |
| AudioBrokerSpec.CommandIsolated | entry/src/main/cpp/audio_broker.cpp:51-62 | a command never changes another connection's stream |
| AudioBrokerSpec.ForeignCommandRefused | entry/src/main/cpp/audio_broker.cpp:51-62 | a command on another connection's stream fails with EPERM and changes nothing at all |
| AudioBrokerSpec.CleanupIsolated | entry/src/main/cpp/audio_broker.cpp:155-174 | cleanup removes exactly the connection's own streams |
| AudioBrokerSpec.StreamsHaveLiveOwners | entry/src/main/cpp/audio_ipc_server.cpp:445-449 | in every run, overlapping servers included, a stream in the table was opened by a connection whose handler has not finished its cleanup, and is kept under its id |
| AudioBrokerSpec.CleanupIsItsOwnIff | entry/src/main/cpp/audio_broker.cpp:155-174 | a cleanup takes exactly the streams that its own connection opened, if and only if no other connection with its id has one in the table |
| AudioBrokerSpec.ConnectionsAreNew | entry/src/main/cpp/audio_ipc_server.cpp:295-299 | if no launch comes between the halves of a stop and no server has accepted more than 2^32 connections, live connections have different ids, and a stream obeys exactly the connection that opened it |
| AudioBrokerSpec.StreamIdsAreNewIff | entry/src/main/cpp/audio_broker.cpp:223-229 | in every run the id that the next open gets was never handed out before, to open or closed streams, if and only if there were fewer than 2^32 opens |
| AudioBrokerSpec.OverlapLosesStream | entry/src/main/cpp/audio_broker.cpp:102-127 | a run in which such a launch makes the cleanup of an old connection take the stream of a new, live one |
| AudioBrokerSpec.AlwaysOneServer | entry/src/main/cpp/audio_broker.cpp:72-100 | without such a launch only one server has handlers, and a running broker has its renderer |
| AudioBrokerSpec.RendererKeptIff | entry/src/main/cpp/audio_broker.cpp:117-127 | every step keeps the renderer of a running broker exactly unless it is the second half of a stop that finds the broker running |
| AudioBrokerSpec.OverlapSilences | entry/src/main/cpp/audio_broker.cpp:72-100 | a run after which the broker runs without a renderer, launching it changes nothing and every render stream is refused |
| AudioTable.Table.HasStartedCaptureStream | entry/src/main/cpp/audio_broker.cpp:508-516 | finds a started capture stream exactly if there is one |
| AudioBroker.Broker.PublishSnapshots | entry/src/main/cpp/audio_broker.cpp:518-539 | both snapshots become the streams of the table split by direction, each stream once |
| AudioBroker.Broker.SnapshotsAreDistinct | entry/src/main/cpp/audio_broker.cpp:518-539 | the streams of both snapshots share neither objects nor rings, as the mixer and the capture fan-out need |
| AudioBroker.Broker.OpenStream | entry/src/main/cpp/audio_broker.cpp:184-253 | the specified effect, status and stream id for every check and platform answer |
| AudioBroker.Broker.StartStream | entry/src/main/cpp/audio_broker.cpp:255-281 | starts the stream, and the capturer first if it needs one; a failure undoes the start |
| AudioBroker.Broker.StopStream | entry/src/main/cpp/audio_broker.cpp:283-302 | stops the stream, and the capturer if no capture stream needs it |
| AudioBroker.Broker.ResetStream | entry/src/main/cpp/audio_broker.cpp:304-316 | stops the stream, empties its ring and leaves the capturer as it is |
| AudioBroker.Broker.CloseStream | entry/src/main/cpp/audio_broker.cpp:318-337 | removes the stream, republishes, and stops an idle capturer |
| AudioBroker.Broker.CleanupClientStreams | entry/src/main/cpp/audio_broker.cpp:155-182 | removes the connection's streams and publishes only if there were any |
| AudioBroker.Broker.FinishStop | entry/src/main/cpp/audio_broker.cpp:117-127 | closes every stream, empties table and snapshots and stops both devices |
| AudioMixer.Mixer.MixStreamsS16 | entry/src/main/cpp/audio_broker.cpp:541-576 | every output sample is the nearest there is to the sum of what the started render streams had; each loses exactly that, and a short read counts one underrun |
| AudioMixer.Mixer.OnWriteData | entry/src/main/cpp/audio_broker.cpp:594-615 | 1 to 4096 frames get the mix and the bytes behind the last whole frame stay; any other size is silenced to its last byte without touching a ring, and a size that is not positive is refused |
| AudioMixer.NearestSaturates | entry/src/main/cpp/audio_broker.cpp:568-575 | sums within the sample range come through unchanged, others end at its limits, and a larger sum never gives a smaller sample |
| AudioMixer.SumsTheChannels | entry/src/main/cpp/audio_broker.cpp:560-563 | the samples of the mix are the totals of the left samples and of the right samples in turn |
| AudioMixer.ReadsOldest | entry/src/main/cpp/audio_broker.cpp:554-558 | a stream that does not render or is not started is not read and misses nothing; any other loses its oldest frames, as many as are asked for if it has them, and counts an underrun exactly otherwise |
| AudioBroker.Broker.StoppedIsSilent | entry/src/main/cpp/audio_broker.cpp:549-556 | a render stream that the table says is not started gives the mixer nothing and misses nothing |
| AudioMixer.AccumulatorFits | entry/src/main/cpp/audio_broker.cpp:560-563 | no 32-bit accumulator overflows at any point for up to 65536 contributing streams |
| AudioMixer.BoundIsTight | entry/src/main/cpp/audio_broker.cpp:560-563 | 65537 streams can overflow one |
| AudioMixer.SumOrderFree | entry/src/main/cpp/audio_broker.cpp:549-564 | the mix does not depend on the order of the snapshot |
| AudioMixer.SumBounded | entry/src/main/cpp/audio_broker.cpp:560-563 | a sum lies within the sample range times the number of contributing streams |
| AudioCapture.DistributeCaptureFramesS16 | entry/src/main/cpp/audio_broker.cpp:578-592 | every started capture stream gets as many frames of the block as fit, an overflow is counted where some do not, and no other stream changes |
| AudioCapture.Appended | entry/src/main/cpp/include/audio_ipc_protocol.h:252-281 | appending to a bounded queue either takes everything or fills it |
| AudioTable.Table.Emplace | entry/src/main/cpp/audio_broker.cpp:223-251 | adds a stream with a ring of its own under a free id, and keeps all rings of the table apart |
| AudioTable.Table.CloseOwned | entry/src/main/cpp/audio_broker.cpp:155-174 | closes and takes out exactly the streams of the connection |
| AudioTable.Table.Snapshots | entry/src/main/cpp/audio_broker.cpp:518-539 | lists exactly the streams of each direction, each once |
| AudioRing.Ring.WriteFrames | entry/src/main/cpp/include/audio_ipc_protocol.h:252-281 | appends the frames that fit to the queue, across the wrap-around |
| AudioRing.Ring.ReadFrames | entry/src/main/cpp/include/audio_ipc_protocol.h:283-311 | removes the oldest frames, in order, and writes nothing behind them |
| AudioRing.Ring.Reset | entry/src/main/cpp/include/audio_ipc_protocol.h:242-250 | empties the queue and clears the counters |
| AudioRing.StoredAppends | entry/src/main/cpp/include/audio_ipc_protocol.h:269-279 | storing behind the used part, in two pieces if need be, appends to what is queued and damages none of it |
| AudioRing.WindowInPieces | entry/src/main/cpp/include/audio_ipc_protocol.h:299-307 | the queued frames are the two contiguous pieces that are copied |
| AudioStreams.AudioStream.Reset | entry/src/main/cpp/audio_stream.cpp:88-92 | stops the stream and empties its ring |
| RateConversion.AlignUpPowerOfTwo | entry/src/main/cpp/ring_buffer.cpp:8-15 | the least doubling of the minimum that reaches the value if one fits 32 bits, else the value itself; the loop ends and never overflows |
| RateConversion.ComputeRingCapacityFrames | entry/src/main/cpp/ring_buffer.cpp:17-22 | the least power of two that holds eight callbacks and at least 4096 frames, exactly for requests up to 2^31 |
| RateConversion.CallbackSizesThatFit | entry/src/main/cpp/ring_buffer.cpp:17-22 | callbacks of up to 2^28 frames ask for no more than that, and an unknown size counts as 480 frames |
| RateConversion.ConversionsAreExact | entry/src/main/cpp/ring_buffer.cpp:24-45 | no 64-bit intermediate overflows, and every result is the exact floor or ceiling cut to 32 bits |
| RateConversion.RatesAre | entry/src/main/cpp/ring_buffer.cpp:24-45 | where the results fit, the floor is the most client frames whose duration fits that of the mix frames at 48000 to a second, and the ceiling the fewest mix frames that cover the client frames |
| RateConversion.RatesGalois | entry/src/main/cpp/ring_buffer.cpp:24-45 | client-to-mix ceiling and mix-to-client floor form a Galois connection where the results fit |
| RateConversion.RoundTrips | entry/src/main/cpp/ring_buffer.cpp:24-45 | converting there and back loses nothing in one direction and gains nothing in the other |
| RateConversion.MixCeilCovers | entry/src/main/cpp/ring_buffer.cpp:31-37 | the rounded-up client frames are the least number whose duration covers the mix frames |
| BitMask.AlignUp | smoke/venus_heaven_material_replay.c:700-708 | rounding up with a mask gives the least multiple of a power of two that is not below the value |
| BitMask.AndIsRemainder | entry/src/main/cpp/include/audio_ipc_protocol.h:269 | masking with a power of two minus one is the remainder |
| CaptureImages.CaptureAliasIndex | smoke/venus_heaven_material_replay.c:432-442 | the first earlier image with the binding that this one is captured from, exactly if there is one |
| CaptureImages.MipBytesAre | smoke/venus_heaven_material_replay.c:1947-1956 | a mip level has the bytes of an image of half the size, never less than one texel along an axis |
| CaptureImages.TexelIsItsChannels | smoke/venus_heaven_material_replay.c:776-791 | a texel of every format has exactly the bytes of its channels |
| CaptureImages.FourBytesSuffice | smoke/venus_heaven_material_replay.c:1960-1965 | four-byte alignment puts every level on a texel boundary exactly for the formats with at most four bytes to a texel |
| StagingSlots.SlotsAreTheLevels | smoke/venus_heaven_material_replay.c:1940-1958 | the levels laid out before a level are exactly those that come before it, image by image |
| StagingLayout.AlignTo | smoke/venus_heaven_material_replay.c:705-708 | for every power of two and every 64-bit value: whatever exact value it stands for, the result stands for the least aligned one not below, cut to 64 bits |
| StagingLayout.ChainedIsSafe | smoke/venus_heaven_material_replay.c:1953-1968 | regions that each start at the least aligned offset behind the one before are aligned, inside the buffer and pairwise disjoint |
| StagingLayout.EveryCopySurvives | smoke/venus_heaven_material_replay.c:2757-2808 | after all copies into disjoint regions every region holds its own data |
| CaptureStaging.Replay.LayOutUploads | smoke/venus_heaven_material_replay.c:1940-1968 | for all image tables, the recorded offsets, target, depth image and size are those of such a chain, cut to 64 bits |
| CaptureStaging.Replay.LayOutReadback | smoke/venus_heaven_material_replay.c:2190-2202 | levels, vertices, indices, uniforms and the upload copy form such a chain; the offsets and the size are its own, cut to 64 bits |
| CaptureStaging.Replay.LevelsAreSafe | smoke/venus_heaven_material_replay.c:1940-1968 | if the layout ends within 64 bits, the levels have regions at the offsets on record, four-byte aligned, before the target, which is eight-byte aligned and ends before the depth image, and any two are disjoint |
| CaptureStaging.Replay.SlotsAreTheMips | smoke/venus_heaven_material_replay.c:1940-1958 | the levels laid out are exactly the mip levels of the images that alias no other |
| CaptureStaging.Replay.SmallUploadsFit | smoke/venus_heaven_material_replay.c:1940-1968 | images of up to 65536 by 65536 texels take less than 2^42 bytes, so that their layout is exact |
| CaptureStaging.Replay.SmallReadbackFits | smoke/venus_heaven_material_replay.c:2190-2198 | so is that of their readback buffer |
| CaptureReadback.LayOut | smoke/venus_heaven_material_replay.c:1940-2202 | both buffers in turn: if the readback buffer ends within 64 bits, as it does for small images, the inputs are in it, at the offsets on record, and pairwise disjoint |
| CaptureReadback.VerifyInputs | smoke/venus_heaven_material_replay.c:2848-2898 | hashes every level of every image that is no alias, and vertices, indices, uniforms and the upload copy, each where it was laid out; the counters are those of the inputs that differ, and success means none |
| CaptureReadback.ReplayVerifiesIff | smoke/venus_heaven_material_replay.c:2757-2898 | whatever is copied into such a layout, there is no mismatch if and only if the copy of every level, of the vertices, the indices, every uniform buffer and the upload buffer hashes to what is expected of that input |
| ImageOwnership.Replay.CreateImageLevels | smoke/venus_heaven_material_replay.c:887-922 | whatever was created before a failure stays in the image's fields, and nothing else changes |
| ImageOwnership.Replay.CreateOrShare | smoke/venus_heaven_material_replay.c:2073-2110 | an alias shares the handles of its image without owning them; any other image owns new ones once they are complete |
| ImageOwnership.Replay.CreateImages | smoke/venus_heaven_material_replay.c:2073-2141 | up to the first failing image every live handle has exactly one owner, but for the handles of that image, which are named |
| ImageOwnership.Replay.Cleanup | smoke/venus_heaven_material_replay.c:3229-3238 | every owned handle is destroyed, none twice and none that is not live |
| ImageOwnership.CreateAndCleanUp | smoke/venus_heaven_material_replay.c:3229-3238 | for any images and any answers of the device, creation stops at the first image that fails, and after cleanup nothing is left if and only if that image does not strand what was made of it |
| ImageOwnership.OrphansHappen | smoke/venus_heaven_material_replay.c:887-922 | one image for which the device has no memory is left behind |
| Fnv.Fnv1a32 | smoke/venus_heaven_material_replay.c:736-746 | the loop computes the FNV-1a hash of the bytes |
| Fnv.ShortHashes | smoke/venus_heaven_material_replay.c:739-744 | the hash of no bytes and of any one byte, in numbers |
| Fnv.StepIsBijective | smoke/venus_heaven_material_replay.c:742-743 | for every byte one round is a bijection on 32-bit states |
| Fnv.FoldInjective | smoke/venus_heaven_material_replay.c:741-744 | hashing on with the same bytes never merges two states |
| Fnv.CollisionsAreLocal | smoke/venus_heaven_material_replay.c:736-746 | buffers that differ in a window collide exactly if the window alone leads from the state before it to one state |
| Fnv.ThreeBytes | smoke/venus_heaven_material_replay.c:741-744 | from one state different windows of three bytes lead to different states |
| Fnv.SmallChangesAreSeen | smoke/venus_heaven_material_replay.c:736-746 | buffers of one length that differ within three adjacent bytes have equal hashes only if they are equal |
| CaptureVerification.FaithfulCopiesVerify | smoke/venus_heaven_material_replay.c:2757-2898 | faithful copies into disjoint regions verify |
| CaptureVerification.VerifiesIff | smoke/venus_heaven_material_replay.c:2848-2898 | copies into disjoint regions verify if and only if each hashes to what was expected of it |
| CaptureVerification.OneChangeIsCountedOnce | smoke/venus_heaven_material_replay.c:2848-2898 | one input that comes back changed within three adjacent bytes gives exactly one mismatch |
| CaptureVerification.MismatchIsItsOwn | smoke/venus_heaven_material_replay.c:2848-2884 | a region mismatches exactly if what was copied into it hashes differently from what was expected |
| CaptureVerification.AnalyzeOutput | smoke/venus_heaven_material_replay.c:1867-1879 | the four-way unrolled checksum is the hash of the whole image, and both counters count their pixels |
| CaptureVerification.CountersMean | smoke/venus_heaven_material_replay.c:1867-1879 | the counters are the numbers of pixels that are not (255, 0, 255, 255) and of those with full alpha |
| InputQueue.MergeBatch | entry/src/main/cpp/input_manager.cpp:708-735 | the loop over the batch computes the merge |
| InputQueue.MergeIsLocal | entry/src/main/cpp/input_manager.cpp:708-735 | merging from left to right leaves exactly the last of adjacent motions, the first of adjacent equal button or key events and of adjacent enters of one surface, and everything else |
| InputQueue.Idempotent | entry/src/main/cpp/input_manager.cpp:708-735 | merging is idempotent, and its fixed points are exactly the batches with no mergeable neighbours |
| InputQueue.MergeInParts | entry/src/main/cpp/input_manager.cpp:708-735 | merging the first part of a batch early makes no difference |
| InputQueue.MergeKeepsTheRest | entry/src/main/cpp/input_manager.cpp:708-735 | for every batch the client ends with the same focus, buttons, keys, modifiers, scrolling and relative motion, merged or not |
| InputQueue.MergeIsExactIff | entry/src/main/cpp/input_manager.cpp:724-726 | for arbitrary batches: the pointer position is exact at every point, for every client, if and only if adjacent enters of one surface agree on the coordinates |
| InputQueue.SeenAtEveryEvent | entry/src/main/cpp/input_manager.cpp:708-735 | at every event of such a batch that is not a motion, the merged batch has a prefix that ends with the same event in the same state |
| InputQueue.SliceIsExact | entry/src/main/cpp/input_manager.cpp:708-735 | wherever a queue without adjacent enters is cut into batches, merging a batch changes nothing for any client |
| InputQueue.ReleaseInBetween | entry/src/main/cpp/input_manager.cpp:517-521 | a release that a sleeping thread queues between any two events keeps enters apart |
| PointerButtons.MergeIsExactInRuns | entry/src/main/cpp/input_manager.cpp:428-735 | no run of the entry points queues adjacent enters, so merging is exact in every run |
| InputQueue.MergeDropsNoneOfThese | entry/src/main/cpp/input_manager.cpp:722-731 | the subsequence of axis, relative-motion, leave, keyboard-focus and modifier events arrives unchanged |
| PointerButtons.ButtonsAndBits | entry/src/main/cpp/input_manager.cpp:229-245 | the two tables are inverse on the known buttons and tell every other code and bit apart |
| PointerButtons.PartedIff | entry/src/main/cpp/input_manager.cpp:428-527 | after any run the client misses a button of the mask if and only if the last action that touched it was a late release that found it pressed again; it holds a button outside the mask only while its release waits |
| PointerButtons.LateExactly | entry/src/main/cpp/input_manager.cpp:511-521 | the end of a delay leaves mask and client equal on its button if and only if the button is not in the mask again |
| PointerButtons.QuickClicksPart | entry/src/main/cpp/input_manager.cpp:511-521 | press, release and press within a delay, and then the late release, part them for good |
| PointerButtons.CalmRunsNeverPart | entry/src/main/cpp/input_manager.cpp:428-527 | in runs where no press overtakes the release before it, no release is late |
| PointerButtons.HeldButtonsAreTheMask | entry/src/main/cpp/input_manager.cpp:505-527 | if every release comes 100 ms or more after the last press, the known buttons the client holds are exactly those of the mask, merged or not |
| PointerButtons.OnceNothingIsUnderWay | entry/src/main/cpp/input_manager.cpp:511-521 | once no release of a button waits, mask and client agree on it if and only if the last action that touched it was not such a late release |
| PointerButtons.DeltasTelescope | entry/src/main/cpp/input_manager.cpp:394-407 | while there is a relative pointer, the relative motion the client receives is the distance between the local positions |
| InputRuns.PointerInRun | entry/src/main/cpp/input_manager.cpp:428-560 | after every run, merged or not, the client's pointer is exactly where the last press, move or grab put it, or the enter of a later scroll; it is on the surface entered last, and has scrolled the sum of what was scrolled |
| InputRuns.RelativeMotionInRun | entry/src/main/cpp/input_manager.cpp:394-407 | after every run the client has added up exactly the distances of the moves for which a relative pointer existed |
| InputRuns.NoIdleMotion | entry/src/main/cpp/input_manager.cpp:399-403 | no motion of no distance is ever queued |
| InputRuns.HeldIff | entry/src/main/cpp/input_manager.cpp:454-496 | after every run the mask holds exactly the known buttons that were pressed and not released since, where a release without a known button stands for the first held one of left, right and middle |
| InputRuns.ReleaseWaitsIff | entry/src/main/cpp/input_manager.cpp:505-527 | after every run a release waits exactly if less than 100 ms have passed since the last press, on a 32-bit clock, and is queued at once otherwise |
| InputRuns.ShownIff | entry/src/main/cpp/input_manager.cpp:428-527 | after every run the client holds a button, known or not, exactly if the last press, unhurried release or end of a delay that reached it was a press |
| InputRuns.MemoryInRun | entry/src/main/cpp/input_manager.cpp:404-459 | the remembered press is the last one with a button, and the remembered position that of the last move |
| InputRuns.KeyboardIsInRun | entry/src/main/cpp/input_manager.cpp:567-639 | after every run the client's keyboard is on the surface entered last with the last modifiers, and a key is down exactly if it was pressed and neither released nor left since |
| InputManagers.InputManager.SendPress | entry/src/main/cpp/input_manager.cpp:428-478 | a press queues focus, position, button and keyboard focus in that order and updates mask and clock, as the laws of `InputRuns` say |
| InputManagers.InputManager.SendRelease | entry/src/main/cpp/input_manager.cpp:480-527 | a release clears the named or the lowest held button and queues it, or leaves it to a thread within 100 ms |
| InputManagers.InputManager.SendMove | entry/src/main/cpp/input_manager.cpp:394-407 | a move queues the increment before focus and position and moves the base |
| InputManagers.InputManager.FlushQueue | entry/src/main/cpp/input_manager.cpp:699-735 | the whole queue is taken, and exactly its merge is sent |
| HostConfig.ValidateVirglHostConfig | entry/src/main/cpp/virgl_host_config.cpp:30-62 | accepts exactly the configurations with safe fields, absolute paths, known modes and binary flags, and reports the first test that fails |
| HostConfig.ValuesAreSafe | entry/src/main/cpp/virgl_host_config.cpp:94-177 | no value of an accepted configuration contains the separator |
| HostSettings.SettingsMean | entry/src/main/cpp/virgl_host_config.cpp:94-177 | every variable is set to what the named traces and modes mean for it, and in that order |
| HostSettings.SameValuesIff | entry/src/main/cpp/virgl_host_config.cpp:94-177 | two configurations set the same values if and only if they agree on seven fields and have the same effect; no two of the seventeen traces have it unless descriptor updates are serialised |
| LaunchString.BuildLaunch | entry/src/main/cpp/virgl_host_config.cpp:85-184 | for accepted configurations only: the launch string from both paths and every setting in order, the fingerprint of the fields, and summaries passed on exactly for the five traces that are about them or serialised descriptor updates |
| LaunchString.TokensOfTwo | entry/src/main/cpp/virgl_child.cpp:587-598 | splitting distributes over joining with the separator |
| LaunchString.TokensOfLaunch | entry/src/main/cpp/virgl_host_config.cpp:131-177 | splitting the launch string gives back both paths and every item |
| LaunchString.ParseOfItem | entry/src/main/cpp/virgl_child.cpp:318-337 | the first equals sign of an item separates its name from its value, whatever the value contains |
| LaunchString.RoundTrip | entry/src/main/cpp/virgl_child.cpp:566-598 | the launched process gets both paths and every setting if and only if the four paths and the shadow mode have no NUL character |
| LaunchString.NulIsLost | entry/src/main/cpp/virgl_host_config.cpp:30-62 | one accepted configuration with a NUL character that it does not get |
| LaunchString.CStringsRoundTrip | entry/src/main/cpp/virgl_child.cpp:137-177 | configurations whose fields were read as C strings always arrive, if they are accepted |
| LaunchString.SameLaunchIff | entry/src/main/cpp/virgl_host_config.cpp:94-177 | two accepted configurations have one launch string if and only if they agree on both paths, the fields that are passed on and the shadow mode, and their traces and descriptor flags have the same effect |
| LaunchString.HashedMoreThanLaunched | entry/src/main/cpp/virgl_host_config.cpp:94-181 | two traces that launch the same process and are hashed differently |
| HostFingerprint.Fingerprint | entry/src/main/cpp/virgl_host_config.cpp:64-83 | the nested loops compute one hash over the framing of the fields |
| HostFingerprint.ShortHashes | entry/src/main/cpp/virgl_host_config.cpp:66-77 | the hash of no bytes and of any one byte, in numbers |
| HostFingerprint.RoundInjective | entry/src/main/cpp/virgl_host_config.cpp:76-77 | a round merges neither two states under one byte nor two bytes from one state |
| HostFingerprint.OneByteIsSeen | entry/src/main/cpp/virgl_host_config.cpp:64-83 | two lists of fields that differ in one byte of one field never have one fingerprint |
| HostFingerprint.ConfigsAreTold | entry/src/main/cpp/virgl_host_config.cpp:67-81 | what is hashed tells any two configurations of text apart, whichever of the eleven fields differ |
| HostFingerprint.FramingIsInjective | entry/src/main/cpp/virgl_host_config.cpp:74-81 | fields without the byte 0xff can be told apart by their framing |
| HostFingerprint.DeterminedIff | entry/src/main/cpp/virgl_host_config.cpp:67-81 | among the lists of its length, a list of two or more fields is determined by its framing if and only if no field holds the byte 0xff |
| HostFingerprint.TerminatorConfuses | entry/src/main/cpp/virgl_host_config.cpp:79-80 | two different lists of eleven fields, with absolute paths and no field empty, that have one framing |

## Left out

- SpirvReflect.ReflectContract: modules of more than 2^32 - 65535 words, nearly 16 GiB, that cannot be walked: there the
  32-bit sum of the source can wrap around (`SizeLimitIsExact`) and the walk read behind the end.
- The text that a contract carries for the result file, and what a failed reflection leaves in its output structure.
- The parallel id-indexed tables are one array of records, and `qsort` is an in-place insertion sort of which only the
  promise of the C library (some sorted arrangement) is used.
- Atomic variables of the zero-copy protocol are sequentially consistent, one write or one read-and-write at a time;
  weaker orders are not modelled.
- Timestamps, geometry, textures, telemetry counters and the listener of a zero-copy binding; one renderer and one SHM
  serial are modelled, for the surface it is bound to or binds next. Frame signals are modelled within one binding.
- AudioBroker.Broker.PublishSnapshots: callbacks hold on to old snapshots for a while; the model has the current one only.
- AudioRing.Ring.ReadFrames: the client at the other end of the shared memory, which shares the stream's state too, its
  memory ordering and the wrap-around of the 64-bit indices are not modelled; `AudioIpcServer::Stop` and its threads
  appear only as the order of cleanup and shutdown.
- AudioBrokerSpec.StreamsHaveLiveOwners: a connection that is accepted while `AudioIpcServer::Stop` already takes the
  list of threads is accepted before or after; that its thread is then not joined is not modelled.
- Hello and status requests, null out-parameters and allocation failures of the audio broker.
- CaptureReadback.VerifyInputs: mapping, and the probes and result file that follow a mismatch; the readback buffer has to
  end within 64 bits, as a buffer that exists does.
- ImageOwnership.Replay.CreateImages: buffers, the render target, the depth image and the descriptors are created and
  destroyed without sharing and are not modelled.
- Files, Vulkan objects and pipelines, and every other effect of the replay programs.
- PointerButtons.PartedIff: the events that a change of focus queues are a parameter, an enter, a leave and an enter, or
  nothing; which surface gets the focus, grabs and hit testing are not modelled. Each entry point queues its events in one
  action, although a sleeping thread may queue its release between two of them (which keeps enters apart,
  `ReleaseInBetween`).
- PointerButtons.DeltasTelescope: positions are unbounded integers in units of `wl_fixed_t`, so differences beyond 32 bits
  do not wrap around; dropped events of clients without a pointer are not modelled.
- Keyboard leave and enter are not paired with surfaces: the focus field changes before the queued leave is sent.
- LaunchString.BuildLaunch: the names of the environment variables are a parameter without separators instead of their
  literal text, and the straight line of appends is a loop over the table of settings.
- HostFingerprint.Fingerprint: collisions of the 64-bit hash itself.
