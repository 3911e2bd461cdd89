# vmdesk: verified model of the pipeline, sessions, input path and kernels

vmdesk is a remote desktop. On the server a capture thread converts the display to I420 and offers
frames to an encoder thread through a one-slot channel; WebRTC sessions take the encoded frames,
ask for keyframes and forward input to virtual devices. The client decodes, scales and presents
the picture and sends keys, buttons, wheel notches and pointer positions.

The project models the stateful and the arithmetic core of both programs and proves what each part
is for. `dafny verify dfyconfig.toml` checks all of it.

| Files | Part of vmdesk |
|---|---|
| `Protocol`, `Delivery`, `ClientStream`, `Requests`, `Continuations`, `LostRequests`, `Installs`, `Sessions`, `Server` | the capture / encode / session protocol |
| `Capture` | frame pacing and skipping of unchanged frames |
| `Bitrate` | target and ceiling of the H.264 encoder |
| `DecoderFallback` | the client's decode thread |
| `Message` | the two data-channel codecs |
| `UinputSink`, `ClientInput`, `InputPath` | input from the client's window to the server's devices |
| `Text`, `Dedup`, `Sdp`, `SdpRewrite`, `SdpLaws` | the SDP candidate parser, printer and rewriter |
| `Colour`, `Convert`, `Nal`, `View`, `Pointer` | pixel and byte kernels, presentation, pointer mapping |

## How the protocol is modelled

`Protocol.Next` is a total step function; a step that is not enabled changes nothing, so every
sequence of steps is a run and every theorem about `Run(steps)` quantifies over all interleavings.
`Server` holds the same code as classes with the shared fields, one method per stretch between two
interleaving points. The objects carry the steps taken so far; `Valid` says that they are in the
state this run reaches, each method extends the run by the step of its name, and `Server.LiveServer`
states for the live objects what is proved of all runs.

* Every access of the encoder thread to a shared variable is a step of its own. So are the three
  stores of a session that connects (`server/src/session.rs:440-442`), because the threads really
  can run between them. Any other stretch of session code between two awaits is one step. In
  particular, the test of `active_session` at line 434 and the store at line 440 happen in one step.
* Encoder contract: a forced encode returns a keyframe or an error; any other encode returns a
  frame, nothing or an error.
* `NeverFailsWhileHeld`: `encoder::create` does not fail while an encoder of another size is held.
  Without it a keyframe request can be lost, because `server/src/pipeline.rs:254-258` keeps the old
  encoder after the flag was taken. `LostRequests` says exactly when, and gives a run.
* A capture tick starts only while a client is connected, but may still be under way when the client
  goes. A queued frame carries the flag as capture saw it.
* A frame handed to a sink counts as handed even when the receiver is already gone; a forced
  keyframe that meets such a sink answers the request although nobody gets it.
* A keyframe request is the connect itself, a PLI (section 6.3.1 of RFC 4585) or a FIR (section
  4.3.1 of RFC 5104).
* Offers may overlap. Where a property needs them in turn, `OffersInTurn` says so.

## What was found

* `server/src/pipeline.rs:254-258`: when a new encoder cannot be created while one of another size is
  kept, an open request can be lost exactly when the flag is clear and the next frame to reach the
  encoder is unmarked and of the kept size, or is still to be captured
  (`LostRequests.FailedCreationLosesExactly`); `LostRequests.RequestCanBeLost` is a run.
* `server/src/session.rs:440-441`: "at most one frame before a keyframe" fails of a new sink when the
  encoder thread runs between the sink store and the keyframe store. A take-over in which two frames
  come first is `Installs.TwoBeforeKeyframe`. The bound is what was handed over between the stores
  plus one (`Installs.BoundFromInstall`), which is attained for every number (`Installs.BoundIsTight`);
  when nothing comes between them it is one (`Installs.AtMostOneFromInstall`, `Installs.UndividedInstall`).
* `server/src/session.rs:182-191`: a session that connects while it is being replaced reinstalls its
  sink, which outlives the hand-over (`Sessions.ReplacedSinkCanReturn`), and overlapping offers can
  leave the older session active (`Sessions.OverlappingOffersReviveOlder`). The exact conditions are
  `Sessions.ConnectKeepsSinkExactly` and `Sessions.PublishKeepsNewestExactly`.
* `server/src/encoder/openh264.rs:302-306`: the `as i32` cast wraps above 715827 kbit/s, and a
  lowered rate then passes through a ceiling below the target. A client's request is clamped far
  below that (`server/src/session.rs:578`), but the configured rate is not (`server/src/config.rs:115-116`).
* `server/src/input/uinput.rs:211-233`: when releasing the keys fails, the buttons are never
  released, and their codes are forgotten.
* `client/src/app.rs:116-123`: the picture does not fit a window that is narrower or lower than two
  pixels, because of the final `max(2)`.
* `client/src/app.rs:220-225`: when a frame is larger than the window on one axis only, the pointer
  rectangle is not the one `blit` draws.
* `client/src/app.rs:339-340`: a wheel event of more than 1000 notches loses the excess.
* `proto/src/sdp.rs:114`: with irregular white space between extensions the joined extensions are
  not the suffix of the line, so the candidate is changed or not recognised.
* `proto/src/sdp.rs:41`: a text without CRLF that ends in two carriage returns, with at least two lines or
  nothing but a carriage return as its one line, turns into one with CRLF on the first rewrite and
  into another text on the second, unless the last line is dropped, is a connection line, or is a host
  candidate without extensions (`SdpLaws.IdempotentExactly`).
* `proto/src/sdp.rs:47-52`: a port that contains `|` lets two different candidates share a key.
* `server/src/input/keymap.rs:80-81`: `Lang3` shares its code with `Katakana` and `Lang4` with `Hiragana`
  (lines 152-153), so releasing one of two such keys releases both on the server. The server's pressed sets
  follow the client's exactly as long as no two keys and no two buttons share a code (`InputPath.MirrorsExactly`).
* Comments that differ from the code, which the model follows: `proto/src/message.rs:4` gives seven
  bytes as the largest message, it is five; `proto/src/sdp.rs:38-39` promises that other lines and
  line endings are kept, but empty lines are dropped, mixed endings become one, and a last line
  without an ending gets one.

## Model

| member | source | states |
|---|---|---|
| Delivery.StreamsAreContiguous | server/src/pipeline.rs:221-295 | In every run a non-keyframe that is not the first its sink gets since it was installed anew directly follows, in one encoder's output order, the frame handed to that sink before it |
| Delivery.RunKeepsStreams | server/src/pipeline.rs:221-295 | The order and stream invariants hold in every reachable state |
| Requests.RequestsAreAnswered | server/src/pipeline.rs:230-293 | No keyframe request is lost: the first frame handed to any sink from an encode that began after it is a keyframe |
| Requests.RunKeepsRequests | server/src/pipeline.rs:175-293 | In every run each request is answered, or no frame of a later encode came yet and the next one is forced: by the flag, by the mark or the size of the frame it will get, by a missing encoder, or by the force of the encode in flight |
| Requests.GuardStep | server/src/pipeline.rs:175-293 | Every step but a failed creation with another encoder held keeps that of each request |
| Requests.AtMostOneBeforeKeyframe | server/src/session.rs:413-425 | Of any two frames handed over after a request, a keyframe comes no later than the second, and to the same sink when that was installed before the request |
| Installs.BoundFromInstall | server/src/session.rs:440-442 | As long as no keyframe reached it, a new sink got at most the frames handed to it between its installation and a request, plus one |
| Installs.BoundIsTight | server/src/session.rs:440-442 | For every number of frames between the two stores some run attains that bound |
| Installs.AtMostOneFromInstall | server/src/session.rs:440-442 | If nothing is handed to the sink between its installation and a request, at most one frame reaches it before a keyframe |
| Installs.UndividedInstall | server/src/session.rs:440-442 | In every run in which the encoder thread takes no step between the sink store and the keyframe store, at most one frame reaches a new sink before a keyframe |
| Installs.RunKeepsPairs | server/src/session.rs:440-442 | In such runs every installation is followed by a request before any frame |
| Installs.TwoBeforeKeyframe | server/src/session.rs:440-442 | A take-over in which two frames reach the new sink before any keyframe |
| Requests.FirstFrameOfStream | server/src/session.rs:433-444 | The first frame of a freshly installed sink is a keyframe unless its encode began before the session's request |
| ClientStream.StreamIsDecodable | server/src/session.rs:506-541 | At every moment of every run, what a session's queue accepted since its sink was last installed anew is decodable from any keyframe on, despite sink swaps, encode errors and encoder re-creation |
| ClientStream.ReceivedChains | server/src/pipeline.rs:280-283 | Every non-keyframe accepted since the last new installation, but the first, directly follows the accepted frame before it |
| ClientStream.RunKeepsRefusals | server/src/pipeline.rs:280-283 | A sink that refused a frame never accepts one again |
| LostRequests.FailedCreationLosesExactly | server/src/pipeline.rs:232-260 | From any reachable state, after a failed creation with an encoder held, some way on without another such failure loses an open request if and only if the flag is clear and the next encode can be unforced: the frame it gets is unmarked and of the held size, or is still to be captured |
| LostRequests.OtherwiseNeverLost | server/src/pipeline.rs:232-293 | Without such failures no reachable state can lose a request |
| LostRequests.UnrecordedIsLost | server/src/pipeline.rs:232-260 | The steps that lose an open request which nothing records |
| LostRequests.RequestCanBeLost | server/src/pipeline.rs:232-260 | A run in which the first frame from an encode that began after a request is no keyframe |
| Sessions.ActiveSessionOwnsPipeline | server/src/session.rs:467-478 | In every run a connected pipeline or installed sink implies that the active session has not run its teardown, and the current connection is the active session's |
| Sessions.ReplacedSessionEndsQuietly | server/src/session.rs:467-478 | However a replaced session ends, sink, flags, current connection and the other sessions stay as they are |
| Sessions.TeardownSilencesPipeline | server/src/session.rs:467-478 | From the active session's end on there is no client and no sink until some session connects, whatever happens while it waits for the connection mutex and after; past that wait its connection is not the current one |
| Sessions.TakeOverSilencesPipeline | server/src/session.rs:182-189 | From a take-over that finds a current connection on there is no client and no sink until some session connects, whatever happens in between, a failing offer included |
| Sessions.IdleSendsNothing | server/src/pipeline.rs:109-117 | In that time no capture tick starts and no frame is picked for a sink |
| Sessions.NewestSessionIsActive | server/src/session.rs:182-191 | When offers do not overlap the newest published session is active and no connection is current while an offer is under way |
| Sessions.SinkIsActiveSessions | server/src/session.rs:433-444 | If besides sessions connect only while current, the sink is the active session's and its connection is the current one |
| Sessions.ConnectKeepsSinkExactly | server/src/session.rs:433-444 | A connect of the active session keeps that if and only if its connection is the current one |
| Sessions.PublishKeepsNewestExactly | server/src/session.rs:302-305 | Publishing a session makes the newest one active if and only if no later one was published before |
| Sessions.OverlappingOffersReviveOlder | server/src/session.rs:180-194 | A run of two overlapping offers after which the older session is active |
| Sessions.ReplacedSinkCanReturn | server/src/session.rs:182-191 | A session that connects while it is being replaced keeps its sink past the hand-over, from every reachable state in which it is the active one |
| Server.Shared.InstallSink | server/src/pipeline.rs:53-55 | The sink becomes the session's and the event is logged |
| Server.Shared.ClearSink | server/src/pipeline.rs:57-59 | The sink is gone |
| Server.Shared.TakeKeyframeFlag | server/src/pipeline.rs:230 | The flag is read and cleared in one |
| Server.Shared.Request | server/src/session.rs:416-421 | The flag is set and the request logged |
| Server.FrameSlot.TrySend | server/src/pipeline.rs:190-199 | A full slot refuses the frame and keeps its content |
| Server.VideoServer.constructor | server/src/pipeline.rs:40-51 | The objects start in the initial state, with no steps taken |
| Server.LiveServer | server/src/pipeline.rs:208-295 | Of the live objects after any calls: the active session owns the pipeline, every client can decode what it got from any keyframe on, and without held failures no request is lost |
| Server.VideoServer.StartTick | server/src/pipeline.rs:109-122 | Takes the protocol step: a tick starts only with a client connected |
| Server.VideoServer.SkipTick | server/src/pipeline.rs:134-179 | Takes the protocol step: a tick without display, capture or change offers nothing |
| Server.VideoServer.LoadFlag | server/src/pipeline.rs:175 | Takes the protocol step: the captured frame carries the flag as capture saw it |
| Server.VideoServer.OfferFrame | server/src/pipeline.rs:184-204 | Takes the protocol step: the frame enters an empty slot or is dropped |
| Server.VideoServer.Receive | server/src/pipeline.rs:221-226 | Takes the protocol step: the slot is emptied into the encoder thread |
| Server.VideoServer.SwapFlag | server/src/pipeline.rs:227-230 | Takes the protocol step: an empty frame leaves the flag, any other takes it |
| Server.VideoServer.CreateFails | server/src/pipeline.rs:254-259 | Takes the protocol step: the frame is dropped and the old encoder kept |
| Server.VideoServer.Encode | server/src/pipeline.rs:232-294 | Takes the protocol step: new encoder when needed, forced then, one result of the encoder contract |
| Server.VideoServer.ReadSink | server/src/pipeline.rs:280-287 | Takes the protocol step: a forced frame without sink re-arms the flag |
| Server.VideoServer.Send | server/src/pipeline.rs:281-283 | Takes the protocol step: the frame handed over continues its sink's stream, is accepted unless the receiver is gone, and loses no request |
| Server.VideoServer.TakePrevious | server/src/session.rs:182-191 | Takes the protocol step: when there is a previous session capture is stopped and the sink removed, otherwise both stay |
| Server.VideoServer.NameSession | server/src/session.rs:130-135 | Takes the protocol step and returns the next unused id |
| Server.VideoServer.AbandonOffer | server/src/session.rs:193-292 | Takes the protocol step: a failed offer leaves the silenced state behind |
| Server.VideoServer.Publish | server/src/session.rs:302-305 | Takes the protocol step: connection and active session change together |
| Server.VideoServer.Connect | server/src/session.rs:433-440 | Takes the protocol step: a replaced session changes nothing shared, the active one has its sink in place, and the pipeline is the active session's |
| Server.VideoServer.ForceOnConnect | server/src/session.rs:441 | Takes the protocol step: the connect's keyframe request is recorded |
| Server.VideoServer.MarkConnected | server/src/session.rs:442 | Takes the protocol step: capture may run |
| Server.VideoServer.RequestKeyframe | server/src/session.rs:413-425 | Takes the protocol step: a PLI or FIR is recorded until it is answered |
| Server.VideoServer.EndSession | server/src/session.rs:467-471 | Takes the protocol step: only the active session clears the shared state, and the pipeline stays the active session's |
| Server.VideoServer.FinishTeardown | server/src/session.rs:472-477 | Takes the protocol step: the current connection goes only if it is this session's |
| Server.VideoServer.DropReceiver | server/src/session.rs:533-536 | Takes the protocol step: the session's frame receiver is gone for good |
| Capture.CaptureLoop.constructor | server/src/pipeline.rs:98-106 | The loop starts unconnected with no hash |
| Capture.CaptureLoop.Step | server/src/pipeline.rs:108-205 | One iteration refines the iteration function, in state and outcome; what that comes to is stated by the next five rows |
| Capture.OutcomeExactly | server/src/pipeline.rs:108-205 | In every run each tick comes to what the inputs, the clock and the earlier answers of the slot say, computed without the state of the loop |
| Capture.OutcomeIsAnswer | server/src/pipeline.rs:184-204 | An offered frame is sent, refused or the end of the loop exactly as the slot answers accepted, full or disconnected |
| Capture.NextTickExactly | server/src/pipeline.rs:109-132 | The next tick is due one frame after this one exactly when it was at most a frame late, otherwise at the resynchronisation |
| Capture.NextTickIsSoon | server/src/pipeline.rs:124-132 | No tick puts the next one off by more than a frame |
| Capture.PacingBound | server/src/pipeline.rs:124-132 | In one connected stretch any k+1 consecutive ticks span at least k-2 frame durations, whatever the delays and resynchronisations |
| Capture.PacingBoundIsTight | server/src/pipeline.rs:124-132 | For every k some run attains the bound |
| Capture.CaptureBound | server/src/pipeline.rs:124-155 | The same for the work after the pacing check, with k-3 |
| Capture.SkipsOnlyWhatWasSent | server/src/pipeline.rs:152-199 | A tick is skipped if and only if its frame equals the last frame that the slot answered with acceptance since the connect, no keyframe is wanted and under a second has passed |
| Capture.ChangedContentIsOffered | server/src/pipeline.rs:176-199 | Changed content that a full slot refused is refused as such and offered again at every later tick that shows it, until the slot accepts a frame |
| Capture.HashIsLastAccepted | server/src/pipeline.rs:118-199 | The remembered hash and time are those of the last offered frame that the slot answered with acceptance in this connected stretch |
| Bitrate.BitrateControl.constructor | server/src/encoder/openh264.rs:110-122 | Initial target and ceiling come from the configured rate |
| Bitrate.BitrateControl.SetTarget | server/src/encoder/openh264.rs:189-207 | The option changes exactly when the call succeeds |
| Bitrate.BitrateControl.SetCeiling | server/src/encoder/openh264.rs:189-207 | The option changes exactly when the call succeeds |
| Bitrate.BitrateControl.SetBitrate | server/src/encoder/openh264.rs:293-317 | The options between and after the two calls, and success if and only if the stored rate is the wanted one |
| Bitrate.TargetNeverExceedsCeiling | server/src/encoder/openh264.rs:293-317 | For all rates up to 715827 kbit/s the target stays at or below the ceiling after every option call of every run, whichever calls fail |
| Bitrate.CallKeepsBracket | server/src/encoder/openh264.rs:293-317 | One call, failing or not, keeps the stale rate between target and ceiling |
| Bitrate.WorkingCallSets | server/src/encoder/openh264.rs:293-317 | A call with both options working sets target, ceiling and rate to the wanted rate, at least 100 kbit/s and each clamped to an i32; an unchanged rate makes no option call, any other changes one option at a time |
| Bitrate.FailedCallKeeps | server/src/encoder/openh264.rs:308-313 | A failing call keeps the stored rate, and leaves exactly what its working option call changed |
| Bitrate.LastRateIsSet | server/src/encoder/openh264.rs:293-317 | After every run of working calls the options are those of the rate asked for last |
| Bitrate.OrderedExactly | server/src/encoder/openh264.rs:302-313 | From a settled rate the order holds midway if and only if that rate is safe, unchanged, or its target is no higher than the new ceiling |
| Bitrate.WrappedComparisonBreaksOrder | server/src/encoder/openh264.rs:302-306 | Lowering 800 Mbit/s to 200 kbit/s passes through a ceiling below the target |
| DecoderFallback.DecodeThread.constructor | client/src/decoder/mod.rs:74-87 | The thread starts with one decoder and an old request time |
| DecoderFallback.DecodeThread.RequestKeyframe | client/src/decoder/mod.rs:88-93 | A request is made only 200 ms after the last one |
| DecoderFallback.DecodeThread.FallbackToSoftware | client/src/decoder/mod.rs:150-169 | A software decoder takes over, or the broken one |
| DecoderFallback.DecodeThread.HandleUnit | client/src/decoder/mod.rs:95-146 | One loop iteration refines the step function |
| DecoderFallback.RunKeepsHardwareInv | client/src/decoder/mod.rs:95-145 | The counter is below eight at the loop head and is the exact number of trailing failures while it matters |
| DecoderFallback.HardwareNeverReturns | client/src/decoder/mod.rs:95-169 | Hardware decoding, once lost, never comes back |
| DecoderFallback.HardwareReplacedExactly | client/src/decoder/mod.rs:117-144 | A hardware decoder is replaced at a unit if and only if it is fatal, or it is the eighth corrupt one in a row and no picture was ever made |
| DecoderFallback.SoftwareReplacedExactly | client/src/decoder/mod.rs:127-144 | Any other decoder is replaced at a unit if and only if the unit fails for good and a software decoder can be created |
| DecoderFallback.SoftwareTakesOver | client/src/decoder/mod.rs:150-169 | What replaces a decoder is a new software decoder if one can be created and the broken stand-in otherwise, and the thread goes on |
| DecoderFallback.StopsExactly | client/src/decoder/mod.rs:127-144 | The thread stops at a unit if and only if the unit fails for good, decoding is not in hardware after it, and no software decoder can be created |
| DecoderFallback.DecodingGoesOn | client/src/decoder/mod.rs:95-169 | In every run in which software decoders can be created there is a working decoder and the thread runs |
| DecoderFallback.HardwareMadeThemAll | client/src/decoder/mod.rs:95-145 | A hardware decoder in use made all the pictures of the run |
| DecoderFallback.SameDecoderThroughout | client/src/decoder/mod.rs:95-145 | While hardware is in use it is one instance, from the first unit on |
| DecoderFallback.RequestsAreThrottled | client/src/decoder/mod.rs:87-93 | Requests are at least 200 ms apart, and every failing unit comes less than 200 ms after one or makes one |
| DecoderFallback.RequestsExactly | client/src/decoder/mod.rs:87-93 | A unit makes one request if and only if it fails while the thread runs and none was made less than 200 ms before |
| Message.EncodeInto | proto/src/message.rs:89-119 | Pushing field by field appends the encoding |
| Message.RoundTrip | proto/src/message.rs:83-179 | Decoding an encoding gives the message back, in one to five bytes |
| Message.MouseRoundTrip | proto/src/message.rs:213-239 | The same for pointer moves |
| Message.EncodesExactly | proto/src/message.rs:89-119 | The encoding is the one sequence of bytes with the tag, the order and the widths of the fields as on the wire, little-endian and in two's complement |
| Message.EncodesMouseExactly | proto/src/message.rs:213-217 | The same for pointer moves: tag, column, row |
| Message.AcceptsExactly | proto/src/message.rs:121-179 | A buffer decodes to a message if and only if it is its encoding, up to the pressed byte |
| Message.RefusesExactly | proto/src/message.rs:121-179 | Each kind of refusal happens exactly for no bytes, an unknown tag, a wrong length for the tag, or a field out of range |
| Message.AcceptedBytesReencode | proto/src/message.rs:121-179 | Accepted bytes re-encode to themselves up to the pressed byte becoming 0 or 1 |
| Message.AcceptedMouseBytesReencode | proto/src/message.rs:219-239 | Accepted pointer bytes re-encode to themselves |
| Message.PrefixFree | proto/src/message.rs:83-119 | No encoding is a prefix of another |
| Message.LengthErrorsAreExact | proto/src/message.rs:122-134 | A cut encoding is truncated and an extended one trailing, with the exact counts |
| Message.ChannelsAreDisjoint | proto/src/message.rs:219-239 | No bytes are accepted on both channels |
| UinputSink.Sink.constructor | server/src/input/uinput.rs:90-97 | Nothing is pressed or held at the start |
| UinputSink.Sink.Key | server/src/input/uinput.rs:118-131 | The set changes even when the emit fails; the device only when it works |
| UinputSink.Sink.Button | server/src/input/uinput.rs:133-146 | The same for buttons |
| UinputSink.Sink.Wheel | server/src/input/uinput.rs:148-168 | Only non-zero axes are emitted and nothing held changes |
| UinputSink.Sink.MoveAbs | server/src/input/uinput.rs:170-185 | Both coordinates are emitted and nothing held changes |
| UinputSink.Sink.ReleaseKeys | server/src/input/uinput.rs:218-224 | The keyboard loses exactly the drained codes when there are some and the emit works |
| UinputSink.Sink.ReleaseButtons | server/src/input/uinput.rs:225-231 | The same of the pointer |
| UinputSink.Sink.ReleaseAll | server/src/input/uinput.rs:211-233 | Both sets are emptied; the devices lose exactly the codes whose emit was reached and worked |
| UinputSink.Sink.Handle | server/src/input/uinput.rs:189-209 | Every message refines the state function, with unknown keys ignored; both devices get exactly the events of the message if the emit works, and the result says whether it did |
| UinputSink.WheelTurns | server/src/input/uinput.rs:148-168 | The events of a wheel message turn the vertical axis by the vertical notches and the horizontal one by the horizontal notches, with no event for zero |
| UinputSink.Releases | server/src/input/uinput.rs:211-231 | One release event per drained code, in some order |
| UinputSink.ReleasesHeld | server/src/input/uinput.rs:218-231 | Those events leave the device with exactly the other codes |
| UinputSink.StaysInSync | server/src/input/uinput.rs:118-233 | With working emits the devices hold exactly the pressed sets after every message |
| UinputSink.ReleaseAllReleasesExactly | server/src/input/uinput.rs:211-233 | Which device is empty after a release, if and only if, for every pattern of failing emits |
| UinputSink.StrandedButtonsStayHeld | server/src/input/uinput.rs:223-230 | Buttons skipped by a failing keyboard emit stay held through a later successful release |
| ClientInput.App.constructor | client/src/app.rs:130-146 | Nothing is pressed and nothing is sent at the start |
| ClientInput.App.ReleaseAllInput | client/src/app.rs:190-201 | Both sets are empty afterwards and exactly one ReleaseAll is sent, even when they were empty |
| ClientInput.App.HandleKey | client/src/app.rs:283-308 | F11, repeats and unknown keys send nothing; any other key event sends its key and direction, and records a press or forgets a release |
| ClientInput.App.HandleButton | client/src/app.rs:461-471 | Known buttons change the set and are sent |
| ClientInput.App.HandleWheel | client/src/app.rs:320-343 | Lines and pixels become notches, whole ones are sent, the fraction stays |
| ClientInput.NotchesOfMovement | client/src/app.rs:321-341 | Sixty pixels are a notch, up stays up and the horizontal direction is turned round |
| ClientInput.ReactConserves | client/src/app.rs:331-342 | One event keeps less than a notch outstanding and loses no movement |
| ClientInput.WheelIsConserved | client/src/app.rs:320-343 | Over every run, on each axis, movement in equals notches sent plus what is outstanding, as long as no event exceeds 999 notches |
| ClientInput.ConservedExactly | client/src/app.rs:331-341 | An event conserves movement if and only if what is due is under 1001 notches |
| InputPath.NoStuckInput | client/src/app.rs:283-308 | In every run, replaying the queued messages on the server's sets gives a subset of the images of the client's pressed sets, for any key table and server releases at any moment; the devices hold the server's sets |
| InputPath.DrainedQueueAgrees | server/src/input/uinput.rs:189-209 | Once the queue is drained the devices hold nothing the client does not record |
| InputPath.ReleaseAllEmptiesDevices | server/src/input/uinput.rs:211-233 | Processing a delivered ReleaseAll leaves both devices empty |
| InputPath.KeyReachesServer | client/src/app.rs:283-308 | A key event that is not repeated, synthetic or unknown sends one message, after which the server will hold the key's code if and only if it was a press, and all else as before |
| InputPath.ButtonReachesServer | client/src/app.rs:461-471 | The same of a button event |
| InputPath.OthersAreIgnored | client/src/app.rs:283-304 | Repeated, synthetic and unknown events send nothing and record nothing |
| InputPath.LeavingReleases | client/src/app.rs:190-201 | Losing the focus or closing the window empties both of the client's sets and sends exactly one ReleaseAll, so that the server will hold nothing |
| InputPath.LeavingEmptiesDevices | client/src/app.rs:190-201 | In every run, once what the client sent when it was left has arrived, no device holds anything |
| InputPath.DrainIsReplay | server/src/session.rs:565-592 | Delivering the whole queue makes the pressed sets and the devices what the replay says |
| InputPath.MirrorsExactly | client/src/app.rs:283-308 | In all runs without releases by the server it will hold exactly the images of what the client records, if and only if no two keys and no two buttons share a code |
| InputPath.ReactImages | client/src/app.rs:186-201 | A message moves the images of the client's sets at least as far as it will move the server's |
| InputPath.DeliverStep | server/src/session.rs:565-592 | Handling one message of the active session keeps the invariant |
| InputPath.ReceiveActs | server/src/session.rs:565-592 | A received message does to the server's pressed sets what its effect on the replay says |
| Sdp.ParsedExactly | proto/src/sdp.rs:95-127 | A line with all eight words is parsed with its exact extensions if and only if they are single-spaced |
| Sdp.ParsesExactly | proto/src/sdp.rs:95-127 | A line parses if and only if it has the prefix, at least eight words with `typ` for the seventh, and its joined further words occur in it |
| Sdp.ParsedFields | proto/src/sdp.rs:95-127 | Which word of the line is which field |
| Sdp.PrintedFields | proto/src/sdp.rs:130-146 | Printing with another address changes the fifth word of the line and no other of the first eight |
| Sdp.ParsedWellFormed | proto/src/sdp.rs:95-127 | The fields of a parsed candidate are words and `rest` is the end of the line |
| Sdp.RestExactly | proto/src/sdp.rs:108-116 | The last occurrence of the joined extensions starts the line's extensions if and only if these are single-spaced |
| Sdp.PrintedWords | proto/src/sdp.rs:130-146 | A printed candidate splits into its fields followed by the words of `rest`, and its extensions are `rest` |
| Sdp.PrintedParsesExactly | proto/src/sdp.rs:95-147 | Printing and parsing gives the candidate back if and only if `rest` is single-spaced |
| Sdp.RoundTripExactly | proto/src/sdp.rs:95-147 | Replacing the address of a parsed line and parsing again changes nothing but the address, if and only if `rest` is single-spaced |
| Sdp.ParseCr | proto/src/sdp.rs:95-127 | A carriage return at the end of a line only lengthens the stored extensions, if there are any |
| Text.LinesOfEmit | proto/src/sdp.rs:76-80 | Splitting an emitted text returns exactly the emitted lines, under either line ending |
| Text.EolOfEmit | proto/src/sdp.rs:41 | The line ending is recovered from the emitted text |
| Text.LinesOfMixed | proto/src/sdp.rs:76-80 | Splitting finds the non-empty lines of a text with any mix of line endings |
| Text.LowerFoldsExactly | proto/src/sdp.rs:47-52 | Two texts fold to the same one if and only if they differ at most in the case of ASCII letters |
| Text.TrimEndExactly | proto/src/sdp.rs:62-63 | Trimming takes away exactly the white space at the end |
| Text.LinesSurviveExactly | proto/src/sdp.rs:76-80 | The lines of a text can be emitted and split back if and only if it has CRLF or does not end in two carriage returns |
| Text.SingleSpacedExactly | proto/src/sdp.rs:108-116 | A string is single-spaced if and only if it starts with its words joined by single spaces |
| Text.WordsOfJoin | proto/src/sdp.rs:97-108 | Joined words come back when split |
| Text.RFindBeforeBlank | proto/src/sdp.rs:114 | Before trailing white space the last occurrence is that one |
| SdpRewrite.RewriteHostCandidates | proto/src/sdp.rs:40-74 | The loop with its remembered keys emits the images of the lines, without host lines that repeat an earlier key |
| SdpRewrite.RewriteLine | proto/src/sdp.rs:45-71 | One iteration keeps text and remembered keys those of the lines so far |
| Dedup.FirstOfEachKeyIsKept | proto/src/sdp.rs:45-59 | The first line of each key is emitted at the place that the lines before it leave, a later one leaves no trace |
| Dedup.OnlyDuplicatesDrop | proto/src/sdp.rs:53-55 | Nothing but duplicates is dropped |
| SdpLaws.RewriteIsIdempotent | proto/src/sdp.rs:40-80 | Rewriting twice equals rewriting once |
| SdpLaws.IdempotentExactly | proto/src/sdp.rs:40-80 | For every text: rewriting twice is rewriting once if and only if it has CRLF or does not end in two carriage returns, or the last line loses the stray one, or the text is one line that is more than it |
| SdpLaws.OneLineExactly | proto/src/sdp.rs:40-80 | One line that keeps a stray carriage return is rewritten idempotently if and only if it is not just that |
| SdpLaws.KeepingEnds | proto/src/sdp.rs:43-72 | Unless the last line loses it, a stray carriage return ends the last emitted line |
| SdpLaws.RewriteResplits | proto/src/sdp.rs:40-80 | The rewritten text has exactly the emitted lines and the same line ending |
| SdpLaws.RewriteByPair | proto/src/sdp.rs:15-72 | Exactly the first host candidate of each lower-cased transport and port stays, the host addresses of the output are the public one once per pair, and the candidate count falls by the repeats |
| SdpLaws.OneAddressPerKey | proto/src/sdp.rs:25-31 | The host addresses of the output are the public address once per distinct key |
| SdpLaws.CountFallsByDuplicates | proto/src/sdp.rs:15-17 | The candidate count falls by exactly the number of duplicates, malformed and other candidates included |
| SdpLaws.OtherLinesComeThrough | proto/src/sdp.rs:61-72 | All lines but host candidates come through in order, unchanged unless they are connection lines |
| SdpLaws.OthersAreUntouched | proto/src/sdp.rs:37-72 | A candidate of another type than host, and any line that is neither candidate nor connection line, has no key and is emitted as it is |
| SdpLaws.OtherCandidatesStay | proto/src/sdp.rs:37-72 | The candidates of other types in the rewritten text are those of the input, unchanged and in order |
| SdpLaws.ConnectionsAreRedirected | proto/src/sdp.rs:61-69 | The IPv4 connection lines of the rewritten text are those of the input in order, each with the public address unless it held the placeholder |
| SdpLaws.PlainLinesStay | proto/src/sdp.rs:37-72 | The lines that are neither candidates nor IPv4 connection lines are those of the input, unchanged and in order |
| SdpLaws.HostsHaveKeys | proto/src/sdp.rs:45-59 | Exactly the candidates of type host are compared by key and printed with the public address |
| SdpLaws.ConnectionsNameAddress | proto/src/sdp.rs:61-69 | After the rewrite every IPv4 connection line names the public address or the placeholder |
| SdpLaws.ImageOfConnection | proto/src/sdp.rs:61-71 | Lines that are neither host candidates nor IPv4 connection lines are emitted as they are |
| SdpLaws.HostImage | proto/src/sdp.rs:45-59 | A rewritten host line parses to the same candidate with the public address and keeps its key |
| SdpLaws.ImageSurvives | proto/src/sdp.rs:57-71 | A rewritten line is still one line |
| SdpLaws.KeyIsPair | proto/src/sdp.rs:47-52 | Two keys are equal if and only if transport and port are, for ports without a bar |
| SdpLaws.KeysAgreeExactly | proto/src/sdp.rs:47-52 | For any ports: two keys are equal if and only if the pairs are, or the longer transport goes on as the other key's address and port do |
| SdpLaws.KeptByPair | proto/src/sdp.rs:47-56 | So de-duplication by key keeps the same lines as by pair |
| SdpLaws.BarInPortCollides | proto/src/sdp.rs:47-52 | Ports with a bar can make different pairs share a key |
| Colour.LumaIsAccurate | server/src/convert.rs:83-85 | Luma never truncates, lies in 16..235 and is less than 1 from the exact BT.601 value |
| Colour.ChromaIsAccurate | server/src/convert.rs:110-116 | Chroma never truncates, lies in 16..240 and is less than 1.5 from the exact value of the unrounded 2x2 mean |
| Colour.GreyHasNoColour | server/src/convert.rs:110-116 | Four grey pixels give chroma 128 |
| Convert.I420Frame.constructor | server/src/convert.rs:22-32 | A black frame of even dimensions with matching plane lengths |
| Convert.ConvertBlock | server/src/convert.rs:98-116 | Four luma and two chroma bytes of one block, in place, nothing else written |
| Convert.ConvertRowPair | server/src/convert.rs:88-118 | Both luma rows and the chroma row hold the formula of their pixels, nothing else is written |
| Convert.ConvertPairs | server/src/convert.rs:69-79 | Whatever the order of row pairs, every pair is converted and none disturbs another |
| Convert.ConvertPair | server/src/convert.rs:74-79 | One row pair is converted, with all indices in bounds, and every pair converted before stays so |
| Convert.Resize | server/src/convert.rs:65-67 | New planes for a new size, the same ones otherwise |
| Convert.XrgbToI420 | server/src/convert.rs:46-80 | After even cropping every plane byte is the converted picture's; planes are replaced only when the size differs |
| Convert.LumaOfPixel | server/src/convert.rs:83-108 | Every luma byte is the formula on its pixel |
| Convert.LumaOfBytes | server/src/convert.rs:83-108 | Every luma byte lies in 16..235 and is less than 1 from the exact BT.601 value of the source bytes 2 (red), 1 (green) and 0 (blue) of its pixel |
| Convert.ChromaOfBlock | server/src/convert.rs:110-116 | Every chroma byte is the formula on its 2x2 block |
| Convert.ChromaOfBytes | server/src/convert.rs:98-116 | Every chroma byte lies in 16..240 and is less than 1.5 from the exact value of the means of those bytes over its four pixels |
| Convert.PlanesDependOnPictureOnly | server/src/convert.rs:46-118 | Sources that agree on the bytes 0, 1 and 2 of every pixel give equal planes, whatever pitch, row padding, X bytes and order of row pairs |
| Nal.FindStarts | server/src/encoder/mod.rs:62-71 | The scan finds the start codes |
| Nal.CutUnit | server/src/encoder/mod.rs:74-84 | All but the last unit lose their trailing zeros |
| Nal.CutUnits | server/src/encoder/mod.rs:72-85 | One unit per start code |
| Nal.NalUnits | server/src/encoder/mod.rs:61-86 | The result is the recursive splitting at first start codes |
| Nal.UnitsAreSlices | server/src/encoder/mod.rs:61-86 | Slicing between scanned positions is that splitting |
| Nal.UnitsInvertFraming | server/src/encoder/mod.rs:61-86 | Splitting inverts Annex B framing for any mix of start codes with two or more zeros |
| Nal.UnitsExactly | server/src/encoder/mod.rs:61-86 | For every byte stream: a list of units is the result if and only if framing can carry it and the stream is its framing, behind bytes without a start code |
| Nal.CarriableExactly | server/src/encoder/mod.rs:61-86 | A list of units is returned for some byte stream if and only if no unit holds a start code and only the last may end in zero |
| View.FitsAndTouches | client/src/app.rs:116-123 | The scaled picture fits the window if and only if that is at least 2x2, and then touches it on one axis |
| View.KeepsAspect | client/src/app.rs:116-123 | Its sides are those of the largest rectangle of the source's aspect, each within half a pixel, and 2 where the exact side is below 1.5 |
| View.Blit | client/src/app.rs:346-366 | Every row of the window shows the centred, clipped frame between black bars, on the fast path and on the general one |
| View.PixelShown | client/src/app.rs:346-366 | Every window pixel shows the frame pixel at its coordinates less the bar before it, or plus the half of what is clipped, and black where there is none |
| View.VisibleRow | client/src/app.rs:355-362 | The slice taken from the frame is the visible part of its row |
| View.CopyRow | client/src/app.rs:363-364 | The slice replaces what stood at its place and nothing else |
| View.DrawRow | client/src/app.rs:361-365 | One visible frame row is copied to its place |
| Pointer.NormIncreases | proto/src/message.rs:199-211 | Pixels of an axis get strictly increasing values |
| Pointer.NormEnds | proto/src/message.rs:199-211 | The first pixel gives 0 and the last 65535 |
| Pointer.NormExactly | proto/src/message.rs:199-206 | Any position on an axis gives 0 before the first pixel, 65535 past the last and the nearest value in between |
| Pointer.OutsideSendsEdges | client/src/app.rs:456-459 | A cursor left of or above the video area sends 0 and one right of or below it 65535 |
| Pointer.WholeWindow | client/src/app.rs:220-225 | The video area is the whole window if and only if there is no frame, it exceeds the window on some axis, or it is exactly as large |
| Pointer.DistinguishesExactly | proto/src/message.rs:199-211 | All pixels of an axis can be pointed at if and only if there are at most 65536 |
| Pointer.RectIsDrawnExactly | client/src/app.rs:203-226 | The assumed video rectangle is the drawn one if and only if the frame fits on both axes or covers both |
| Pointer.PointerMeetsPicture | client/src/app.rs:456-459 | For a window of at least 2x2 and a frame scaled to it, the window pixel that shows a frame pixel sends that pixel's normalised position |
| Pointer.OutsideIsBlack | client/src/app.rs:346-366 | Outside the drawn rectangle the window is black |

## Left out

- Foreign code: DRM capture, OpenH264, FFmpeg, swscale, uinput and the WebRTC stack appear only through the results and events they deliver, which are inputs of the model.
- Floating point: `f64` and `f32` values are exact reals or integers, so rounding errors and non-finite positions are outside the model.
- Time: the clock is monotonic, a sleep lasts until its deadline, and the client's threads see millisecond readings; clock failures are not modelled.
- Hash collisions: two frames with equal plane hashes count as the same content.
- Memory orderings: atomic accesses are sequentially consistent steps.
- Frame writer: `write_frames` drops frames until a payload type is negotiated; decodability is stated for what a session's queue accepted.
- Input gating: messages of a replaced session are ignored (`server/src/session.rs:562-564`); the input path follows one session that stays active. Between a take-over's release and the store of the new session id messages are still handled, so nothing is claimed about what is held across a take-over.
- Several connections: at most one open connection is not claimed, since offers are not serialised.
- SDP inspection: `has_media` and `is_ice_lite` are plain searches over the same lines and are not modelled.
- SdpLaws.RewriteIsIdempotent: asks for an address that is one word and single-spaced extensions on host lines, as the source's callers provide.
- Bitrate.OrderedExactly: describes calls whose option calls succeed from a settled rate; runs with failures are covered up to 715827 kbit/s.
- Key tables: `to_evdev`, `button_to_evdev` and the window key map are arbitrary, possibly non-injective functions.
- Buffers: spare-frame recycling (`server/src/pipeline.rs:181-199`) and encoder statistics have no effect on what is delivered and are not modelled.
- Configuration, metadata lookup, setup, doctor, PNG output, window titles and logging: plumbing with shallow properties.
