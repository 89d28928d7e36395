# RemoteKVM verification model

Dafny models of the parts of RemoteKVM whose correctness is easiest to get wrong, with proofs over
every input, every run or every reachable state:

- the H.264 byte stream between host and viewer: both hosts' conversion of length-prefixed encoder
  output to Annex B, the viewer's access-unit assembler, start-code scanner, NAL splitter,
  parameter-set observer and re-serialiser;
- the Windows host's audio normaliser and the viewer's playback converter and queue;
- the signaling relay: agent connections, Redis presence, client routes and session rows;
- the session agent's command line, and the service controller's process table;
- the sign-in rate limiter;
- pixel layout and colour conversion on both sides.

`dafny verify dfyconfig.toml` checks everything. Code that works by changing state is a class or a
method with loops proved against a specification function; the results are lemmas about those
functions.

## Files

| file | content |
|---|---|
| `Bytes.dfy`, `Arithmetic.dfy` | bytes, big-endian lengths, concatenation; division, rounding |
| `AnnexB.dfy`, `Avcc.dfy` | the two H.264 sample formats as theories of byte strings |
| `WindowsEncode.dfy`, `MacAnnexB.dfy`, `ClientMedia.dfy`, `AccessUnits.dfy` | the code on each side |
| `H264Pipeline.dfy` | what is written on one side and read on the other |
| `AudioNormalizer.dfy`, `Playback.dfy` | sound, host and viewer |
| `Signaling.dfy`, `AgentRelay.dfy`, `ClientRelay.dfy` | one server's maps and the Redis scripts; two step systems |
| `CommandLine.dfy`, `Supervisor.dfy` | the Windows service controller |
| `RateLimiter.dfy` | the fixed-window limiter |
| `StridedCopy.dfy`, `Colour.dfy` | pictures |

## Where the code does less than its names promise

The model keeps the code as it is; each point has a lemma with the input and, where there is one, the
exact condition.

- `ensure_annex_b` passes a well-formed length-prefixed sample on unconverted as soon as a length
  prefix contains 00 00 01, as any unit of 256 to 511 bytes gives it (`LengthMistakenForCode`,
  `ConvertedExactlyWhen`). The viewer then reads the sample's units only if every unit is one byte
  long, for units below 16 MiB (`ViewerReadsExactlyWhen`).
- After one lost marker a stream of single-packet access units stays one unit late until a unit with
  a second packet arrives (`SinglePacketUnitsStayLate`, `RecoversExactlyWhen`).
- A one-frame audio packet at a rate other than 48 kHz is passed on unscaled and drifts
  (`NoDriftExactlyWhen`).
- Two server processes configured with one instance name clear each other's presence
  (`OwnershipExactlyWhen`).
- A presence write that lands after a newer connection's, or fails over an earlier entry, leaves the
  machine's entry with a superseded connection, and the current one cannot refresh it
  (`PresenceFollowsExactlyWhen`, `LateWrite`, `OnlyWriterRefreshes`).
- A live client can lose its route to a session it owns: another connection of the same user takes the
  route over, or cleans up after one has (`HoldersRoutedExactlyWhen`, `TakenOverThenLost`).
- A failed session enumeration ends the service controller without stopping its agents
  (`FailedScanLeavesAgents`, `NoAgentLeftExactlyWhen`).
- A limiter with a zero window and a positive limit accepts every call (`ZeroWindowIgnoresCount`,
  `BoundExactlyWhen`).
- The quoting rules suit arguments, not the program name: a path with a quote or a trailing backslash
  is not read back (`AgentReadsItsArguments`).
- `nv12_to_rgba` accepts a buffer one byte too short for its last chroma read when the width is odd
  (`ReadsInRangeExactlyWhen`).
- The host writes limited-range luma that the viewer does not expand, so grays 110 to 117 alone come
  back unchanged (`GrayLevels`).

## Model

| member | source | states |
|---|---|---|
| AnnexB.SplitIsLossless | apps/client/src/media.rs:1879-1931 | for every byte string, the bytes before the first start code followed by each start code and its (possibly empty) unit are the input |
| AnnexB.SplitIsClean | apps/client/src/media.rs:1879-1931 | neither that prefix nor any unit contains 00 00 01 |
| AnnexB.UnitsAreClean | apps/client/src/media.rs:1879-1891 | returned units are never empty and never contain 00 00 01 |
| AnnexB.PrintThenSplit | apps/client/src/media.rs:1879-1931 | start-code-free units printed with four-byte codes split back in order, trailing zero bytes included; only empty units vanish |
| AnnexB.PrintSplitRoundTrip | apps/client/src/media.rs:1879-1931 | the round trip is exact if and only if all units are non-empty and start-code free |
| AnnexB.ProperCutIsUnique | apps/client/src/media.rs:1879-1931 | any cut into start-code-free pieces, each code claiming the zero bytes it can, is the splitter's own |
| ClientMedia.FindStartCode | apps/client/src/media.rs:1914-1923 | the first three- or four-byte start code at or after the cursor, for any cursor |
| AnnexB.FirstCodeIsFirst | apps/client/src/media.rs:1914-1923 | the position found holds a start code and no earlier one does |
| ClientMedia.AnnexBNalus | apps/client/src/media.rs:1879-1891 | the moving-cursor loop returns exactly the units of the stream |
| ClientMedia.AnnexBToAvccSample | apps/client/src/media.rs:1893-1912 | picture units length-prefixed in order, nothing when there are none, an error when a unit does not fit 32 bits |
| ClientMedia.AvccSampleOutcomes | apps/client/src/media.rs:1893-1912 | fails exactly when a unit that is no parameter set needs more than 32 bits of length, gives nothing exactly when every unit is a parameter set |
| ClientMedia.PictureUnitsIdentity | apps/client/src/media.rs:1899-1902 | filtering leaves a list alone exactly when no unit's header byte modulo 32 is 7 or 8 |
| ClientMedia.ParameterSets.ObserveAnnexBSample | apps/client/src/media.rs:1799-1810 | SPS and PPS become the last units of type 7 and 8, or stay |
| ClientMedia.LastOfTypeIsLast | apps/client/src/media.rs:1799-1810 | the observed unit occurs in the sample and no later unit has its type |
| Avcc.ParsePrinted | apps/agent/src/windows/encode.rs:1895-1911 | length-prefixed units followed by fewer than four spare bytes parse back to exactly those |
| Avcc.PrintParsed | apps/agent/src/windows/encode.rs:1895-1911 | whatever parses is the print of its units and spare bytes |
| WindowsEncode.HasAnnexBStartCode | apps/agent/src/windows/encode.rs:1920-1922 | the two window scans together mean 00 00 01 occurs |
| WindowsEncode.EnsureAnnexB | apps/agent/src/windows/encode.rs:1890-1918 | converts exactly start-code-free, well-formed, fully consumed, non-empty samples without empty units, and returns anything else unchanged |
| WindowsEncode.NaluTypes.Next | apps/agent/src/windows/encode.rs:1928-1948 | yields the header type after each start code that has a byte after it, in order |
| WindowsEncode.AnnexBContainsIdr | apps/agent/src/windows/encode.rs:1924-1926 | true exactly when a yielded type is 5 or 7 |
| WindowsEncode.ScannersAgree | apps/agent/src/windows/encode.rs:1924-1948 | for every byte string and every type but 0, the host's iterator yields it if and only if the viewer's splitter returns a unit of it |
| MacAnnexB.AppendAvccAsAnnexB | apps/agent/src/macos/annex_b.rs:72-102 | appends all units, empty ones included, drops up to three spare bytes, fails on a truncated unit |
| MacAnnexB.SampleToAnnexB | apps/agent/src/macos/annex_b.rs:17-31 | a keyframe is its parameter sets printed first, then the block |
| H264Pipeline.EnsureAnnexBIdempotent | apps/agent/src/windows/encode.rs:1890-1918 | converting twice is converting once, on every input |
| H264Pipeline.WindowsRoundTrip | apps/agent/src/windows/encode.rs:1890-1918 | for every input the host changes: the viewer splits out exactly the payloads and serialises back the original without parameter sets, the whole original if and only if it had none |
| H264Pipeline.KeyframeFlagOfPayloads | apps/agent/src/windows/encode.rs:1596-1599 | the flag computed after conversion is true exactly when a payload has type 5 or 7 |
| H264Pipeline.SamplesArrive | apps/client/src/media.rs:1824-1891 | encoder samples sent as well-marked units come out as one access unit each, in order, and split into their own payloads |
| H264Pipeline.ConvertedExactlyWhen | apps/agent/src/windows/encode.rs:1891-1893 | a well-formed sample is converted if and only if it contains no 00 00 01 or every unit is one byte long |
| H264Pipeline.LengthMistakenForCode | apps/agent/src/windows/encode.rs:1891-1893 | a lone unit of 256 to 511 bytes is passed on unchanged and read with its low length byte as header |
| H264Pipeline.ViewerReadsExactlyWhen | apps/agent/src/windows/encode.rs:1890-1918 | for any list of units below 2^24 bytes, sent as one sample, the viewer splits out exactly that list if and only if none is empty and the sample contains no 00 00 01 or every unit is one byte long |
| H264Pipeline.LongUnitReadByChance | apps/agent/src/windows/encode.rs:1891-1893 | a unit of 2^24 + 1 bytes is left unconverted and read all the same |
| H264Pipeline.KeyframeRoundTrip | apps/agent/src/macos/annex_b.rs:17-101 | the viewer splits a macOS keyframe into SPS, PPS and the block's non-empty units, learns that SPS and PPS when the block has none, and rebuilds the block byte for byte if and only if it is one or more non-empty units, no parameter sets, no spare bytes |
| H264Pipeline.MacSampleArrives | apps/agent/src/macos/annex_b.rs:17-101 | for keyframes and delta frames and any list of sets: fails exactly on a truncated block or a keyframe without sets; otherwise the viewer splits out the sets (keyframes only) and the block's units without empty ones, and, when the sets are parameter sets, rebuilds the block under the same condition |
| AccessUnits.H264AccessUnitAssembler.PushRtp | apps/client/src/media.rs:1825-1862 | new state and reply for every packet, failed and empty payloads included |
| AccessUnits.PendingCoherent | apps/client/src/media.rs:1838-1858 | over any run, pending is empty exactly when no timestamp is held |
| AccessUnits.AssemblyIsGrouping | apps/client/src/media.rs:1824-1863 | over any run the carrying packets divide in order into the emitted units and the open group, each group of one timestamp carried by its unit, each cut at a marker or a timestamp change |
| AccessUnits.DeliveredAtOnce | apps/client/src/media.rs:1853-1858 | a unit is delivered by its last packet and by none before it |
| AccessUnits.StreamDelivered | apps/client/src/media.rs:1824-1863 | a stream of well-marked units, empty packets anywhere, comes out as exactly the sent units and leaves nothing pending |
| AccessUnits.RecoversExactlyWhen | apps/client/src/media.rs:1840-1851 | after a flush the assembler is empty again if and only if the unit has a second packet |
| AccessUnits.SinglePacketUnitsStayLate | apps/client/src/media.rs:1840-1851 | single-packet units with changing timestamps stay one behind for the whole rest of the stream |
| AudioNormalizer.AudioNormalizer.PushPacket | apps/agent/src/windows/audio.rs:315-357 | accepts exactly packets of the stream's format, returns the whole 20 ms frames and keeps the rest, the remainder staying below the rate |
| AudioNormalizer.ResampleStereoLinearWithRemainder | apps/agent/src/windows/audio.rs:380-419 | for any remainder: panics on an index exactly when the remainder is too large for the packet, otherwise returns the interpolated frames and the new remainder, which stays below the rate |
| AudioNormalizer.StereoFrame | apps/agent/src/windows/audio.rs:360-373 | every stereo frame is the first two channels of its input frame, or its only one twice |
| AudioNormalizer.LeftInRangeExactlyWhen | apps/agent/src/windows/audio.rs:398-411 | every left index is below the input frame count if and only if the remainder asks for no more output frames than rate - 1 would |
| AudioNormalizer.BelowRateIsSmall | apps/agent/src/windows/audio.rs:393-411 | a remainder below the rate never does |
| AudioNormalizer.OutputIsInterpolation | apps/agent/src/windows/audio.rs:407-416 | each sample lies between its neighbours, within half a step of the exact interpolation, and equals the input on input frames |
| AudioNormalizer.PacketAdds | apps/agent/src/windows/audio.rs:315-338 | exactly packets of the stream's own format with the right sample count are accepted; at 48 kHz or for one frame the samples added are the first two channels of each input frame, else each lies within half a step between the packet's samples around its position |
| AudioNormalizer.StreamIsFromPackets | apps/agent/src/windows/audio.rs:315-338 | over any run the stream is one such part per packet, in order, with the remainders that join them, and nothing for rejected packets |
| AudioNormalizer.FramesAreTheStream | apps/agent/src/windows/audio.rs:332-356 | over any run the emitted frames, each of 1920 samples, followed by the buffer are the normalised stream in order |
| AudioNormalizer.RateBalance | apps/agent/src/windows/audio.rs:393-400 | output frames times rate plus remainder equals input frames times 48000, plus rate minus 48000 for each one-frame packet, over any run |
| AudioNormalizer.NoDriftExactlyWhen | apps/agent/src/windows/audio.rs:393-400 | no drift if and only if the rate is 48000 or no accepted packet had one frame |
| AudioNormalizer.OpusFrameCount | apps/agent/src/windows/audio.rs:340-355 | then exactly floor(floor(N * 48000 / rate) / 960) Opus frames have been emitted |
| Playback.ResampleInterleaved | apps/client/src/media.rs:509-547 | the nested loops produce the converted frames, always whole output frames |
| Playback.ClampNeverActs | apps/client/src/media.rs:526-532 | the clamp to the last input frame never changes an index |
| Playback.ConversionIdentity | apps/client/src/media.rs:509-547 | equal rates and channel counts give back the whole frames of the input |
| Playback.ConvertedSample | apps/client/src/media.rs:509-547 | between any rates and channel counts every output sample is the input sample, or the mean of the input frame, at frame k * in / out |
| Playback.ConvertedLength | apps/client/src/media.rs:509-547 | how many samples come out, zero rates and partial frames included |
| Playback.AudioPlaybackBuffer.PushFrame | apps/client/src/media.rs:464-477 | converted samples go to the back, overflow leaves from the front |
| Playback.AudioPlaybackBuffer.FillOutputF32 | apps/client/src/media.rs:549-557 | the callback gets queued samples in order, then silence |
| Playback.QueueAfterPush | apps/client/src/media.rs:472-476 | a push leaves the last samples of old and new, as many as the limit allows |
| Playback.RequestPlays | apps/client/src/media.rs:549-557 | a request plays the queued samples in order, then zeros, and leaves the rest |
| Playback.AllHeardExactlyWhen | apps/client/src/media.rs:464-557 | over any run what is heard followed by the queue is everything produced, in order, if and only if no push overflowed |
| Playback.QueueIsSuffix | apps/client/src/media.rs:464-477 | over any run the queue is a suffix of what was produced |
| Playback.ChannelsStayAligned | apps/client/src/media.rs:464-477 | with whole-frame pushes, requests and limit the queue front is always a first channel |
| Playback.RequestAlignment | apps/client/src/media.rs:549-557 | one request keeps alignment if and only if it is whole frames or drains the queue |
| Playback.DeviceRun | apps/client/src/media.rs:404-477 | from an empty queue with the configured limit: bounded, a suffix, aligned, over any run |
| RateLimiter.RateLimiter.Check | apps/server/src/util.rs:40-60 | purge, renew and count on the shared map |
| RateLimiter.SharedIsIndependent | apps/server/src/util.rs:40-60 | on a monotone clock every call is decided as by a limiter of its own key that never forgets |
| RateLimiter.AcceptedExactlyWhen | apps/server/src/util.rs:40-60 | a key's call is accepted if and only if fewer than the limit of its calls came since the one that opened its window; windows open by call times alone |
| RateLimiter.RejectedLeavesNoTrace | apps/server/src/util.rs:40-60 | leaving out a rejected call changes no other decision of any key |
| RateLimiter.AtMostTwicePerWindow | apps/server/src/util.rs:40-60 | at most 2 * max_requests accepted per key in any closed interval of one window, whatever other keys do |
| RateLimiter.BoundIsReached | apps/server/src/util.rs:40-60 | that bound is attained for every positive limit and window |
| RateLimiter.BoundExactlyWhen | apps/server/src/util.rs:40-60 | the bound holds on all monotone runs, keys and intervals if and only if the window is positive or the limit is 0 |
| RateLimiter.ZeroWindowIgnoresCount | apps/server/src/util.rs:49-54 | with a zero window every call is accepted, or with a zero limit none |
| CommandLine.QuoteCommandArg | apps/agent/src/windows/service.rs:492-524 | the backslash-counting loop writes the quoted form |
| CommandLine.BareExactlyWhen | apps/agent/src/windows/service.rs:492-503 | an argument stays bare if and only if it is not empty and has no white space, quote or backslash |
| CommandLine.QuotingRoundTrip | apps/agent/src/windows/service.rs:492-524 | any list of strings, quoted and joined by spaces, is split back by the Microsoft C runtime rules |
| CommandLine.ArgumentsSurviveExactlyWhen | apps/agent/src/windows/service.rs:492-528 | through the NUL-terminated line the list survives if and only if no argument contains NUL |
| CommandLine.AgentReadsItsArguments | apps/agent/src/windows/service.rs:482-490 | the agent sees path, URL and token as given if and only if none contains NUL and the path has no quote and no trailing backslash |
| Supervisor.SessionAgents.HandleSessionChange | apps/agent/src/windows/service.rs:268-292 | start reasons ensure an agent in active sessions, end reasons stop it, the rest do nothing |
| Supervisor.SessionAgents.ReconcileActiveSessions | apps/agent/src/windows/service.rs:294-311 | visiting sessions in any order gives one result |
| Supervisor.SessionAgents.EnsureAgent | apps/agent/src/windows/service.rs:313-332 | spawns only for a non-zero session without an agent |
| Supervisor.SessionAgents.ReapExited | apps/agent/src/windows/service.rs:334-343 | drops exactly the agents no longer running |
| Supervisor.SessionAgents.StopAll | apps/agent/src/windows/service.rs:356-361 | passes every tracked agent to terminate |
| Supervisor.ReconcileTracksActive | apps/agent/src/windows/service.rs:294-332 | afterwards a session is tracked exactly when it is active, not 0, and had an agent or got one; it keeps that agent, and exactly the agents of inactive sessions are terminated |
| Supervisor.StartOfSession | apps/agent/src/windows/service.rs:273-282 | the five start reasons: a failed enumeration fails; otherwise an active session other than 0 without an agent gets its spawned process, and nothing else changes |
| Supervisor.EndOfSession | apps/agent/src/windows/service.rs:283-288 | the four end reasons: the session is untracked, its process terminated, nothing else changes |
| Supervisor.ChangeFailsExactlyWhen | apps/agent/src/windows/service.rs:268-292 | a session change fails if and only if the enumeration fails on a start reason |
| Supervisor.ReapKeepsRunning | apps/agent/src/windows/service.rs:334-343 | exactly the agents reported running stay tracked and the others are reaped |
| Supervisor.StopAndScan | apps/agent/src/windows/service.rs:234-241 | a stop terminates every agent; a scan leaves the running agents of active sessions and the newly spawned ones, reaps the others not running, terminates those of inactive sessions |
| Supervisor.NoProcessIsLost | apps/agent/src/windows/service.rs:201-362 | over any run every spawned process is exactly one of tracked, reaped as not running, passed to terminate; after a stop none is tracked |
| Supervisor.NoAgentLeftExactlyWhen | apps/agent/src/windows/service.rs:213-241 | a run that ends leaves no agent behind if and only if its last turn is a stop or a scan that finds no tracked agent running |
| Supervisor.FailedScanLeavesAgents | apps/agent/src/windows/service.rs:234-237 | a failed enumeration ends the controller with an agent neither reaped nor terminated |
| Signaling.SignalingState.UnregisterAgentIfCurrent | apps/server/src/websocket.rs:165-175 | removes the entry and reports it only if it is this connection's |
| Signaling.SignalingState.UnregisterClientSessions | apps/server/src/websocket.rs:231-237 | removes every listed session whoever holds it |
| AgentRelay.ReconnectSafety | apps/server/src/websocket.rs:96-186 | in every interleaving the next id is unused, map entries belong to live registered connections, every other registered connection has lost its sender |
| AgentRelay.CleanupReport | apps/server/src/websocket.rs:165-186 | cleanup reports was_current exactly when nobody registered for the machine there afterwards |
| AgentRelay.StepRespectsWriter | apps/server/src/websocket.rs:279-346 | with distinct names a step changes a presence entry only by its own writer, by another connection's presence write, late ones included, or by expiry |
| AgentRelay.SharedNameClearsOther | apps/server/src/websocket.rs:328-346 | with a shared name one process's cleanup deletes what the other has just written |
| AgentRelay.OwnershipExactlyWhen | apps/server/src/websocket.rs:139-186 | over all interleavings ownership holds if and only if the names are distinct |
| AgentRelay.ScriptsSeeWriters | apps/server/src/websocket.rs:279-346 | in every reachable state with distinct names each step changes the presence entries as if the scripts compared writers; only a connection that was current clears, failed commands change nothing |
| AgentRelay.PresenceFollowsExactlyWhen | apps/server/src/websocket.rs:139-186 | at every point of a run the writer of each presence entry is its process's current connection, once that one is in its loop, if and only if no presence write came after a newer running connection's and none failed over an earlier entry of the process |
| AgentRelay.LateWrite | apps/server/src/websocket.rs:145-154 | a reachable run in which a superseded connection's write comes last |
| AgentRelay.OnlyWriterRefreshes | apps/server/src/websocket.rs:279-346 | a running connection's refresh extends its process's entry if it wrote it and changes nothing otherwise |
| ClientRelay.RowsNeverGoBack | apps/server/src/websocket.rs:867-930 | between any two points of a run a session row keeps its owner, never moves back in status, keeps its end time, never counts down, and has an end time exactly when ended |
| ClientRelay.SessionsEndWithClient | apps/server/src/websocket.rs:720-729 | in every reachable state each session a gone client owned has an ended row with an end time, and each session of a leaving client has one or is on its list |
| ClientRelay.AnswerActivates | apps/server/src/websocket.rs:867-879 | an answer turns a pending row active and changes nothing else |
| ClientRelay.UsageCounts | apps/server/src/websocket.rs:881-901 | an agent's usage is added to the bytes sent, a client's request to the bytes received, nothing else changes |
| ClientRelay.EndingEnds | apps/server/src/websocket.rs:903-930 | ending sets the status and a missing end time of rows not ended, for one session or a whole machine, and leaves the others |
| ClientRelay.RoutingInvariant | apps/server/src/websocket.rs:204-237 | in every reachable state a route leads to a live client of the row's user that owns the session or is one step from it; none leads to a client that has cleaned up |
| ClientRelay.HoldersRoutedExactlyWhen | apps/server/src/websocket.rs:204-237 | up to any point of any run every live client is routed at all sessions it owns or has just inserted if and only if no two live clients of a process ever held one session, if and only if no insert took a held session over |
| ClientRelay.TakenOverThenLost | apps/server/src/websocket.rs:720-729 | a second connection that took a session over loses its route when the first one closes |
| StridedCopy.CopyStridedRows | apps/client/src/media.rs:1989-2022 | succeeds if and only if the buffer holds offset + stride * (rows - 1) + row_len bytes, and gathers those rows |
| StridedCopy.CopyStridedNv12 | apps/client/src/media.rs:1964-1987 | succeeds exactly for even dimensions that fit, and returns both planes packed |
| StridedCopy.CopiedByte | apps/client/src/media.rs:1989-2022 | every output byte is the input byte at offset + row * stride + column, rows counted from the bottom for bottom-up images |
| StridedCopy.Nv12UndoesPadding | apps/client/src/media.rs:1964-1987 | padded luma rows followed by padded chroma rows come out as both planes packed, in order or each reversed |
| StridedCopy.BgraUndoesPadding | apps/client/src/media.rs:1948-1962 | padded BGRA rows come out packed |
| StridedCopy.CopyUndoesPadding | apps/client/src/media.rs:1989-2022 | removes any row padding at any offset in a buffer, in order or reversed |
| StridedCopy.FlipTwice | apps/client/src/media.rs:2015-2020 | flipping a bottom-up copy again gives the top-down copy |
| Colour.ReadsInRangeExactlyWhen | apps/client/src/render.rs:103-122 | a buffer of accepted length is read in range if and only if the width is even, there are no rows, or it has a byte to spare |
| Colour.PackedPlanesAreReadable | apps/client/src/render.rs:103-122 | two packed planes of even size have exactly the accepted length and are read in range |
| Colour.Nv12ToRgba | apps/client/src/render.rs:103-125 | fails exactly on short buffers, panics on an index exactly for the checked length at odd width with rows, otherwise returns the picture |
| Colour.PictureAt | apps/client/src/render.rs:114-124 | each pixel sits at its row-order position |
| Colour.PictureByte | apps/client/src/render.rs:103-169 | red, green and blue of each pixel are the nearest levels of the formula on the buffer's own luma and chroma bytes, 0 or 255 beyond the range |
| Colour.BgraToNv12 | apps/agent/src/windows/encode.rs:1783-1821 | rejects exactly invalid frames, otherwise fills both planes |
| Colour.EncodedLuma | apps/agent/src/windows/encode.rs:1791-1799 | each luma byte is the rounded weighted sum of its own pixel's bytes |
| Colour.EncodedChroma | apps/agent/src/windows/encode.rs:1800-1818 | each chroma byte is the rounded mean of the weighted sums of its block's four pixels |
| Colour.ChromaPlaneAt | apps/agent/src/windows/encode.rs:1801-1818 | the pair of block (y, x) is at row y, columns 2x and 2x + 1 |
| Colour.ClampNeverFires | apps/agent/src/windows/encode.rs:1796-1825 | luma in 16 to 235 and chroma in 16 to 240 make the byte clamp idle |
| Colour.DecodedPixel | apps/client/src/render.rs:115-121 | each decoded pixel is made from its own luma and its own block's chroma |
| Colour.UniformStaysUniform | apps/client/src/render.rs:103-169 | a frame of one colour decodes to a picture of one colour |
| Colour.ColourComesBack | apps/client/src/render.rs:157-169 | for each of the 2^24 colours red, green and blue come back in their own places within seven levels of 16 + 0.87 c |
| Colour.GrayStaysGray | apps/client/src/render.rs:157-169 | an all-gray frame decodes to an all-gray picture |
| Colour.GrayLevels | apps/client/src/render.rs:157-169 | the gray map is monotone and leaves a level unchanged if and only if it is 110 to 117 |

## Left out

- H264Pipeline.ViewerReadsExactlyWhen: lists with a unit of 2^24 bytes or more, where a length prefix
  can end in 00 00 01 after a non-zero byte and the viewer may read the right units by chance
  (`LongUnitReadByChance`); `ReadableListIsRead` is the half that holds for every length.
- ClientRelay.SessionsEndWithClient: every row update of a cleanup succeeds in the model; the source
  logs a failed one and goes on, which leaves that row as it was.
- Foreign calls and drivers (NVENC, Media Foundation, VideoToolbox, WASAPI, libopus, process and
  session calls of Windows): what they return comes in as parameters.
- The RTP depacketizer: each packet carries the bytes or the error it yields.
- `WindowsH264DecoderState::decode` above the assembler: it returns queued frames without consuming
  the packet, so the stream results stop at the assembler.
- Floating-point rounding: audio positions are exact integers and fractions, playback samples reals,
  colour coefficients thousandths and millionths.
- Unsigned wrap-around of ids, timestamps and frame counts in 64 bits; strided copies do model it.
- UTF-16: the command line is a sequence of characters; the parser's special characters are ASCII.
- The `u16` and `i16` playback callbacks, the I420 conversion and the packed formats: easy variants of
  what is here.
- Redis session routes, the `machines.online` column, message contents and channel capacity in the
  relay; session rows ended by an agent's cleanup are a step that may come at any time.
- WebSocket and HTTP transport, SQL beyond the session-row updates, tokens, billing, configuration,
  user interface: plumbing.
