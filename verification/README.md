# Verified models of the infra repository's measuring, drawing and controlling code

This project models six independent pieces of the repository in Dafny and proves what each of them is for. One file is
one component; `dafny verify dfyconfig.toml` checks everything.

| files | piece |
|---|---|
| `Powers`, `Division`, `BucketIndex`, `Samples`, `ExponentialHistogram`, `HistogramTheorems`, `CumulativeReport`, `MetricsRecorder` | the exponential histogram of the AMD GPU exporter, its Prometheus report and the generated recorder |
| `Bresenham`, `Polyline` | the dotted-line rasteriser of the dashboard |
| `ClimateRemote`, `KenmoreAC`, `FrigidaireAC` | the two infrared air-conditioner controllers, each against a model of its unit |
| `WagoFrames`, `WagoBuffering`, `WagoLogger` | the resynchronising frame decoder of the Wago UPS logger, on Go's buffered reader |
| `FlukeFraming`, `FlukeProtocol`, `FlukeProgress` | the Fluke 45 meter's framing, its one-request-at-a-time discipline, and that it gets on |
| `DnsReconcile`, `DnsUpdate`, `Durations`, `RaplEnergy` | router record reconciliation, RouterOS durations, and CPU energy counter unwrapping |

**How the models are built.** Code that changes fields in place is a class whose methods are proved against a state
function; code made of expressions is a function. Properties over whole runs are lemmas about those functions, or class
invariants tied to a ghost history (`recorded`, `samples`, `sampled`).

**Exponential histogram.** A class invariant says that the fields are functions of the recorded samples: the scale is the
finest one not above 20 at which everything fits, the offset is the index of the smallest positive value, and every
bucket is the weight at its index. Everything rests on `IndexHalves`: one scale coarser means half the index, rounded
down. The index is exact: at scale s >= 0 it is the i with 2^i < v^(2^s) <= 2^(i+1), as in the section "Exponential
Scale" of the OpenTelemetry metrics data model. Recording asks that the samples fit at some scale, which from 3 buckets on
they always do. `CompressionEndsIff` shows what happens below: with 2 buckets, recording both 1 and a larger value
compresses forever; with 1 the first positive value, with none any value, is more than the array can be extended for.

**Rasteriser.** The four branches of the walk are one closed form, nearest-integer rounding along each axis with halves
going towards the end point.

**Air conditioners.** The unit is a second state machine, and how it reacts is an assumption: the sources contain only the
controllers. While off it reacts to nothing but POWER, POWER switches on with eco off, and its setpoint saturates at both
ends of the range. On the Frigidaire unit the first press of a fan key leaves automatic without changing the speed, and
FAN_AUTO switches automatic on and off; that is what the press counts at frigidaire_ac.cpp:131-152 rely on. The power draws
that were measured on the Kenmore unit are in the comment at kenmore_ac.cpp:13-17; `MeasuredDrawsFit` shows that the
theorem about readings covers them. Four things hold only under a condition, and the exact condition is proved: the
Kenmore record is right after switching on exactly when the unit remembered cool (`SwitchOnTracksIff`); the fan mode of
either controller goes out of step exactly when a new speed is sent to a unit that is off (`FanTracksIff`); a power reading
keeps the record right exactly when it comes too soon after a call to count, or is true of the unit (`ReadingTracksIff`);
and a Kenmore power reading changes the preset without publishing it exactly in the case of `PresetMissedIff`.

**Wago logger.** Frames and fields are decoded as intended; the device id is not always. `deviceID` at main.go:203 is a
slice of the buffer of the `bufio.Reader`, and it is copied at main.go:225, after the frame was read. A frame that is not
buffered yet is fetched by refills, and every refill is written to the start of that buffer. The model has the buffer, its
positions, and the division of the input into deliveries. All other fields are the same for every division
(`FieldsIndependentOfReads`). The id is right, whatever it is, exactly when no refill for the frame is longer than the
header's place in the buffer plus two (`IdRightIff`), in particular when the whole frame was buffered. `WrongId` is a frame
that arrives in two parts and is reported under its last value byte and its checksum.

**Fluke 45.** Every suspension point of `_run`, `ask` and `_ask` ends a step; between two steps anything may run. Waiting
tasks may look again at any time, which allows more interleavings than the condition variable does. The comment at
fluke.py:42-46 names a state INITIALIZING; the code never enters it. `EveryoneCanBeAnswered` says that no reachable state is
a dead end: unless a set-up request has failed, replies from the meter and the steps of the set-up and of the caller
itself suffice to bring any caller of `ask` its answer.

**Router records.** Two exceptions end a pass, and the model raises both: `set.remove` at the second router entry for the
same wanted record, and `sorted` when two or more records are to be added and one has neither a name nor a MAC address
(wildcard records have only a regexp). A resource type without a single wanted record is not handled at all, so its old
entries stay. A pass ends with exactly the wanted records if and only if the router gives all of them back as written.
It does not for a lease whose comment in the zone file is blank: every pass removes that lease and adds it again
(`BlankCommentNeverSettles`).

**Durations.** `DURATION_RE` is modelled as a relation, text to groups, so that the round trip holds for every way the
expression could match. The nanoseconds go through a double; the product is exact for exactly the seconds that
`FitsDouble` describes: all up to 4611686018, from there only the even ones up to 9223372036, and so on.

## Model

| member | source | states |
|---|---|---|
| BucketIndex.IndexExact | amdgpu/src/histogram.rs:23-45 | at scale s >= 0 the index is the one and only bucket of v^(2^s) between powers of two |
| BucketIndex.IndexAtCoarseScale | amdgpu/src/histogram.rs:42-44 | at a negative scale the index is the scale-zero index floor-divided by 2^-s |
| BucketIndex.IndexHalves | amdgpu/src/histogram.rs:73-82 | one scale coarser halves every index, rounding down, across the sign change of the scale |
| BucketIndex.IndexMonotone | amdgpu/src/histogram.rs:23-45 | larger values never have smaller indices |
| BucketIndex.BoundAdmitsIndex | amdgpu/src/histogram.rs:158-168 | a value is at most the reported bound 2^(k/2^s) exactly when its index is below k |
| ExponentialHistograms.MergedBucket | amdgpu/src/histogram.rs:84-92 | the weight at a coarser index is the sum of the weights at its two finer indices |
| ExponentialHistograms.CompressedArray | amdgpu/src/histogram.rs:73-96 | pair sums after the parity shift are the buckets of the next coarser scale, for odd, even and negative offsets |
| ExponentialHistograms.WidenedArray | amdgpu/src/histogram.rs:129-137 | inserting empty buckets moves the window down and keeps every recorded weight in its bucket |
| ExponentialHistograms.SpanShrinks | amdgpu/src/histogram.rs:119-128 | a coarser scale never needs more buckets, and a span of two or more indices shrinks with every compression |
| ExponentialHistograms.BestScaleAppend | amdgpu/src/histogram.rs:104-142 | lowering the scale only as far as one more sample asks leaves the best scale for all samples |
| ExponentialHistograms.CompressionEndsIff | amdgpu/src/histogram.rs:119-128 | some scale has room for the samples exactly when the capacity is at least 3, or 2 without both 1 and a larger value, or 1 with only zeros, which is what recording asks for |
| ExponentialHistograms.ExponentialHistogram.constructor | amdgpu/src/histogram.rs:58-71 | starts at scale 20 with no buckets, no offset and count zero, which is right for no samples, at any capacity |
| ExponentialHistograms.ExponentialHistogram.Compress | amdgpu/src/histogram.rs:73-96 | in place, one scale coarser, the fields still summarise the same samples |
| ExponentialHistograms.ExponentialHistogram.ResizeToFit | amdgpu/src/histogram.rs:104-142 | given that there is room at some scale: ends, stays within the capacity, compresses exactly while the value does not fit, and names the value's bucket |
| ExponentialHistograms.ExponentialHistogram.RecordWeighted | amdgpu/src/histogram.rs:148-157 | keeps every field a function of the recorded samples: best scale, offset, buckets and count |
| ExponentialHistograms.ExponentialHistogram.Record | amdgpu/src/histogram.rs:144-146 | records with weight one |
| HistogramTheorems.OrderIndependence | amdgpu/src/histogram.rs:73-157 | histograms that recorded the same multiset of samples, in any order, have identical fields |
| HistogramTheorems.BucketMeaning | amdgpu/src/histogram.rs:11-17 | bucket j >= 1 is the weight recorded between its real bounds, bucket 0 the zeros; the extremes lie in the first and last |
| HistogramTheorems.FitsUpToBest | amdgpu/src/histogram.rs:104-142 | the scales at which the samples fit are exactly those up to the one the histogram has |
| HistogramTheorems.ScaleFloor | amdgpu/src/histogram.rs:104-142 | values up to 2^b never drive the scale below a floor computed from b and the capacity |
| HistogramTheorems.ScaleByWidth | amdgpu/macros/src/lib.rs:37-41 | with 20 buckets the scale stays at or above 0, -1 and -2 for 16, 32 and 64-bit values |
| CumulativeReport.BucketSumIsCount | amdgpu/src/histogram.rs:148-157 | the buckets add up to the count |
| CumulativeReport.ReportCorrect | amdgpu/src/interface.rs:88-104 | every reported count is the weight of the recorded values within the bound; bounds increase, counts never fall, one entry per bucket and one infinite entry, last, equal to the count |
| CumulativeReport.Report | amdgpu/src/interface.rs:88-113 | one line per reported bucket, in order, each with that bucket's upper bound and the weight recorded within it, then one for everything and the count, for every reachable histogram |
| MetricsRecorder.WeightConservation | amdgpu/macros/src/lib.rs:91-97 | in every slot bucket sum = count = last clock minus first clock |
| MetricsRecorder.HistoryAt | amdgpu/macros/src/lib.rs:91-97 | sample j of slot k is that slot's value in table j + 1, weighted by the clock since table j |
| MetricsRecorder.Recorder.RecordValues | amdgpu/macros/src/lib.rs:41-57 | each value goes into its own histogram, all with the same weight |
| MetricsRecorder.Recorder.Record | amdgpu/macros/src/lib.rs:91-97 | every slot's history is the tables so far, each weighted by the clock since the one before |
| MetricsRecorder.Recorder.RecordsTables | amdgpu/macros/src/lib.rs:37-57 | so it is in the histograms of every reachable recorder, which have 20 buckets |
| MetricsRecorder.Recorder.Conserves | amdgpu/macros/src/lib.rs:91-97 | conservation for every slot of a recorder in any reachable state |
| MetricsRecorder.MetricsReader.Record | amdgpu/src/interface.rs:195-201 | a good read is recorded; a failed one starts an empty recorder, unless the header fails too |
| Bresenham.OffsetNearest | workshop/dashboard/src/dashboard/backend_pil.py:357-385 | no integer is nearer to the ideal minor offset, and a tie goes up |
| Bresenham.ErrorStep | workshop/dashboard/src/dashboard/backend_pil.py:363-370 | the sign of the error accumulator decides exactly whether the nearest offset moves on |
| Bresenham.SegmentEnds | workshop/dashboard/src/dashboard/backend_pil.py:326-385 | the walk starts on the first vertex and after all steps would stand on the second |
| Bresenham.NearestPixel | workshop/dashboard/src/dashboard/backend_pil.py:326-385 | each yielded pixel is at most half a pixel off the ideal segment, no other integer coordinate is closer, and of two as close it is the one further along; these are the only such coordinates |
| Bresenham.LinePoints | workshop/dashboard/src/dashboard/backend_pil.py:326-385 | the four incremental branches yield exactly the nearest pixels, without the end vertex |
| Polyline.SegmentConnected | workshop/dashboard/src/dashboard/backend_pil.py:326-385 | consecutive pixels of a segment are 8-neighbours and distinct |
| Polyline.PathWalks | workshop/dashboard/src/dashboard/backend_pil.py:387-388 | for any vertex list the path is 8-connected across vertices and has the sum of the longer sides as length |
| Polyline.PathPixel | workshop/dashboard/src/dashboard/backend_pil.py:387-388 | between any two neighbouring vertices the path consists of exactly that segment's nearest pixels, step by step |
| Polyline.NoneTwice | workshop/dashboard/src/dashboard/backend_pil.py:387-388 | removing repeated neighbours leaves none, loses no pixel, and changes nothing exactly when there are none |
| Polyline.NothingToDrop | workshop/dashboard/src/dashboard/backend_pil.py:387-388 | removing repeated neighbours changes nothing |
| Polyline.LinesPoints | workshop/dashboard/src/dashboard/backend_pil.py:387-388 | returns that path: segment after segment, each pixel for pixel |
| Polyline.DottedLine | workshop/dashboard/src/dashboard/backend_pil.py:390-398 | at width one sets every second pixel of the whole path, in step across vertices, each the pixel of its segment after its number of steps |
| ClimateRemote.ReplayConcat | workshop/esphome/my_components/climate_ir_power/climate_ir_power.h:72-86 | the unit's reaction to two bursts of presses, and its setpoint bounds, compose |
| ClimateRemote.RaisesSetpoint | workshop/esphome/my_components/kenmore_ac/kenmore_ac.cpp:136-161 | a run of TEMP_UP raises the setpoint step by step and saturates |
| ClimateRemote.LowersSetpoint | workshop/esphome/my_components/kenmore_ac/kenmore_ac.cpp:136-161 | a run of TEMP_DOWN lowers the setpoint step by step and saturates |
| ClimateRemote.SyncReachesTarget | workshop/esphome/my_components/kenmore_ac/kenmore_ac.cpp:133-166 | from any setpoint the presses end exactly at the target; not cooling they never go below, cooling never above, both start and target |
| ClimateRemote.SyncStaysOnItsSide | workshop/esphome/my_components/kenmore_ac/kenmore_ac.cpp:133-166 | with a known setpoint the presses stay on the way to the target; with an unknown one they never go below it and the start while idle, nor above both while cooling |
| ClimateRemote.SwitchedOnRunsToEnd | workshop/esphome/my_components/kenmore_ac/kenmore_ac.cpp:78-85 | a unit that is switched on to cool gets a full run to one end first, whatever setpoint was on record |
| ClimateRemote.CallIsRecorded | workshop/esphome/my_components/kenmore_ac/kenmore_ac.cpp:106-175 | the temperature and fan mode on record are those the call asks for, or those from before; the setpoint is forgotten when cooling ends |
| ClimateRemote.ReadMode | workshop/esphome/my_components/kenmore_ac/kenmore_ac.cpp:55-75 | the wanted mode and preset: eco forces cooling, and a bare mode drops the preset; the Frigidaire source has the same lines |
| ClimateRemote.Transmitter.SyncSetpoint | workshop/esphome/my_components/kenmore_ac/kenmore_ac.cpp:133-166 | sends the steps proved to reach the target; the Frigidaire source has the same lines |
| ClimateRemote.Transmitter.Send | workshop/esphome/my_components/climate_ir_power/climate_ir_power.h:72-86 | a command goes out as often as asked; the count fits its byte |
| KenmoreAC.ModePressesReach | workshop/esphome/my_components/kenmore_ac/kenmore_ac.cpp:76-126 | the toggles lead from every tracked mode and preset to the wanted one and move nothing else |
| KenmoreAC.CallTracks | workshop/esphome/my_components/kenmore_ac/kenmore_ac.cpp:54-180 | after any supported call unit and record agree, the unit does what was asked, a cooling unit is at the temperature of the call or else at the one on record, the fan at the speed of the call, and the setpoint never passed the wrong side |
| KenmoreAC.UnknownSetpointRun | workshop/esphome/my_components/kenmore_ac/kenmore_ac.cpp:133-166 | with the setpoint unknown and the unit idle the presses run all the way up to 86 F and back to the target |
| KenmoreAC.RunTracks | workshop/esphome/my_components/kenmore_ac/kenmore_ac.cpp:6-180 | over every run of supported calls and power readings, of which only the settled ones need be true, the unit matches the record, and so does its fan as long as every fan toggle is heard |
| KenmoreAC.SwitchOnTracksIff | workshop/esphome/my_components/kenmore_ac/kenmore_ac.cpp:78-85 | after switching on the record is right exactly when the unit remembered cool |
| KenmoreAC.FanTracksIff | workshop/esphome/my_components/kenmore_ac/kenmore_ac.cpp:167-175 | the fan record stays right exactly when no fan toggle goes to an off unit |
| KenmoreAC.FanToggleLost | workshop/esphome/my_components/kenmore_ac/kenmore_ac.cpp:167-175 | a fan request to an off unit: the toggle is not heard and the record is wrong from then on |
| KenmoreAC.RepeatedCallIsSilent | workshop/esphome/my_components/kenmore_ac/kenmore_ac.cpp:54-180 | repeating a call sends nothing |
| KenmoreAC.ReadingTracksIff | workshop/esphome/my_components/kenmore_ac/kenmore_ac.cpp:9-47 | mode and preset stay right exactly when the reading is not settled or says what is true of the unit, and the fan mode likewise; an eco unit may run its fan |
| KenmoreAC.ReadingSetsRight | workshop/esphome/my_components/kenmore_ac/kenmore_ac.cpp:9-47 | for any record, right or wrong: the action each range of watts gives, and what a settled reading sets right |
| KenmoreAC.MeasuredDrawsFit | workshop/esphome/my_components/kenmore_ac/kenmore_ac.cpp:13-17 | the measured draws of every state are such readings |
| KenmoreAC.EcoAlwaysCools | workshop/esphome/my_components/kenmore_ac/kenmore_ac.cpp:9-47 | no call and no reading, true or false, ever leaves eco without cool |
| KenmoreAC.PresetMissedIff | workshop/esphome/my_components/kenmore_ac/kenmore_ac.cpp:37-46 | exactly when a reading changes the preset without publishing it |
| KenmoreAC.PresetMissed | workshop/esphome/my_components/kenmore_ac/kenmore_ac.cpp:32-46 | 3 W too soon after a call and then again: the second reading turns the preset to eco and changes nothing that would publish it |
| KenmoreAC.KenmoreACClimate.constructor | workshop/esphome/my_components/climate_ir_power/climate_ir_power.h:21-34 | what the base class's setup leaves: off, without preset and with the setpoint unknown |
| KenmoreAC.KenmoreACClimate.Control | workshop/esphome/my_components/kenmore_ac/kenmore_ac.cpp:54-180 | new record, presses sent and time of last change for every call; the temperature and fan mode of the call are taken over |
| KenmoreAC.KenmoreACClimate.TakeMode | workshop/esphome/my_components/kenmore_ac/kenmore_ac.cpp:55-77 | switches to the wanted mode and preset, and only when they differ |
| KenmoreAC.KenmoreACClimate.SwitchMode | workshop/esphome/my_components/kenmore_ac/kenmore_ac.cpp:78-125 | sends the toggles and forgets the setpoint where cooling stops or starts |
| KenmoreAC.KenmoreACClimate.OnPower | workshop/esphome/my_components/kenmore_ac/kenmore_ac.cpp:9-47 | what one reading does to the record, and when it is published |
| FrigidaireAC.FanStep | workshop/esphome/my_components/frigidaire_ac/frigidaire_ac.cpp:131-155 | the fan presses reach the requested speed from every setting of a unit that is on |
| FrigidaireAC.CallTracks | workshop/esphome/my_components/frigidaire_ac/frigidaire_ac.cpp:38-160 | as for the Kenmore unit: mode, preset, the temperature of the call, and the fan speed while the unit is on |
| FrigidaireAC.UnknownSetpointRun | workshop/esphome/my_components/frigidaire_ac/frigidaire_ac.cpp:97-130 | with the setpoint unknown and the unit idle the presses run all the way up to 90 F and back to the target |
| FrigidaireAC.FanTracksIff | workshop/esphome/my_components/frigidaire_ac/frigidaire_ac.cpp:131-155 | the fan record stays right exactly when no new speed goes to an off unit |
| FrigidaireAC.FanSpeedLost | workshop/esphome/my_components/frigidaire_ac/frigidaire_ac.cpp:131-155 | a fan request to an off unit: no press is heard and the record is wrong from then on |
| FrigidaireAC.ReadingTracksIff | workshop/esphome/my_components/frigidaire_ac/frigidaire_ac.cpp:9-31 | the record stays right exactly when the reading is not settled or possible for the unit, and then only the action changes |
| FrigidaireAC.ReadingSetsRight | workshop/esphome/my_components/frigidaire_ac/frigidaire_ac.cpp:9-31 | for any record, right or wrong: the action each range of watts gives, and what a settled reading sets right |
| FrigidaireAC.RunTracks | workshop/esphome/my_components/frigidaire_ac/frigidaire_ac.cpp:6-160 | over every run of supported calls and readings, of which only the settled ones need be true, mode, preset and setpoint stay in step |
| FrigidaireAC.FrigidaireACClimate.constructor | workshop/esphome/my_components/climate_ir_power/climate_ir_power.h:21-34 | what the base class's setup leaves: off, without preset and with the setpoint unknown |
| FrigidaireAC.FrigidaireACClimate.Control | workshop/esphome/my_components/frigidaire_ac/frigidaire_ac.cpp:38-160 | new record, presses sent and time of last change for every call; the temperature and fan mode of the call are taken over |
| FrigidaireAC.FrigidaireACClimate.TakeMode | workshop/esphome/my_components/frigidaire_ac/frigidaire_ac.cpp:39-61 | switches to the wanted mode and preset, and only when they differ |
| FrigidaireAC.FrigidaireACClimate.SwitchMode | workshop/esphome/my_components/frigidaire_ac/frigidaire_ac.cpp:62-89 | sends POWER where needed and one absolute mode command |
| FrigidaireAC.FrigidaireACClimate.SendFan | workshop/esphome/my_components/frigidaire_ac/frigidaire_ac.cpp:131-152 | sends the presses proved to reach the speed |
| FrigidaireAC.FrigidaireACClimate.OnPower | workshop/esphome/my_components/frigidaire_ac/frigidaire_ac.cpp:9-31 | what one reading does to the record; every change is published |
| WagoFrames.Resynchronises | bedroom-pi/go/cmd/wago-logger/main.go:177-209 | of frames separated by noise without the sync pair exactly these frames are found, in order |
| WagoFrames.CutOffFrameEnds | bedroom-pi/go/cmd/wago-logger/main.go:190-209 | a last frame that is cut off ends the run with an error, or quietly within its header, after all frames before it |
| WagoFrames.OneByteErrorRejected | bedroom-pi/go/cmd/wago-logger/main.go:210-217 | one changed byte outside sync and length bytes makes a correct frame be rejected |
| WagoFrames.OneByteErrorDropsOneFrame | bedroom-pi/go/cmd/wago-logger/main.go:206-217 | in a stream it costs that frame's report and no other |
| WagoFrames.ParsesIff | bedroom-pi/go/cmd/wago-logger/main.go:100-125 | a payload parses exactly when it is a sequence of known tags with whole values |
| WagoFrames.ReportsIff | bedroom-pi/go/cmd/wago-logger/main.go:210-230 | a frame reports exactly when its checksum is right, its type is 3 and its payload parses |
| WagoFrames.LastWriteIsLast | bedroom-pi/go/cmd/wago-logger/main.go:100-120 | the entry that decides a field is the last one with its tag |
| WagoFrames.UpdatedFields | bedroom-pi/go/cmd/wago-logger/main.go:42-58 | for any tag order each field ends as its last write, scaled, or stays |
| WagoFrames.ScaledIsWord | bedroom-pi/go/cmd/wago-logger/main.go:110-115 | a scaled value is the two's complement word, high byte first, divided by 100 or 1000 |
| WagoFrames.FieldByField | bedroom-pi/go/cmd/wago-logger/main.go:42-58 | which of the nine tags is which field, in which unit |
| WagoFrames.WireExample | bedroom-pi/go/cmd/wago-logger/main.go:177-226 | ten bytes as they are on the wire, and the report of 24.00 V they are |
| WagoFrames.StatusFrameReports | bedroom-pi/go/cmd/wago-logger/main.go:218-224 | a well-formed status frame carries its id and yields one report with those fields |
| WagoBuffering.FieldsIndependentOfReads | bedroom-pi/go/cmd/wago-logger/main.go:177-234 | for every division of the input into reads, everything logged but the ids is what the stream's frames say |
| WagoBuffering.IdRightIff | bedroom-pi/go/cmd/wago-logger/main.go:190-225 | the copied id is right for every id exactly when no refill for the frame is longer than the header's place in the buffer plus two; so it is if the frame was buffered |
| WagoBuffering.WrongId | bedroom-pi/go/cmd/wago-logger/main.go:203-225 | a correct frame that arrives as header and rest is reported under its last value byte and checksum instead of 01 02 |
| WagoBuffering.SentIsLogged | bedroom-pi/go/cmd/wago-logger/main.go:177-234 | if no refill of a run reaches an id, the log is what was sent, ids included |
| WagoBuffering.StreamIsLogged | bedroom-pi/go/cmd/wago-logger/main.go:177-234 | frames separated by noise, however they arrive: one report each, in order, with their own fields, and under the same condition their own ids |
| WagoLogger.BufferedReader.Fill | bedroom-pi/go/cmd/wago-logger/main.go:178 | moves the buffered bytes to the start and reads behind them |
| WagoLogger.BufferedReader.Peek | bedroom-pi/go/cmd/wago-logger/main.go:190 | fills until the bytes are buffered and says where they are in the buffer, or fails at end of input |
| WagoLogger.BufferedReader.Read | bedroom-pi/go/cmd/wago-logger/main.go:207 | takes what is buffered, or refills the empty buffer from its start |
| WagoLogger.BufferedReader.ReadFull | bedroom-pi/go/cmd/wago-logger/main.go:206-209 | all bytes asked for, with the refills that it takes, or failure at end of input |
| WagoLogger.Reader.ReadFull | bedroom-pi/go/cmd/wago-logger/main.go:110-119 | all bytes of a value, or failure with the payload consumed |
| WagoLogger.StatusRecord.SetField | bedroom-pi/go/cmd/wago-logger/main.go:108-120 | one tag writes one field |
| WagoLogger.StatusRecord.ParseFields | bedroom-pi/go/cmd/wago-logger/main.go:73-125 | succeeds with the parsed record, or fails on an unknown tag or a cut-off value |
| WagoLogger.Checksum | bedroom-pi/go/cmd/wago-logger/main.go:210-213 | the exclusive-or of the packet |
| WagoLogger.HandlePacket | bedroom-pi/go/cmd/wago-logger/main.go:210-230 | what a whole frame reports, under the id that the reader's buffer holds by then at the header's place |
| WagoLogger.LogData | bedroom-pi/go/cmd/wago-logger/main.go:177-234 | consumes input in every iteration and reports the log of its input, wrong ids and cut-off frames included |
| FlukeFraming.FrameAppend | workshop/lab/fluke.py:71-79 | framing can stop anywhere and go on from the residue |
| FlukeFraming.ChunkIndependence | workshop/lab/fluke.py:71-79 | after any chunks the responses and the buffer are those of the whole stream |
| FlukeFraming.SameStreamSameResponses | workshop/lab/fluke.py:71-79 | two ways of splitting a stream give the same responses |
| FlukeFraming.FramingIsFaithful | workshop/lab/fluke.py:75-81 | nothing is lost, and neither a response nor the residue contains a delimiter |
| FlukeFraming.FramingInverts | workshop/lab/fluke.py:75-81 | the responses a stream was made of are recovered |
| FlukeFraming.ClassifiesReply | workshop/lab/fluke.py:81-96 | a reply line and a prompt line are understood as that reply, or as the prompt's error |
| FlukeFraming.LinesInvert | workshop/lab/fluke.py:81 | splitting recovers the lines a response was made of |
| FlukeFraming.ClassifiesLines | workshop/lab/fluke.py:81-96 | a response of any number of lines is told by its last one; a lone "=" is success without a value |
| FlukeProtocol.StepKeepsInv | workshop/lab/fluke.py:48-130 | every step of every coroutine and every chunk keeps the invariant and no resolved future changes |
| FlukeProtocol.RequestDiscipline | workshop/lab/fluke.py:48-130 | in every interleaving one request at most is outstanding, the next prompt answers it, and no user command precedes the answered set-up |
| FlukeProtocol.ReturnedAnswerIsOwn | workshop/lab/fluke.py:112-124 | what ask returns is the response that followed its own command |
| FlukeProtocol.ResolvedOnce | workshop/lab/fluke.py:84-99 | a resolved future keeps its result for the rest of the run |
| FlukeProtocol.PromptsAreTheStream | workshop/lab/fluke.py:71-99 | however tasks and chunks interleave, the responses seen are those of the stream |
| FlukeProgress.SetUpProceeds | workshop/lab/fluke.py:48-57 | each step of the set-up: what it writes, what it waits for, and when it is ready or failed |
| FlukeProgress.AskerProceeds | workshop/lab/fluke.py:112-124 | a caller goes on exactly when the object is ready, the turn free or its answer there |
| FlukeProgress.EveryoneCanBeAnswered | workshop/lab/fluke.py:48-124 | from every reachable state in which no set-up request has failed, every caller can be brought its answer, in a bounded number of steps |
| FlukeProtocol.Fluke45Protocol.ConnectionMade | workshop/lab/fluke.py:67-69 | starts the set-up |
| FlukeProtocol.Fluke45Protocol.TakeTurn | workshop/lab/fluke.py:117-122 | creates the future and writes |
| FlukeProtocol.Fluke45Protocol.RunSetUp | workshop/lab/fluke.py:48-57 | one uninterrupted part of the set-up task |
| FlukeProtocol.Fluke45Protocol.Ask | workshop/lab/fluke.py:112-114 | one more task waits for the connection |
| FlukeProtocol.Fluke45Protocol.RunAsker | workshop/lab/fluke.py:112-124 | one uninterrupted part of an asking task |
| FlukeProtocol.Fluke45Protocol.DataReceived | workshop/lab/fluke.py:71-99 | handles every complete response in the buffer, in order, and keeps the residue |
| DnsReconcile.CanonicalIff | dns/dns_update.py:132-149 | a record reads back as written exactly when it has its type, and as a lease no dynamic key and no empty value |
| DnsReconcile.ReadsAs | dns/dns_update.py:132-149 | how an entry reads, key by key: default type A, run-time keys and empty values of leases left out |
| DnsReconcile.ArgumentsMean | dns/dns_update.py:251-252 | a record is added with all its keys but the resource type |
| DnsReconcile.SortableIff | dns/dns_update.py:250 | records can be sorted exactly when each has a name or a MAC address, or there is at most one |
| DnsReconcile.RemoveStale | dns/dns_update.py:229-247 | removes exactly the unwanted static entries, or raises KeyError exactly when a wanted record is there twice, with some of them removed |
| DnsReconcile.AddMissing | dns/dns_update.py:249-269 | adds one entry per missing record under new ids and leaves every other entry as it is, or raises TypeError exactly when the records cannot be sorted |
| DnsReconcile.Reconcile | dns/dns_update.py:226-269 | one pass: outcome, number of operations, entries removed and added, all others untouched under their ids, dry run without effect |
| DnsReconcile.ConvergesIff | dns/dns_update.py:226-269 | a completed pass leaves exactly the wanted records if and only if all of them are canonical |
| DnsReconcile.OperationsAreDifference | dns/dns_update.py:226-271 | without duplicates the operations number the symmetric difference |
| DnsReconcile.PassLeavesNoDuplicates | dns/dns_update.py:226-269 | a completed pass leaves no duplicates |
| DnsReconcile.SecondPassIsQuiet | dns/dns_update.py:226-271 | the next pass does zero operations and leaves the table exactly as it is |
| DnsReconcile.NeverSettles | dns/dns_update.py:231-264 | a wanted record that is not canonical, wanted alone, is removed and added again by the next pass |
| DnsReconcile.BlankCommentNeverSettles | dns/dns_update.py:77-107 | so is a lease whose comment is blank |
| DnsReconcile.WildcardsRaise | dns/dns_update.py:250 | two missing wildcard records raise the TypeError |
| DnsReconcile.TwinsRaise | dns/dns_update.py:238 | two equal entries for a wanted record raise the KeyError |
| DnsReconcile.DryRunPredicts | dns/dns_update.py:242-264 | a dry run ends as the real run would, with the same count |
| DnsReconcile.Resource.Get | dns/dns_update.py:232 | lists every entry once |
| DnsReconcile.Resource.Add | dns/dns_update.py:264 | adds under an unused id |
| DnsUpdate.PreparedMeans | dns/dns_update.py:196-207 | forwards to the server itself are dropped; a lease with an address gets its DHCP server or is dropped; all else is kept |
| DnsUpdate.GetRecordsByType | dns/dns_update.py:195-208 | groups exactly the prepared records by their own type; a type appears only with a record |
| DnsUpdate.Update | dns/dns_update.py:226-271 | every handled type gets its pass and the counts add up, or the first exception ends the update with the rest untouched |
| DnsUpdate.UpdateServer | dns/dns_update.py:215-271 | from the hosts to the tables: a completed update leaves a handled type holding exactly what the hosts ask of it, once each, exactly when all of that is canonical; it completes exactly when no type has a cause for an exception, and then without duplicates counts every record there or wanted but not both; a dry run changes nothing; a settled router is left alone |
| Durations.NumberOfDecimal | nix/modules/telegraf/mikrotik/mikrotik_metrics.py:122-133 | reading a decimal number gives back what was printed |
| Durations.ToTtl | dns/dns_update.py:35-48 | prints days, hours, minutes and seconds without zero parts, and never nothing |
| Durations.TokensUnique | nix/modules/telegraf/mikrotik/mikrotik_metrics.py:97-113 | a text of numbers with units can be cut into tokens in one way only |
| Durations.RoundTrip | nix/modules/telegraf/mikrotik/mikrotik_metrics.py:97-141 | the pattern matches what was printed, and every way it can match adds up to the seconds printed, for every TTL |
| Durations.TtlIsNormal | dns/dns_update.py:35-48 | what is printed has no weeks and carries seconds, minutes and hours into the next unit |
| Durations.OneReading | nix/modules/telegraf/mikrotik/mikrotik_metrics.py:97-113 | a text of digits and unit letters can be matched in one way only |
| Durations.PrintedRoundTrip | nix/modules/telegraf/mikrotik/mikrotik_metrics.py:122-134 | any numbers of weeks, days, hours, minutes and seconds add up with their lengths in seconds, however matched |
| Durations.TtlInjective | dns/dns_update.py:35-48 | different TTLs print differently |
| Durations.NanosecondsExact | nix/modules/telegraf/mikrotik/mikrotik_metrics.py:143-145 | the double-precision product is exact up to 4611686018 seconds |
| Durations.RoundedIsNearest | nix/modules/telegraf/mikrotik/mikrotik_metrics.py:143-145 | no number of 53 significant bits is nearer to the product than the one taken |
| Durations.RoundedIsDouble | nix/modules/telegraf/mikrotik/mikrotik_metrics.py:143-145 | which is such a number itself, and halfway between two the even one |
| Durations.NanosecondsExactIff | nix/modules/telegraf/mikrotik/mikrotik_metrics.py:143-145 | for every number of seconds: exact exactly when the last binary place a double keeps of s * 10^9 is at most 2^9, or s is a multiple of that place over 2^9 |
| Durations.NanosecondsInexact | nix/modules/telegraf/mikrotik/mikrotik_metrics.py:143-145 | from 4611686019 to 9223372036 seconds exact for the even ones only |
| Durations.TtlToNanoseconds | nix/modules/telegraf/mikrotik/mikrotik_metrics.py:115-146 | parsing what was printed gives n * 10^9 ns for exactly those TTLs, which include all below 2^32 |
| RaplEnergy.GrowthIsModular | nix/modules/telegraf/intel_rapl/intel_rapl.py:28-36 | one step adds the true growth modulo the range |
| RaplEnergy.GrowthExactIff | nix/modules/telegraf/intel_rapl/intel_rapl.py:31-36 | which is the true growth exactly when that is less than one range |
| RaplEnergy.CumulativeIsEnergyUsed | nix/modules/telegraf/intel_rapl/intel_rapl.py:28-39 | between resets the cumulative value moves by exactly the energy used |
| RaplEnergy.CumulativeFromStart | nix/modules/telegraf/intel_rapl/intel_rapl.py:28-39 | until the 2^63 reset it is the first reading plus the energy used since |
| RaplEnergy.SampleMeans | nix/modules/telegraf/intel_rapl/intel_rapl.py:28-40 | what one sample comes to, key by key, with and without the counter, the range and earlier values |
| RaplEnergy.GapRestarts | nix/modules/telegraf/intel_rapl/intel_rapl.py:28-36 | after a sample without the counter the cumulative value starts again at the next reading |
| RaplEnergy.DevicesIndependent | nix/modules/telegraf/intel_rapl/intel_rapl.py:6-10 | however samples interleave, a device's result depends on its own readings only |
| RaplEnergy.EnergyReader.TakeSample | nix/modules/telegraf/intel_rapl/intel_rapl.py:28-49 | updates the device's entry and returns it |
| RaplEnergy.EnergyReader.Poll | nix/modules/telegraf/intel_rapl/intel_rapl.py:7-49 | every result of every poll is the one its device's history gives |

## Left out

- Floating point in the histogram: the logarithm, the bounds as doubles, the value sum and `ideal_scale_for_value`; the index is exact, so a rounding error of the logarithm at a bucket boundary is not captured.
- 64-bit overflow of counts and a GPU clock that runs backwards: counts are unbounded, a nondecreasing clock is a precondition.
- MetricsRecorder.Recorder.Record: fields and array slots are one flat list of slots; parsing of the binary table and which struct fields are recorded are not modelled.
- ExponentialHistograms.ExponentialHistogram.ResizeToFit: requires room at some scale, which ExponentialHistograms.CompressionEndsIff characterises; without it the source does not return, or panics in the caller.
- MetricsRecorder.MetricsReader.Record: the outcome of reading the header is a parameter. The source reads it wherever the failed read left the file, because the seek at interface.rs:128 is commented out; file positions are not modelled.
- Bresenham.LinePoints: takes integer coordinates; the truncation of fractional ones by `int` is not modelled.
- Polyline.DottedLine: the wide branch, `dashed_line` and `thick_line` are not modelled.
- Celsius and Fahrenheit conversion: targets are whole degrees Fahrenheit within the unit's range; targets that are out of range or not a number, unsupported modes and presets, and an unconfigured transmitter are not modelled.
- KenmoreAC.KenmoreACClimate.constructor: target and fan mode are parameters; what a restored state applies after the base setup (mode and preset among it), the wrap-around of the millisecond clock, infrared encoding and timing, and a physical remote are not modelled.
- WagoLogger.LogData: read errors other than end of input, reads that deliver nothing, the Influx client and logging are not modelled; a report is the id with the status value.
- FlukeProtocol.RequestDiscipline: runs without cancellation and connection loss only. That a caller can be answered is proved (FlukeProgress.EveryoneCanBeAnswered); that it will be is not claimed: clearing the pending future does not notify the condition, so a waiting task may wait forever.
- Fluke range, unit and measurement helpers: simple formatting around `ask`.
- DnsReconcile.AddMissing: the order of the additions is left open, which covers the sorted one; `old_dns`, unknown-parameter skips and API errors are not modelled.
- DnsUpdate.Update: one server; network lookups are a function parameter, and zone-file parsing and credentials are not modelled.
- Durations.RoundTrip: fractions and units below a second are matched but given no value, because `to_ttl` never prints them; `\d` means ASCII digits.
- RaplEnergy.EnergyReader.TakeSample: takes the readings as numbers; listing and reading files, tags and the printed line are not modelled.
- The rest of the repository (SwOS scraper, network clients, fonts and text layout, LED lights, Nix, Ansible and zone files): wrappers, formatting and configuration without state or arithmetic to speak of.
