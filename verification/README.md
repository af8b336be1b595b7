# gamescope-recorder, modelled in Dafny

gamescope-recorder captures the frames that gamescope composes, encodes them to
H.264 with VA-API and writes the Annex B stream to `output.h264`. This project
models the parts of it that are plain logic, and proves properties of them:

- `frame_buffer.dfy` (`FrameBuffer`): the two-slot latest-value buffer that
  hands captured frames from the capture thread to the encoder, including
  which frame handles each write releases.
- `pacing.dfy` (`Pacing`): the capture/encode/poll/sleep loop of the
  recorder, with its lazily created encoder, fixed cadence and final drain.
  The capturer, the codec and the clock are parameters.
- `bitrate.dfy` (`Bitrate`): `parse_bitrate` of the two sample tools
  (`"6M"`, `"500k"`, `"6000000"`).
- `sample_config.dfy` (`SampleConfig`): the configuration and the frame loop
  of the sample tools: frame counts, required bitrates, rate-control modes,
  the NV12 frame layout, and the per-frame submission and polling of the
  encoder.
- `plane_copy.dfy` (`PlaneCopy`): the stride-aware NV12 upload into a
  VA image and the guarded download out of it.
- `annexb.dfy` (`AnnexB`): the start-code scanner `parse_nal_units` of the
  analysis script, with an encoder that it inverts.
- `stream_analysis.dfy` (`StreamAnalysis`): GOP grouping, per-packet
  bitrate, slice-header classification and the reference-frame summary.
- `trace_headers.dfy` (`TraceHeaders`): the parsers of the text that
  ffmpeg's `trace_headers` bitstream filter prints (SPS, PPS and slice
  headers).
- `test_pattern.dfy` (`TestPattern`): the checkerboard frame and the
  macroblock geometry of the C example.
- `frame_fill.dfy` (`FrameFill`) and `frame_sources.dfy` (`FrameSources`):
  the test-frame fills, the raw NV12 upload and the three frame iterators of
  the Rust example.
- `common.dfy` (`Common`): bytes, `Option`, `Result`, `Flatten`, `Sum` and
  `Pick`, shared by the rest.

Rust's fixed-width integers are unbounded here. Where a product can
overflow a `u32` or `u64`, the model checks the bound explicitly and reports
an error: the behaviour of a debug build.

## Model

| member | source | states |
|---|---|---|
| FrameBuffer.New | src/frame_buffer.rs:73-78 | a new buffer has nothing to read and holds no frame |
| FrameBuffer.Write | src/frame_buffer.rs:81-92 | the written frame becomes the readable one and the read flag flips; the frame that was readable stays in the other slot; the handle released is the one that slot held, so held plus released frames are exactly the frames held before plus the new one |
| FrameBuffer.Drop | src/frame_buffer.rs:60-69 | dropping the buffer releases exactly the frames it holds, at most two |
| FrameBuffer.Read | src/frame_buffer.rs:97-103 | a read returns the frame of the slot the flag selects, which is always one the buffer holds, and nothing when it holds none; `FrameBuffer.LatestWins` and `FrameBuffer.ReadsSeeLatestWrite` state that it is the latest write |
| FrameBuffer.LatestWins | src/frame_buffer.rs:81-103 | after any sequence of writes, a read returns the last frame written and the other slot holds the one before it |
| FrameBuffer.WritesReleaseTwoBehind | src/frame_buffer.rs:30-44 | across a sequence of writes, the handles released are every frame except the last two, in write order |
| FrameBuffer.RetainsLastTwo | src/frame_buffer.rs:81-92 | the buffer holds exactly the last two frames written |
| FrameBuffer.NothingLeaks | src/frame_buffer.rs:60-92 | every frame written is released exactly once, by a later write or by the drop |
| FrameBuffer.ReadsSeeLatestWrite | src/frame_buffer.rs:94-103 | in any interleaving of writes and reads, each read returns the latest write before it, or nothing before the first write, as an independent reference trace says |
| FrameBuffer.RepeatedReadsAgree | src/frame_buffer.rs:96 | two reads with no write between them return the same frame |
| FrameBuffer.ReadStampsMonotone | src/frame_buffer.rs:140-185 | when writes carry non-decreasing timestamps, the timestamps the reads see never decrease and never pass the last write's |
| FrameBuffer.EmptyBeforeFirstWrite | src/frame_buffer.rs:95 | before the first write no read sees a frame |
| Pacing.Submit | src/main.rs:47-59 | steps 1-3 of an iteration: with no frame nothing happens; with one, the encoder is created if none exists and the frame is submitted; `Pacing.SubmitEffect` and `Pacing.SubmitEncoder` state its effect |
| Pacing.SubmitEffect | src/main.rs:47-59 | a submission that succeeds adds the frame, if there is one, to the frames encoded and nothing to the polled chunks or the sleeps, and keeps the life cycle in step with whether an encoder exists |
| Pacing.Pace | src/main.rs:75-80 | the wait: sleep until the deadline only when it has not passed, then move it one period on; `Pacing.PaceEffect` states its effect |
| Pacing.PaceEffect | src/main.rs:75-80 | the wait adds a sleep of `deadline - now` exactly when the deadline has not passed, adds no encoded frame and no chunk, and leaves the life cycle as it was |
| Pacing.Step | src/main.rs:46-80 | one loop iteration: submit, poll the encoder if there is one, wait; `Pacing.StepDeadline` and `Pacing.StepKeepsInvariant` state its contract |
| Pacing.StepKeepsInvariant | src/main.rs:46-80 | an iteration that succeeds keeps the loop invariant: deadline, encoder (sized by the first frame, holding every frame seen, nothing left ready), frames encoded, chunks polled, sleeps and output are those the ticks so far determine |
| Pacing.Loop | src/main.rs:45-81 | the loop over the iterations before the stop request; `Pacing.LoopKeepsInvariant` states what it computes |
| Pacing.LoopKeepsInvariant | src/main.rs:45-81 | after `k` iterations that did not fail, the deadline is `start + (k+1)*period`; an encoder exists exactly when a frame was seen, sized by the first one, with every seen frame submitted in order; the chunks polled are the codec's output for those frames and are all written; the sleeps are the expected ones |
| Pacing.Shutdown | src/main.rs:82-91 | after the loop: drain the encoder if there is one and write what it still holds; `Pacing.ShutdownEffect` states its effect |
| Pacing.ShutdownEffect | src/main.rs:82-91 | a shutdown that succeeds adds no encoded frame and no sleep, appends the drained chunks to the polled chunks and to the output, changes nothing without an encoder, and moves a running life cycle to draining |
| Pacing.Session | src/main.rs:25-94 | a whole run, the loop and then the shutdown; the `Pacing.Session…` lemmas, `Pacing.NoFramesNoOutput`, `Pacing.ReliableCodecCompletes` and `Pacing.OneChunkPerFrame` state its contract |
| Pacing.PollLoop | src/main.rs:62-73 | polling appends every ready chunk to the output in order and logs one poll event per chunk |
| Pacing.PollAll | src/main.rs:62-73 | after polling, the encoder has no ready chunk left, and the output grew by exactly the chunks it had |
| Pacing.Acquire | src/main.rs:47-53 | an encoder is created only when none exists, with the width and height of the frame at hand; creation failure is the only error |
| Pacing.StepDeadline | src/main.rs:75-80 | every iteration moves the next deadline one frame period later |
| Pacing.SessionFollowsLifeCycle | src/main.rs:44-91 | a run that saw a frame ends with an encoder that was created, fed and drained; a run that saw none never creates one |
| Pacing.SessionEncodesEveryObservedFrame | src/main.rs:45-56 | every frame the capturer returned is encoded once, in order, and the encoder has the first frame's size |
| Pacing.SessionKeepsCadence | src/main.rs:42-80 | the loop sleeps until start + (k+1) periods after iteration k, and only when that time has not passed yet |
| Pacing.SessionWritesAllOutput | src/main.rs:61-91 | the file receives every chunk the codec produces for the observed frames, then the drained chunks, each exactly once, in order |
| Pacing.NoFramesNoOutput | src/main.rs:45-91 | a run with no captured frame writes nothing and only sleeps |
| Pacing.ReliableCodecCompletes | src/main.rs:25-94 | with a codec that never fails, the run ends without error |
| Pacing.OneChunkPerFrame | src/main.rs:61-91 | with a codec that returns one chunk per frame, the output is those chunks in frame order |
| Bitrate.Trim | src/scale_sample.rs:86 | trimming leaves no white space at either end |
| Bitrate.TrimPadded | src/scale_sample.rs:86 | trimming removes exactly the white space padding of a trimmed text |
| Bitrate.ParseU64 | src/scale_sample.rs:99-101 | a `u64` parse succeeds exactly on an optional `+` followed by digits whose value fits in 64 bits |
| Bitrate.ParseU64Checked | src/scale_sample.rs:99-101 | the digit loop with an overflow check agrees with the reference parse |
| Bitrate.SplitUnit | src/scale_sample.rs:91-97 | a final `M`/`m` means millions and `K`/`k` thousands, stripped from the number; any other text has scale one and is kept whole |
| Bitrate.ParseBitrate | src/scale_sample.rs:85-104 | blank text is the empty-input error; a result is at most the `u64` maximum; an invalid-number error names text that is not a `u64` |
| Bitrate.ParseRendered | src/encode_sample.rs:23-41 | printing a number with a unit and any padding and parsing it gives the number times the unit, or the error for a number or product out of `u64` range |
| Bitrate.PaddingIgnored | src/encode_sample.rs:24 | surrounding white space does not change the result |
| Bitrate.PlainParses | src/encode_sample.rs:33-37 | plain digits parse to their value |
| Bitrate.UnitScales | src/encode_sample.rs:29-40 | adding a unit letter multiplies the value by its scale |
| Bitrate.UnitAloneRefused | src/encode_sample.rs:29-38 | a unit letter alone is an invalid (empty) number |
| Bitrate.FractionRefused | src/encode_sample.rs:37-38 | `1.5M` is refused, with `1.5` as the invalid number |
| Bitrate.InnerSpaceRefused | src/encode_sample.rs:24-38 | `5 M` is refused, since only the outer white space is trimmed |
| SampleConfig.Nv12Size | src/scale_sample.rs:121 | the frame size is the luma plane plus the half-size chroma plane, and exists exactly when `w*h*3` fits in a `u32` |
| SampleConfig.FrameSizeValue | src/encode_sample.rs:16-21 | a 1280x720 frame is 1382400 bytes: 921600 of luma and 460800 of chroma |
| SampleConfig.TotalFrames | src/scale_sample.rs:147-153 | the frame count fits in the file and does not exceed the requested count; a zero frame size is the division error |
| SampleConfig.TotalFramesLargest | src/encode_sample.rs:83-86 | no larger count that fits in the file and in the request exists |
| SampleConfig.RequiredRates | src/scale_sample.rs:123-142 | NV12 output needs no rates; H.264 output succeeds exactly when both rates are given and parse, reporting a missing bitrate before a missing maxrate |
| SampleConfig.RequiredRatesRendered | src/scale_sample.rs:123-142 | both rates given as padded numbers with units come back as their values |
| SampleConfig.EncodeRateControl | src/encode_sample.rs:101-111 | `cbr`, `vbr` and `cqp` map to constant bitrate, variable bitrate with the maximum, and constant quality 23; any other name is the invalid-mode error |
| SampleConfig.ScaleRateControl | src/scale_sample.rs:171-177 | `Cbr` maps to constant bitrate and `Vbr` to variable bitrate with the maximum |
| SampleConfig.ModesAgree | src/scale_sample.rs:171-177 | the two tools pick the same rate control for the modes they share |
| SampleConfig.OutputLayout | src/scale_sample.rs:213-235 | NV12 output has no layout; H.264 output has plane 0 at 0 and plane 1 at `w*h`, both with stride `w`, whenever `w*h` fits in a `u32` |
| SampleConfig.LayoutDescribesPackedFrame | src/encode_sample.rs:119-134 | the layout describes a packed frame: the chroma plane starts where the last luma row ends, and the frame holds both planes |
| SampleConfig.PackedLayoutRoundTrip | src/encode_sample.rs:119-134 | uploading a frame through this layout and downloading it gives the frame back |
| SampleConfig.EncodeSample | src/encode_sample.rs:83-222 | an invalid mode is an error; otherwise the output is what the encoder produces from the first frames of the file, as many as fit and were requested |
| SampleConfig.EncodeFrames | src/encode_sample.rs:165-214 | the loop submits each frame, polls after each one, drains at the end, and returns every chunk in poll order or the first error |
| SampleConfig.SubmissionsMetadata | src/encode_sample.rs:184-189 | frame k gets timestamp k and the shared layout, and only frame 0 forces a keyframe |
| SampleConfig.FramesCoverPrefix | src/encode_sample.rs:162-174 | the frames submitted are consecutive slices of the input that cover its first `n` frames exactly |
| SampleConfig.EncodeSampleReadsPrefix | src/encode_sample.rs:83-189 | the tool reads exactly the first `n*FRAME_SIZE` bytes of the file, one whole frame per submission |
| PlaneCopy.CopyRows | src/scale_sample.rs:462-468 | the row loop writes each source row at its pitch offset in the destination |
| PlaneCopy.ReadBack | src/scale_sample.rs:462-468 | rows written at a pitch at least as wide as a row read back unchanged |
| PlaneCopy.Upload | src/scale_sample.rs:442-486 | the upload succeeds exactly when the frame holds both planes and the image holds every row at its pitch; the image keeps its size |
| PlaneCopy.UploadAsWritten | src/scale_sample.rs:455-483 | the upload as written succeeds exactly when, in addition, every row fits within the first `w*h` (or `w*h/2`) bytes of its plane; when it succeeds it agrees with the corrected upload |
| PlaneCopy.PaddedRowsPanic | src/scale_sample.rs:456-467 | with two rows or more and a luma pitch wider than the frame, the upload as written fails |
| PlaneCopy.PaddedRowsExample | src/encode_sample.rs:244-254 | a 2x2 frame into a 12-byte image with pitch 4 fails as written but fits the corrected upload |
| PlaneCopy.PackedAsWritten | src/encode_sample.rs:243-269 | with packed rows (pitch equal to the width) both uploads agree |
| PlaneCopy.UploadReadBack | src/scale_sample.rs:455-483 | after an upload, reading the image row by row gives the frame's luma rows and chroma rows |
| PlaneCopy.Download | src/scale_sample.rs:488-531 | the download succeeds exactly when the output holds both planes, and keeps the output's size |
| PlaneCopy.DownloadSkipsMissingRow | src/scale_sample.rs:505-514 | a row whose source lies past the image is skipped and keeps the output's bytes |
| PlaneCopy.DownloadSkipsLastRow | src/scale_sample.rs:505-514 | when the last row's source lies past the image, nothing from that row on changes |
| PlaneCopy.DownloadAfterUpload | src/scale_sample.rs:442-531 | downloading an uploaded frame into a zeroed buffer gives back every byte the row copies cover, and zeros after them |
| PlaneCopy.DownloadAfterUploadEven | src/scale_sample.rs:442-531 | for an even height the download gives back the whole frame |
| AnnexB.NalTypeIsMask | analyze_video.py:445 | the NAL type is the low five bits of the first byte |
| AnnexB.ParseNalUnitsFacts | analyze_video.py:396-455 | every unit is the data between one start code and the next (or the end), with a type below 32, and the units come in stream order without overlap |
| AnnexB.ParseNalUnitsTyped | analyze_video.py:439-451 | every unit is non-empty, its size is its length, and its type comes from its first byte |
| AnnexB.NextStart | analyze_video.py:420-437 | the inner scan: from `q`, the first position where a three- or four-byte start code begins, or the end of the stream once fewer than three bytes remain; it never moves back and never passes the end, and `AnnexB.NextStartScan` states that it skips no start code |
| AnnexB.NextStartScan | analyze_video.py:420-437 | no start code begins between where the inner scan starts and where it stops, and it stops at a start code of either length or at the end of the stream |
| AnnexB.ParseFrom | analyze_video.py:401-453 | the outer loop from position `p`: skip a byte where no start code begins, otherwise take the unit from after the code (four or three bytes) to the next code and go on from there; `AnnexB.ParseFromChain` states that its units are consecutive pieces of the stream after `p`, each right after a start code |
| AnnexB.ParseFromChain | analyze_video.py:401-453 | every unit found from `p` on starts right after a start code at or after `p`, runs to the next start code or the end, and starts past the start code that ends the unit before it |
| AnnexB.ParseNalUnits | analyze_video.py:396-455 | `parse_nal_units`: the outer loop from the first byte; `AnnexB.ParseNalUnitsFacts`, `AnnexB.ParseNalUnitsTyped` and `AnnexB.ParseEncode` state its contract |
| AnnexB.ParseEncode | analyze_video.py:396-455 | joining payloads, each announced by a start code of three or four bytes as the caller chooses (any mix), and parsing gives the payloads back in order, each typed by its first byte, when no payload holds a start code or ends in zero |
| StreamAnalysis.AnalyzeGopStructure | analyze_video.py:35-53 | the groups, concatenated, are the indexed frames in order; each group after the first starts with an I frame and holds no other |
| StreamAnalysis.GopCount | analyze_video.py:35-53 | there is one group per I frame, plus one for leading frames before the first I frame |
| StreamAnalysis.GopsPerIntraFrame | analyze_video.py:35-53 | the same count, in terms of the input frames |
| StreamAnalysis.AnalyzeBitrate | analyze_video.py:55-66 | the sizes are those of the video packets in order, and the total is their sum |
| StreamAnalysis.BitrateKeepsVideo | analyze_video.py:60-64 | each size comes from a video packet, in increasing order, and every video packet contributes one |
| StreamAnalysis.ParseSliceHeader | analyze_video.py:457-492 | a record exists exactly for units of two bytes or more with a type from 1 to 5; type 5 is an I slice with IDR id 0, type 1 is P/B, and types 1, 2 and 5 are reference pictures |
| StreamAnalysis.AnalyzeReferenceFrames | analyze_video.py:494-521 | SPS and PPS are flagged exactly when a unit of type 7 or 8 occurs, and the records are those of the slice units in order |
| StreamAnalysis.SlicesOfStream | analyze_video.py:494-521 | over a parsed stream, each record carries its unit's type and size, and every slice unit of two bytes or more has one |
| TraceHeaders.JoinSplit | analyze_video.py:161 | splitting the trace into lines loses nothing: joining the lines gives it back |
| TraceHeaders.SplitOnce | analyze_video.py:174-175 | a line with a single `=` splits into exactly its two sides |
| TraceHeaders.ParamOf | analyze_video.py:172-183 | a parameter is read only from a line with one `=`, and its key is a non-empty word |
| TraceHeaders.TraceLineAsWritten | analyze_video.py:179-183 | for a line `name bits = value`, the key read is the bit string, not the name |
| TraceHeaders.ProfileLineAsWritten | analyze_video.py:173-183 | the source's own example line `profile_idc 01100100 = 100` is filed under `01100100` |
| TraceHeaders.NamedParamOf | analyze_video.py:172-183 | the corrected reader accepts the same lines with the same value |
| TraceHeaders.TraceLineNamed | analyze_video.py:179-183 | the corrected reader files `name bits = value` under the name |
| TraceHeaders.SectionParameters | analyze_video.py:156-185 | every entry comes from a parameter line inside the section |
| TraceHeaders.SectionReads | analyze_video.py:156-213 | reading a section yields every key its parameter lines mention, with the value of the last such line, and nothing else |
| TraceHeaders.ParseSpsParameters | analyze_video.py:156-185 | `parse_sps_parameters` as written: every entry comes from a parameter line of the SPS section, and the last parameter line for a key gives its value |
| TraceHeaders.ParsePpsParameters | analyze_video.py:187-213 | `parse_pps_parameters` as written: the same for the PPS section |
| TraceHeaders.SectionLastWins | analyze_video.py:187-213 | a parameter line that no later line of the section overrides gives the entry its value |
| TraceHeaders.SectionElementAsWritten | analyze_video.py:164-183 | a syntax-element line of the SPS or PPS section is filed under its bit string |
| TraceHeaders.SectionElementNamed | analyze_video.py:164-183 | with the corrected reader it is filed under its element name |
| TraceHeaders.ParseSliceHeaders | analyze_video.py:215-254 | at most five headers are returned, and they are the first headers of the trace, in order |
| TraceHeaders.ParseSliceHeadersAsWritten | analyze_video.py:215-254 | `parse_slice_headers` as written: at most five headers, the first ones of the trace in order, each read with the line reader as written |
| TraceHeaders.ParseSliceHeadersNamed | analyze_video.py:215-254 | the same scan with the corrected line reader, which files each value under its element name |
| TraceHeaders.ScanIsPrefix | analyze_video.py:223-252 | the scan that stops at five headers returns the first five of the full list |
| TraceHeaders.HeadersNotEmpty | analyze_video.py:225-231 | no header returned is empty |
| TestPattern.GenerateTestFrame | examples/oneframe.c:19-38 | each of the first `w*h` luma bytes gets the checkerboard colour of its row and column and no other luma byte changes; exactly the U,V pairs of the first `h/2` rows become 128 |
| TestPattern.LumaGrid | examples/oneframe.c:22-27 | pixel (i, j) of the filled plane, at `i*w+j`, has the checkerboard colour |
| TestPattern.BlockIsUniform | examples/oneframe.c:24-25 | each 32x32 block has one colour |
| TestPattern.NeighbouringBlocksDiffer | examples/oneframe.c:24-25 | moving one block down or right changes the colour |
| TestPattern.TopLeftIsBlack | examples/oneframe.c:24-25 | the top-left block is black (16) |
| TestPattern.ChromaEndInside | examples/oneframe.c:30-37 | the chroma writes stay inside the first `h/2` rows |
| TestPattern.MbCount | examples/oneframe.c:151-152 | the macroblock count is the least whose 16-pixel blocks cover the dimension |
| TestPattern.MacroblocksCoverPicture | examples/oneframe.c:243-244 | the picture's macroblocks cover all its pixels |
| TestPattern.CodedBufferSize | examples/oneframe.c:123-124 | the coded-data buffer is one luma plane plus one chroma plane |
| TestPattern.PictureGeometry | examples/oneframe.c:151-244 | 1920x1080 is 120 by 68 macroblocks, 8160 in all, with a 3110400-byte buffer |
| FrameFill.RowColIsDivision | examples/oneframe.rs:185 | the row and column of a plane offset are its quotient and remainder by the stride |
| FrameFill.FillNm12 | examples/oneframe.rs:168-198 | the fill succeeds exactly when every write is inside its plane; each luma byte then holds its pixel's luma, and each chroma pair of an even pixel its U and V; every other byte is unchanged |
| FrameFill.LumaPlace | examples/oneframe.rs:185-187 | pixel (col, row) lands at `row*stride0 + col` |
| FrameFill.ChromaPlace | examples/oneframe.rs:189-196 | an even pixel's U and V land at `(row/2)*stride1 + col` and the byte after it |
| FrameFill.FillNv12 | examples/oneframe.rs:200-212 | the buffer is split at the chroma offset and the luma plane starts at the luma offset; bytes before it are unchanged |
| FrameSources.PooledNext | examples/oneframe.rs:300-312 | each frame gets the counter as its timestamp, the shared layout and no forced keyframe, and the counter advances by one |
| FrameSources.PooledTimestamps | examples/oneframe.rs:283-312 | a fresh iterator numbers its frames 0, 1, 2, ... |
| FrameSources.GeneratorNext | examples/oneframe.rs:421-439 | the generator ends exactly when its counter passes the maximum, and otherwise yields the pool's next frame |
| FrameSources.GeneratorYields | examples/oneframe.rs:402-439 | a fresh generator yields `max_count + 1` frames, timestamped 0 to `max_count`, then nothing |
| FrameSources.UploadNv12Img | examples/oneframe.rs:233-272 | the upload succeeds exactly when every sliced row of both planes is in range, and keeps the image's size |
| FrameSources.Nv12ImgIsUpload | examples/oneframe.rs:247-268 | this upload writes the same image as the sample tools' corrected upload |
| FrameSources.Nv12ImgReadBack | examples/oneframe.rs:247-268 | reading the image back row by row gives the frame's luma and chroma rows |
| FrameSources.FrameLen | examples/oneframe.rs:357-359 | the expected raw length is `w*h + w*h/2`, when it fits in a `u32` |
| FrameSources.ProducerNext | examples/oneframe.rs:349-364 | the producer ends exactly when the raw chunks run out; otherwise it succeeds exactly when the chunk has the expected length and uploads, and then yields the pool's next metadata and the uploaded image |
| FrameSources.ProducerFrames | examples/oneframe.rs:325-364 | n well-formed chunks give n frames with the pool's metadata sequence |
| FrameSources.ProducerExhausted | examples/oneframe.rs:350-353 | with no chunk left the producer yields nothing more |

## Left out

- Pacing.Session: errors from `encoder.poll()` (src/main.rs:63, 86) and the panics of `write_all(...).expect` on a failing output file (src/main.rs:69-71, 87-89) are not modelled; polling and writing always succeed here. Encoder creation, encode and drain failures are modelled.
- Pacing.Session: the Ctrl+C handler and the `running` flag become a finite sequence of loop iterations; the capturer becomes the frame (or none) each iteration sees; `Instant` becomes an abstract clock reading per iteration and `Duration::from_secs_f64(1.0 / FPS)` an abstract period, so floating-point rounding of the period is not modelled.
- Pacing.Session: the progress dots and the frame counter (src/main.rs:64-68), and every other console message, are not modelled.
- Bitrate.ParseBitrate: a product `number * suffix` beyond the `u64` range is the `MultiplyOverflow` error, which is what a debug build's overflow panic means; a release build wraps modulo 2^64 instead (src/scale_sample.rs:103, src/encode_sample.rs:40).
- SampleConfig.Nv12Size: an overflow of the `u32` product `w*h*3` gives no frame size, where a debug build panics and a release build wraps.
- SampleConfig.EncodeFrames: the frame bytes go to the codec without the surface upload of src/encode_sample.rs:243-269, so the loop assumes packed rows; the upload on its own, and its failure for padded rows, is `PlaneCopy.UploadAsWritten`.
- SampleConfig.EncodeFrames: a short read at the end of the file (src/encode_sample.rs:167-174) cannot happen, because the frame count never exceeds what the file holds; other read errors, pool exhaustion (src/encode_sample.rs:177-178) and the file writes are not modelled.
- SampleConfig.EncodeSample: the scaling tool's own loop (src/scale_sample.rs:292-397) is covered only through its parts (`TotalFrames`, `RequiredRates`, `ScaleRateControl`, `OutputLayout`, `PlaneCopy.Upload`, `PlaneCopy.Download`); the VA-API scaler is outside this model.
- StreamAnalysis.AnalyzeBitrate: a packet's size is an optional natural number, so the `ValueError` of `int()` on malformed text and negative sizes (analyze_video.py:62) are not modelled.
- StreamAnalysis.ParseSliceHeader: the always-`None` `frame_num` field (analyze_video.py:478) is not part of the record.
- StreamAnalysis.AnalyzeGopStructure: ffprobe's JSON is given as records with an optional picture type and presentation timestamp; running ffprobe and ffmpeg (analyze_video.py:15-33, 121-154) and the printing and comparison reports are not modelled.
- TraceHeaders.SectionParameters: Python dictionaries keep insertion order; the model uses maps, which keep the same keys and values but no order.
- FrameFill.FillNm12: the picture itself is a parameter (`pix`); the floating-point dot animation of `gen_test_frame` and `get_test_frame_t` (examples/oneframe.rs:124-166) and the clamping float-to-byte conversion are not modelled.
- FrameSources.ProducerNext: pool exhaustion (`get_surface().unwrap()`, examples/oneframe.rs:301) and `surface.sync()` are not modelled; the `debug_assert_eq!` on the chunk length is an error here, as in a debug build.
- FrameSources.GeneratorNext: the `u64` counter is unbounded here, so its overflow after 2^64 frames is not modelled; `upload_test_frame_nv12` (examples/oneframe.rs:367-390) is the fill `FrameFill.FillNv12` with the image's own pitches and offsets, and is not modelled separately.
- TestPattern.GenerateTestFrame: the VA-API setup, encoding and file output of the C example's `main` (examples/oneframe.c:40-316) are not modelled; only its geometry constants are.
- FrameBuffer.Write: the atomics and memory orderings, and concurrent reads and writes, are not modelled: each operation is one atomic step, and the `Arc` reference counts become the handles a write or the drop releases.

## Findings

| source | as written | input that shows it | evidently intended | confidence | as-written member | corrected member |
|---|---|---|---|---|---|---|
| src/scale_sample.rs:456-467 (also 471-483, and src/encode_sample.rs:244-269) | the destination plane is cut to `w*h` bytes, but row `r` is written at `r*pitch` inside that cut, so any pitch wider than the frame makes a later row slice past the cut and panic | a 2x2 frame, a 12-byte image with offsets 0 and 8 and pitch 4: row 1 needs bytes 4..6 of a 4-byte slice | write row `r` at `offset + r*pitch` of the whole image, as examples/oneframe.rs:247-268 does | not executed | PlaneCopy.UploadAsWritten, PlaneCopy.PaddedRowsPanic, PlaneCopy.PaddedRowsExample | PlaneCopy.Upload, PlaneCopy.UploadReadBack, PlaneCopy.DownloadAfterUpload |
| analyze_video.py:179-183 (also 208-211 and 242-245) | the key is the last word before `=`, which in a `trace_headers` line is the bit string, so `profile_idc 01100100 = 100` is stored under `01100100` | the line `profile_idc 01100100 = 100` from the source's own comment (analyze_video.py:173) | store the value under the syntax-element name (`profile_idc`), so that the comparison report (analyze_video.py:298-320) lines up the same element of two files even when their bit strings differ | not executed | TraceHeaders.ParamOf, TraceHeaders.TraceLineAsWritten, TraceHeaders.ProfileLineAsWritten, TraceHeaders.SectionElementAsWritten | TraceHeaders.NamedParamOf, TraceHeaders.TraceLineNamed, TraceHeaders.SectionElementNamed |
