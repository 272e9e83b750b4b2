# Verification of the speech service's measuring and packing tools

The repository holds a text-to-speech runtime together with the tools that measure it and pack its weights. This
project models the parts of those tools where the state is, and proves what they promise:

* the HTTP receive stack of the load generator: a queue of time-stamped segments (`TimedBuffer.dfy`), the head and
  the three transfer modes on top of it (`HttpHead.dfy`, `HeadMessages.dfy`, `Http.dfy`, `ChunkedMessages.dfy`) up to
  whole printed responses (`ResponseMessages.dfy`), multipart splitting
  (`ContentType.dfy`, `Multipart.dfy`, `MultipartMessages.dfy`), the native stream protocol and the raw PCM handler
  (`NativeStream.dfy`, `Runner.dfy`, `RawPcm.dfy`), what the server's writer sends them
  (`NativeMessages.dfy`, `AudioMessages.dfy`), and from the connections of a whole phase to its written reports
  (`Responses.dfy`, `Runs.dfy`);
* the packet validator of the report generator, written independently of the client, which has to accept what the
  client writes (`PacketValidator.dfy`), and likewise the summary (`Percentiles.dfy`, `PhaseSummary.dfy`,
  `SummaryMeaning.dfy`, `SummaryValidator.dfy`);
* the streaming SHA-256 hasher against FIPS 180-4 (`Fips180.dfy`, `Sha256.dfy`) with the standard's own example
  (`Sha256Example.dfy`);
* the byte-pair tokenizer (`BytePair.dfy`, `Tokenizer.dfy`);
* the incremental decoder reference, the schedules that drive it and channel-major reassembly
  (`CodecReference.dfy`, `CodecSchedules.dfy`, `ChannelMajor.dfy`);
* the weight contract, the tensor index, staging in chunks and bfloat16 conversion (`WeightContract.dfy`,
  `Inventories.dfy`, `TensorIndex.dfy`, `TensorStaging.dfy`, `Bf16.dfy`);
* WAV files (`Wav.dfy`, `WavFiles.dfy`) and the scenario loop of the latency benchmark, as a function of a script of
  runtime answers and as it runs (`ActiveRequests.dfy`, `ScenarioScript.dfy`, `Scenarios.dfy`).

`Bytes.dfy`, `Text.dfy`, `Utf8.dfy`, `LittleEndian.dfy`, `Sorting.dfy` and `Totals.dfy` hold what these share.

The socket is a sequence of non-empty reads with arrival times. Flat specifications are functions of the bytes; where
the code depends on where a read ends, the set of read ends, the cuts, is an argument. The loops, buffers and state
objects of the tools are methods and classes proved against these functions. Machine arithmetic wraps where the
release build wraps: no workspace profile turns overflow checks on.

## What turned out to be conditional

Several properties hold only under a condition, which is proved to be exact:

* a framing line of exactly the maximal length is accepted or refused depending on whether a read ends inside its line
  break, a head beyond its limit depending on where reads end, and a part header block near its limit depending on
  where body segments end (`Http.HttpBody.ReadRawLine`, `HttpHead.CutsMatterIffHeadIsLong`,
  `Multipart.MultipartReader.ReadUntil`);
* bytes after a chunked message are noticed if and only if no read ends with the message
  (`ChunkedMessages.TrailingBytesNoticedIff`);
* the search with its one-byte restart is right exactly for restart-safe needles (`TimedBuffers.SearchIsLeftmostIff`);
* an unquoted boundary is found unless it begins with a space (`ContentType.PlainBoundaryIsFoundIff`);
* the validator accepts a complete native stream exactly if the codec frames that its parts before the last announce
  fit the client's 64-bit counter, and never a buffered native response (`Runner.ParseNativeMultipart`,
  `Runner.CodecCounterCanWrap`, `Runs.MeasuredPhase`);
* a merges file is read back whole exactly if no left symbol begins with a hash sign
  (`BytePair.MergeFileRoundTrip`);
* reported samples are 1920 per reported frame exactly if that product fits 64 bits and the wraps of the 32-bit frame
  check cancel out (`Scenarios.ReportedSamples`, `ActiveRequests.FrameCheckCanWrap`);
* chunks are element-aligned in the arena exactly where the tensor's offset is, which holds for one element type and
  not for two (`TensorStaging.StagedAligned`, `TensorStaging.MixedArenaMisaligned`); no contract of the repository is
  mixed, since its two inventories hold 404 BF16 and 496 F32 tensors;
* a summary is accepted exactly if the measured phase took any time (`SummaryValidator.SummaryAgreement`).

For a canonical merge table, one in which each symbol is built before it is used, the merge loop is one pass per merge
in file order (`BytePair.EncodeIsFilePasses`); for other tables the two can differ
(`BytePair.OrderMattersWithoutCanonicity`).

The benchmark's own test calls its percentile a nearest rank; the code takes the value at the position `(n - 1) * q`
rounded up, and the model follows the code.

## Model

| member | source | states |
|---|---|---|
| `TimedBuffers.TimedBuffer.Push` | native/qwen3-tts-http-bench/src/http.rs:33-42 | An arrival is appended behind the flat contents; an empty one changes nothing |
| `TimedBuffers.TimedBuffer.Find` | native/qwen3-tts-http-bench/src/http.rs:54-74 | The search over segments returns what the same scan over the flat bytes returns; for a restart-safe needle that is the leftmost occurrence |
| `TimedBuffers.TimedBuffer.DrainBytes` | native/qwen3-tts-http-bench/src/http.rs:76-99 | Removes exactly the first bytes of the flat contents, across any segments, or refuses and changes nothing |
| `TimedBuffers.TimedBuffer.PopSegment` | native/qwen3-tts-http-bench/src/http.rs:101-112 | The front segment comes out with its own arrival time, or its first bytes if it is longer than asked for; the rest stays |
| `TimedBuffers.SearchIsLeftmostIff` | native/qwen3-tts-http-bench/src/http.rs:54-74 | The one-byte restart finds the leftmost occurrence in every text if and only if the needle is restart-safe |
| `TimedBuffers.DefeatedSearch` | native/qwen3-tts-http-bench/src/http.rs:54-74 | For any other needle there is a text on which the search misses the leftmost occurrence |
| `TimedBuffers.DelimitersAreRestartSafe` | native/qwen3-tts-http-bench/src/http.rs:54-74 | CRLF and CRLFCRLF are restart-safe |
| `Http.HttpBody.ReadMore` | native/qwen3-tts-http-bench/src/http.rs:311-318 | One socket read moves to the buffer with its time; the end of the stream is remembered |
| `Http.HttpBody.ReadRawExact` | native/qwen3-tts-http-bench/src/http.rs:320-330 | Exactly the next bytes of the flat input, or the error of a connection that ended early |
| `Http.HttpBody.ReadRawLine` | native/qwen3-tts-http-bench/src/http.rs:332-356 | The line up to the first CRLF of the flat input; at exactly the limit the outcome is decided by whether a read ended inside the line break |
| `Http.HttpBody.NextContentLength` | native/qwen3-tts-http-bench/src/http.rs:202-228 | Each delivered segment continues the flat decode of a body of declared length; bytes behind the end are refused when they are buffered |
| `Http.HttpBody.NextCloseDelimited` | native/qwen3-tts-http-bench/src/http.rs:230-241 | Each delivered segment continues the flat decode of a body that ends with the connection |
| `Http.HttpBody.NextChunked` | native/qwen3-tts-http-bench/src/http.rs:243-309 | Each framing step and each delivered segment of the chunked machine agrees with the flat chunked decode |
| `Http.HttpBody.NextSegment` | native/qwen3-tts-http-bench/src/http.rs:193-200 | The delivered segment is a timed prefix of the rest of the flat decode, it ends at the first of the ends that the cuts and the chunks prescribe, and what remains is the rest; the end and every error are those of the flat decode |
| `Http.HttpBody.ReadToEnd` | native/qwen3-tts-http-bench/src/http.rs:193-200 | Reading to the end delivers the whole flat decode, for every segmentation |
| `HttpHead.CollectHeaders` | native/qwen3-tts-http-bench/src/http.rs:373-416 | The header loop computes the map of the head, or the first error in line order; what the map holds is said by HeadersByName |
| `HttpHead.ReadHeadText` | native/qwen3-tts-http-bench/src/http.rs:373-416 | Status line and headers of a head text, or the error of the first line that is wrong; heads as servers write them are read back by HeadRoundTrip |
| `HttpHead.HeadersByName` | native/qwen3-tts-http-bench/src/http.rs:385-416 | A header holds the values of all lines with its name, in order and separated by commas, and is there exactly if there is such a line |
| `HttpHead.HeadersReadIff` | native/qwen3-tts-http-bench/src/http.rs:385-416 | The headers are read if and only if every line is a header line, and the error is that of the first line that is not |
| `HeadMessages.HeaderLineIff` | native/qwen3-tts-http-bench/src/http.rs:385-437 | A header line is one whose name, in front of the first colon, is not empty and of token characters (section 5.6.2 of RFC 9110); the name is lowered and the value trimmed |
| `HeadMessages.NoColonNoHeader` | native/qwen3-tts-http-bench/src/http.rs:398-400 | A line without a colon is refused as malformed |
| `Utf8.LettersFold` | native/qwen3-tts-http-bench/src/http.rs:401-416 | Lowering a byte changes the letters A to Z to a to z and nothing else |
| `Utf8.Utf8Iff` | native/qwen3-tts-http-bench/src/http.rs:373-377 | Bytes are valid UTF-8 if and only if they are the encoding of Unicode scalar values |
| `Utf8.TrimKeeps` | native/qwen3-tts-http-bench/src/http.rs:406-412 | Trimming takes white space of Unicode off both ends, nothing else, and leaves none there |
| `HeadMessages.HeadRoundTrip` | native/qwen3-tts-http-bench/src/http.rs:373-416 | A head that is written with any status, reason and fields, repeated names included, is read back: the status, and for every name the joined values |
| `HeadMessages.StatusLineIff` | native/qwen3-tts-http-bench/src/http.rs:378-391 | A status line is read if and only if its words begin with HTTP/1.0 or HTTP/1.1 and a decimal status below 65536 |
| `HttpHead.ReadHead` | native/qwen3-tts-http-bench/src/http.rs:155-186 | From a fresh connection: the head of the flat input, its transfer mode, and a body reader that stands right behind it with the same cuts |
| `ResponseMessages.LengthResponse` | native/qwen3-tts-http-bench/src/http.rs:155-186 | A printed response with any good fields and the decimal length of its body in a Content-Length field is read, in reads of any size, as exactly that body, whole |
| `ResponseMessages.LengthAcceptedIff` | native/qwen3-tts-http-bench/src/http.rs:458-466 | A response with one Content-Length field is accepted if and only if its value is a decimal number below 2^64, leading zeros and a plus sign allowed; otherwise the error names the field |
| `ResponseMessages.ChunkedResponse` | native/qwen3-tts-http-bench/src/http.rs:155-186 | With the field Transfer-Encoding: chunked instead, it is read as the data of its chunks |
| `ResponseMessages.CodingAcceptedIff` | native/qwen3-tts-http-bench/src/http.rs:447-456 | Of the transfer codings, written in any case, only chunked is accepted |
| `ResponseMessages.OpenResponse` | native/qwen3-tts-http-bench/src/http.rs:155-186 | With neither field, everything behind the head is the body |
| `ResponseMessages.BothRefused` | native/qwen3-tts-http-bench/src/http.rs:439-446 | With both fields a response is refused as ambiguous, whatever their values |
| `HttpHead.CutsMatterIffHeadIsLong` | native/qwen3-tts-http-bench/src/http.rs:155-175 | All connections that carry the same bytes have the same outcome if and only if the head with its blank line fits the limit; otherwise one read and two reads differ |
| `ChunkedMessages.CutsMatterOnlyWhereSensitive` | native/qwen3-tts-http-bench/src/http.rs:243-356 | Two segmentations of the same bytes that agree at the few sensitive places decode alike; the places are named |
| `ChunkedMessages.SegmentationIndependent` | native/qwen3-tts-http-bench/src/http.rs:243-356 | With framing lines below the limits and nothing behind the message, the decode does not depend on the segmentation |
| `ChunkedMessages.EncodedMessageDecodes` | native/qwen3-tts-http-bench/src/http.rs:243-309 | Any encoded message (chunks, extensions, last chunk, trailers) followed by anything decodes to its chunk data; the end depends only on the cut behind it |
| `ChunkedMessages.ChunkedRoundTrip` | native/qwen3-tts-http-bench/src/http.rs:243-309 | Decoding an encoded message gives the concatenated chunks and completes, for every segmentation (section 7.1 of RFC 9112), sizes printed in hexadecimal and parsed back |
| `ChunkedMessages.TrailingBytesNoticedIff` | native/qwen3-tts-http-bench/src/http.rs:202-309 | Bytes after a chunked message are noticed if and only if no read ends with the message |
| `ChunkedMessages.LineTooLongIff` | native/qwen3-tts-http-bench/src/http.rs:332-356 | A chunk size line is too long from 8192 bytes on, a trailer line from 65536 on, at that length only where a read ends inside the line break |
| `Text.PrintParse` | native/qwen3-tts-http-bench/src/http.rs:248-253 | Printing a number in any radix up to 16 and parsing it gives the number back |
| `Text.DecimalParses` | native/qwen3-tts-http-bench/src/http.rs:462-465 | Every decimal writing of a number below the limit, with leading zeros or a plus sign, parses to it |
| `Text.ParsedIsDecimal` | native/qwen3-tts-http-bench/src/http.rs:462-465 | Whatever parses is such a writing of the number it parses to |
| `Utf8.DigitIff` | native/qwen3-tts-http-bench/src/http.rs:248-253 | The hexadecimal digits of either case have the values that their order gives them |
| `Multipart.ParsePartHeaders` | native/qwen3-tts-http-bench/src/multipart.rs:318-339 | The header loop gives the map of a part header block and refuses malformed, folded, repeated and non-UTF-8 headers |
| `MultipartMessages.PartHeaderLineIff` | native/qwen3-tts-http-bench/src/multipart.rs:324-337 | A part header line is one with a colon that begins with neither a space nor a tab |
| `MultipartMessages.LengthDeclaredIff` | native/qwen3-tts-http-bench/src/multipart.rs:86-99 | A part may declare any length up to 512 MiB |
| `Multipart.MultipartReader.ReadUntil` | native/qwen3-tts-http-bench/src/multipart.rs:163-185 | The bytes in front of the leftmost delimiter of the flat input, exactly if they fit: they do not exceed the limit, and no body segment ends where more than the limit but not the whole delimiter is buffered; otherwise the block is too long, and without a delimiter the error is determined as well |
| `Multipart.LongFitsNotAlways` | native/qwen3-tts-http-bench/src/multipart.rs:163-185 | A block whose delimiter ends more than one byte behind the limit is refused for some segmentation |
| `Multipart.MultipartReader.ReadExact` | native/qwen3-tts-http-bench/src/multipart.rs:147-157 | Exactly the next bytes of the flat input |
| `Multipart.MultipartReader.FinishAfterClosingBoundary` | native/qwen3-tts-http-bench/src/multipart.rs:121-135 | The final boundary is accepted exactly when nothing follows it and the body completes |
| `Multipart.MultipartReader.NextPart` | native/qwen3-tts-http-bench/src/multipart.rs:52-119 | A part is read if and only if the flat parse has one, its header block fits the segments, and a final boundary ends the body; then it is the part of the flat parse, with the time of the read that carried its first payload byte |
| `MultipartMessages.ReadAllParts` | native/qwen3-tts-http-bench/src/multipart.rs:52-119 | Reading all parts succeeds if and only if the flat parse exists, its header blocks fit the segments and the body completes, and gives the parts of that parse |
| `MultipartMessages.MultipartRoundTrip` | native/qwen3-tts-http-bench/src/multipart.rs:52-185 | Any list of parts, payloads with boundary-like bytes included, encoded with any legal boundary (section 5.1 of RFC 2046) parses back exactly, in order, at the right places |
| `MultipartMessages.ReadMultipartBody` | native/qwen3-tts-http-bench/src/multipart.rs:52-185 | Through both buffers and for every segmentation the encoded parts come back exactly and in order, each stamped with the arrival of its first payload byte |
| `ContentType.SplitParameters` | native/qwen3-tts-http-bench/src/multipart.rs:219-253 | Splits at exactly the semicolons outside quotes and escapes, trims the fields, and refuses exactly the values that end inside quotes |
| `ContentType.JoinUnique` | native/qwen3-tts-http-bench/src/multipart.rs:219-253 | There is only one list of closed fields that joins to a value, so splitting inverts joining |
| `ContentType.UnquoteParameter` | native/qwen3-tts-http-bench/src/multipart.rs:255-282 | Takes quotes and escapes off, or refuses a dangling quote or escape |
| `ContentType.QuoteRoundTrip` | native/qwen3-tts-http-bench/src/multipart.rs:255-282 | Every text, quoted and escaped, comes back when it is unquoted |
| `ContentType.BoundaryFromContentType` | native/qwen3-tts-http-bench/src/multipart.rs:188-217 | A boundary is returned if and only if the value is one closed list of fields that announces exactly that legal boundary once |
| `MultipartMessages.LegalBoundaryIff` | native/qwen3-tts-http-bench/src/multipart.rs:284-316 | A boundary is legal if and only if it has 1 to 70 of the characters of section 5.1.1 of RFC 2046 and does not end in a space |
| `ContentType.QuotedBoundaryIsFound` | native/qwen3-tts-http-bench/src/multipart.rs:188-316 | A quoted boundary parameter is found, whatever legal boundary it is |
| `ContentType.PlainBoundaryIsFoundIff` | native/qwen3-tts-http-bench/src/multipart.rs:188-316 | An unquoted boundary parameter is found if and only if it does not begin with a space, which trimming removes |
| `NativeStream.NativeStreamState.HandleJsonEvent` | native/qwen3-tts-http-bench/src/runner.rs:453-481 | An event is accepted exactly when the protocol allows it here: a start first, an end only after packets and with the true totals; otherwise nothing changes |
| `NativeStream.NativeStreamState.HandleAudioPart` | native/qwen3-tts-http-bench/src/runner.rs:483-546 | An audio part is accepted exactly when it continues every running count; then it adds one record, which takes header fields, length and digest over from the part and continues the totals, and advances the protocol; otherwise nothing changes |
| `NativeStream.NativeStreamState.ValidateComplete` | native/qwen3-tts-http-bench/src/runner.rs:548-556 | A complete stream is one start, at least one packet of which only the last is final, and one end with the true packet and sample totals |
| `Runner.HandlePart` | native/qwen3-tts-http-bench/src/runner.rs:373-388 | A part is dispatched by its media type and has exactly the effect of an event or of audio; which printed types are which is said by AudioPartIff and JsonPartIsEvent |
| `NativeMessages.AudioPartIff` | native/qwen3-tts-http-bench/src/runner.rs:844-859 | A part of the printed type audio/pcm with any rate, any number of channels and format s16le is audio if and only if the rate is 24000 and there is one channel, and is refused otherwise |
| `NativeMessages.JsonPartIsEvent` | native/qwen3-tts-http-bench/src/runner.rs:377-388 | A part of type application/json is an event |
| `NativeMessages.StartAcceptedIff` | native/qwen3-tts-http-bench/src/runner.rs:829-842 | A first event is accepted if and only if it is a start for this request with pcm_s16le at 24000 Hz, one channel and 1920 samples per codec frame |
| `NativeMessages.EndAcceptedIff` | native/qwen3-tts-http-bench/src/runner.rs:880-892 | Behind the packets of a stream an event is accepted if and only if it is an end for this request with a finish reason and their number and samples |
| `Runner.ParseNativeMultipart` | native/qwen3-tts-http-bench/src/runner.rs:357-416 | A response succeeds if and only if its framing holds and fits the segments and its parts take the protocol to a complete state; then the outcome holds one record for each audio part, with its fields, digest, arrival and running totals, and the validator accepts it if and only if the codec frames that the parts before the last announce are fewer than 2^64 |
| `NativeMessages.WrittenIsEncoded` | native/qwen3-tts-server/src/multipart.rs:95-123 | What the server writes part by part is the encoding of section 5.1 of RFC 2046 |
| `NativeMessages.StreamTypeAnnounces` | native/qwen3-tts-http-bench/src/multipart.rs:188-217 | The content type of a stream announces its boundary, quoted or not |
| `NativeMessages.StreamIsFinished` | native/qwen3-tts-http-bench/src/runner.rs:357-416 | A start event, any packets that continue one another of which only the last is final, and an end event with their totals, written by the server with any legal boundary, take the client to the end of the protocol, packet by packet |
| `NativeMessages.StreamResponse` | native/qwen3-tts-http-bench/src/runner.rs:258-295 | The whole response around such a stream, printed head and any chunks included and in reads of any size, reads as that stream |
| `NativeMessages.StreamIsRecorded` | native/qwen3-tts-http-bench/src/runner.rs:391-416 | The outcome then tells as many packets, samples and bytes as were sent, their digests and arrivals, the first arrival as time to first audio, and is accepted if and only if the codec frames in front of the last packet stay below 2^64 |
| `Runner.NativeGroupAcceptedIff` | native/qwen3-tts-http-bench/src/runner.rs:483-546 | The records of a complete native stream pass every packet check of the independent validator if and only if the codec frames before the last packet stay below 2^64 |
| `Runner.CodecCounterCanWrap` | native/qwen3-tts-http-bench/src/runner.rs:501-541 | Three one-sample parts whose printed headers announce 2^63, 2^63 and 1 codec frames, and an end event: the client accepts all of them one after another, the validator does not |
| `Runner.HeaderRoundTrip` | native/qwen3-tts-http-bench/src/runner.rs:501-506 | The header fields of an audio part, printed by a server, are read back |
| `Runner.DecodeKeepsOrder` | native/qwen3-tts-http-bench/src/http.rs:193-309 | Decoding keeps arrival times in order |
| `RawPcm.CollectChunks` | native/qwen3-tts-http-bench/src/runner.rs:627-639 | Arrivals delivered in pieces by one read are joined; flattened, they are the body |
| `RawPcm.RecordChunks` | native/qwen3-tts-http-bench/src/runner.rs:648-680 | Each arrival becomes one record with running byte offset; sample fields are present exactly when offset and length are even |
| `RawPcm.ParseSglangRaw` | native/qwen3-tts-http-bench/src/runner.rs:609-700 | A raw response succeeds if and only if its head announces raw PCM at a rate in range and its body is whole, even, positive and reportable; its records describe the payload, cut where the arrival time changes, and pass the validator |
| `RawPcm.CoalescedUnique` | native/qwen3-tts-http-bench/src/runner.rs:627-639 | There is only one way to cut a payload where its arrival time changes |
| `AudioMessages.RawByHeaderIff` | native/qwen3-tts-http-bench/src/runner.rs:908-926 | Of the printed rates in the header x-sample-rate exactly 1 to 768000 announce raw PCM at that rate, for both media types |
| `AudioMessages.RawByParameterIff` | native/qwen3-tts-http-bench/src/runner.rs:908-935 | And likewise as a parameter of the content type |
| `AudioMessages.RawResponseIff` | native/qwen3-tts-http-bench/src/runner.rs:609-700 | A printed raw response reads as audio if and only if its body is an even number of bytes, at least one sample and fewer than 2^32; then as that many samples at that rate |
| `AudioMessages.WavResponse` | native/qwen3-tts-http-bench/src/runner.rs:559-607 | A printed buffered response with any recording at 24 kHz reads as its samples from offset 44 on and the finish reason its header names |
| `PacketValidator.ValidateGroup` | reports/generate_report.py:2144-2247 | The validating loop with running offsets accepts exactly the groups whose every record is in place and whose totals match the request |
| `PacketValidator.ValidateRun` | reports/generate_report.py:2144-2247 | The validator over all packets, with its grouping table, accepts exactly the runs whose packets are all sound and all belong to a request, and whose groups are all in place |
| `PacketValidator.CloseIff` | reports/generate_report.py:2194-2212 | Times agree if and only if they differ by at most a millionth of a millisecond or a thousand-millionth of the greater |
| `PacketValidator.RunAcceptedIff` | reports/generate_report.py:2144-2247 | Over a whole run, grouping by request index and sorting by sequence recovers each request's own records, so the run is accepted if and only if every request is |
| `Responses.DecodeSameCuts` | native/qwen3-tts-http-bench/src/http.rs:193-309 | What a body decodes to, and where its segments end, depends only on the read ends behind the head |
| `Responses.CollectFile` | native/qwen3-tts-http-bench/src/runner.rs:566-572 | The bytes of a buffered response and the stretches in which they arrived, which tile it and carry its times |
| `Responses.FindArrival` | native/qwen3-tts-http-bench/src/runner.rs:573-577 | The arrival that covers an offset is found, and has the time of that byte |
| `Responses.ParseNativeWav` | native/qwen3-tts-http-bench/src/runner.rs:559-607 | A buffered response succeeds if and only if its body is whole and a playable recording and its head names a finish reason; its record has the sample count, the reason, and as time to first audio the arrival of the first sample, and no packets |
| `Responses.ParseNative` | native/qwen3-tts-http-bench/src/runner.rs:329-355 | A native response succeeds if and only if it names a request id and, streamed, its parts between the one announced boundary take the protocol to its end, or, buffered, it is a recording; the outcome tells what it reads as |
| `Responses.ExecuteConnected` | native/qwen3-tts-http-bench/src/runner.rs:258-295 | From the reads of a connection alone: the request fails if and only if they do not answer with audio; otherwise the outcome is exactly what the answer reads as, packet by packet, and the validator accepts it if and only if the answer is raw audio or a stream whose announced codec frames can be counted |
| `Responses.VerifiableOnce` | reports/generate_report.py:2144-2247 | Whether an answer is verifiable does not depend on how it is read |
| `Runs.ConnectAll` | native/qwen3-tts-http-bench/src/runner.rs:146-178 | Every attempt of the batch is either refused, with a failed record, or connected, and none is both |
| `Runs.RunBatch` | native/qwen3-tts-http-bench/src/runner.rs:146-239 | Every attempt of a batch leaves exactly one outcome, whatever happens to its connection and its task |
| `Runs.RunPhase` | native/qwen3-tts-http-bench/src/runner.rs:134-144 | Over all batches of any width every attempt leaves exactly one outcome |
| `Runs.ReportsInOrder` | native/qwen3-tts-http-bench/src/report.rs:223-228 | In whatever order outcomes come in, the sorted request report and the sorted packet report are those of the requests in order |
| `Runs.WriteReports` | native/qwen3-tts-http-bench/src/report.rs:217-242 | The two reports are the sorted records and the sorted packets of all outcomes |
| `Runs.MeasuredPhase` | native/qwen3-tts-http-bench/src/runner.rs:43-83 | From the reads of all connections of a phase to its reports: one record for each request in order, telling with its packets what its connection answered; the validator accepts the packets of every raw PCM run, and of a native run if and only if each answer is a stream whose announced codec frames before the last packet fit 64 bits; it accepts the summary if and only if time has passed; the summary counts, adds up and distributes what the requests of the phase report |
| `Sha256Hasher.WordFunctionsMatch` | native/qwen3-tts-native/src/sha256.rs:100-144 | The hasher's bit operations are the functions of section 4.1.2 of FIPS 180-4 |
| `Sha256Hasher.Sha256State.Compress` | native/qwen3-tts-native/src/sha256.rs:100-144 | One block advances the chaining value as section 6.2.2 of FIPS 180-4 prescribes |
| `Sha256Hasher.Sha256State.Update` | native/qwen3-tts-native/src/sha256.rs:43-70 | After any update the object holds the state of the standard for the concatenation so far, in all three regimes of the block |
| `Sha256Hasher.Sha256State.Finalize` | native/qwen3-tts-native/src/sha256.rs:72-98 | The digest is the FIPS 180-4 hash of everything fed in, with one padding block or two |
| `Fips180.Be64Value` | native/qwen3-tts-native/src/sha256.rs:89-89 | The eight bytes of the message length are those of the number, the most significant one first |
| `Sha256Hasher.DigestOf` | native/qwen3-tts-native/src/sha256.rs:147-151 | The one-shot digest is the FIPS 180-4 hash |
| `Sha256Hasher.DigestReader` | native/qwen3-tts-native/src/sha256.rs:153-175 | Any reader and any positive buffer give the hash and the length of all bytes before the first empty read |
| `Sha256Hasher.HexCharacters` | native/qwen3-tts-native/src/sha256.rs:177-183 | A printed digest names the high and the low half of each byte by its hexadecimal character |
| `Sha256Example.DigestOfAbc` | native/qwen3-tts-native/src/sha256.rs:190-208 | The digest of the message abc is the one that the standard gives as its example |
| `Sha256Hasher.PrintedDigestIsText` | native/qwen3-tts-native/src/sha256.rs:177-183 | A printed digest is 64 lowercase hexadecimal digits |
| `BytePair.LoadMerges` | native/qwen3-tts-native/src/tokenizer.rs:45-60 | The rank table of a merges file: a pair ranks at its last line, and a line that is neither a comment nor two words refuses the file |
| `BytePair.MergeFileRoundTrip` | native/qwen3-tts-native/src/tokenizer.rs:45-60 | A written merges file is read back without the pairs whose left symbol begins with a hash sign, whose lines are taken for comments; it is read back whole if and only if there are none |
| `BytePair.WhiteIff` | native/qwen3-tts-native/src/tokenizer.rs:48-57 | The words of a line are split at the white space of Unicode |
| `BytePair.RankTableIsInjective` | native/qwen3-tts-native/src/tokenizer.rs:45-60 | No two pairs share a rank |
| `BytePair.MergePass` | native/qwen3-tts-native/src/tokenizer.rs:168-182 | One round merges every occurrence of the chosen pair, greedily from left to right |
| `BytePair.BytePairEncode` | native/qwen3-tts-native/src/tokenizer.rs:144-185 | The merge loop terminates, keeps the concatenation, and leaves no adjacent pair that has a rank |
| `BytePair.RanksIncrease` | native/qwen3-tts-native/src/tokenizer.rs:144-185 | With a canonical table the ranks chosen by successive rounds strictly increase |
| `BytePair.EncodeIsFilePasses` | native/qwen3-tts-native/src/tokenizer.rs:144-185 | With a canonical table the result is one greedy pass per merge in file order |
| `BytePair.OrderMattersWithoutCanonicity` | native/qwen3-tts-native/src/tokenizer.rs:144-185 | Without it the two can differ: they do on a table of two merges over any three distinct characters |
| `Tokenizer.BuildByteEncoder` | native/qwen3-tts-native/src/tokenizer.rs:188-214 | The table built in two steps is the closed form, for all 256 bytes |
| `Tokenizer.ByteRoundTrip` | native/qwen3-tts-native/src/tokenizer.rs:188-214 | The byte to character table is inverted by the decoder for every byte |
| `Tokenizer.LeftmostLongest` | native/qwen3-tts-native/src/tokenizer.rs:114-124 | The match returned is the earliest, then the longest, then the one with the smallest id, of all occurrences of all added tokens |
| `Tokenizer.NoTokenInFront` | native/qwen3-tts-native/src/tokenizer.rs:114-124 | The text in front of a match holds no added token |
| `Tokenizer.EncodeOrdinary` | native/qwen3-tts-native/src/tokenizer.rs:126-142 | A piece is encoded bytewise, merged, and looked up; an unknown symbol fails the text |
| `Tokenizer.EncodeNormalized` | native/qwen3-tts-native/src/tokenizer.rs:94-112 | The cursor loop is the left-to-right alternation of ordinary text and added tokens |
| `Tokenizer.EncodingIsLossless` | native/qwen3-tts-native/src/tokenizer.rs:94-214 | With unique ids and a pre-tokenizer that partitions its input, decoding the ids restores the normalized bytes |
| `CodecReference.ClampIsIdle` | native/qwen3-tts-native-codec/src/reference.rs:34-40 | The final clamp never changes a sample: it is eight times its level, within -24568 and 24560 |
| `CodecReference.RangeIsReached` | native/qwen3-tts-native-codec/src/reference.rs:16-40 | The level range -3071 to 3070, which the types carry through every 32-bit operation, is attained at both ends by runs of three frames |
| `CodecReference.Repeat` | native/qwen3-tts-native-codec/src/reference.rs:44-50 | Every value as often as asked, in order |
| `CodecReference.TransposeOverlap` | native/qwen3-tts-native-codec/src/reference.rs:52-68 | Every value blended with its predecessor over one stride, the first with the carried tail, which becomes the last value |
| `CodecReference.ReferenceState.Process` | native/qwen3-tts-native-codec/src/reference.rs:16-41 | One packet gives samples and carried state that the difference equations of the decoder explain: the centre of a frame from its codes, the filter from the centre and the two before it, four overlap stages each from a value and the one before it, and a sample of eight times the level, all rounded to zero by inequality; a new or reset decoder carries nothing but zeros |
| `CodecReference.DecodedMeans` | native/qwen3-tts-native-codec/src/reference.rs:16-68 | What the stage-by-stage definition decodes to satisfies these equations |
| `CodecReference.ExplainedOnce` | native/qwen3-tts-native-codec/src/reference.rs:16-68 | The equations have one solution: samples and carried state are determined by the frames and the state before |
| `CodecReference.DecodedLength` | native/qwen3-tts-native-codec/src/reference.rs:16-41 | Exactly 1920 samples per frame |
| `CodecReference.PacketBoundaryInvariance` | native/qwen3-tts-native-codec/src/reference.rs:16-68 | From any state, two packets give the samples and the state of the two joined, through filter, both repeats and four overlap stages |
| `CodecSchedules.ScheduleIndependence` | native/qwen3-tts-native-codec/src/main.rs:455-479 | Any two ways of cutting a stream into packets give the same samples and the same final state |
| `CodecSchedules.RunOneSchedule` | native/qwen3-tts-native-codec/src/main.rs:455-479 | A schedule runs exactly when it is complete and has no empty packet, and then gives the one-shot output |
| `CodecSchedules.RunStandaloneSchedules` | native/qwen3-tts-native-codec/src/main.rs:437-453 | Streams run one after another on a session that is reset each give their one-shot output from the fresh state |
| `CodecSchedules.RunInterleaved` | native/qwen3-tts-native-codec/src/main.rs:481-525 | Interleaved runs succeed exactly when every schedule is complete, and leave every stream and every session as if it had been decoded alone and at once |
| `CodecSchedules.ProcessBatch` | native/qwen3-tts-native-codec/src/ffi.rs:684-730 | A batch step advances every session by its own packet, or refuses and advances none |
| `CodecSchedules.RunBatchSchedule` | native/qwen3-tts-native-codec/src/main.rs:768-827 | The same for batches, of at most six sessions |
| `ChannelMajor.CopyChannelMajorPacket` | native/qwen3-tts-native-codec/src/main.rs:1161-1174 | The in-place copy is the channel-by-channel overwrite |
| `ChannelMajor.CopiedAt` | native/qwen3-tts-native-codec/src/main.rs:1161-1174 | A packet writes exactly its own positions in every channel and nothing else |
| `ChannelMajor.Reassemble` | native/qwen3-tts-native-codec/src/main.rs:1096-1130 | Packets of any split copied to their running positions rebuild the whole channel-major array, whatever it held before |
| `WeightContract.ShapeParameters` | native/qwen3-tts-native/src/contract.rs:227-231 | The product of the dimensions, refused exactly when a partial product leaves 64 bits |
| `WeightContract.ParseEntry` | native/qwen3-tts-native/src/contract.rs:202-260 | An inventory entry gives the one tensor it describes, or describes none |
| `Inventories.EntryIff` | native/qwen3-tts-native/src/contract.rs:202-260 | An entry describes a tensor if and only if it says its name, dimensions, number of elements and, for BF16 twice, for F32 four times that many bytes, all of them true and below 2^64 |
| `WeightContract.ParseInventory` | native/qwen3-tts-native/src/contract.rs:185-295 | A contract is read if and only if every included entry describes a tensor, names are distinct, totals fit and something was selected; then it holds exactly those tensors in name order with true totals |
| `TensorIndex.ValidateTensors` | native/qwen3-tts-native/src/contract.rs:98-183 | A file passes exactly when it holds the tensors of the contract, no others, and the totals agree |
| `TensorIndex.BuildTensorIndex` | native/qwen3-tts-native/src/artifact.rs:523-570 | The index is built exactly when every tensor matches and the offsets cover the payload; each entry has the running offset and the SHA-256 of its bytes |
| `Inventories.IndexTellsMapping` | native/qwen3-tts-native/src/artifact.rs:535-566 | An entry of the index tells of the mapped tensor its shape, its element type, its length, its SHA-256, and as offset the bytes of the tensors in front of it |
| `Inventories.ComponentByPrefix` | native/qwen3-tts-native/src/artifact.rs:604-612 | The component of a tensor goes by the prefix of its name |
| `TensorIndex.ValidateTensorIndex` | native/qwen3-tts-native/src/loader.rs:572-672 | An index is accepted if and only if its entries name the tensors of the contract in order, end to end, with a readable digest; the descriptors say what the entries say |
| `TensorIndex.WrittenIndexIsAccepted` | native/qwen3-tts-native/src/loader.rs:572-672 | What the packer writes for any contract read from an inventory the loader accepts, and it recovers every digest and offset |
| `TensorIndex.CheckedFilesAreIndexed` | native/qwen3-tts-native/src/artifact.rs:523-570 | For such a contract, a file whose tensors were checked can always be indexed |
| `TensorIndex.ParseSha256` | native/qwen3-tts-native/src/loader.rs:684-698 | Accepts exactly 64 lowercase hexadecimal digits and inverts the printing |
| `Utf8.DigestTextIff` | native/qwen3-tts-native/src/loader.rs:684-698 | A digest is written in 64 of the characters 0 to 9 and a to f, and in no others |
| `TensorIndex.HexInjective` | native/qwen3-tts-native/src/sha256.rs:177-183 | Digests are told apart by their text |
| `TensorStaging.Chunks` | native/qwen3-tts-native/src/loader.rs:225-245 | Staging starts if and only if an element fits the staging size; the chunk size is the largest multiple of the element width that fits |
| `TensorStaging.TensorChunks.Next` | native/qwen3-tts-native/src/loader.rs:262-276 | Returns the next of the remaining chunks until none is left |
| `TensorStaging.TensorChunks.SizeHint` | native/qwen3-tts-native/src/loader.rs:278-282 | The announced number is the number of chunks that remain |
| `TensorStaging.ArenaTiled` | native/qwen3-tts-native/src/loader.rs:225-285 | For every contract and staging size, the chunks of all tensors at their arena places tile the payload, carry its bytes in order, and number what was announced |
| `TensorStaging.ExactlyOnce` | native/qwen3-tts-native/src/loader.rs:225-285 | Tiling means that every byte of the arena lies in exactly one chunk |
| `TensorStaging.ChunksAligned` | native/qwen3-tts-native/src/loader.rs:225-276 | Within a tensor every chunk starts and ends on an element |
| `TensorStaging.StagedAligned` | native/qwen3-tts-native/src/loader.rs:225-276 | In the arena the chunks of a tensor are aligned to its elements if and only if its offset is |
| `TensorStaging.UniformArenaAligned` | native/qwen3-tts-native/src/artifact.rs:523-560 | With one element type every tensor of the arena is aligned |
| `TensorStaging.MixedArenaMisaligned` | native/qwen3-tts-native/src/artifact.rs:523-560 | In a well-formed contract with both element types a tensor can start inside an element |
| `Bf16.FiniteIff` | native/qwen3-tts-native/src/artifact.rs:381-381 | A word is finite if and only if the eight bits of its exponent are not all ones, which is to say its magnitude is below 2^128 |
| `Bf16.F32BytesToBf16` | native/qwen3-tts-native/src/artifact.rs:392-401 | The byte loop converts word by word |
| `Bf16.RoundsTiesToEven` | native/qwen3-tts-native/src/artifact.rs:392-401 | Every finite value becomes the nearest bfloat16 of either sign, infinities included, ties to even (section 4.3.1 of IEEE 754-2019) |
| `Bf16.FiniteConverts` | native/qwen3-tts-native/src/artifact.rs:392-401 | For finite values the addition never wraps, the sign is kept, no NaN appears, and the result is infinite exactly from halfway to the next power of two on |
| `Bf16.Monotone` | native/qwen3-tts-native/src/artifact.rs:392-401 | A larger magnitude never converts to a smaller one |
| `Bf16.ValidateDecoderFinite` | native/qwen3-tts-native/src/artifact.rs:370-390 | The guard passes exactly when every tensor is there and holds whole words in none of which the exponent, the last bit of the third byte and the first seven of the fourth, is all ones |
| `Bf16.NanCanWrap` | native/qwen3-tts-native/src/artifact.rs:392-401 | Without the guard a NaN can wrap to a positive number |
| `Wav.WritePcm16Mono` | native/qwen3-tts-bench/src/wav.rs:7-40 | A file is written exactly when it fits the RIFF limit and the rate is not zero; it is a format chunk and a data chunk |
| `WavFiles.WrittenFile` | native/qwen3-tts-bench/src/wav.rs:7-45 | Byte by byte, what a written file holds: the four codes, the sizes, the format fields, the rate, and every sample in little-endian order |
| `WavFiles.FormatIff` | native/qwen3-tts-http-bench/src/wav.rs:88-112 | A format payload is good if and only if it says PCM, one channel, 24000 Hz, 48000 bytes per second, two bytes per block and 16 bits |
| `Wav.PcmRoundTrip` | native/qwen3-tts-bench/src/wav.rs:35-37 | Samples read back from their bytes are the samples that were written |
| `Wav.WalkFinds` | native/qwen3-tts-http-bench/src/wav.rs:27-75 | The walk finds every list of padded chunks again, so the tiling of a file is unique |
| `Wav.WalkTiles` | native/qwen3-tts-http-bench/src/wav.rs:27-75 | The chunks that the walk finds tile the bytes |
| `Wav.ValidateWav` | native/qwen3-tts-http-bench/src/wav.rs:11-86 | A file is accepted if and only if it is a RIFF file of one good format chunk, one good data chunk and any others; the report points at the samples; the walk terminates |
| `Wav.RecordingPlayable` | native/qwen3-tts-http-bench/src/wav.rs:11-112 | A written recording is accepted if and only if its rate is 24 kHz and it has a sample |
| `Wav.RecordingInfo` | native/qwen3-tts-http-bench/src/wav.rs:11-86 | The report on it: offset 44, the right count, and payload bytes that decode to the samples |
| `Wav.OtherChunksAreIgnored` | native/qwen3-tts-http-bench/src/wav.rs:42-70 | A chunk of another kind anywhere does not change the verdict |
| `Wav.OtherChunksKeepSamples` | native/qwen3-tts-http-bench/src/wav.rs:42-86 | Nor the sample count and the payload that is found |
| `ActiveRequests.ActiveRequest.AcceptPacket` | native/qwen3-tts-bench/src/main.rs:414-459 | A packet is accepted if and only if it continues the ones before; a refused one changes nothing; captured audio is the concatenation |
| `ActiveRequests.ContiguousIff` | native/qwen3-tts-bench/src/main.rs:414-459 | Packets are accepted one after another if and only if each has the next sequence number and starts at the frames and samples of those before it, in 1920 samples per frame as 32 bits count, and none in front of it is final |
| `ActiveRequests.OnlyLastIsFinal` | native/qwen3-tts-bench/src/main.rs:433-450 | Of the accepted packets only the last can be final, and all carry one request id |
| `ActiveRequests.SamplesAtMost` | native/qwen3-tts-bench/src/main.rs:421-423 | Samples are 1920 per frame less 2^32 for every wrap of the frame check, and equal 1920 per frame if and only if no packet claims more frames than 32 bits of samples hold |
| `ActiveRequests.FrameCheckCanWrap` | native/qwen3-tts-bench/src/main.rs:421-423 | A packet of 2^25 frames and no samples passes the wrapping check |
| `ScenarioScript.WelcomeIff` | native/qwen3-tts-bench/src/main.rs:520-586 | The visits that the run does not survive are those that are late, failed, refused or end badly |
| `ScenarioScript.LogFollowsScript` | native/qwen3-tts-bench/src/main.rs:483-611 | The log of a run is the script up to where it stops, nothing left out, and it stops when it is over, when the script runs out, or at the first answer that is not welcome, with the error of that answer |
| `ScenarioScript.TraceIsChronicle` | native/qwen3-tts-bench/src/main.rs:483-611 | From snapshot to snapshot only the next ordinal becomes active or one active ordinal is completed, as the log says; in every snapshot each ordinal handed out is active or completed, never both, and at most the permitted number is active |
| `ScenarioScript.HeldIsLogged` | native/qwen3-tts-bench/src/main.rs:520-586 | Every request, active or completed, holds exactly the packets that the log shows for its ordinal |
| `ScenarioScript.PassVisitsEachOnce` | native/qwen3-tts-bench/src/main.rs:520-611 | Although removal moves the last request forward, a pass visits every request that was active exactly once |
| `ScenarioScript.PassInCourse` | native/qwen3-tts-bench/src/main.rs:483-611 | The course of a run goes through its passes |
| `ScenarioScript.OverIsDone` | native/qwen3-tts-bench/src/main.rs:483-611 | A run is over only when nothing is active and all requests are completed |
| `Scenarios.ScenarioRun.FinishAt` | native/qwen3-tts-bench/src/main.rs:546-609 | A request that reached its end is removed by swapping and reported if and only if its last packet was final, it ended naturally, the metrics agree and its recording fits; otherwise the first check it fails is the error |
| `Scenarios.ScenarioRun.VisitOne` | native/qwen3-tts-bench/src/main.rs:522-611 | One visit ends the run with exactly the error that the checks prescribe in their order, or has exactly the effect of its answer on the visited request and no other |
| `Scenarios.ScenarioRun.PollPass` | native/qwen3-tts-bench/src/main.rs:520-611 | One pass goes through the pass that the script prescribes, from request to request, or ends the run with the error of that course |
| `Scenarios.ScenarioRun.FillSlots` | native/qwen3-tts-bench/src/main.rs:484-518 | Starting takes the answers of the script in order until the places are filled or the runtime declines, or ends the run with the error of that course |
| `Scenarios.ExecuteScenario` | native/qwen3-tts-bench/src/main.rs:462-622 | A run takes the course that the script of starts and visits prescribes and fails exactly where and how that does; otherwise it reports on ordinals 0 to count - 1 in order, and each report and recording is true of exactly the packets that the script emitted for that ordinal, with the times between the beginning, the first packet and the end of the request in the log, and progressive exactly if more than one packet was counted and the first came before the end |
| `Scenarios.ReportedSamples` | native/qwen3-tts-bench/src/main.rs:588-607 | A report has 1920 samples per frame if and only if that product fits 64 bits and the wraps of the frame check cancel out |
| `Scenarios.FewWraps` | native/qwen3-tts-bench/src/main.rs:421-423 | Short of 2^32 wraps they cancel out only if there are none |
| `Scenarios.RecordingIsPlayable` | native/qwen3-tts-bench/src/main.rs:575-587 | A recording is accepted by the client's WAV validator if and only if its request emitted a sample, which it did unless a frame check wrapped |
| `Percentiles.PercentilesCoincide` | native/qwen3-tts-http-bench/src/report.rs:374-388 | The client's integer rank and the validator's real position give the same percentile |
| `Percentiles.PercentileBounds` | native/qwen3-tts-bench/src/report.rs:166-169 | A percentile lies between least and greatest value and never exceeds the ceiling rank |
| `Percentiles.PercentileMonotone` | reports/generate_report.py:2819-2831 | A larger quantile never gives a smaller percentile |
| `Sorting.SortedUnique` | native/qwen3-tts-http-bench/src/report.rs:354-360 | Any two ways of sorting agree where the order tells the items apart |
| `PhaseSummary.OutcomesPartition` | native/qwen3-tts-http-bench/src/report.rs:269-291 | Natural, length-limited and unknown outcomes add up to the successes, successes and failures to all |
| `SummaryMeaning.SummaryTallies` | native/qwen3-tts-http-bench/src/report.rs:241-291 | The counts of the summary are the numbers of requests that succeeded, of these those that ended naturally, at the length limit or nobody knows how, and of those that qualify for sampling parity or do not |
| `SummaryMeaning.SummaryAmounts` | native/qwen3-tts-http-bench/src/report.rs:241-324 | Its totals and rates are the sums over the requests that succeeded, divided by the wall time |
| `SummaryMeaning.SummaryDistributes` | native/qwen3-tts-http-bench/src/report.rs:241-311 | Its distributions are those of the latencies and real-time factors of the requests that succeeded |
| `SummaryMeaning.DistributionMeans` | native/qwen3-tts-http-bench/src/report.rs:354-372 | A distribution has the least, the greatest and the mean of its values and four percentiles |
| `SummaryMeaning.PercentileMeans` | native/qwen3-tts-http-bench/src/report.rs:374-388 | A percentile divides the two values around its position in the proportion of the position |
| `SummaryMeaning.RecordMeans` | native/qwen3-tts-http-bench/src/runner.rs:391-416 | A record gives as duration the samples divided by the rate, and as real-time factor the wall time divided by that |
| `SummaryValidator.DistributionsCoincide` | reports/generate_report.py:2284-2297 | The written distribution is the one the validator recomputes |
| `SummaryValidator.NumberAcceptedIff` | reports/generate_report.py:2280-2281 | Figures agree if and only if they differ by at most 10^-9 or a thousand-millionth of the greater |
| `SummaryValidator.DigestSetExpected` | reports/generate_report.py:2397-2406 | The ordered set of sampling digests is the sorted set the validator expects |
| `SummaryValidator.SummaryAgreement` | reports/generate_report.py:2323-2456 | The summary written over the records of a run is accepted if and only if the measured phase took any time |
| `SummaryValidator.EveryPhaseIsAccepted` | reports/generate_report.py:2323-2456 | Over records that are fully measured and in order, the summary is accepted if and only if time has passed |

## Left out

- Socket read errors, time limits, connection set-up and the asynchronous runtime: a connection is a finite sequence of reads and an end of stream.
- JSON, regular expressions and Unicode normalization: parsed events, pre-token pieces and normalized bytes are inputs; the pre-tokenizer is any function whose pieces concatenate to its input.
- Floating-point rounding of latencies and ratios: durations are exact numbers, so the filter for finite values never removes one.
- URL, command line and configuration parsing, prompt slicing, file creation, symlink checks, process memory figures and the phase event log.
- The CUDA decoder behind the sessions of the schedules: sessions are modelled as `ReferenceState` objects, and ring slots and final flags are not modelled.
- The native talker, the runtime scheduler and the HTTP server, but for the writer of its multipart stream, are not part of this model.
- The request-record checks of the report generator, which are flat field checks: among them the demand for a positive packet count, which a buffered WAV response, reported with a packet count of zero, does not meet.
- Sha256Hasher.DigestOf: messages below 2^61 bytes, as the standard has it; TensorIndex assumes the same of a mapped tensor.
- NativeStream.NativeStreamState.HandleAudioPart: the audio digest is tracked as the bytes it has been fed.
- Responses.ExecuteConnected: the digest of the body of a failed response is not modelled, and failures are not told apart; status codes other than 2xx fail without their body being read.
- Runs.RunBatch: the barrier and the concurrent execution of tasks are not modelled, only what each task returns and the order in which results are collected; a task that is cut short is an input.
- Runs.MeasuredPhase: clocks do not run backwards on a connection, and a response has fewer than 2^64 bytes. How long a request took is an input; the wall time of a response with a bad status, which enters no summary, is not modelled, and neither is the warm-up phase, which writes no report.
- Multipart.MultipartReader.ReadUntil: the limit is the one that all its callers pass.
- Scenarios.ExecuteScenario: the answers of the runtime are a finite script with times; a run that would wait longer ends as unfinished. Language ids, wall-clock distributions and memory figures of the report are not modelled.
- WeightContract.ParseInventory: dimensions are 64-bit, as on the platforms the code supports; the position of the first error is not told apart.
- Wav.WritePcm16Mono: the byte rate is computed in 32 bits and wraps as in a release build; opening and flushing the file are not modelled.
- TensorIndex.BuildTensorIndex: releasing mapped pages behind a tensor is not modelled.
- Concurrent sessions, cancellation and the parity reports of the codec tool.
