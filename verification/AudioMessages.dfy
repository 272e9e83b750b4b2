/** The other two kinds of audio responses, as they are sent: raw samples with a declared rate, and a buffered
    recording with a finish reason. */
module AudioMessages {
  import opened Bytes
  import opened Text
  import opened Http
  import opened HeadMessages
  import opened ResponseMessages
  import opened NativeMessages
  import opened PacketValidator
  import opened NativeStream
  import opened Runner
  import opened RawPcm
  import opened Responses
  import HttpHead
  import Wav

  // ---- Raw samples ----

  lemma OctetType()
    ensures Ascii8("application/octet-stream")
         == [97, 112, 112, 108, 105, 99, 97, 116, 105, 111, 110, 47, 111, 99, 116, 101, 116, 45, 115, 116, 114, 101, 97,
             109]
  {
  }

  lemma PcmType()
    ensures Ascii8("audio/pcm") == AUDIO_PCM
  {
  }

  /** A media type without parameters is itself and no other. */
  lemma MediaAlone(value: bytes, expected: string)
    requires value != [] && forall b | b in value :: b == DASH || 47 <= b <= 57 || 97 <= b <= 122
    ensures MediaTypeIs(value, expected) <==> value == Ascii8(expected)
  {
    hide Trim, LowerAll, Ascii8;
    assert value[0] in value && value[|value| - 1] in value;
    VisibleAsciiIsTrimmed(value);
    TrimmedIsFixed(value);
    SmallIsLow(value);
    SplitsNot(value, SEMICOLON);
  }

  lemma SmallIsLow(value: bytes)
    requires forall b | b in value :: b == DASH || 47 <= b <= 57 || 97 <= b <= 122
    ensures LowerAll(value) == value
  {
    forall i | 0 <= i < |value|
      ensures Lower(value[i]) == value[i]
    {
      assert value[i] in value;
    }
  }

  /** Raw samples are announced by one of two media types and a rate from 1 to 768000 in a header of its own. */
  lemma RawByHeaderIff(headers: Headers, pcm: bool, rate: nat)
    requires rate < U64_LIMIT && Ascii8("content-type") in headers && Ascii8("x-sample-rate") in headers
    requires headers[Ascii8("content-type")] == Ascii8(if pcm then "audio/pcm" else "application/octet-stream")
             && headers[Ascii8("x-sample-rate")] == PrintUnsigned(rate, 10)
    ensures AnnouncesRawPcm(headers) <==> 1 <= rate <= 768_000
    ensures AnnouncesRawPcm(headers) ==> RateOf(headers) == rate
  {
    hide Ascii8, PrintUnsigned, ParseUnsigned, MediaTypeIs, Parameter;
    PcmType();
    OctetType();
    var contentType := headers[Ascii8("content-type")];
    MediaAlone(contentType, "audio/pcm");
    MediaAlone(contentType, "application/octet-stream");
    PrintParse(rate, 10, U64_LIMIT);
  }

  /** Without that header the rate is a parameter of the media type. */
  lemma RawByParameterIff(headers: Headers, rate: nat)
    requires rate < U64_LIMIT && Ascii8("content-type") in headers && Ascii8("x-sample-rate") !in headers
    requires headers[Ascii8("content-type")] == Ascii8("audio/pcm; rate=") + PrintUnsigned(rate, 10)
    ensures AnnouncesRawPcm(headers) <==> 1 <= rate <= 768_000
    ensures AnnouncesRawPcm(headers) ==> RateOf(headers) == rate
  {
    hide Ascii8, PrintUnsigned, ParseUnsigned, SplitOn, FindParameter, LowerAll, Trim;
    var contentType, printed := headers[Ascii8("content-type")], PrintUnsigned(rate, 10);
    SpacedLiteral();
    PcmType();
    NameLiterals();
    PrintedIsWord(rate);
    WordIsFixed(printed);
    WordIsFixed(RATE);
    WordIsFixed(AUDIO_PCM);
    var field := RATE + [EQUALS] + printed;
    assert contentType == AUDIO_PCM + [SEMICOLON] + ([SPACE] + field);
    SplitsAt(AUDIO_PCM, SEMICOLON, [SPACE] + field);
    SplitsNot([SPACE] + field, SEMICOLON);
    assert SplitOn(contentType, SEMICOLON)[1..] == [[SPACE] + field];
    assert printed[|printed| - 1] in printed && field[0] == 114 && field[|field| - 1] == printed[|printed| - 1];
    SpacedParameter(field);
    assert [field] == [RATE + [EQUALS] + printed] + [];
    OneParameter(RATE, printed, [], "rate");
    PrintParse(rate, 10, U64_LIMIT);
  }

  lemma SpacedLiteral()
    ensures Ascii8("audio/pcm; rate=") == AUDIO_PCM + [SEMICOLON] + ([SPACE] + RATE + [EQUALS])
  {
  }

  /** White space in front of a parameter does not matter. */
  lemma SpacedParameter(field: bytes)
    requires field != [] && 33 <= field[0] <= 126 && 33 <= field[|field| - 1] <= 126
    ensures FindParameter([[SPACE] + field], "rate") == FindParameter([field], "rate")
  {
    hide Trim, TrimQuotes, Ascii8, LowerAll;
    VisibleAsciiIsTrimmed(field);
    TrimmedIsFixed(field);
    ContentTypeSpace(field);
    assert [[SPACE] + field][1..] == [] && [field][1..] == [];
  }

  lemma ContentTypeSpace(s: bytes)
    requires Trimmed(s)
    ensures Trim([SPACE] + s) == s
  {
    MultipartMessages.TrimOneSpace(s);
  }

  /** A whole raw body reads as raw audio exactly if it has a whole and reportable number of samples. */
  lemma RawReads(answer: Answer, pcm: bytes, rate: nat, parseEvent: bytes -> Option<JsonEvent>, stream: bool)
    requires 200 <= answer.head.status < 300 && 1 <= rate <= 768_000
    requires Plain(answer.body.payload) == pcm && answer.body.end == Complete([])
    requires Ascii8("content-type") in answer.head.headers && Ascii8("x-sample-rate") in answer.head.headers
             && answer.head.headers[Ascii8("content-type")] == Ascii8("audio/pcm")
             && answer.head.headers[Ascii8("x-sample-rate")] == PrintUnsigned(rate, 10)
    ensures (exists reading :: ReadsAs(Sglang, stream, Some(answer), parseEvent, reading))
       <==> |pcm| % 2 == 0 && 1 <= |pcm| / 2 < 0x1_0000_0000
    ensures |pcm| % 2 == 0 && 1 <= |pcm| / 2 < 0x1_0000_0000 ==>
              ReadsAs(Sglang, stream, Some(answer), parseEvent, RawOf(|pcm| / 2, rate))
  {
    hide Ascii8, PrintUnsigned, AnnouncesRawPcm, RateOf, NativeReads;
    RawByHeaderIff(answer.head.headers, true, rate);
    assert |answer.body.payload| == |Plain(answer.body.payload)| == |pcm|;
    forall reading | ReadsAs(Sglang, stream, Some(answer), parseEvent, reading)
      ensures |pcm| % 2 == 0 && 1 <= |pcm| / 2 < 0x1_0000_0000
    {
      assert CarriesSamples(answer.body, reading.samples);
    }
    if |pcm| % 2 == 0 && 1 <= |pcm| / 2 < 0x1_0000_0000 {
      assert CarriesSamples(answer.body, |pcm| / 2);
      assert ReadsAs(Sglang, stream, Some(answer), parseEvent, RawOf(|pcm| / 2, rate));
    }
  }

  /** The connection carries a body of declared length behind these fields. */
  ghost predicate SendsLength(wire: Wire, status: nat, reason: bytes, front: seq<(bytes, bytes)>,
                              back: seq<(bytes, bytes)>, body: bytes) {
    var fields := front + [(Ascii8("Content-Length"), PrintUnsigned(|body|, 10))] + back;
    && Readable(status, reason, fields) && Sends(wire, status, reason, fields, body) && OnlyOne(front, back)
    && |body| < 0x1_0000_0000_0000_0000 && 200 <= status < 300
  }

  /** Its head gives a name this one value. */
  predicate Gives(front: seq<(bytes, bytes)>, back: seq<(bytes, bytes)>, length: nat, name: string, value: bytes) {
    FieldValues(front + [(Ascii8("Content-Length"), PrintUnsigned(length, 10))] + back, Ascii8(name)) == [value]
  }

  lemma LengthAnswer(wire: Wire, status: nat, reason: bytes, front: seq<(bytes, bytes)>, back: seq<(bytes, bytes)>,
                     body: bytes)
    requires SendsLength(wire, status, reason, front, back, body)
    ensures var answer := AnswerOf(wire);
            && answer.Some? && 200 <= answer.value.head.status < 300 && Plain(answer.value.body.payload) == body
            && answer.value.body.end == Complete([])
  {
    hide Readable, Sends, AnswerOf, Ascii8, PrintUnsigned, OnlyOne;
    LengthResponse(wire, status, reason, front, back, body);
  }

  lemma LengthHeader(wire: Wire, status: nat, reason: bytes, front: seq<(bytes, bytes)>, back: seq<(bytes, bytes)>,
                     body: bytes, name: string, value: bytes)
    requires SendsLength(wire, status, reason, front, back, body) && Gives(front, back, |body|, name, value)
             && AnswerOf(wire).Some?
    ensures var headers := AnswerOf(wire).value.head.headers;
            Ascii8(name) in headers && headers[Ascii8(name)] == value
  {
    hide Readable, Sends, AnswerOf, Ascii8, PrintUnsigned, OnlyOne, FieldValues;
    HeadersOfStream(wire, status, reason, front + [(Ascii8("Content-Length"), PrintUnsigned(|body|, 10))] + back, body,
                    Ascii8(name), value);
  }

  /** A raw response reads as raw audio exactly if it has a whole and reportable number of samples. */
  lemma RawResponseIff(wire: Wire, status: nat, reason: bytes, front: seq<(bytes, bytes)>, back: seq<(bytes, bytes)>,
                       pcm: bytes, rate: nat, parseEvent: bytes -> Option<JsonEvent>, stream: bool)
    requires SendsLength(wire, status, reason, front, back, pcm) && 1 <= rate <= 768_000
    requires Gives(front, back, |pcm|, "content-type", Ascii8("audio/pcm"))
             && Gives(front, back, |pcm|, "x-sample-rate", PrintUnsigned(rate, 10))
    ensures (exists reading :: ReadsAs(Sglang, stream, AnswerOf(wire), parseEvent, reading))
       <==> |pcm| % 2 == 0 && 1 <= |pcm| / 2 < 0x1_0000_0000
    ensures |pcm| % 2 == 0 && 1 <= |pcm| / 2 < 0x1_0000_0000 ==>
              ReadsAs(Sglang, stream, AnswerOf(wire), parseEvent, RawOf(|pcm| / 2, rate))
  {
    hide AnswerOf, ReadsAs, SendsLength, Gives, Ascii8, PrintUnsigned;
    LengthAnswer(wire, status, reason, front, back, pcm);
    LengthHeader(wire, status, reason, front, back, pcm, "content-type", Ascii8("audio/pcm"));
    LengthHeader(wire, status, reason, front, back, pcm, "x-sample-rate", PrintUnsigned(rate, 10));
    RawReads(AnswerOf(wire).value, pcm, rate, parseEvent, stream);
  }

  // ---- A buffered recording ----

  lemma WavType()
    ensures Ascii8("audio/wav") == [97, 117, 100, 105, 111, 47, 119, 97, 118]
  {
  }

  lemma Reasons()
    ensures Ascii8("stop") != Ascii8("length")
  {
    assert |Ascii8("stop")| == 4 && |Ascii8("length")| == 6;
  }

  lemma WavReads(answer: Answer, file: bytes, samples: seq<Wav.Sample>, natural: bool,
                 parseEvent: bytes -> Option<JsonEvent>)
    requires 200 <= answer.head.status < 300 && Plain(answer.body.payload) == file && answer.body.end == Complete([])
    requires Ascii8("content-type") in answer.head.headers && Ascii8("x-request-id") in answer.head.headers
             && Ascii8("x-finish-reason") in answer.head.headers
             && answer.head.headers[Ascii8("content-type")] == Ascii8("audio/wav")
             && answer.head.headers[Ascii8("x-finish-reason")] == Ascii8(if natural then "stop" else "length")
    requires Wav.Recordable(samples) && samples != [] && Wav.IsRiffFile(file, Wav.Recording(24_000, samples))
    ensures ReadsAs(Native, false, Some(answer), parseEvent,
                    WavOf(|samples|, 44, Some(if natural then FinishReason.Stop else Length)))
  {
    hide Ascii8, MediaTypeIs, Recording, Wav.Recording, Wav.IsRiffFile, HoldsStream;
    WavType();
    MediaAlone(Ascii8("audio/wav"), "audio/wav");
    Reasons();
    RecordingThere(file, samples);
  }

  /** A recording that is sent with its finish reason reads as that recording: as many samples as were written, the
      first of them behind the 44 bytes of the header. */
  lemma WavResponse(wire: Wire, status: nat, reason: bytes, front: seq<(bytes, bytes)>, back: seq<(bytes, bytes)>,
                    file: bytes, samples: seq<Wav.Sample>, id: bytes, natural: bool,
                    parseEvent: bytes -> Option<JsonEvent>)
    requires SendsLength(wire, status, reason, front, back, file)
    requires Gives(front, back, |file|, "content-type", Ascii8("audio/wav"))
             && Gives(front, back, |file|, "x-request-id", id)
             && Gives(front, back, |file|, "x-finish-reason", Ascii8(if natural then "stop" else "length"))
    requires Wav.Recordable(samples) && samples != [] && Wav.IsRiffFile(file, Wav.Recording(24_000, samples))
    ensures ReadsAs(Native, false, AnswerOf(wire), parseEvent,
                    WavOf(|samples|, 44, Some(if natural then FinishReason.Stop else Length)))
  {
    hide AnswerOf, ReadsAs, SendsLength, Gives, Ascii8, Wav.IsRiffFile, Wav.Recording;
    LengthAnswer(wire, status, reason, front, back, file);
    LengthHeader(wire, status, reason, front, back, file, "content-type", Ascii8("audio/wav"));
    LengthHeader(wire, status, reason, front, back, file, "x-request-id", id);
    LengthHeader(wire, status, reason, front, back, file, "x-finish-reason",
                 Ascii8(if natural then "stop" else "length"));
    WavReads(AnswerOf(wire).value, file, samples, natural, parseEvent);
  }

  lemma RecordingThere(file: bytes, samples: seq<Wav.Sample>)
    requires Wav.Recordable(samples) && samples != [] && Wav.IsRiffFile(file, Wav.Recording(24_000, samples))
    ensures Recording(file, |samples|, 44)
  {
    hide Wav.IsRiffFile, Wav.FormatOk, Wav.EncodePcm, Wav.FormatPayload;
    var chunks := Wav.Recording(24_000, samples);
    Wav.RecordingPlayable(24_000, samples);
    var info := Wav.RecordingAt(file, 24_000, samples);
    Wav.RecordingInfo(24_000, samples, file, info);
  }
}
