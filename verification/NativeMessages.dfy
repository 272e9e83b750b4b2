/** Native streaming responses as a server writes them, and that the client accepts them: the content types of
    the parts, the headers of audio parts, whole streams, and whole responses with their head. */
module NativeMessages {
  import opened Bytes
  import opened Text
  import opened Http
  import opened Multipart
  import opened MultipartMessages
  import opened PacketValidator
  import opened NativeStream
  import opened Runner
  import opened HeadMessages
  import opened ResponseMessages
  import opened ChunkedMessages
  import opened Responses
  import ContentType
  import HttpHead

  // ---- Content types of parts ----

  /** A content type of an audio part. */
  function AudioType(rate: nat, channels: nat): bytes {
    Ascii8("audio/pcm;rate=") + PrintUnsigned(rate, 10) + Ascii8(";channels=") + PrintUnsigned(channels, 10)
    + Ascii8(";format=s16le")
  }

  lemma SplitsAt(front: bytes, separator: byte, rest: bytes)
    requires separator !in front
    ensures SplitOn(front + [separator] + rest, separator) == [front] + SplitOn(rest, separator)
  {
    var s := front + [separator] + rest;
    assert s == front + ([separator] + rest);
    FirstOfByte(front, [separator] + rest, separator);
    assert s[|front| + 1..] == rest;
  }

  lemma SplitsNot(s: bytes, separator: byte)
    requires separator !in s
    ensures SplitOn(s, separator) == [s]
  {
  }

  const AUDIO_PCM: bytes := [97, 117, 100, 105, 111, 47, 112, 99, 109]
  const RATE: bytes := [114, 97, 116, 101]
  const CHANNELS: bytes := [99, 104, 97, 110, 110, 101, 108, 115]
  const FORMAT: bytes := [102, 111, 114, 109, 97, 116]
  const S16LE: bytes := [115, 49, 54, 108, 101]

  lemma MediaLiteral()
    ensures Ascii8("audio/pcm;rate=") == AUDIO_PCM + [SEMICOLON] + RATE + [EQUALS]
  {
  }

  lemma ChannelsLiteral()
    ensures Ascii8(";channels=") == [SEMICOLON] + CHANNELS + [EQUALS]
  {
  }

  lemma FormatLiteral()
    ensures Ascii8(";format=s16le") == [SEMICOLON] + FORMAT + [EQUALS] + S16LE
  {
  }

  lemma NameLiterals()
    ensures Ascii8("audio/pcm") == AUDIO_PCM && Ascii8("rate") == RATE && Ascii8("channels") == CHANNELS
    ensures Ascii8("format") == FORMAT && Ascii8("s16le") == S16LE
  {
  }

  /** A lower-case word is itself when it is trimmed and lowered. */
  predicate Word(s: bytes) {
    s != [] && forall b | b in s :: (47 <= b <= 57 || 97 <= b <= 122) && b != SEMICOLON && b != EQUALS
  }

  lemma WordIsFixed(s: bytes)
    requires Word(s)
    ensures Trim(s) == s && LowerAll(s) == s && SEMICOLON !in s && EQUALS !in s && TrimQuotes(s) == s
  {
    assert s[0] in s && s[|s| - 1] in s;
    VisibleAsciiIsTrimmed(s);
    TrimmedIsFixed(s);
    assert forall i | 0 <= i < |s| :: s[i] in s;
  }

  lemma PrintedIsWord(n: nat)
    ensures Word(PrintUnsigned(n, 10))
  {
    PrintedDigits(n, 10);
    forall b | b in PrintUnsigned(n, 10)
      ensures 48 <= b <= 57
    {
      assert IsDigit(b, 10);
    }
  }

  lemma FourFields(m: bytes, a: bytes, b: bytes, c: bytes)
    requires SEMICOLON !in m && SEMICOLON !in a && SEMICOLON !in b && SEMICOLON !in c
    ensures SplitOn(m + [SEMICOLON] + (a + [SEMICOLON] + (b + [SEMICOLON] + c)), SEMICOLON) == [m, a, b, c]
  {
    hide SplitOn;
    SplitsAt(m, SEMICOLON, a + [SEMICOLON] + (b + [SEMICOLON] + c));
    SplitsAt(a, SEMICOLON, b + [SEMICOLON] + c);
    SplitsAt(b, SEMICOLON, c);
    SplitsNot(c, SEMICOLON);
  }

  lemma Regrouped(m: bytes, r: bytes, x: bytes, k: bytes, y: bytes, t: bytes)
    ensures (m + [SEMICOLON] + r) + x + ([SEMICOLON] + k) + y + ([SEMICOLON] + t)
         == m + [SEMICOLON] + ((r + x) + [SEMICOLON] + ((k + y) + [SEMICOLON] + t))
  {
  }

  lemma NamesAreWords()
    ensures Word(AUDIO_PCM) && Word(RATE) && Word(CHANNELS) && Word(FORMAT) && Word(S16LE)
    ensures SEMICOLON !in AUDIO_PCM && SEMICOLON !in RATE && SEMICOLON !in CHANNELS && SEMICOLON !in FORMAT
            && SEMICOLON !in S16LE
  {
  }

  /** The media type and the parameters of the content type. */
  lemma TypeFields(rate: nat, channels: nat)
    ensures SplitOn(AudioType(rate, channels), SEMICOLON)
         == [AUDIO_PCM, RATE + [EQUALS] + PrintUnsigned(rate, 10),
             CHANNELS + [EQUALS] + PrintUnsigned(channels, 10), FORMAT + [EQUALS] + S16LE]
  {
    hide SplitOn, Ascii8, PrintUnsigned, Trim, LowerAll, TrimQuotes, Word;
    MediaLiteral();
    ChannelsLiteral();
    FormatLiteral();
    PrintedIsWord(rate);
    PrintedIsWord(channels);
    WordIsFixed(PrintUnsigned(rate, 10));
    WordIsFixed(PrintUnsigned(channels, 10));
    NamesAreWords();
    var x, y, t := PrintUnsigned(rate, 10), PrintUnsigned(channels, 10), FORMAT + [EQUALS] + S16LE;
    assert [SEMICOLON] + CHANNELS + [EQUALS] == [SEMICOLON] + (CHANNELS + [EQUALS]);
    assert [SEMICOLON] + FORMAT + [EQUALS] + S16LE == [SEMICOLON] + t;
    assert AUDIO_PCM + [SEMICOLON] + RATE + [EQUALS] == AUDIO_PCM + [SEMICOLON] + (RATE + [EQUALS]);
    Regrouped(AUDIO_PCM, RATE + [EQUALS], x, CHANNELS + [EQUALS], y, t);
    FourFields(AUDIO_PCM, RATE + [EQUALS] + x, CHANNELS + [EQUALS] + y, t);
  }

  /** One parameter of a content type. */
  lemma OneParameter(name: bytes, value: bytes, rest: seq<bytes>, wanted: string)
    requires Word(name) && Word(value)
    ensures FindParameter([name + [EQUALS] + value] + rest, wanted)
            == if name == Ascii8(wanted) then Some(value) else FindParameter(rest, wanted)
  {
    hide Trim, TrimQuotes, LowerAll, Ascii8;
    var field, fields := name + [EQUALS] + value, [name + [EQUALS] + value] + rest;
    WordIsFixed(name);
    WordIsFixed(value);
    assert field[0] == name[0] && name[0] in name && field[|field| - 1] == value[|value| - 1]
           && value[|value| - 1] in value;
    VisibleAsciiIsTrimmed(field);
    TrimmedIsFixed(field);
    assert field == name + ([EQUALS] + value);
    FirstOfByte(name, [EQUALS] + value, EQUALS);
    assert field[|name| + 1..] == value && fields[1..] == rest;
  }

  lemma TypeParameters(rate: nat, channels: nat)
    ensures Parameter(AudioType(rate, channels), "rate") == Some(PrintUnsigned(rate, 10))
    ensures Parameter(AudioType(rate, channels), "channels") == Some(PrintUnsigned(channels, 10))
    ensures Parameter(AudioType(rate, channels), "format") == Some(Ascii8("s16le"))
  {
    hide SplitOn, FindParameter, Ascii8, PrintUnsigned, AudioType;
    TypeFields(rate, channels);
    NameLiterals();
    PrintedIsWord(rate);
    PrintedIsWord(channels);
    var a, b := RATE + [EQUALS] + PrintUnsigned(rate, 10), CHANNELS + [EQUALS] + PrintUnsigned(channels, 10);
    var c := FORMAT + [EQUALS] + S16LE;
    assert SplitOn(AudioType(rate, channels), SEMICOLON)[1..] == [a] + ([b] + ([c] + []));
    OneParameter(RATE, PrintUnsigned(rate, 10), [b] + ([c] + []), "rate");
    OneParameter(RATE, PrintUnsigned(rate, 10), [b] + ([c] + []), "channels");
    OneParameter(RATE, PrintUnsigned(rate, 10), [b] + ([c] + []), "format");
    OneParameter(CHANNELS, PrintUnsigned(channels, 10), [c] + [], "channels");
    OneParameter(CHANNELS, PrintUnsigned(channels, 10), [c] + [], "format");
    OneParameter(FORMAT, S16LE, [], "format");
  }

  /** A part is an audio part exactly if it announces 24 kHz and one channel. */
  lemma AudioPartIff(part: Part, rate: nat, channels: nat)
    requires rate < 0x1_0000_0000_0000_0000 && channels < 0x1_0000_0000_0000_0000
    requires Ascii8("content-type") in part.headers
             && part.headers[Ascii8("content-type")] == AudioType(rate, channels)
    ensures KindOf(part) == if rate == 24_000 && channels == 1 then AudioPart else RefusedPart
  {
    hide SplitOn, Parameter, PrintUnsigned, ParseUnsigned, AudioType, LowerAll, Ascii8, Trim;
    TypeFields(rate, channels);
    TypeParameters(rate, channels);
    NameLiterals();
    WordIsFixed(AUDIO_PCM);
    WordIsFixed(S16LE);
    PrintParse(rate, 10, 0x1_0000_0000_0000_0000);
    PrintParse(channels, 10, 0x1_0000_0000_0000_0000);
    assert |Ascii8("application/json")| == 16 && |AUDIO_PCM| == 9;
  }

  lemma JsonType()
    ensures Ascii8("application/json")
            == [97, 112, 112, 108, 105, 99, 97, 116, 105, 111, 110, 47, 106, 115, 111, 110]
  {
  }

  /** A JSON part is an event. */
  lemma JsonPartIsEvent(part: Part)
    requires Ascii8("content-type") in part.headers
             && part.headers[Ascii8("content-type")] == Ascii8("application/json")
    ensures KindOf(part) == EventPart
  {
    hide SplitOn, LowerAll, Ascii8, Trim, IsNativeAudioType;
    JsonType();
    WordIsFixed(Ascii8("application/json"));
    SplitsNot(Ascii8("application/json"), SEMICOLON);
  }

  // ---- Header names as the server writes them ----

  lemma TypeTitle()
    ensures Ascii8("Content-Type")
         == [67, 111, 110, 116, 101, 110, 116, 45, 84, 121, 112, 101]
  {
  }

  lemma TypeName()
    ensures LowerAll(Ascii8("Content-Type")) == Ascii8("content-type") && PlainName(Ascii8("Content-Type"))
  {
    var lower: bytes := [99, 111, 110, 116, 101, 110, 116, 45, 116, 121, 112, 101];
    assert Ascii8("content-type") == lower;
    hide Ascii8;
    TypeTitle();
  }

  lemma SequenceTitle()
    ensures Ascii8("X-Sequence")
         == [88, 45, 83, 101, 113, 117, 101, 110, 99, 101]
  {
  }

  lemma SequenceName()
    ensures LowerAll(Ascii8("X-Sequence")) == Ascii8("x-sequence") && PlainName(Ascii8("X-Sequence"))
  {
    var lower: bytes := [120, 45, 115, 101, 113, 117, 101, 110, 99, 101];
    assert Ascii8("x-sequence") == lower;
    hide Ascii8;
    SequenceTitle();
  }

  lemma FrameBaseTitle()
    ensures Ascii8("X-First-Codec-Frame")
         == [88, 45, 70, 105, 114, 115, 116, 45, 67, 111, 100, 101, 99, 45, 70, 114, 97, 109, 101]
  {
  }

  lemma FrameBaseLower()
    ensures Ascii8("x-first-codec-frame")
         == [120, 45, 102, 105, 114, 115, 116, 45, 99, 111, 100, 101, 99, 45, 102, 114, 97, 109, 101]
  {
  }

  lemma FrameBaseName()
    ensures LowerAll(Ascii8("X-First-Codec-Frame")) == Ascii8("x-first-codec-frame")
            && PlainName(Ascii8("X-First-Codec-Frame"))
  {
    hide Ascii8;
    FrameBaseTitle();
    FrameBaseLower();
  }

  lemma SampleBaseTitle()
    ensures Ascii8("X-First-Sample")
         == [88, 45, 70, 105, 114, 115, 116, 45, 83, 97, 109, 112, 108, 101]
  {
  }

  lemma SampleBaseLower()
    ensures Ascii8("x-first-sample")
         == [120, 45, 102, 105, 114, 115, 116, 45, 115, 97, 109, 112, 108, 101]
  {
  }

  lemma SampleBaseName()
    ensures LowerAll(Ascii8("X-First-Sample")) == Ascii8("x-first-sample") && PlainName(Ascii8("X-First-Sample"))
  {
    hide Ascii8;
    SampleBaseTitle();
    SampleBaseLower();
  }

  lemma SampleCountTitle()
    ensures Ascii8("X-Sample-Count")
         == [88, 45, 83, 97, 109, 112, 108, 101, 45, 67, 111, 117, 110, 116]
  {
  }

  lemma SampleCountLower()
    ensures Ascii8("x-sample-count")
         == [120, 45, 115, 97, 109, 112, 108, 101, 45, 99, 111, 117, 110, 116]
  {
  }

  lemma SampleCountName()
    ensures LowerAll(Ascii8("X-Sample-Count")) == Ascii8("x-sample-count") && PlainName(Ascii8("X-Sample-Count"))
  {
    hide Ascii8;
    SampleCountTitle();
    SampleCountLower();
  }

  lemma FrameCountTitle()
    ensures Ascii8("X-Codec-Frames")
         == [88, 45, 67, 111, 100, 101, 99, 45, 70, 114, 97, 109, 101, 115]
  {
  }

  lemma FrameCountLower()
    ensures Ascii8("x-codec-frames")
         == [120, 45, 99, 111, 100, 101, 99, 45, 102, 114, 97, 109, 101, 115]
  {
  }

  lemma FrameCountName()
    ensures LowerAll(Ascii8("X-Codec-Frames")) == Ascii8("x-codec-frames") && PlainName(Ascii8("X-Codec-Frames"))
  {
    hide Ascii8;
    FrameCountTitle();
    FrameCountLower();
  }

  lemma FinalTitle()
    ensures Ascii8("X-Final")
         == [88, 45, 70, 105, 110, 97, 108]
  {
  }

  lemma FinalName()
    ensures LowerAll(Ascii8("X-Final")) == Ascii8("x-final") && PlainName(Ascii8("X-Final"))
  {
    var lower: bytes := [120, 45, 102, 105, 110, 97, 108];
    assert Ascii8("x-final") == lower;
    hide Ascii8;
    FinalTitle();
  }

  // ---- The parts of a stream, as the server writes them ----

  /** A packet of the runtime: its place in the stream, its samples and whether it is the last one. */
  datatype EnginePacket = EnginePacket(sequence: nat, firstCodecFrame: nat, firstSample: nat, codecFrames: nat,
                                       isFinal: bool, pcm: bytes)

  function PartFields(contentType: bytes, headers: seq<(bytes, bytes)>, payload: bytes): seq<(bytes, bytes)> {
    [(Ascii8("Content-Type"), contentType), (Ascii8("Content-Length"), PrintUnsigned(|payload|, 10))] + headers
  }

  function JsonPart(payload: bytes): WirePart {
    WirePart(PartFields(Ascii8("application/json"), [], payload), payload)
  }

  function AudioHeaders(p: EnginePacket): seq<(bytes, bytes)> {
    [(Ascii8("X-Sequence"), PrintUnsigned(p.sequence, 10)),
     (Ascii8("X-First-Codec-Frame"), PrintUnsigned(p.firstCodecFrame, 10)),
     (Ascii8("X-First-Sample"), PrintUnsigned(p.firstSample, 10)),
     (Ascii8("X-Sample-Count"), PrintUnsigned(|p.pcm| / 2, 10)),
     (Ascii8("X-Codec-Frames"), PrintUnsigned(p.codecFrames, 10)),
     (Ascii8("X-Final"), Ascii8(if p.isFinal then "true" else "false"))]
  }

  function AudioPartOf(p: EnginePacket): WirePart {
    WirePart(PartFields(AudioType(24_000, 1), AudioHeaders(p), p.pcm), p.pcm)
  }

  /** What the fields of an engine packet fit, and the largest part a client takes. */
  predicate Packable(p: EnginePacket) {
    && p.sequence < U64_LIMIT && p.firstCodecFrame < U64_LIMIT && p.firstSample < U64_LIMIT && p.codecFrames < U64_LIMIT
    && |p.pcm| <= 512 * 1024 * 1024
  }

  // ---- Lookups in the fields of a part ----

  lemma {:induction false} FieldThere(fields: seq<(bytes, bytes)>, i: nat)
    requires DistinctNames(fields) && i < |fields|
    ensures LowerAll(fields[i].0) in FieldMap(fields) && FieldMap(fields)[LowerAll(fields[i].0)] == fields[i].1
  {
    if i < |fields| - 1 {
      FieldThere(fields[..|fields| - 1], i);
    }
  }

  /** A plain name and a value of visible characters make a field. */
  predicate PlainField(field: (bytes, bytes)) {
    PlainName(field.0) && field.1 != [] && (forall b | b in field.1 :: 33 <= b <= 126) && |field.0| + |field.1| <= 100
  }

  lemma PlainFieldIsValid(field: (bytes, bytes))
    requires PlainField(field)
    ensures ValidField(field) && |FieldLine(field)| <= 102
  {
    var (name, value) := field;
    AsciiIsUtf8(name);
    AsciiIsUtf8(value);
    assert name[0] in name && value[0] in value && value[|value| - 1] in value;
    VisibleAsciiIsTrimmed(value);
  }

  lemma {:induction false} JoinedLength(lines: seq<bytes>, n: nat)
    requires forall l | l in lines :: |l| <= n
    ensures |JoinLines(lines)| <= |lines| * (n + 2)
  {
    if lines != [] {
      assert lines[0] in lines;
      JoinedLength(lines[1..], n);
      assert |lines| * (n + 2) == (n + 2) + |lines[1..]| * (n + 2);
    }
  }

  /** Few plain fields make a header block that is far below the limit. */
  lemma PlainPartIsValid(part: WirePart)
    requires 0 < |part.fields| <= 8 && (forall f | f in part.fields :: PlainField(f)) && DistinctNames(part.fields)
    requires |part.fields| >= 2 && part.fields[1] == (Ascii8("Content-Length"), PrintUnsigned(|part.payload|, 10))
             && |part.payload| <= 512 * 1024 * 1024
    ensures ValidPart(part)
  {
    hide PlainField, ValidField, FieldLine, JoinLines, PrintUnsigned, DistinctNames, Ascii8, LowerAll, FieldMap;
    LengthNames();
    FieldThere(part.fields, 1);
    forall f | f in part.fields
      ensures ValidField(f) && |FieldLine(f)| <= 102
    {
      PlainFieldIsValid(f);
    }
    var lines := FieldLines(part.fields);
    forall l | l in lines
      ensures |l| <= 102
    {
      var i :| 0 <= i < |lines| && lines[i] == l;
      assert l == FieldLine(part.fields[i]);
    }
    JoinedLength(lines, 102);
  }

  function Tens(n: nat): nat { if n == 0 then 1 else 10 * Tens(n - 1) }

  lemma {:induction false} PrintedLength(n: nat, digits: nat)
    requires 0 < digits && n < Tens(digits)
    ensures |PrintUnsigned(n, 10)| <= digits
  {
    if n >= 10 {
      PrintedLength(n / 10, digits - 1);
    }
  }

  lemma TwentyDigits()
    ensures U64_LIMIT <= Tens(20)
  {
    assert Tens(5) == 100_000;
    assert Tens(10) == 100_000 * 100_000;
    assert Tens(15) == 100_000 * 100_000 * 100_000;
  }

  /** A printed number of 64 bits is a field value. */
  lemma NumberField(name: bytes, n: nat)
    requires PlainName(name) && |name| <= 19 && n < U64_LIMIT
    ensures PlainField((name, PrintUnsigned(n, 10)))
  {
    hide PlainName;
    TwentyDigits();
    PrintedLength(n, 20);
    PrintedIsWord(n);
  }

  // ---- Every part is well-formed and says what it should ----

  /** The names of the fields of an audio part, in lower case. */
  function LowerNames(): (names: seq<bytes>)
    ensures |names| == 8
  {
    [Ascii8("content-type"), Ascii8("content-length"), Ascii8("x-sequence"), Ascii8("x-first-codec-frame"),
     Ascii8("x-first-sample"), Ascii8("x-sample-count"), Ascii8("x-codec-frames"), Ascii8("x-final")]
  }

  lemma LowerNamesDiffer()
    ensures forall i, j | 0 <= i < j < 8 :: LowerNames()[i] != LowerNames()[j]
  {
    NamesDiffer();
    LengthDiffers();
    var n := LowerNames();
    assert |n[0]| == 12 && |n[1]| == 14 && |n[2]| == 10 && |n[3]| == 19 && |n[4]| == 14 && |n[5]| == 14 && |n[6]| == 14
           && |n[7]| == 7;
    hide Ascii8;
    assert n[4] != n[5] && n[4] != n[6] && n[5] != n[6] && n[1] != n[4] && n[1] != n[5] && n[1] != n[6];
  }

  lemma LengthDiffers()
    ensures Ascii8("content-length")[1] == 111 && Ascii8("x-first-sample")[1] == 45 && Ascii8("x-sample-count")[1] == 45
            && Ascii8("x-codec-frames")[1] == 45
  {
  }

  lemma AudioNames(p: EnginePacket)
    ensures var fields := AudioPartOf(p).fields;
            && |fields| == 8 && (forall i | 0 <= i < 8 :: LowerAll(fields[i].0) == LowerNames()[i])
            && DistinctNames(fields)
  {
    hide Ascii8, LowerAll, PrintUnsigned, AudioType, PlainName;
    TypeName();
    LengthNames();
    SequenceName();
    FrameBaseName();
    SampleBaseName();
    SampleCountName();
    FrameCountName();
    FinalName();
    LowerNamesDiffer();
    var fields, n := AudioPartOf(p).fields, LowerNames();
    assert LowerAll(fields[0].0) == n[0] && LowerAll(fields[1].0) == n[1] && LowerAll(fields[2].0) == n[2]
           && LowerAll(fields[3].0) == n[3] && LowerAll(fields[4].0) == n[4] && LowerAll(fields[5].0) == n[5]
           && LowerAll(fields[6].0) == n[6] && LowerAll(fields[7].0) == n[7];
  }

  lemma TypeField(rate: nat, channels: nat)
    requires rate < 100_000 && channels < 100_000
    ensures PlainField((Ascii8("Content-Type"), AudioType(rate, channels)))
  {
    hide PlainName, PrintUnsigned;
    TypeName();
    PrintedIsWord(rate);
    PrintedIsWord(channels);
    FiveDigits();
    PrintedLength(rate, 5);
    PrintedLength(channels, 5);
    TypeIsVisible(PrintUnsigned(rate, 10), PrintUnsigned(channels, 10));
  }

  lemma FiveDigits()
    ensures Tens(5) == 100_000
  {
  }

  lemma TypeIsVisible(x: bytes, y: bytes)
    requires Word(x) && Word(y)
    ensures forall b | b in Ascii8("audio/pcm;rate=") + x + Ascii8(";channels=") + y + Ascii8(";format=s16le") ::
              33 <= b <= 126
  {
    hide Ascii8;
    MediaLiteral();
    ChannelsLiteral();
    FormatLiteral();
  }

  lemma FlagField(name: bytes, flag: bool)
    requires PlainName(name) && |name| <= 19
    ensures PlainField((name, Ascii8(if flag then "true" else "false")))
  {
    hide PlainName;
    assert Ascii8("true") == [116, 114, 117, 101];
    assert Ascii8("false") == [102, 97, 108, 115, 101];
  }

  lemma AudioPartIsValid(p: EnginePacket)
    requires Packable(p)
    ensures ValidPart(AudioPartOf(p))
  {
    hide Ascii8, LowerAll, PrintUnsigned, AudioType, PlainName, PlainField, ValidPart, DistinctNames;
    AudioNames(p);
    TypeName();
    LengthNames();
    SequenceName();
    FrameBaseName();
    SampleBaseName();
    SampleCountName();
    FrameCountName();
    FinalName();
    TypeField(24_000, 1);
    NumberField(Ascii8("Content-Length"), |p.pcm|);
    NumberField(Ascii8("X-Sequence"), p.sequence);
    NumberField(Ascii8("X-First-Codec-Frame"), p.firstCodecFrame);
    NumberField(Ascii8("X-First-Sample"), p.firstSample);
    NumberField(Ascii8("X-Sample-Count"), |p.pcm| / 2);
    NumberField(Ascii8("X-Codec-Frames"), p.codecFrames);
    FlagField(Ascii8("X-Final"), p.isFinal);
    PlainPartIsValid(AudioPartOf(p));
  }

  /** What the client reads from the headers of an audio part is what the server put there. */
  lemma AudioPartReads(p: EnginePacket, part: Part)
    requires Packable(p) && part.headers == FieldMap(AudioPartOf(p).fields)
    ensures KindOf(part) == AudioPart
    ensures ReadAudioHeader(part)
            == Some(AudioHeader(p.sequence, p.firstCodecFrame, p.firstSample, |p.pcm| / 2, p.codecFrames, p.isFinal))
  {
    hide Ascii8, LowerAll, PrintUnsigned, ParseUnsigned, AudioType, PlainName, FieldMap, DistinctNames, KindOf;
    var fields := AudioPartOf(p).fields;
    AudioNames(p);
    forall i | 0 <= i < 8
      ensures LowerNames()[i] in part.headers && part.headers[LowerNames()[i]] == fields[i].1
    {
      FieldThere(fields, i);
    }
    assert LowerNames()[0] in part.headers && LowerNames()[2] in part.headers && LowerNames()[3] in part.headers
           && LowerNames()[4] in part.headers && LowerNames()[5] in part.headers && LowerNames()[6] in part.headers
           && LowerNames()[7] in part.headers;
    AudioPartIff(part, 24_000, 1);
    NamesDiffer();
    PrintParse(p.sequence, 10, U64_LIMIT);
    PrintParse(p.firstCodecFrame, 10, U64_LIMIT);
    PrintParse(p.firstSample, 10, U64_LIMIT);
    PrintParse(|p.pcm| / 2, 10, U64_LIMIT);
    PrintParse(p.codecFrames, 10, U64_LIMIT);
  }

  lemma JsonNames(payload: bytes)
    ensures var fields := JsonPart(payload).fields;
            && |fields| == 2 && LowerAll(fields[0].0) == Ascii8("content-type") && DistinctNames(fields)
  {
    hide Ascii8, LowerAll, PrintUnsigned, PlainName;
    TypeName();
    LengthNames();
    LowerNamesDiffer();
    assert LowerNames()[0] != LowerNames()[1];
  }

  lemma JsonPartIsValid(payload: bytes)
    requires |payload| <= 512 * 1024 * 1024
    ensures ValidPart(JsonPart(payload))
  {
    hide Ascii8, LowerAll, PrintUnsigned, PlainName, ValidPart, DistinctNames;
    JsonNames(payload);
    TypeName();
    LengthNames();
    JsonType();
    NumberField(Ascii8("Content-Length"), |payload|);
    PlainPartIsValid(JsonPart(payload));
  }

  lemma JsonPartReads(payload: bytes, part: Part)
    requires part.headers == FieldMap(JsonPart(payload).fields)
    ensures KindOf(part) == EventPart
  {
    hide Ascii8, LowerAll, PrintUnsigned, FieldMap, DistinctNames, KindOf;
    JsonNames(payload);
    FieldThere(JsonPart(payload).fields, 0);
    JsonPartIsEvent(part);
  }

  // ---- A whole stream ----

  function FramesUpTo(packets: seq<EnginePacket>): nat {
    if packets == [] then 0 else FramesUpTo(packets[..|packets| - 1]) + packets[|packets| - 1].codecFrames
  }

  function BytesUpTo(packets: seq<EnginePacket>): nat {
    if packets == [] then 0 else BytesUpTo(packets[..|packets| - 1]) + |packets[|packets| - 1].pcm|
  }

  /** Packet `i` carries whole samples, takes its place behind the packets before it, with a 64-bit frame counter,
      and only the last one is final. */
  predicate InPlaceAt(packets: seq<EnginePacket>, i: nat)
    requires i < |packets|
  {
    var p := packets[i];
    && 0 < |p.pcm| <= 512 * 1024 * 1024 && |p.pcm| % 2 == 0 && 0 < p.codecFrames < 0x1_0000_0000_0000_0000
    && p.sequence == i && 2 * p.firstSample == BytesUpTo(packets[..i])
    && p.firstCodecFrame == FramesUpTo(packets[..i]) % 0x1_0000_0000_0000_0000
    && p.isFinal == (i == |packets| - 1)
  }

  /** The packets of one request: at least one, each in its place, and fewer than 2^32 samples in all. */
  predicate PacketStream(packets: seq<EnginePacket>) {
    packets != [] && (forall i | 0 <= i < |packets| :: InPlaceAt(packets, i)) && BytesUpTo(packets) < 2 * 0x1_0000_0000
  }

  function AudioParts(packets: seq<EnginePacket>): (r: seq<WirePart>)
    ensures |r| == |packets|
  {
    seq(|packets|, i requires 0 <= i < |packets| => AudioPartOf(packets[i]))
  }

  /** A start event, the packets and an end event. */
  function StreamParts(start: bytes, packets: seq<EnginePacket>, end: bytes): (r: seq<WirePart>)
    ensures |r| == |packets| + 2
  {
    [JsonPart(start)] + AudioParts(packets) + [JsonPart(end)]
  }

  /** The events of this payload and no other are what the server means by them. */
  predicate StartsStream(event: Option<JsonEvent>, id: bytes) {
    && event.Some? && event.value.eventType == StartEvent && event.value.requestId == Some(id)
    && event.value.audio == Some(AudioDescription("pcm_s16le", 24_000, 1, 1920))
  }

  predicate EndsStream(event: Option<JsonEvent>, id: bytes, packets: seq<EnginePacket>) {
    && event.Some? && event.value.eventType == EndEvent && event.value.requestId == Some(id)
    && (event.value.finishReason == Some(FinishReason.Stop) || event.value.finishReason == Some(Length))
    && event.value.metrics == Some(EndMetrics(Some(|packets|), Some(BytesUpTo(packets) / 2)))
  }

  /** The first event is accepted exactly if it starts a stream of this request in the native format. */
  lemma StartAcceptedIff(id: bytes, event: JsonEvent)
    ensures AfterEvent(NOTHING_SEEN, id, event).Some? <==> StartsStream(Some(event), id)
  {
  }

  /** Behind the packets an event is accepted exactly if it ends the stream of this request with a known reason and
      the true totals. */
  lemma EndAcceptedIff(packets: seq<EnginePacket>, parts: seq<Part>, id: bytes, event: JsonEvent)
    requires packets != [] && |parts| == |packets|
    ensures AfterEvent(Standing(packets, parts, |packets|), id, event).Some? <==> EndsStream(Some(event), id, packets)
  {
    hide BytesUpTo, FramesUpTo;
    assert packets[..|packets|] == packets;
  }

  /** What all parts together do to the protocol. */
  function AfterParts(p: Protocol, id: bytes, parts: seq<Part>,
                      parseEvent: bytes -> Option<JsonEvent>): Option<Protocol>
    decreases |parts|
  {
    if parts == [] then Some(p)
    else match AfterPart(p, id, parts[0], parseEvent)
      case None => None
      case Some(q) => AfterParts(q, id, parts[1..], parseEvent)
  }

  /** The verdict on a response is that on its parts, where it has parts at all. */
  lemma {:induction false} VerdictOnParts(lines: Boundaries, input: seq<TimedByte>, p: Protocol, id: bytes,
                                          parseEvent: bytes -> Option<JsonEvent>)
    requires ParseParts(lines, input).Some?
    ensures Verdict(lines, input, p, id, parseEvent) == AfterParts(p, id, ParseParts(lines, input).value, parseEvent)
    decreases |input|
  {
    hide ParsePart, AfterPart;
    var flat := ParsePart(lines, input).value;
    var parts := ParseParts(lines, input).value;
    if flat.final {
      assert parts[1..] == [];
    } else {
      assert parts[1..] == ParseParts(lines, flat.rest).value;
      var next := AfterPart(p, id, flat.part, parseEvent);
      if next.Some? {
        VerdictOnParts(lines, flat.rest, next.value, id, parseEvent);
      }
    }
  }

  lemma {:induction false} AfterPartsConcat(p: Protocol, id: bytes, a: seq<Part>, b: seq<Part>,
                                            parseEvent: bytes -> Option<JsonEvent>)
    ensures AfterParts(p, id, a + b, parseEvent)
         == match AfterParts(p, id, a, parseEvent)
            case None => None
            case Some(q) => AfterParts(q, id, b, parseEvent)
    decreases |a|
  {
    hide AfterPart;
    if a == [] {
      assert a + b == b;
    } else {
      assert (a + b)[0] == a[0] && (a + b)[1..] == a[1..] + b;
      var next := AfterPart(p, id, a[0], parseEvent);
      if next.Some? {
        AfterPartsConcat(next.value, id, a[1..], b, parseEvent);
      }
    }
  }

  /** The parts that a client reads are those that were written, with the times of their payloads. */
  predicate ReadFrom(part: Part, written: WirePart) {
    && part.headers == FieldMap(written.fields) && part.payload == written.payload
    && (part.payload != [] ==> part.firstPayloadAt.Some?)
  }

  lemma {:induction false} LocatedAreRead(parts: seq<WirePart>, lines: Boundaries, input: seq<TimedByte>)
    requires parts != [] && |input| == |EncodeParts(parts, lines)|
    ensures |Located(parts, lines, input)| == |parts|
    ensures forall i | 0 <= i < |parts| :: ReadFrom(Located(parts, lines, input)[i], parts[i])
  {
    hide EncodePart, HeaderBlock, FieldMap;
    var part := parts[0];
    var start := |HeaderBlock(part)| + 4;
    PayloadIsInside(part, lines);
    assert input[start..start + |part.payload|] != [] || part.payload == [];
    if |parts| > 1 {
      LocatedAreRead(parts[1..], lines, input[|EncodePart(part, lines.open)|..]);
      forall i | 0 < i < |parts|
        ensures ReadFrom(Located(parts, lines, input)[i], parts[i])
      {
        assert parts[i] == parts[1..][i - 1];
      }
    }
  }

  lemma PayloadIsInside(part: WirePart, lines: Boundaries)
    ensures |HeaderBlock(part)| + 4 + |part.payload| <= |EncodePart(part, lines.open)|
            && |HeaderBlock(part)| + 4 + |part.payload| <= |EncodePart(part, lines.close)|
  {
    hide HeaderBlock;
  }

  /** Where the protocol stands after the start and some audio parts. */
  function Standing(packets: seq<EnginePacket>, parts: seq<Part>, n: nat): Protocol
    requires n <= |packets| == |parts|
  {
    Protocol(true, false, n > 0 && packets[n - 1].isFinal, n, BytesUpTo(packets[..n]) / 2,
             FramesUpTo(packets[..n]) % 0x1_0000_0000_0000_0000, parts[..n], None)
  }

  lemma TotalsUpTo(packets: seq<EnginePacket>, n: nat)
    requires n < |packets|
    ensures BytesUpTo(packets[..n + 1]) == BytesUpTo(packets[..n]) + |packets[n].pcm|
    ensures FramesUpTo(packets[..n + 1]) == FramesUpTo(packets[..n]) + packets[n].codecFrames
  {
    assert packets[..n + 1][..n] == packets[..n];
  }

  lemma {:induction false} BytesGrow(packets: seq<EnginePacket>, n: nat)
    requires n <= |packets| && forall i | 0 <= i < |packets| :: InPlaceAt(packets, i)
    ensures BytesUpTo(packets[..n]) <= BytesUpTo(packets) && BytesUpTo(packets[..n]) % 2 == 0
    ensures 2 * n <= BytesUpTo(packets[..n])
    decreases |packets| - n
  {
    EvenBytes(packets, n);
    if n == |packets| {
      assert packets[..n] == packets;
    } else {
      TotalsUpTo(packets, n);
      BytesGrow(packets, n + 1);
    }
  }

  lemma {:induction false} EvenBytes(packets: seq<EnginePacket>, n: nat)
    requires n <= |packets| && forall i | 0 <= i < |packets| :: InPlaceAt(packets, i)
    ensures BytesUpTo(packets[..n]) % 2 == 0 && 2 * n <= BytesUpTo(packets[..n])
  {
    if n > 0 {
      EvenBytes(packets, n - 1);
      TotalsUpTo(packets, n - 1);
      assert InPlaceAt(packets, n - 1);
    }
  }

  /** The next audio part is welcome and moves the protocol on. */
  lemma NextAudio(packets: seq<EnginePacket>, parts: seq<Part>, n: nat, id: bytes,
                  parseEvent: bytes -> Option<JsonEvent>)
    requires PacketStream(packets) && n < |packets| == |parts|
    requires ReadFrom(parts[n], AudioPartOf(packets[n]))
    ensures AfterPart(Standing(packets, parts, n), id, parts[n], parseEvent) == Some(Standing(packets, parts, n + 1))
  {
    hide FieldMap, FramesUpTo, BytesUpTo, ReadAudioHeader, KindOf, InPlaceAt;
    BytesGrow(packets, n);
    BytesGrow(packets, n + 1);
    TotalsUpTo(packets, n);
    NextHeader(packets, parts, n);
    WrapAdd(FramesUpTo(packets[..n]), packets[n].codecFrames);
    WrapSmall(n + 1);
    WrapSmall(BytesUpTo(packets[..n + 1]) / 2);
    assert parts[..n + 1] == parts[..n] + [parts[n]];
  }

  lemma NextHeader(packets: seq<EnginePacket>, parts: seq<Part>, n: nat)
    requires PacketStream(packets) && n < |packets| == |parts|
    requires ReadFrom(parts[n], AudioPartOf(packets[n]))
    ensures var p := packets[n];
            && 0 < |p.pcm| <= 512 * 1024 * 1024 && |p.pcm| % 2 == 0 && 0 < p.codecFrames
            && parts[n].payload == p.pcm && parts[n].firstPayloadAt.Some?
            && KindOf(parts[n]) == AudioPart
            && ReadAudioHeader(parts[n])
               == Some(AudioHeader(n, FramesUpTo(packets[..n]) % 0x1_0000_0000_0000_0000, BytesUpTo(packets[..n]) / 2,
                                   |p.pcm| / 2, p.codecFrames, p.isFinal))
            && (n > 0 ==> !packets[n - 1].isFinal)
  {
    hide FieldMap, FramesUpTo, BytesUpTo, ReadAudioHeader, KindOf;
    BytesGrow(packets, n);
    assert InPlaceAt(packets, n);
    assert n > 0 ==> InPlaceAt(packets, n - 1);
    AudioPartReads(packets[n], parts[n]);
  }

  lemma {:induction false} AudioAccepted(packets: seq<EnginePacket>, parts: seq<Part>, n: nat, id: bytes,
                                         parseEvent: bytes -> Option<JsonEvent>)
    requires PacketStream(packets) && n <= |packets| == |parts|
    requires forall i | 0 <= i < |packets| :: ReadFrom(parts[i], AudioPartOf(packets[i]))
    ensures AfterParts(Standing(packets, parts, n), id, parts[n..], parseEvent)
            == Some(Standing(packets, parts, |packets|))
    decreases |packets| - n
  {
    hide AfterPart, ReadFrom, AudioPartOf, PacketStream, Standing;
    if n < |packets| {
      NextAudio(packets, parts, n, id, parseEvent);
      AudioAccepted(packets, parts, n + 1, id, parseEvent);
      assert parts[n..][1..] == parts[n + 1..];
    } else {
      assert parts[n..] == [];
    }
  }

  /** The protocol takes the events and the packets of a stream and is finished at its end. */
  lemma StreamAccepted(first: Part, audio: seq<Part>, last: Part, start: bytes, packets: seq<EnginePacket>, end: bytes,
                       id: bytes, parseEvent: bytes -> Option<JsonEvent>)
    requires PacketStream(packets) && |audio| == |packets|
    requires ReadFrom(first, JsonPart(start)) && ReadFrom(last, JsonPart(end))
    requires forall i | 0 <= i < |packets| :: ReadFrom(audio[i], AudioPartOf(packets[i]))
    requires StartsStream(parseEvent(start), id) && EndsStream(parseEvent(end), id, packets)
    ensures AfterParts(NOTHING_SEEN, id, [first] + (audio + [last]), parseEvent)
            == Some(Ending(packets, audio, parseEvent(end).value.finishReason))
  {
    hide ReadFrom, AfterPart, PacketStream, StartsStream, EndsStream, Standing, Ending, AfterParts, AudioPartOf;
    hide JsonPart;
    StartTaken(first, start, id, parseEvent);
    NothingStands(packets, audio);
    assert audio[0..] == audio;
    AudioAccepted(packets, audio, 0, id, parseEvent);
    EndTaken(packets, audio, last, end, id, parseEvent);
    Surrounded(first, audio, last, NOTHING_SEEN.(startSeen := true), Standing(packets, audio, |packets|), id,
               parseEvent);
  }

  /** Where the protocol stands at the end of a stream. */
  function Ending(packets: seq<EnginePacket>, audio: seq<Part>, reason: Option<FinishReason>): Protocol {
    Protocol(true, true, true, |packets|, BytesUpTo(packets) / 2,
             FramesUpTo(packets) % 0x1_0000_0000_0000_0000, audio, reason)
  }

  lemma Surrounded(first: Part, audio: seq<Part>, last: Part, begun: Protocol, ended: Protocol, id: bytes,
                   parseEvent: bytes -> Option<JsonEvent>)
    requires AfterPart(NOTHING_SEEN, id, first, parseEvent) == Some(begun)
             && AfterParts(begun, id, audio, parseEvent) == Some(ended)
    ensures AfterParts(NOTHING_SEEN, id, [first] + (audio + [last]), parseEvent)
            == AfterPart(ended, id, last, parseEvent)
  {
    hide AfterPart, AfterParts;
    AfterPartsConcat(NOTHING_SEEN, id, [first], audio + [last], parseEvent);
    AfterPartsConcat(begun, id, audio, [last], parseEvent);
    OnePart(NOTHING_SEEN, id, first, parseEvent);
    OnePart(ended, id, last, parseEvent);
  }

  lemma PartsRead(parts: seq<Part>, start: bytes, packets: seq<EnginePacket>, end: bytes)
    requires |parts| == |packets| + 2
    requires forall i | 0 <= i < |parts| :: ReadFrom(parts[i], StreamParts(start, packets, end)[i])
    ensures ReadFrom(parts[0], JsonPart(start)) && ReadFrom(parts[|packets| + 1], JsonPart(end))
    ensures forall i | 0 <= i < |packets| :: ReadFrom(parts[1..|packets| + 1][i], AudioPartOf(packets[i]))
  {
    hide ReadFrom, JsonPart, AudioPartOf;
    forall i | 0 <= i < |packets|
      ensures ReadFrom(parts[1..|packets| + 1][i], AudioPartOf(packets[i]))
    {
      assert StreamParts(start, packets, end)[i + 1] == AudioPartOf(packets[i]);
      assert ReadFrom(parts[i + 1], StreamParts(start, packets, end)[i + 1]);
    }
  }

  lemma StartTaken(part: Part, start: bytes, id: bytes, parseEvent: bytes -> Option<JsonEvent>)
    requires ReadFrom(part, JsonPart(start)) && StartsStream(parseEvent(start), id)
    ensures AfterPart(NOTHING_SEEN, id, part, parseEvent) == Some(NOTHING_SEEN.(startSeen := true))
  {
    hide FieldMap, KindOf;
    JsonPartReads(start, part);
  }

  lemma NothingStands(packets: seq<EnginePacket>, parts: seq<Part>)
    requires |packets| == |parts|
    ensures Standing(packets, parts, 0) == NOTHING_SEEN.(startSeen := true)
  {
    assert packets[..0] == [] && parts[..0] == [];
  }

  lemma EndTaken(packets: seq<EnginePacket>, audio: seq<Part>, part: Part, end: bytes, id: bytes,
                 parseEvent: bytes -> Option<JsonEvent>)
    requires PacketStream(packets) && |audio| == |packets|
    requires ReadFrom(part, JsonPart(end)) && EndsStream(parseEvent(end), id, packets)
    ensures AfterPart(Standing(packets, audio, |packets|), id, part, parseEvent)
            == Some(Ending(packets, audio, parseEvent(end).value.finishReason))
  {
    hide FieldMap, KindOf, BytesUpTo, FramesUpTo;
    JsonPartReads(end, part);
    assert packets[..|packets|] == packets && audio[..|packets|] == audio;
    assert InPlaceAt(packets, |packets| - 1);
  }

  lemma OnePart(p: Protocol, id: bytes, part: Part, parseEvent: bytes -> Option<JsonEvent>)
    ensures AfterParts(p, id, [part], parseEvent) == AfterPart(p, id, part, parseEvent)
  {
    hide AfterPart;
    assert [part][1..] == [];
  }

  /** A stream that the server writes is read as a finished stream, with one audio part for every packet, and its
      header blocks fit wherever the segments of the body end. */
  lemma StreamIsFinished(boundary: bytes, start: bytes, packets: seq<EnginePacket>, end: bytes, input: seq<TimedByte>,
                         id: bytes, parseEvent: bytes -> Option<JsonEvent>) returns (q: Protocol)
    requires LegalBoundary(boundary) && PacketStream(packets)
    requires |start| <= 512 * 1024 * 1024 && |end| <= 512 * 1024 * 1024
    requires Plain(input) == EncodeMultipart(StreamParts(start, packets, end), boundary)
    requires StartsStream(parseEvent(start), id) && EndsStream(parseEvent(end), id, packets)
    ensures var lines := BoundaryLines(boundary);
            && VerdictOf(lines, ParseOpening(lines, input), NOTHING_SEEN, id, parseEvent) == Some(q) && Finished(q)
            && forall ends :: FitsFrom(lines, ParseOpening(lines, input), ends)
    ensures q.sequence == |packets| == |q.audio| && 2 * q.sample == BytesUpTo(packets)
            && q.reason == parseEvent(end).value.finishReason
    ensures forall i | 0 <= i < |packets| ::
              && q.audio[i].payload == packets[i].pcm && ReadAudioHeader(q.audio[i]).Some?
              && ReadAudioHeader(q.audio[i]).value.codecFrames == packets[i].codecFrames
  {
    hide ParsePart, ParseOpening, ParseParts, AfterPart, BytesUpTo, FramesUpTo, ReadFrom, ReadAudioHeader;
    hide LegalBoundary;
    hide Verdict, StartsStream, PacketStream, FitsFrom, EncodeMultipart, AfterParts, StreamParts;
    var lines, n := BoundaryLines(boundary), |packets|;
    var read := StreamRead(boundary, start, packets, end, input);
    VerdictOnParts(lines, ParseOpening(lines, input).value, NOTHING_SEEN, id, parseEvent);
    PartsRead(read, start, packets, end);
    StreamAccepted(read[0], read[1..n + 1], read[n + 1], start, packets, end, id, parseEvent);
    assert read == [read[0]] + (read[1..n + 1] + [read[n + 1]]);
    q := Ending(packets, read[1..n + 1], parseEvent(end).value.finishReason);
    EndIsFinished(packets, read[1..n + 1], parseEvent(end).value.finishReason);
    forall i | 0 <= i < n
      ensures q.audio[i].payload == packets[i].pcm && ReadAudioHeader(q.audio[i]).Some?
              && ReadAudioHeader(q.audio[i]).value.codecFrames == packets[i].codecFrames
    {
      ReadPacket(packets, i, q.audio[i]);
    }
  }

  lemma EndIsFinished(packets: seq<EnginePacket>, audio: seq<Part>, reason: Option<FinishReason>)
    requires PacketStream(packets)
    ensures Finished(Ending(packets, audio, reason)) && 2 * Ending(packets, audio, reason).sample == BytesUpTo(packets)
  {
    BytesAreEven(packets);
  }

  /** The client cuts the body into the parts that were written. */
  lemma StreamRead(boundary: bytes, start: bytes, packets: seq<EnginePacket>, end: bytes, input: seq<TimedByte>)
    returns (read: seq<Part>)
    requires LegalBoundary(boundary) && PacketStream(packets)
    requires |start| <= 512 * 1024 * 1024 && |end| <= 512 * 1024 * 1024
    requires Plain(input) == EncodeMultipart(StreamParts(start, packets, end), boundary)
    ensures var lines, parts := BoundaryLines(boundary), StreamParts(start, packets, end);
            && ParseOpening(lines, input).Some? && ParseParts(lines, ParseOpening(lines, input).value) == Some(read)
            && (forall ends :: FitsFrom(lines, ParseOpening(lines, input), ends))
            && |read| == |parts| && forall i | 0 <= i < |parts| :: ReadFrom(read[i], parts[i])
  {
    hide ParsePart, ParseOpening, Located, EncodeParts, EncodeMultipart, AllFit, ParseParts, ReadFrom, ValidPart;
    hide PacketStream, StreamParts, LegalBoundary;
    var lines, parts := BoundaryLines(boundary), StreamParts(start, packets, end);
    StreamPartsValid(start, packets, end);
    PartsHaveFields(start, packets, end);
    MultipartRoundTrip(parts, boundary, input);
    read := ParseParts(lines, ParseOpening(lines, input).value).value;
    LocatedAreRead(parts, lines, input[|lines.open| + 2..]);
    forall ends
      ensures FitsFrom(lines, ParseOpening(lines, input), ends)
    {
      assert Acceptable(lines, input, ends);
    }
  }

  lemma BytesAreEven(packets: seq<EnginePacket>)
    requires PacketStream(packets)
    ensures BytesUpTo(packets) % 2 == 0
  {
    assert packets[..|packets|] == packets;
    EvenBytes(packets, |packets|);
  }

  lemma ReadPacket(packets: seq<EnginePacket>, i: nat, part: Part)
    requires PacketStream(packets) && i < |packets| && ReadFrom(part, AudioPartOf(packets[i]))
    ensures part.payload == packets[i].pcm && ReadAudioHeader(part).Some?
            && ReadAudioHeader(part).value.codecFrames == packets[i].codecFrames
  {
    hide FieldMap, ReadAudioHeader, FramesUpTo, BytesUpTo, KindOf;
    assert InPlaceAt(packets, i);
    BytesGrow(packets, i);
    AudioPartReads(packets[i], part);
  }

  lemma StreamPartsValid(start: bytes, packets: seq<EnginePacket>, end: bytes)
    requires PacketStream(packets) && |start| <= 512 * 1024 * 1024 && |end| <= 512 * 1024 * 1024
    ensures forall p | p in StreamParts(start, packets, end) :: ValidPart(p)
  {
    hide ValidPart, AudioPartOf, JsonPart, BytesUpTo, FramesUpTo;
    JsonPartIsValid(start);
    JsonPartIsValid(end);
    forall i | 0 <= i < |packets|
      ensures ValidPart(AudioPartOf(packets[i]))
    {
      assert InPlaceAt(packets, i);
      BytesGrow(packets, i);
      AudioPartIsValid(packets[i]);
    }
  }

  // ---- The bytes on the wire ----

  /** The parts of a multipart body as the server writes them, one behind the other, and the closing line. */
  function Written(parts: seq<WirePart>, boundary: bytes): bytes {
    if parts == [] then Ascii8("--") + boundary + Ascii8("--\r\n")
    else
      Ascii8("--") + boundary + Ascii8("\r\n") + PrintedFields(parts[0].fields) + Ascii8("\r\n") + parts[0].payload
      + Ascii8("\r\n") + Written(parts[1..], boundary)
  }

  lemma LineLiterals(boundary: bytes)
    ensures Ascii8("--") + boundary == BoundaryLines(boundary).open && Ascii8("\r\n") == CRLF
    ensures Ascii8("--") + boundary + Ascii8("--\r\n") == BoundaryLines(boundary).close + CRLF
  {
    assert Ascii8("--") == [DASH, DASH];
    assert Ascii8("--\r\n") == [DASH, DASH] + CRLF;
  }

  lemma PartWritten(part: WirePart, boundary: bytes, line: bytes, tail: bytes)
    requires part.fields != []
    ensures Ascii8("--") + boundary + Ascii8("\r\n") + PrintedFields(part.fields) + Ascii8("\r\n") + part.payload
            + Ascii8("\r\n") + (line + CRLF + tail)
         == BoundaryLines(boundary).open + CRLF + (EncodePart(part, line) + tail)
  {
    hide Ascii8, PrintedFields, JoinLines, BoundaryLines;
    LineLiterals(boundary);
    FieldsPrinted(part.fields);
    var open, block := BoundaryLines(boundary).open, HeaderBlock(part);
    assert PrintedFields(part.fields) == block + CRLF;
    assert CRLFCRLF == CRLF + CRLF;
    Spliced(open, block, part.payload, line, tail);
  }

  lemma Spliced(open: bytes, block: bytes, payload: bytes, line: bytes, tail: bytes)
    ensures open + CRLF + (block + CRLF) + CRLF + payload + CRLF + (line + CRLF + tail)
         == open + CRLF + ((block + (CRLF + CRLF) + (payload + (CRLF + (line + CRLF)))) + tail)
  {
  }

  lemma {:induction false} WrittenIsEncoded(parts: seq<WirePart>, boundary: bytes)
    requires parts != [] && forall p | p in parts :: p.fields != []
    ensures Written(parts, boundary) == EncodeMultipart(parts, boundary)
  {
    hide Ascii8, PrintedFields, EncodePart, BoundaryLines;
    var lines, part := BoundaryLines(boundary), parts[0];
    assert part in parts;
    LineLiterals(boundary);
    if |parts| == 1 {
      assert parts[1..] == [];
      PartWritten(part, boundary, lines.close, []);
      assert lines.close + CRLF + [] == lines.close + CRLF;
      assert EncodePart(part, lines.close) + [] == EncodePart(part, lines.close);
    } else {
      WrittenIsEncoded(parts[1..], boundary);
      PartWritten(part, boundary, lines.open, EncodeParts(parts[1..], lines));
    }
  }

  /** The content type of a native response, with its boundary plain or in quotes. */
  function StreamType(boundary: bytes, quoted: bool): bytes {
    if quoted then Ascii8("multipart/mixed; boundary=\"") + boundary + Ascii8("\"")
    else Ascii8("multipart/mixed; boundary=") + boundary
  }

  lemma TypeLiteral()
    ensures Ascii8("multipart/mixed; boundary=")
            == ContentType.MULTIPART_MIXED + [SEMICOLON] + ([SPACE] + ContentType.BOUNDARY + [EQUALS])
  {
  }

  lemma QuotedTypeLiteral()
    ensures Ascii8("multipart/mixed; boundary=\"") == Ascii8("multipart/mixed; boundary=") + [QUOTE]
    ensures Ascii8("\"") == [QUOTE]
  {
  }

  lemma JoinedAnnouncement(value: bytes)
    ensures ContentType.Join(ContentType.Announcement(value))
            == ContentType.MULTIPART_MIXED + [SEMICOLON] + ([SPACE] + ContentType.BOUNDARY + [EQUALS]) + value
  {
    var fields := ContentType.Announcement(value);
    assert fields[..1] == [ContentType.MULTIPART_MIXED];
  }

  lemma StreamTypeAnnounces(boundary: bytes, quoted: bool)
    requires LegalBoundary(boundary) && (quoted || boundary[0] != 32)
    ensures AnnouncedBy(StreamType(boundary, quoted), boundary)
  {
    hide LegalBoundary, Ascii8, ContentType.Announces, ContentType.Field, ContentType.Escape, ContentType.Join;
    hide ContentType.Announcement;
    TypeLiteral();
    if quoted {
      QuotedTypeLiteral();
      ContentType.QuotedBoundaryIsFound(boundary);
      ContentType.BoundaryIsPlain(boundary);
      ContentType.NothingToEscape(boundary);
      JoinedAnnouncement(ContentType.Quote(boundary));
      assert StreamType(boundary, quoted) == ContentType.Join(ContentType.Announcement(ContentType.Quote(boundary)));
    } else {
      ContentType.PlainBoundaryIsFoundIff(boundary);
      JoinedAnnouncement(boundary);
      assert StreamType(boundary, quoted) == ContentType.Join(ContentType.Announcement(boundary));
    }
  }

  /** A response with a good status, these fields and a chunked body of these parts, in reads of any size. */
  ghost predicate SendsStream(wire: Wire, status: nat, reason: bytes, front: seq<(bytes, bytes)>,
                              back: seq<(bytes, bytes)>, chunks: seq<Chunk>, last: Chunk, trailers: seq<bytes>,
                              parts: seq<WirePart>, boundary: bytes, quoted: bool, id: bytes) {
    var fields := front + [(Ascii8("Transfer-Encoding"), Ascii8("chunked"))] + back;
    && 200 <= status < 300 && Readable(status, reason, fields) && OnlyOne(front, back)
    && Sends(wire, status, reason, fields, EncodeChunked(chunks, last, trailers))
    && ValidMessage(chunks, last, trailers)
    && ChunkData(chunks) == Written(parts, boundary)
    && FieldValues(fields, Ascii8("content-type")) == [StreamType(boundary, quoted)]
    && FieldValues(fields, Ascii8("x-request-id")) == [id]
  }

  lemma HeadersOfStream(wire: Wire, status: nat, reason: bytes, fields: seq<(bytes, bytes)>, body: bytes, name: bytes,
                        value: bytes)
    requires Readable(status, reason, fields) && Sends(wire, status, reason, fields, body) && AnswerOf(wire).Some?
    requires FieldValues(fields, name) == [value]
    ensures var headers := AnswerOf(wire).value.head.headers; name in headers && headers[name] == value
  {
    hide Readable, Sends, HeadText, HttpHead.ParseHead, AnswerOf, HttpHead.HeadOf, HttpHead.SelectTransfer, Decode;
    AnswerBehindHead(wire, status, reason, fields, body);
    HeaderIs(status, reason, fields, name, [value]);
  }

  /** What the server sends for a request that ends well reads as a finished stream with its packets. */
  lemma StreamResponse(wire: Wire, status: nat, reason: bytes, front: seq<(bytes, bytes)>, back: seq<(bytes, bytes)>,
                       chunks: seq<Chunk>, last: Chunk, trailers: seq<bytes>, boundary: bytes, quoted: bool, id: bytes,
                       start: bytes, packets: seq<EnginePacket>, end: bytes,
                       parseEvent: bytes -> Option<JsonEvent>) returns (q: Protocol)
    requires LegalBoundary(boundary) && (quoted || boundary[0] != 32) && PacketStream(packets)
    requires |start| <= 512 * 1024 * 1024 && |end| <= 512 * 1024 * 1024
    requires SendsStream(wire, status, reason, front, back, chunks, last, trailers, StreamParts(start, packets, end),
                         boundary, quoted, id)
    requires StartsStream(parseEvent(start), id) && EndsStream(parseEvent(end), id, packets)
    ensures ReadsAs(Native, true, AnswerOf(wire), parseEvent, StreamOf(q))
    ensures q.sequence == |packets| == |q.audio| && 2 * q.sample == BytesUpTo(packets)
            && q.reason == parseEvent(end).value.finishReason
    ensures forall i | 0 <= i < |packets| ::
              && q.audio[i].payload == packets[i].pcm && ReadAudioHeader(q.audio[i]).Some?
              && ReadAudioHeader(q.audio[i]).value.codecFrames == packets[i].codecFrames
  {
    hide Readable, Sends, AnswerOf, ValidMessage, EncodeChunked, StreamParts, BytesUpTo, FieldValues, StreamType;
    hide Ascii8, ReadAudioHeader, StartsStream, EndsStream, PacketStream, LegalBoundary, ChunkData, Written;
    hide AnnouncedBy;
    hide OnlyOne, Finished, VerdictOf, FitsFrom;
    var fields := front + [(Ascii8("Transfer-Encoding"), Ascii8("chunked"))] + back;
    var body := EncodeChunked(chunks, last, trailers);
    ChunkedResponse(wire, status, reason, front, back, chunks, last, trailers);
    HeadersOfStream(wire, status, reason, fields, body, Ascii8("content-type"), StreamType(boundary, quoted));
    HeadersOfStream(wire, status, reason, fields, body, Ascii8("x-request-id"), id);
    PartsHaveFields(start, packets, end);
    WrittenIsEncoded(StreamParts(start, packets, end), boundary);
    StreamTypeAnnounces(boundary, quoted);
    var answer := AnswerOf(wire).value;
    q := StreamIsFinished(boundary, start, packets, end, answer.body.payload, id, parseEvent);
    assert TakesTo(boundary, id, answer.body, answer.ends, parseEvent, q);
  }

  lemma PartsHaveFields(start: bytes, packets: seq<EnginePacket>, end: bytes)
    ensures StreamParts(start, packets, end) != []
    ensures forall p | p in StreamParts(start, packets, end) :: p.fields != []
  {
  }

  // ---- What is recorded ----

  /** A response that reads as a stream reads as this stream only. */
  lemma StreamReadOnce(answer: Option<Answer>, parseEvent: bytes -> Option<JsonEvent>, q: Protocol, reading: Reading)
    requires ReadsAs(Native, true, answer, parseEvent, StreamOf(q))
             && ReadsAs(Native, true, answer, parseEvent, reading)
    ensures reading == StreamOf(q)
  {
    hide AnnouncedBy, VerdictOf, FitsFrom, Finished, HoldsRecording, Ascii8;
    var headers := answer.value.head.headers;
    var contentType, id := headers[Ascii8("content-type")], headers[Ascii8("x-request-id")];
    var p := reading.end;
    var x :| AnnouncedBy(contentType, x) && TakesTo(x, id, answer.value.body, answer.value.ends, parseEvent, q);
    var y :| AnnouncedBy(contentType, y) && TakesTo(y, id, answer.value.body, answer.value.ends, parseEvent, p);
    OneAnnounced(contentType, x, y);
  }

  lemma {:induction false} SamplesAreHalf(records: seq<PacketRecord>, parts: seq<Part>, arrivals: seq<Instant>,
                                          packets: seq<EnginePacket>, request: Request, t0: Instant, n: nat)
    requires TranscribesAll(records, parts, arrivals) && n <= |records| == |packets|
    requires forall k | 0 <= k < |records| :: Emitted(records, arrivals, k, request, t0)
    requires forall i | 0 <= i < |packets| :: parts[i].payload == packets[i].pcm
    ensures 2 * SamplesBefore(records, n) == BytesUpTo(packets[..n])
  {
    hide BytesBefore, CodecFramesBefore, ReadAudioHeader, PayloadDigest, Milliseconds, Since, DigestText, Wrap;
    if n > 0 {
      SamplesAreHalf(records, parts, arrivals, packets, request, t0, n - 1);
      TotalsUpTo(packets, n - 1);
      assert Emitted(records, arrivals, n - 1, request, t0)
             && Transcribes(records[n - 1], parts[n - 1], arrivals[n - 1]);
    }
  }

  lemma {:induction false} FramesAreSent(parts: seq<Part>, packets: seq<EnginePacket>, n: nat)
    requires n <= |parts| == |packets|
    requires forall i | 0 <= i < |packets| ::
               ReadAudioHeader(parts[i]).Some? && ReadAudioHeader(parts[i]).value.codecFrames == packets[i].codecFrames
    ensures FramesIn(parts[..n]) == FramesUpTo(packets[..n])
  {
    hide ReadAudioHeader;
    if n > 0 {
      FramesAreSent(parts, packets, n - 1);
      TotalsUpTo(packets, n - 1);
      assert parts[..n][..n - 1] == parts[..n - 1];
    }
  }

  /** The request succeeds: a record for every packet, in order, with its length and digest, the true totals, and
      the finish reason. The validator accepts these records exactly if the frames before the last packet can be
      counted in 64 bits. */
  lemma StreamIsRecorded(o: Outcome, wire: Wire, parseEvent: bytes -> Option<JsonEvent>, q: Protocol,
                         packets: seq<EnginePacket>, request: Request, t0: Instant)
    requires Concludes(o, Native, true, AnswerOf(wire), parseEvent, request, t0)
    requires ReadsAs(Native, true, AnswerOf(wire), parseEvent, StreamOf(q)) && PacketStream(packets)
    requires q.sequence == |packets| == |q.audio| && 2 * q.sample == BytesUpTo(packets)
    requires forall i | 0 <= i < |packets| ::
               && q.audio[i].payload == packets[i].pcm && ReadAudioHeader(q.audio[i]).Some?
               && ReadAudioHeader(q.audio[i]).value.codecFrames == packets[i].codecFrames
    ensures o.request.success && o.request.packetCount == |packets| == |o.packets|
            && 2 * o.request.samples == BytesUpTo(packets) && o.request.sampleRateHz == 24_000
            && o.request.finishReason == q.reason
    ensures forall i | 0 <= i < |packets| ::
              o.packets[i].payloadBytes == |packets[i].pcm|
                && o.packets[i].payloadSha256 == PayloadDigest(packets[i].pcm)
    ensures forall i | 0 <= i < |packets| ::
              q.audio[i].firstPayloadAt.Some? && Timed(o.packets[i].arrivalMs, q.audio[i].firstPayloadAt.value, t0)
    ensures o.request.ttfaMs == o.packets[0].arrivalMs
    ensures GroupAccepted(o.packets, o.request, Native)
       <==> FramesUpTo(packets[..|packets| - 1]) < 0x1_0000_0000_0000_0000
  {
    hide AnswerOf, ReadsAs, Emitted, GroupAccepted, WellLabelled, PacketStream, BytesUpTo, FramesUpTo, FramesIn;
    hide ReadAudioHeader, PayloadDigest, Milliseconds, Since, SamplesBefore, Wrap;
    var answer, n := AnswerOf(wire), |packets|;
    var reading :| ReadsAs(Native, true, answer, parseEvent, reading)
                   && Recounts(o, PayloadOf(answer), reading, Native, request, t0);
    StreamReadOnce(answer, parseEvent, q, reading);
    assert packets[..n] == packets;
    SamplesAreHalf(o.packets, q.audio, ArrivalsOf(q.audio), packets, request, t0, n);
    FramesAreSent(q.audio, packets, n - 1);
    SmallStream(packets);
    WrapSmall(n);
    WrapSmall(SamplesBefore(o.packets, n));
    forall i | 0 <= i < n
      ensures q.audio[i].firstPayloadAt.Some? && Timed(o.packets[i].arrivalMs, q.audio[i].firstPayloadAt.value, t0)
    {
      RecordTimed(o, q, request, t0, i);
    }
    RecordTimed(o, q, request, t0, 0);
  }

  /** A time in milliseconds behind the start, on a clock that counts nanoseconds; earlier times count as none. */
  predicate Timed(ms: real, at: Instant, t0: Instant) {
    ms * 1_000_000.0 == if at < t0 then 0.0 else (at - t0) as real
  }

  lemma RecordTimed(o: Outcome, q: Protocol, request: Request, t0: Instant, i: nat)
    requires Tells(o, q, request, t0) && i < |o.packets|
    ensures q.audio[i].firstPayloadAt.Some? && Timed(o.packets[i].arrivalMs, q.audio[i].firstPayloadAt.value, t0)
    ensures i == 0 ==> o.request.ttfaMs == o.packets[0].arrivalMs
  {
    hide ReadAudioHeader, PayloadDigest, BytesBefore, SamplesBefore, CodecFramesBefore, DigestText, Wrap;
    assert Emitted(o.packets, ArrivalsOf(q.audio), i, request, t0);
    assert Transcribes(o.packets[i], q.audio[i], ArrivalsOf(q.audio)[i]);
  }

  lemma SmallStream(packets: seq<EnginePacket>)
    requires PacketStream(packets)
    ensures 0 < |packets| < U64_LIMIT && BytesUpTo(packets) < U64_LIMIT
  {
    EvenBytes(packets, |packets|);
    assert packets[..|packets|] == packets;
  }
}
