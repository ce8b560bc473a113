/**
 What the payload parsers accept, exactly: every byte string that parses is the
 encoding of what it parses to, up to bytes and bits that the format leaves unused.
 */
module DecoderLaws {
  import opened Bytes
  import opened Events
  import opened FrameCodec
  import opened FrameLaws
  import opened Frames
  import opened Text
  import opened Wrappers

  // ---- Fields ----

  lemma EvenPart(m: nat, t: nat)
    ensures (2 * m + t) / 2 == m + t / 2 && (2 * m + t) % 2 == t % 2
  {
  }

  lemma Halves(x: nat)
    ensures x / 4 == x / 2 / 2 && x / 8 == x / 2 / 2 / 2
  {
  }

  /** The low four bits of a byte are those of its remainder by 16. */
  lemma LowBits(q: nat, r: nat)
    requires r < 16
    ensures var b := 16 * q + r;
            b % 2 == r % 2 && b / 2 % 2 == r / 2 % 2 && b / 4 % 2 == r / 4 % 2 && b / 8 % 2 == r / 8 % 2
  {
    Halves(16 * q + r);
    Halves(r);
    EvenPart(8 * q, r);
    EvenPart(4 * q, r / 2);
    EvenPart(2 * q, r / 2 / 2);
    EvenPart(q, r / 2 / 2 / 2);
  }

  lemma SumOfBits(r: nat)
    requires r < 16
    ensures r % 2 + 2 * (r / 2 % 2) + 4 * (r / 4 % 2) + 8 * (r / 8 % 2) == r
  {
    assert r == 2 * (r / 2) + r % 2;
    assert r / 2 == 2 * (r / 4) + r / 2 % 2;
    assert r / 4 == 2 * (r / 8) + r / 4 % 2;
    assert r / 8 < 2;
  }

  /** Only the low four bits of a byte of flags count, and they are written back as they were. */
  lemma LowBitsCount(b: byte)
    ensures FlagsCode(DecodeFlags(b)) == b % 16 && DecodeFlags(b % 16) == DecodeFlags(b)
    ensures ModifierBits(ModifiersFromBits(b)) == b % 16 && ModifiersFromBits(b % 16) == ModifiersFromBits(b)
  {
    LowBits(b / 16, b % 16);
    SumOfBits(b % 16);
  }

  /** Byte strings that begin alike have the same fields in that beginning. */
  lemma SameFields(s: Bytes, t: Bytes, n: nat, at: nat)
    requires n <= |s| && n <= |t| && s[..n] == t[..n]
    ensures at < n ==> s[at] == t[at]
    ensures at + 2 <= n ==> U16At(s, at) == U16At(t, at)
    ensures at + 4 <= n ==> U32At(s, at) == U32At(t, at)
    ensures at + 8 <= n ==> U64At(s, at) == U64At(t, at)
    ensures at + 16 <= n ==> U128At(s, at) == U128At(t, at)
  {
    hide FromLe;
    assert at < n ==> s[..n][at] == t[..n][at];
    SameSlice(s, t, n, at, 2);
    SameSlice(s, t, n, at, 4);
    SameSlice(s, t, n, at, 8);
    SameSlice(s, t, n, at, 16);
  }

  lemma SameSlice(s: Bytes, t: Bytes, n: nat, at: nat, width: nat)
    requires n <= |s| && n <= |t| && s[..n] == t[..n]
    ensures at + width <= n ==> s[at..at + width] == t[at..at + width]
  {
    if at + width <= n {
      assert s[at..at + width] == s[..n][at..at + width];
      assert t[at..at + width] == t[..n][at..at + width];
    }
  }

  // ---- File chunks ----

  lemma ChunkFields(s: Bytes)
    requires |s| >= FILE_CHUNK_METADATA_LEN
    ensures s == Le128(U128At(s, 0)) + Le128(U128At(s, 16)) + Le32(U32At(s, 32)) + Le64(U64At(s, 36))
                 + Le64(U64At(s, 44)) + Le32(U32At(s, 52)) + [s[56]] + s[FILE_CHUNK_METADATA_LEN..]
  {
    hide Le, FromLe, U16At, U32At, U64At, U128At;
    FieldBytes(s, 0);
    FieldBytes(s, 16);
    FieldBytes(s, 32);
    FieldBytes(s, 36);
    FieldBytes(s, 44);
    FieldBytes(s, 52);
  }

  /** Bytes parse to a chunk if and only if they are that chunk written out. */
  lemma ChunkDecodesExactly(s: Bytes, c: FileChunk)
    ensures DecodeChunk(s) == Success(c) <==> s == ChunkMetadata(c) + c.data
  {
    hide Le, FromLe, U16At, U32At, U64At, U128At;
    if DecodeChunk(s) == Success(c) {
      ChunkFields(s);
    }
    if s == ChunkMetadata(c) + c.data {
      hide ChunkMetadata, DecodeChunk;
      ChunkRoundTrip(c);
    }
  }

  // ---- Control messages ----

  /** `s` begins with the message; of the flags, only the low four bits count. */
  predicate BeginsWithControl(s: Bytes, m: ControlMessage) {
    match m
    case Capabilities(_, _, _, _) => |s| >= 22 && s[..21] + [s[21] % 16] == ControlBytes(m)
    case _ => ControlBytes(m) <= s
  }

  lemma HeartbeatHead(s: Bytes)
    requires DecodeControl(s).Success? && DecodeControl(s).value.Heartbeat?
    ensures BeginsWithControl(s, DecodeControl(s).value)
  {
    hide Le, FromLe, U16At, U32At, U64At, U128At, FlagsCode, DecodeFlags, DecodeSessionState, SessionStateCode;
    FieldBytes(s, 1);
    FieldBytes(s, 17);
    FieldBytes(s, 33);
    assert s[..41] == [s[0]] + s[1..17] + s[17..33] + s[33..41];
  }

  lemma CapabilitiesHead(s: Bytes)
    requires DecodeControl(s).Success? && DecodeControl(s).value.Capabilities?
    ensures BeginsWithControl(s, DecodeControl(s).value)
  {
    hide Le, FromLe, U16At, U32At, U64At, U128At, FlagsCode, DecodeFlags, DecodeSessionState, SessionStateCode;
    FieldBytes(s, 1);
    FieldBytes(s, 17);
    FieldBytes(s, 19);
    LowBitsCount(s[21]);
    assert s[..21] == [s[0]] + s[1..17] + s[17..19] + s[19..21];
  }

  lemma ConfigVersionHead(s: Bytes)
    requires DecodeControl(s).Success? && DecodeControl(s).value.ConfigVersion?
    ensures BeginsWithControl(s, DecodeControl(s).value)
  {
    hide Le, FromLe, U16At, U32At, U64At, U128At, FlagsCode, DecodeFlags, DecodeSessionState, SessionStateCode;
    FieldBytes(s, 1);
    FieldBytes(s, 17);
    assert s[..25] == [s[0]] + s[1..17] + s[17..25];
  }

  lemma SessionStateHead(s: Bytes)
    requires DecodeControl(s).Success? && DecodeControl(s).value.SessionState?
    ensures BeginsWithControl(s, DecodeControl(s).value)
  {
    hide Le, FromLe, U16At, U32At, U64At, U128At, FlagsCode, DecodeFlags, DecodeSessionState, SessionStateCode;
    FieldBytes(s, 1);
    FieldBytes(s, 17);
    SessionByte(s[33]);
    assert s[..34] == [s[0]] + s[1..17] + s[17..33] + [s[33]];
  }

  lemma ControlHead(s: Bytes)
    requires DecodeControl(s).Success?
    ensures BeginsWithControl(s, DecodeControl(s).value)
  {
    hide DecodeControl, BeginsWithControl;
    match DecodeControl(s).value
    case Heartbeat(_, _, _) => HeartbeatHead(s);
    case Capabilities(_, _, _, _) => CapabilitiesHead(s);
    case ConfigVersion(_, _) => ConfigVersionHead(s);
    case SessionState(_, _, _) => SessionStateHead(s);
  }

  lemma SessionByte(b: byte)
    ensures DecodeSessionState(b).Success? ==> SessionStateCode(DecodeSessionState(b).value) == b
  {
  }

  lemma ControlTail(s: Bytes, m: ControlMessage)
    requires BeginsWithControl(s, m)
    ensures DecodeControl(s) == Success(m)
  {
    var t := ControlBytes(m);
    var n := if m.Capabilities? then 21 else |t|;
    assert s[..n] == t[..n];
    hide Le, FromLe, U16At, U32At, U64At, U128At, FlagsCode, DecodeFlags, ControlBytes;
    ControlRoundTrip(m);
    ControlLength(m);
    SameFields(s, t, n, 0);
    SameFields(s, t, n, 1);
    SameFields(s, t, n, 17);
    SameFields(s, t, n, 19);
    SameFields(s, t, n, 33);
    if m.Capabilities? {
      assert t[21] == s[21] % 16;
      LowBitsCount(s[21]);
    }
  }

  lemma ControlLength(m: ControlMessage)
    ensures |ControlBytes(m)| == match m
                                 case Heartbeat(_, _, _) => 41
                                 case Capabilities(_, _, _, _) => 22
                                 case ConfigVersion(_, _) => 25
                                 case SessionState(_, _, _) => 34
    ensures ControlBytes(m)[0] == match m
                                  case Heartbeat(_, _, _) => 1
                                  case Capabilities(_, _, _, _) => 2
                                  case ConfigVersion(_, _) => 3
                                  case SessionState(_, _, _) => 4
  {
    hide Le, FlagsCode, SessionStateCode;
  }

  /** Bytes parse to a control message if and only if they begin with it. */
  lemma ControlDecodesExactly(s: Bytes, m: ControlMessage)
    ensures DecodeControl(s) == Success(m) <==> BeginsWithControl(s, m)
  {
    hide DecodeControl, BeginsWithControl;
    if DecodeControl(s) == Success(m) {
      ControlHead(s);
    }
    if BeginsWithControl(s, m) {
      ControlTail(s, m);
    }
  }

  // ---- Events ----

  /** `s` begins with the event; of the modifiers, only the low four bits count. */
  predicate BeginsWithEvent(s: Bytes, e: InputEvent) {
    match e
    case KeyInput(_) => |s| >= 5 && s[..4] + [s[4] % 16] == EventBytes(e)
    case _ => EventBytes(e) <= s
  }

  lemma EventCodes(b: byte)
    ensures DecodeKeyState(b).Success? ==> KeyStateCode(DecodeKeyState(b).value) == b
    ensures DecodeButton(b).Success? ==> ButtonCode(DecodeButton(b).value) == b
    ensures DecodeInputChannel(b).Success? ==> InputChannelCode(DecodeInputChannel(b).value) == b
  {
  }

  lemma EventHead(s: Bytes)
    requires DecodeEvent(s).Success?
    ensures BeginsWithEvent(s, DecodeEvent(s).value)
  {
    hide Le, FromLe, U16At, U32At, U64At, U128At, ModifierBits, ModifiersFromBits, DecodeKeyState, KeyStateCode,
      DecodeButton, ButtonCode;
    FieldBytes(s, 1);
    FieldBytes(s, 5);
    if |s| >= 3 {
      EventCodes(s[1]);
      EventCodes(s[2]);
    }
    if |s| >= 5 {
      EventCodes(s[3]);
      LowBitsCount(s[4]);
    }
    match DecodeEvent(s).value
    case KeyInput(_) => assert s[..4] == [s[0]] + s[1..3] + [s[3]];
    case MouseInput(Button(_, _)) => assert s[..3] == [s[0], s[1], s[2]];
    case _ => assert s[..9] == [s[0]] + s[1..5] + s[5..9];
  }

  lemma EventTail(s: Bytes, e: InputEvent)
    requires BeginsWithEvent(s, e)
    ensures DecodeEvent(s) == Success(e)
  {
    var t := EventBytes(e);
    var n := if e.KeyInput? then 4 else |t|;
    assert s[..n] == t[..n];
    hide Le, FromLe, U16At, U32At, U64At, U128At, ModifierBits, ModifiersFromBits, EventBytes;
    EventRoundTrip(e);
    EventLength(e);
    SameFields(s, t, n, 0);
    SameFields(s, t, n, 1);
    SameFields(s, t, n, 2);
    SameFields(s, t, n, 3);
    SameFields(s, t, n, 5);
    if e.KeyInput? {
      assert t[4] == s[4] % 16;
      LowBitsCount(s[4]);
    }
  }

  lemma EventLength(e: InputEvent)
    ensures |EventBytes(e)| == if e.KeyInput? then 5 else if e.MouseInput? && e.mouse.Button? then 3 else 9
    ensures EventBytes(e)[0] == match e
                                case KeyInput(_) => 1
                                case MouseInput(Move(_, _)) => 2
                                case MouseInput(Button(_, _)) => 3
                                case ScrollInput(_, _) => 4
                                case MouseInput(Position(_, _)) => 5
  {
    hide Le, ButtonCode, KeyStateCode, ModifierBits;
  }

  /** Bytes parse to an input event if and only if they begin with it. */
  lemma EventDecodesExactly(s: Bytes, e: InputEvent)
    ensures DecodeEvent(s) == Success(e) <==> BeginsWithEvent(s, e)
  {
    hide DecodeEvent, BeginsWithEvent;
    if DecodeEvent(s) == Success(e) {
      EventHead(s);
    }
    if BeginsWithEvent(s, e) {
      EventTail(s, e);
    }
  }

  /** An input payload parses to an envelope if and only if it is the fields of the envelope and then its event. */
  lemma InputDecodesExactly(s: Bytes, i: InputEventEnvelope)
    ensures DecodeInput(s) == Success(Input(i))
       <==> && |s| > INPUT_METADATA_LEN
            && s[..INPUT_METADATA_LEN] == InputBytes(i)[..INPUT_METADATA_LEN]
            && BeginsWithEvent(s[INPUT_METADATA_LEN..], i.event)
  {
    InputHead(i);
    hide Le, FromLe, U16At, U32At, U64At, U128At, DecodeEvent, BeginsWithEvent, EventBytes, InputBytes,
      DecodeInputChannel, InputChannelCode;
    if |s| > INPUT_METADATA_LEN {
      EventDecodesExactly(s[INPUT_METADATA_LEN..], i.event);
      EventCodes(s[34]);
      ChannelRoundTrip(i.channel);
      var head := s[..INPUT_METADATA_LEN];
      assert head == s[0..16] + s[16..32] + s[32..34] + [s[34]];
      FieldBytes(s, 0);
      FieldBytes(s, 16);
      FieldBytes(s, 32);
      if head == InputBytes(i)[..INPUT_METADATA_LEN] {
        assert s[0..16] == head[0..16] && s[16..32] == head[16..32] && s[32..34] == head[32..34];
        ReadsBack128(s, 0, i.sourceDeviceId);
        ReadsBack128(s, 16, i.targetDeviceId);
        ReadsBack16(s, 32, i.protocolVersion);
      }
    }
  }

  lemma InputHead(i: InputEventEnvelope)
    ensures |InputBytes(i)| >= INPUT_METADATA_LEN
    ensures var head := InputBytes(i)[..INPUT_METADATA_LEN];
            && head == Le128(i.sourceDeviceId) + Le128(i.targetDeviceId) + Le16(i.protocolVersion)
                       + [InputChannelCode(i.channel)]
            && head[0..16] == Le128(i.sourceDeviceId) && head[16..32] == Le128(i.targetDeviceId)
            && head[32..34] == Le16(i.protocolVersion) && head[34] == InputChannelCode(i.channel)
  {
    hide Le, EventBytes;
  }

  lemma ChannelRoundTrip(c: InputChannel)
    ensures DecodeInputChannel(InputChannelCode(c)) == Success(c)
  {
  }

  // ---- Plain text ----

  /**
   A plain text payload parses if and only if what follows its metadata is UTF-8; the hash that is sent along
   is not looked at.
   */
  lemma PlainDecodesExactly(s: Bytes, c: ClipboardText)
    ensures DecodePlain(s) == Success(c)
       <==> && |s| >= CLIPBOARD_METADATA_LEN
            && s == Le128(c.sourceId) + Le64(c.version) + s[24..32] + Utf8(c.text)
            && c == ClipboardText(c.sourceId, c.version, TextHash(c.text), PlainText, c.text, None, None)
  {
    hide Le, FromLe, U16At, U32At, U64At, U128At, Utf8, FromUtf8, TextHash;
    if |s| >= CLIPBOARD_METADATA_LEN {
      FieldBytes(s, 0);
      FieldBytes(s, 16);
      var body := s[CLIPBOARD_METADATA_LEN..];
      assert s == s[0..16] + s[16..24] + s[24..32] + body;
      FromUtf8OfUtf8(c.text);
      if FromUtf8(body).Some? {
        Utf8OfFromUtf8(body);
      }
      if s == Le128(c.sourceId) + Le64(c.version) + s[24..32] + Utf8(c.text) {
        assert s[0..16] == Le128(c.sourceId) && s[16..24] == Le64(c.version) && body == Utf8(c.text);
        ReadsBack128(s, 0, c.sourceId);
        ReadsBack64(s, 16, c.version);
      }
    }
  }

  /** Text that is not UTF-8 is refused as such, in both plain formats. */
  lemma InvalidTextIsRefused(body: Bytes)
    requires FromUtf8(body) == None
    ensures DecodePayload(10, body) == Failure(InvalidUtf8)
    ensures forall metadata: Bytes :: |metadata| == CLIPBOARD_METADATA_LEN ==>
              DecodePayload(11, metadata + body) == Failure(InvalidUtf8)
  {
    hide FromUtf8, FromLe;
    forall metadata: Bytes | |metadata| == CLIPBOARD_METADATA_LEN
      ensures (metadata + body)[CLIPBOARD_METADATA_LEN..] == body
    {
    }
  }

  // ---- The first format ----

  /** Bytes parse as an event of the first format if and only if they begin with its magic, numbers and event. */
  lemma LegacyParsesExactly(s: Bytes, e: ProtocolEvent)
    ensures DecodeLegacy(s) == Success(e)
       <==> && |s| > 20
            && s[..20] == [0x53, 0x59, 0x4E, 0x31] + Le64(e.sequence) + Le64(e.timestampMicros)
            && BeginsWithEvent(s[20..], e.event)
  {
    hide Le, FromLe, U64At, DecodeEvent, BeginsWithEvent;
    if |s| > 20 {
      var head := s[..20];
      EventDecodesExactly(s[20..], e.event);
      FieldBytes(s, 4);
      FieldBytes(s, 12);
      assert head == s[..4] + s[4..12] + s[12..20];
      if head == [0x53, 0x59, 0x4E, 0x31] + Le64(e.sequence) + Le64(e.timestampMicros) {
        assert s[..4] == head[..4] && s[4..12] == head[4..12] && s[12..20] == head[12..20];
        ReadsBack64(s, 4, e.sequence);
        ReadsBack64(s, 12, e.timestampMicros);
      }
    }
  }

  /** Bytes that begin with neither magic are refused as such, once they are long enough for a header. */
  lemma UnknownMagicIsRefused(s: Bytes)
    requires |s| >= HEADER_LEN && s[..4] != [0x53, 0x59, 0x4E, 0x31] && s[..4] != [0x53, 0x59, 0x4E, 0x32]
    ensures Decode(s) == Failure(BadMagic)
  {
    hide DecodeEvent, DecodePayload;
  }

  // ---- Payloads cut short ----

  /** An event cut short anywhere is too short. */
  lemma EventCutIsTooShort(e: InputEvent, n: nat)
    requires n < |EventBytes(e)|
    ensures DecodeEvent(EventBytes(e)[..n]) == Failure(TooShort)
  {
    hide Le, FromLe;
    EventLength(e);
    var t := EventBytes(e);
    assert n > 0 ==> t[..n][0] == t[0];
    hide EventBytes;
  }

  lemma ControlCutIsTooShort(m: ControlMessage, n: nat)
    requires n < |ControlBytes(m)|
    ensures DecodeControl(ControlBytes(m)[..n]) == Failure(TooShort)
  {
    hide Le, FromLe;
    ControlLength(m);
    var t := ControlBytes(m);
    assert n > 0 ==> t[..n][0] == t[0];
    hide ControlBytes, DecodeFlags;
  }

  lemma ChunkCutIsTooShort(c: FileChunk, n: nat)
    requires n < FILE_CHUNK_METADATA_LEN
    ensures DecodeChunk(ChunkMetadata(c)[..n]) == Failure(TooShort)
  {
    hide ChunkMetadata;
  }

  /** So is text with a format or markup. */
  lemma TextualCutIsTooShort(c: ClipboardText, n: nat)
    requires c.format == Url || c.format == Html
    requires c.image == None && |ClipboardBytes(c)| <= U32_MAX && n < |ClipboardBytes(c)|
    ensures DecodeContent(ClipboardBytes(c)[..n]) == Failure(TooShort)
  {
    hide Utf8, FromUtf8, FromLe, U32At, U64At, U128At, ClipboardBytes, ContentHash, TextHash, HtmlBytes;
    TextualFields(c);
    var s := ClipboardBytes(c);
    if n >= CLIPBOARD_CONTENT_METADATA_LEN {
      SameFields(s[..n], s, n, 32);
      SameFields(s[..n], s, n, 33);
      SameFields(s[..n], s, n, 37);
      FormatByte(c.format);
    }
  }

  lemma FormatByte(format: ClipboardFormat)
    ensures DecodeFormat(FormatCode(format)) == Success(format)
  {
  }

  lemma EntryCut(s: Bytes, at: nat, f: FileMetadata, after: Bytes, count: nat, n: nat)
    requires EntryAt(s, at, f, after) && |Utf8(f.name)| <= U16_MAX && at <= n <= |s|
    ensures var next := at + FILE_ENTRY_METADATA_LEN + |Utf8(f.name)|;
            && next <= |s| && s[next..] == after
            && (n < next ==> DecodeEntries(s[..n], at, count + 1) == Failure(TooShort))
            && (n >= next && DecodeEntries(s[..n], next, count) == Failure(TooShort) ==>
                  DecodeEntries(s[..n], at, count + 1) == Failure(TooShort))
  {
    hide Utf8, FromUtf8, SanitizeName, FromLe, U16At, U64At;
    EntryFields(s, at, f, after);
    FromUtf8OfUtf8(f.name);
    var nameAt := at + FILE_ENTRY_METADATA_LEN;
    if n >= nameAt {
      SameFields(s[..n], s, n, at + 16);
      SameSlice(s[..n], s, n, nameAt, |Utf8(f.name)|);
    }
  }

  lemma {:induction false} EntriesCut(s: Bytes, at: nat, files: seq<FileMetadata>, n: nat)
    requires at <= n < |s| && s[at..] == EntriesBytes(files)
    requires forall f <- files :: |Utf8(f.name)| <= U16_MAX
    decreases |files|
    ensures DecodeEntries(s[..n], at, |files|) == Failure(TooShort)
  {
    hide Utf8, EntryBytes, DecodeEntries;
    assert |s[at..]| > 0;
    if files != [] {
      var next := at + FILE_ENTRY_METADATA_LEN + |Utf8(files[0].name)|;
      EntryCut(s, at, files[0], EntriesBytes(files[1..]), |files| - 1, n);
      if n >= next {
        EntriesCut(s, next, files[1..], n);
      }
    }
  }

  /** And so is a file list, wherever it is cut. */
  lemma FilesCutIsTooShort(l: ClipboardFiles, n: nat)
    requires ListFits(l) && n < |FilesBytes(l)|
    ensures DecodeFiles(FilesBytes(l)[..n]) == Failure(TooShort)
  {
    var s := FilesBytes(l);
    FilesFields(l);
    hide FilesBytes, EntriesBytes, DecodeEntries, U16At, U64At, U128At, NewFiles;
    if n >= CLIPBOARD_FILES_METADATA_LEN {
      SameFields(s[..n], s, n, 32);
      EntriesCut(s, CLIPBOARD_FILES_METADATA_LEN, l.files, n);
    }
  }

  // ---- What is sent but not read ----

  /** The content hash goes along on the wire, although the parser computes it anew. */
  lemma HashesAreSent(c: ClipboardText, l: ClipboardFiles)
    ensures |ClipboardBytes(c)| >= 32 && U64At(ClipboardBytes(c), 24) == c.contentHash
    ensures |FilesBytes(l)| >= 32 && U64At(FilesBytes(l), 24) == l.contentHash
  {
    hide Le, FromLe, Utf8, EntriesBytes, HtmlBytes, ImageBytes;
    assert ClipboardBytes(c)[24..32] == Le64(c.contentHash);
    assert FilesBytes(l)[24..32] == Le64(l.contentHash);
    ReadsBack64(ClipboardBytes(c), 24, c.contentHash);
    ReadsBack64(FilesBytes(l), 24, l.contentHash);
  }
}
