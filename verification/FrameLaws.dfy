/** What the frame format promises: self-delimiting frames, the exact round trip, and normalisation. */
module FrameLaws {
  import opened Bytes
  import opened Events
  import opened FrameCodec
  import opened FileNames
  import opened Frames
  import opened Text
  import opened Wrappers

  // ---- Header ----

  lemma HeaderFields(sequence: u64, time: u64, kind: byte, len: u32, rest: Bytes)
    ensures var s := Header(sequence, time, kind, len) + rest;
            s[..4] == FRAME_MAGIC && U64At(s, 4) == sequence && U64At(s, 12) == time
            && s[20] == kind && U32At(s, 21) == len
  {
    hide FromLe, Le;
    var s := Header(sequence, time, kind, len) + rest;
    assert s[..4] == FRAME_MAGIC;
    assert s[4..12] == Le64(sequence);
    assert s[12..20] == Le64(time);
    assert s[21..25] == Le32(len);
    ReadsBack64(s, 4, sequence);
    ReadsBack64(s, 12, time);
    ReadsBack32(s, 21, len);
  }

  function Framed(f: Frame, body: Bytes): Decoded<Frame> {
    var p :- DecodePayload(PayloadKind(f.payload), body);
    Success(f.(payload := p))
  }

  /** The parser looks at the header and at exactly the payload bytes it announces, whatever follows. */
  lemma DecodeOfEncode(f: Frame, extra: Bytes)
    ensures var body := PayloadBytes(f.payload);
            Decode(Encode(f) + extra) == Framed(f, if |body| <= U32_MAX then body else [])
  {
    hide PayloadBytes, PayloadKind, DecodePayload, FromLe, Le;
    var body := PayloadBytes(f.payload);
    var len := U32OrZero(|body|);
    var header := Header(f.sequence, f.timestampMicros, PayloadKind(f.payload), len);
    var s := Encode(f) + extra;
    assert s == header + (body + extra);
    HeaderFields(f.sequence, f.timestampMicros, PayloadKind(f.payload), len, body + extra);
    if |body| <= U32_MAX {
      assert s[HEADER_LEN..HEADER_LEN + len] == body;
    } else {
      assert s[HEADER_LEN..HEADER_LEN + len] == [];
    }
  }

  /** Bytes after an encoded frame never change what it decodes to. */
  lemma TrailingBytesIgnored(f: Frame, extra: Bytes)
    ensures Decode(Encode(f) + extra) == Decode(Encode(f))
  {
    DecodeOfEncode(f, extra);
    DecodeOfEncode(f, []);
    assert Encode(f) + [] == Encode(f);
  }

  /** A frame cut short anywhere is reported as too short. */
  lemma StrictPrefixTooShort(f: Frame, n: nat)
    requires |PayloadBytes(f.payload)| <= U32_MAX
    requires n < |Encode(f)|
    ensures Decode(Encode(f)[..n]) == Failure(TooShort)
  {
    if n >= HEADER_LEN {
      var body := PayloadBytes(f.payload);
      var header := Header(f.sequence, f.timestampMicros, PayloadKind(f.payload), |body|);
      assert Encode(f)[..n] == header + body[..n - HEADER_LEN];
      HeaderFields(f.sequence, f.timestampMicros, PayloadKind(f.payload), |body|, body[..n - HEADER_LEN]);
    }
  }

  // ---- Payloads that always round-trip ----

  lemma KeyEventRoundTrip(k: KeyEvent)
    ensures DecodeEvent(EventBytes(KeyInput(k))) == Success(KeyInput(k))
  {
    hide Le, FromLe;
    ModifierBitsRoundTrip(k.modifiers);
    hide ModifierBits, ModifiersFromBits;
    var s := EventBytes(KeyInput(k));
    assert s[1..3] == Le16(k.key) && s[4] == ModifierBits(k.modifiers);
    ReadsBack16(s, 1, k.key);
  }

  lemma ModifierBitsRoundTrip(m: Modifiers)
    ensures ModifiersFromBits(ModifierBits(m)) == m
  {
  }

  lemma ButtonRoundTrip(button: MouseButton, state: KeyState)
    ensures var event := MouseInput(Button(button, state)); DecodeEvent(EventBytes(event)) == Success(event)
  {
  }

  lemma EventRoundTrip(event: InputEvent)
    ensures DecodeEvent(EventBytes(event)) == Success(event)
  {
    hide Le, FromLe;
    match event
    case KeyInput(k) =>
      hide EventBytes, DecodeEvent;
      KeyEventRoundTrip(k);
    case MouseInput(Move(dx, dy)) =>
      PairRoundTrip(2, dx, dy);
    case MouseInput(Position(x, y)) =>
      PairRoundTrip(5, x, y);
    case MouseInput(Button(button, state)) =>
      hide EventBytes, DecodeEvent;
      ButtonRoundTrip(button, state);
    case ScrollInput(dx, dy) =>
      PairRoundTrip(4, dx, dy);
  }

  lemma PairRoundTrip(kind: byte, a: u32, b: u32)
    ensures var s: Bytes := [kind] + Le32(a) + Le32(b); U32At(s, 1) == a && U32At(s, 5) == b
  {
    var s: Bytes := [kind] + Le32(a) + Le32(b);
    assert s[1..5] == Le32(a) && s[5..9] == Le32(b);
    ReadsBack32(s, 1, a);
    ReadsBack32(s, 5, b);
  }

  lemma LegacyRoundTrip(e: ProtocolEvent)
    ensures DecodeLegacy(LegacyBytes(e)) == Success(e)
  {
    hide FromLe, Le, EventBytes, DecodeEvent;
    var s := LegacyBytes(e);
    assert s[..4] == LEGACY_MAGIC;
    assert s[4..12] == Le64(e.sequence) && s[12..20] == Le64(e.timestampMicros);
    assert s[20..] == EventBytes(e.event);
    ReadsBack64(s, 4, e.sequence);
    ReadsBack64(s, 12, e.timestampMicros);
    EventRoundTrip(e.event);
  }

  /** What an event of the first format is taken for: no ids, no version, and the channel its kind would use. */
  lemma EnvelopeOfLegacy(event: InputEvent)
    ensures LegacyEnvelope(event)
         == InputEventEnvelope(0, 0, 0, if event.MouseInput? && event.mouse.Move? then InputUnreliable
                                        else InputReliable, event)
  {
  }

  /** The frame parser reads first-format events too, except button events, which are shorter than a frame header. */
  lemma LegacyDecodesExactly(e: ProtocolEvent)
    ensures Decode(LegacyBytes(e))
         == if e.event.MouseInput? && e.event.mouse.Button? then Failure(TooShort)
            else
              var channel := if e.event.MouseInput? && e.event.mouse.Move? then InputUnreliable else InputReliable;
              Success(Frame(e.sequence, e.timestampMicros, Input(InputEventEnvelope(0, 0, 0, channel, e.event))))
  {
    hide FromLe, Le, DecodeEvent, DecodeLegacy, LegacyEnvelope;
    LegacyRoundTrip(e);
    EnvelopeOfLegacy(e.event);
    assert LegacyBytes(e)[..4] == LEGACY_MAGIC && LEGACY_MAGIC[3] != FRAME_MAGIC[3];
    assert |LegacyBytes(e)| == 20 + |EventBytes(e.event)|;
  }

  // ---- Older payload types ----

  /** A framed payload is parsed as its type says, whatever follows the frame. */
  lemma DecodeOfFramed(sequence: u64, time: u64, kind: byte, body: Bytes, extra: Bytes)
    requires |body| <= U32_MAX
    ensures Decode(Header(sequence, time, kind, |body|) + body + extra)
         == match DecodePayload(kind, body)
            case Success(p) => Success(Frame(sequence, time, p))
            case Failure(e) => Failure(e)
  {
    hide FromLe, Le, Header, DecodePayload;
    var header := Header(sequence, time, kind, |body|);
    var s := header + body + extra;
    assert s == header + (body + extra);
    HeaderFields(sequence, time, kind, |body|, body + extra);
    assert s[HEADER_LEN..HEADER_LEN + |body|] == body;
  }

  /** Payload type 10 is the bare text: it comes back as plain text without source and version. */
  lemma LegacyTextDecodes(sequence: u64, time: u64, text: string, extra: Bytes)
    requires |Utf8(text)| <= U32_MAX
    ensures Decode(Header(sequence, time, 10, |Utf8(text)|) + Utf8(text) + extra)
         == Success(Frame(sequence, time,
                          Clipboard(ClipboardText(0, 0, TextHash(text), PlainText, text, None, None))))
  {
    hide Header, Utf8, FromUtf8, TextHash, Decode;
    DecodeOfFramed(sequence, time, 10, Utf8(text), extra);
    FromUtf8OfUtf8(text);
  }

  /** Payload type 0 is an event of the first format, read as one; the numbers of the outer header count. */
  lemma LegacyEventDecodes(sequence: u64, time: u64, e: ProtocolEvent, extra: Bytes)
    ensures var body := LegacyBytes(e);
            var channel := if e.event.MouseInput? && e.event.mouse.Move? then InputUnreliable else InputReliable;
            |body| <= U32_MAX
            && Decode(Header(sequence, time, 0, |body|) + body + extra)
               == Success(Frame(sequence, time, Input(InputEventEnvelope(0, 0, 0, channel, e.event))))
  {
    LegacyBytesAreShort(e);
    hide Header, LegacyBytes, DecodeLegacy, Decode, LegacyEnvelope;
    LegacyRoundTrip(e);
    EnvelopeOfLegacy(e.event);
    DecodeOfFramed(sequence, time, 0, LegacyBytes(e), extra);
  }

  lemma LegacyBytesAreShort(e: ProtocolEvent)
    ensures |LegacyBytes(e)| <= 29
  {
    hide Le;
  }

  /** Any other payload type is refused by its number. */
  lemma UnknownPayloadsAreRefused(sequence: u64, time: u64, kind: byte, body: Bytes, extra: Bytes)
    requires |body| <= U32_MAX && kind !in [0, 1, 10, 11, 12, 13, 14, 20]
    ensures Decode(Header(sequence, time, kind, |body|) + body + extra) == Failure(UnknownEventType(kind))
  {
    hide Header, Decode;
    DecodeOfFramed(sequence, time, kind, body, extra);
  }

  lemma InputRoundTrip(i: InputEventEnvelope)
    ensures DecodeInput(InputBytes(i)) == Success(Input(i))
  {
    hide FromLe, Le;
    var s := InputBytes(i);
    assert s[0..16] == Le128(i.sourceDeviceId);
    assert s[16..32] == Le128(i.targetDeviceId);
    assert s[32..34] == Le16(i.protocolVersion);
    assert s[INPUT_METADATA_LEN..] == EventBytes(i.event);
    ReadsBack128(s, 0, i.sourceDeviceId);
    ReadsBack128(s, 16, i.targetDeviceId);
    ReadsBack16(s, 32, i.protocolVersion);
    EventRoundTrip(i.event);
  }

  lemma ChunkParts(c: FileChunk, s: Bytes)
    requires s == ChunkMetadata(c) + c.data
    ensures |s| == FILE_CHUNK_METADATA_LEN + |c.data| && s[56] == (if c.isFinal then 1 else 0)
    ensures s[0..16] == Le128(c.transferId) && s[16..32] == Le128(c.sourceId) && s[32..36] == Le32(c.fileIndex)
    ensures s[36..44] == Le64(c.offset) && s[44..52] == Le64(c.totalSize) && s[52..56] == Le32(c.chunkIndex)
    ensures s[FILE_CHUNK_METADATA_LEN..] == c.data
  {
    hide Le;
  }

  lemma ChunkRoundTrip(c: FileChunk)
    ensures DecodeChunk(ChunkMetadata(c) + c.data) == Success(c)
  {
    hide FromLe, Le, ChunkMetadata;
    var s := ChunkMetadata(c) + c.data;
    ChunkParts(c, s);
    ReadsBack128(s, 0, c.transferId);
    ReadsBack128(s, 16, c.sourceId);
    ReadsBack32(s, 32, c.fileIndex);
    ReadsBack64(s, 36, c.offset);
    ReadsBack64(s, 44, c.totalSize);
    ReadsBack32(s, 52, c.chunkIndex);
  }

  lemma HeartbeatRoundTrip(source: DeviceId, session: u128, sequence: u64)
    ensures var m := Heartbeat(source, session, sequence); DecodeControl(ControlBytes(m)) == Success(m)
  {
    hide FromLe, Le;
    var s := ControlBytes(Heartbeat(source, session, sequence));
    assert s[1..17] == Le128(source) && s[17..33] == Le128(session) && s[33..41] == Le64(sequence);
    ReadsBack128(s, 1, source);
    ReadsBack128(s, 17, session);
    ReadsBack64(s, 33, sequence);
  }

  lemma FlagsRoundTrip(channels: ChannelFlags)
    ensures DecodeFlags(FlagsCode(channels)) == channels
  {
  }

  lemma CapabilitiesRoundTrip(source: DeviceId, low: u16, high: u16, channels: ChannelFlags)
    ensures var m := Capabilities(source, low, high, channels); DecodeControl(ControlBytes(m)) == Success(m)
  {
    hide FromLe, Le, FlagsCode, DecodeFlags;
    FlagsRoundTrip(channels);
    var s := ControlBytes(Capabilities(source, low, high, channels));
    assert s[1..17] == Le128(source) && s[17..19] == Le16(low) && s[19..21] == Le16(high);
    assert s[21] == FlagsCode(channels);
    ReadsBack128(s, 1, source);
    ReadsBack16(s, 17, low);
    ReadsBack16(s, 19, high);
  }

  lemma SessionStateRoundTrip(source: DeviceId, session: u128, state: SessionStateKind)
    ensures var m := SessionState(source, session, state); DecodeControl(ControlBytes(m)) == Success(m)
  {
    hide FromLe, Le;
    var s := ControlBytes(SessionState(source, session, state));
    assert s[1..17] == Le128(source) && s[17..33] == Le128(session);
    ReadsBack128(s, 1, source);
    ReadsBack128(s, 17, session);
  }

  lemma ConfigVersionRoundTrip(source: DeviceId, version: u64)
    ensures var m := ConfigVersion(source, version); DecodeControl(ControlBytes(m)) == Success(m)
  {
    hide FromLe, Le;
    var s := ControlBytes(ConfigVersion(source, version));
    assert s[1..17] == Le128(source) && s[17..25] == Le64(version);
    ReadsBack128(s, 1, source);
    ReadsBack64(s, 17, version);
  }

  lemma ControlRoundTrip(m: ControlMessage)
    ensures DecodeControl(ControlBytes(m)) == Success(m)
  {
    match m
    case Heartbeat(source, session, sequence) => HeartbeatRoundTrip(source, session, sequence);
    case Capabilities(source, low, high, channels) => CapabilitiesRoundTrip(source, low, high, channels);
    case ConfigVersion(source, version) => ConfigVersionRoundTrip(source, version);
    case SessionState(source, session, state) => SessionStateRoundTrip(source, session, state);
  }

  // ---- Clipboard content: exactly the constructed values round-trip ----

  lemma MetadataFields(c: ClipboardText, lengths: (u32, u32), rest: Bytes)
    ensures var s := ContentMetadata(c, lengths) + rest;
            U128At(s, 0) == c.sourceId && U64At(s, 16) == c.version && s[32] == FormatCode(c.format)
            && U32At(s, 33) == lengths.0 && U32At(s, 37) == lengths.1
  {
    hide FromLe, Le;
    var s := ContentMetadata(c, lengths) + rest;
    assert s[0..16] == Le128(c.sourceId);
    assert s[16..24] == Le64(c.version);
    assert s[33..37] == Le32(lengths.0);
    assert s[37..41] == Le32(lengths.1);
    ReadsBack128(s, 0, c.sourceId);
    ReadsBack64(s, 16, c.version);
    ReadsBack32(s, 33, lengths.0);
    ReadsBack32(s, 37, lengths.1);
  }

  lemma DecodedContentIsConstructed(s: Bytes)
    ensures DecodeContent(s).Success? ==> IsConstructed(DecodeContent(s).value)
    ensures DecodePlain(s).Success? ==> IsConstructed(DecodePlain(s).value)
  {
    hide DecodeText, FromLe, ContentHash, TextHash, ImageHash;
  }

  predicate ImageFits(c: ClipboardText) {
    c.image.Some? ==> c.image.value.width as int + c.image.value.height as int <= |c.image.value.rgba|
  }

  lemma DecodedImageFits(s: Bytes)
    ensures DecodeContent(s).Success? ==> ImageFits(DecodeContent(s).value)
  {
  }

  lemma PlainRoundTrip(c: ClipboardText)
    requires !UsesContentFrame(c)
    ensures DecodePlain(ClipboardBytes(c)) == Success(NewText(c.sourceId, c.version, c.text))
  {
    hide FromLe, Le, Utf8, FromUtf8, TextHash;
    var s := ClipboardBytes(c);
    assert s[0..16] == Le128(c.sourceId);
    assert s[16..24] == Le64(c.version);
    assert s[CLIPBOARD_METADATA_LEN..] == Utf8(c.text);
    ReadsBack128(s, 0, c.sourceId);
    ReadsBack64(s, 16, c.version);
    FromUtf8OfUtf8(c.text);
  }

  /** The two variable parts of a content frame lie where its length fields say. */
  lemma TextualFields(c: ClipboardText)
    requires c.format == Url || c.format == Html
    requires c.image == None && |ClipboardBytes(c)| <= U32_MAX
    ensures var s, text, html := ClipboardBytes(c), Utf8(c.text), HtmlBytes(c);
            var textEnd := CLIPBOARD_CONTENT_METADATA_LEN + |text|;
            |s| == textEnd + |html|
            && U128At(s, 0) == c.sourceId && U64At(s, 16) == c.version && s[32] == FormatCode(c.format)
            && U32At(s, 33) == |text| && U32At(s, 37) == |html|
            && s[CLIPBOARD_CONTENT_METADATA_LEN..textEnd] == text && s[textEnd..textEnd + |html|] == html
  {
    hide FromLe, Le, Utf8;
    var s := ClipboardBytes(c);
    var text, html := Utf8(c.text), HtmlBytes(c);
    var lengths := (|text| as u32, |html| as u32);
    assert ContentLengths(c) == Some(lengths);
    assert s == ContentMetadata(c, lengths) + (text + html);
    MetadataFields(c, lengths, text + html);
  }

  lemma TextualDecodes(c: ClipboardText)
    requires c.format == Url || c.format == Html
    requires c.image == None && |ClipboardBytes(c)| <= U32_MAX
    ensures DecodeContent(ClipboardBytes(c))
         == Success(FromParts(c.sourceId, c.version, c.format, c.text, if HtmlBytes(c) == [] then None else c.html))
  {
    hide Utf8, FromUtf8, FromLe, ClipboardBytes, ContentHash, TextHash;
    TextualFields(c);
    var s := ClipboardBytes(c);
    var textEnd := CLIPBOARD_CONTENT_METADATA_LEN + |Utf8(c.text)|;
    FromUtf8OfUtf8(c.text);
    assert DecodeText(s[CLIPBOARD_CONTENT_METADATA_LEN..textEnd]) == Success(c.text);
    assert DecodeFormat(s[32]) == Success(c.format);
    if c.html.Some? {
      FromUtf8OfUtf8(c.html.value);
      assert DecodeText(s[textEnd..textEnd + |HtmlBytes(c)|]) == Success(c.html.value);
    }
  }

  lemma TextualRoundTrip(c: ClipboardText)
    requires c.format == Url || c.format == Html
    requires |ClipboardBytes(c)| <= U32_MAX
    ensures IsConstructed(c) ==> DecodeContent(ClipboardBytes(c)) == Success(c)
  {
    if IsConstructed(c) {
      TextualDecodes(c);
    }
  }

  lemma ImageParts(c: ClipboardText)
    requires c.format == Image && IsConstructed(c)
    ensures var image := c.image.value;
            ClipboardBytes(c) == ContentMetadata(c, (image.width, image.height)) + image.rgba
  {
    assert Utf8([]) == [];
    hide Le, Utf8, ImageHash, ContentMetadata;
  }

  lemma ImageRoundTrip(c: ClipboardText)
    requires c.format == Image && IsConstructed(c) && ImageFits(c)
    ensures DecodeContent(ClipboardBytes(c)) == Success(c)
  {
    hide FromLe, Le, Utf8, ImageHash, ClipboardBytes, ContentMetadata;
    var s, image := ClipboardBytes(c), c.image.value;
    ImageParts(c);
    MetadataFields(c, (image.width, image.height), image.rgba);
    assert s[CLIPBOARD_CONTENT_METADATA_LEN..] == image.rgba;
  }

  // ---- File lists ----

  predicate NameSurvives(f: FileMetadata) {
    SanitizeName(f.name) == f.name && |Utf8(f.name)| <= U16_MAX
  }

  /** `s` continues at `at` with the entry of `f` and then with `after`. */
  predicate EntryAt(s: Bytes, at: nat, f: FileMetadata, after: Bytes) {
    at <= |s| && s[at..] == EntryBytes(f) + after
  }

  lemma EntryFields(s: Bytes, at: nat, f: FileMetadata, after: Bytes)
    requires EntryAt(s, at, f, after)
    ensures var nameAt, name := at + FILE_ENTRY_METADATA_LEN, Utf8(f.name);
            nameAt + |name| <= |s| && U64At(s, at) == f.byteLen && U64At(s, at + 8) == f.contentHash
            && U16At(s, at + 16) == U16OrZero(|name|)
            && s[nameAt..nameAt + |name|] == name && s[nameAt + |name|..] == after
  {
    hide FromLe, Le, Utf8;
    var t := EntryBytes(f) + after;
    assert s[at..at + 8] == t[..8] == Le64(f.byteLen);
    assert s[at + 8..at + 16] == t[8..16] == Le64(f.contentHash);
    assert s[at + 16..at + 18] == t[16..18] == Le16(U16OrZero(|Utf8(f.name)|));
    assert s[at + 18..at + 18 + |Utf8(f.name)|] == t[18..18 + |Utf8(f.name)|] == Utf8(f.name);
    assert s[at + 18 + |Utf8(f.name)|..] == t[18 + |Utf8(f.name)|..] == after;
    ReadsBack64(s, at, f.byteLen);
    ReadsBack64(s, at + 8, f.contentHash);
    ReadsBack16(s, at + 16, U16OrZero(|Utf8(f.name)|));
  }

  function SanitizedEntry(f: FileMetadata): FileMetadata {
    NewFileMetadata(f.name, f.byteLen, f.contentHash)
  }

  function Sanitized(files: seq<FileMetadata>): (r: seq<FileMetadata>)
    ensures |r| == |files|
  {
    if files == [] then [] else [SanitizedEntry(files[0])] + Sanitized(files[1..])
  }

  function EntryEnd(at: nat, f: FileMetadata): nat {
    at + FILE_ENTRY_METADATA_LEN + |Utf8(f.name)|
  }

  /** Reading one entry whose name fits its length field, then the rest. */
  lemma EntryStep(s: Bytes, at: nat, f: FileMetadata, after: Bytes, count: nat)
    requires EntryAt(s, at, f, after) && |Utf8(f.name)| <= U16_MAX
    ensures EntryEnd(at, f) <= |s| && s[EntryEnd(at, f)..] == after
    ensures var tail := DecodeEntries(s, EntryEnd(at, f), count);
            DecodeEntries(s, at, count + 1)
              == if tail.Success? then Success([SanitizedEntry(f)] + tail.value) else tail
  {
    hide Utf8, FromUtf8, SanitizeName, FromLe;
    EntryFields(s, at, f, after);
    FromUtf8OfUtf8(f.name);
    var nameAt := at + FILE_ENTRY_METADATA_LEN;
    assert DecodeText(s[nameAt..nameAt + |Utf8(f.name)|]) == Success(f.name);
    var tail := DecodeEntries(s, EntryEnd(at, f), count);
  }

  /** A name too long for its length field is read as an empty one, which no name that long equals. */
  lemma OverlongStep(s: Bytes, at: nat, f: FileMetadata, after: Bytes, count: nat)
    requires EntryAt(s, at, f, after) && |Utf8(f.name)| > U16_MAX
    ensures var r := DecodeEntries(s, at, count + 1); r.Success? ==> r.value[0] != f
  {
    hide Utf8, FromUtf8, SanitizeName, FromLe;
    EntryFields(s, at, f, after);
    var nameAt := at + FILE_ENTRY_METADATA_LEN;
    assert s[nameAt..nameAt + 0] == [];
    EmptyTextDecodes();
    UnnamedIsShort();
    Utf8NotLonger(f.name);
  }

  lemma EmptyTextDecodes()
    ensures DecodeText([]) == Success([])
  {
  }

  lemma UnnamedIsShort()
    ensures |SanitizeName([])| == 7
  {
  }

  /** Entries whose names fit their length field come back with each name sanitised. */
  lemma {:induction false} EntriesRoundTrip(s: Bytes, at: nat, files: seq<FileMetadata>)
    requires at <= |s| && s[at..] == EntriesBytes(files)
    requires forall f <- files :: |Utf8(f.name)| <= U16_MAX
    decreases |files|
    ensures DecodeEntries(s, at, |files|) == Success(Sanitized(files))
  {
    if files != [] {
      hide Utf8, EntryBytes, SanitizedEntry, DecodeEntries;
      EntryStep(s, at, files[0], EntriesBytes(files[1..]), |files| - 1);
      EntriesRoundTrip(s, EntryEnd(at, files[0]), files[1..]);
    }
  }

  /** A list with a name too long for its length field is never read back. */
  lemma {:induction false} OverlongNameLost(s: Bytes, at: nat, files: seq<FileMetadata>)
    requires at <= |s| && s[at..] == EntriesBytes(files)
    requires exists f <- files :: |Utf8(f.name)| > U16_MAX
    decreases |files|
    ensures DecodeEntries(s, at, |files|) != Success(files)
  {
    hide Utf8, EntryBytes, SanitizedEntry, DecodeEntries;
    if |Utf8(files[0].name)| > U16_MAX {
      OverlongStep(s, at, files[0], EntriesBytes(files[1..]), |files| - 1);
    } else {
      EntryStep(s, at, files[0], EntriesBytes(files[1..]), |files| - 1);
      OverlongNameLost(s, EntryEnd(at, files[0]), files[1..]);
    }
  }

  /** The bytes of a file list before its entries. */
  lemma FilesFields(l: ClipboardFiles)
    ensures var s := FilesBytes(l);
            |s| >= CLIPBOARD_FILES_METADATA_LEN && s[CLIPBOARD_FILES_METADATA_LEN..] == EntriesBytes(l.files)
            && U128At(s, 0) == l.sourceId && U64At(s, 16) == l.version && U16At(s, 32) == U16OrZero(|l.files|)
  {
    hide FromLe, Le;
    var s := FilesBytes(l);
    assert s[0..16] == Le128(l.sourceId);
    assert s[16..24] == Le64(l.version);
    assert s[32..34] == Le16(U16OrZero(|l.files|));
    ReadsBack128(s, 0, l.sourceId);
    ReadsBack64(s, 16, l.version);
    ReadsBack16(s, 32, U16OrZero(|l.files|));
  }

  predicate ListFits(l: ClipboardFiles) {
    |l.files| <= U16_MAX && forall f <- l.files :: |Utf8(f.name)| <= U16_MAX
  }

  lemma FilesDecode(l: ClipboardFiles)
    ensures ListFits(l)
        ==> DecodeFiles(FilesBytes(l)) == Success(NewFiles(l.sourceId, l.version, Sanitized(l.files)))
    ensures !ListFits(l) ==> DecodeFiles(FilesBytes(l)) != Success(l)
  {
    var s := FilesBytes(l);
    FilesFields(l);
    if ListFits(l) {
      EntriesRoundTrip(s, CLIPBOARD_FILES_METADATA_LEN, l.files);
    } else if |l.files| <= U16_MAX {
      OverlongNameLost(s, CLIPBOARD_FILES_METADATA_LEN, l.files);
    } else {
      assert DecodeEntries(s, CLIPBOARD_FILES_METADATA_LEN, 0) == Success([]);
    }
  }

  lemma {:induction false} SanitizedAt(files: seq<FileMetadata>, i: nat)
    requires i < |files|
    ensures Sanitized(files)[i] == SanitizedEntry(files[i])
  {
    if i > 0 {
      SanitizedAt(files[1..], i - 1);
    }
  }

  lemma SanitizedFixed(files: seq<FileMetadata>)
    ensures Sanitized(files) == files <==> forall f <- files :: SanitizeName(f.name) == f.name
  {
    forall i | 0 <= i < |files| ensures Sanitized(files)[i] == SanitizedEntry(files[i]) {
      SanitizedAt(files, i);
    }
    if Sanitized(files) == files {
      forall f | f in files ensures SanitizeName(f.name) == f.name {
        var i :| 0 <= i < |files| && files[i] == f;
        assert Sanitized(files)[i].name == SanitizeName(f.name);
      }
    }
  }

  // ---- The round trip ----

  predicate PayloadFits(f: Frame) {
    |PayloadBytes(f.payload)| <= U32_MAX
  }

  /** What survives encoding: built by a constructor, with lengths that fit their fields. */
  predicate RepresentablePayload(p: Payload) {
    |PayloadBytes(p)| <= U32_MAX
    && match p
       case Clipboard(c) => IsConstructed(c) && ImageFits(c)
       case Files(l) =>
         l == NewFiles(l.sourceId, l.version, l.files) && |l.files| <= U16_MAX
         && forall f <- l.files :: NameSurvives(f)
       case _ => true
  }

  predicate Representable(f: Frame) {
    RepresentablePayload(f.payload)
  }

  lemma EmptyPayloadFails(p: Payload)
    ensures DecodePayload(PayloadKind(p), []) == Failure(TooShort)
  {
  }

  lemma ClipboardRoundTrip(c: ClipboardText)
    requires |ClipboardBytes(c)| <= U32_MAX
    ensures DecodePayload(PayloadKind(Clipboard(c)), ClipboardBytes(c)) == Success(Clipboard(c))
       <==> IsConstructed(c) && ImageFits(c)
  {
    hide ClipboardBytes, DecodePlain, DecodeContent, TextHash, ContentHash, ImageHash;
    var s := ClipboardBytes(c);
    if !UsesContentFrame(c) {
      PlainRoundTrip(c);
    } else {
      if IsConstructed(c) && ImageFits(c) {
        if c.format == Image {
          ImageRoundTrip(c);
        } else {
          TextualRoundTrip(c);
        }
      }
      if DecodeContent(s) == Success(c) {
        DecodedContentIsConstructed(s);
        DecodedImageFits(s);
      }
    }
  }

  lemma FilesRoundTrip(l: ClipboardFiles)
    ensures DecodeFiles(FilesBytes(l)) == Success(l)
       <==> l == NewFiles(l.sourceId, l.version, l.files) && |l.files| <= U16_MAX
            && forall f <- l.files :: NameSurvives(f)
  {
    FilesDecode(l);
    SanitizedFixed(l.files);
  }

  /** The payloads whose encodings carry nothing that decoding recomputes. */
  lemma PlainPayloadRoundTrip(p: Payload)
    requires p.Input? || p.Chunk? || p.Control?
    ensures DecodePayload(PayloadKind(p), PayloadBytes(p)) == Success(p)
  {
    hide InputBytes, DecodeInput, ChunkMetadata, DecodeChunk, ControlBytes, DecodeControl;
    match p
    case Input(i) =>
      InputRoundTrip(i);
      assert DecodePayload(PAYLOAD_INPUT, InputBytes(i)) == DecodeInput(InputBytes(i));
    case Chunk(c) =>
      var s := ChunkMetadata(c) + c.data;
      ChunkRoundTrip(c);
      assert DecodePayload(PAYLOAD_FILE_CHUNK, s) == Success(Chunk(DecodeChunk(s).value));
    case Control(m) =>
      ControlRoundTrip(m);
      assert DecodePayload(PAYLOAD_CONTROL, ControlBytes(m)) == Success(Control(DecodeControl(ControlBytes(m)).value));
  }

  lemma PayloadRoundTrip(p: Payload)
    requires |PayloadBytes(p)| <= U32_MAX
    ensures DecodePayload(PayloadKind(p), PayloadBytes(p)) == Success(p) <==> RepresentablePayload(p)
  {
    hide InputBytes, ClipboardBytes, FilesBytes, ChunkMetadata, ControlBytes, DecodeFiles, IsConstructed, NewFiles;
    match p
    case Clipboard(c) => ClipboardRoundTrip(c);
    case Files(l) =>
      FilesRoundTrip(l);
      assert DecodePayload(PayloadKind(p), PayloadBytes(p)) == Success(p) <==> DecodeFiles(FilesBytes(l)) == Success(l);
    case _ => PlainPayloadRoundTrip(p);
  }

  /** `decode(encode(f)) == f` for exactly the representable frames. */
  lemma RoundTripExactly(f: Frame)
    ensures Decode(Encode(f)) == Success(f) <==> Representable(f)
  {
    DecodeOfEncode(f, []);
    assert Encode(f) + [] == Encode(f);
    if PayloadFits(f) {
      PayloadRoundTrip(f.payload);
    } else {
      EmptyPayloadFails(f.payload);
    }
  }

  lemma FourAreaCoversSides(width: int, height: int)
    requires width >= 1 && height >= 1
    ensures width + height <= 4 * width * height
  {
    assert (width - 1) * (height - 1) >= 0;
    assert width * height >= 1;
    assert 4 * width * height == 4 * (width * height);
  }

  /** Real images qualify: four bytes a pixel are never fewer than width plus height. */
  lemma RgbaImageFits(sourceId: DeviceId, version: u64, width: u32, height: u32, rgba: Bytes)
    requires width >= 1 && height >= 1 && |rgba| == 4 * width as int * height as int
    ensures ImageFits(NewImage(sourceId, version, width, height, rgba))
  {
    FourAreaCoversSides(width, height);
  }

  // ---- Decoding normalises ----

  /** A file entry as decoding leaves it. */
  predicate IsDecodedEntry(f: FileMetadata) {
    IsBaseName(f.name) && |Utf8(f.name)| <= U16_MAX
  }

  lemma DecodedName(bytes: Bytes)
    requires |bytes| <= U16_MAX
    ensures var name := DecodeText(bytes);
            name.Success? ==> IsBaseName(SanitizeName(name.value)) && |Utf8(SanitizeName(name.value))| <= U16_MAX
  {
    if DecodeText(bytes).Success? {
      var name := DecodeText(bytes).value;
      Utf8OfFromUtf8(bytes);
      hide *;
      SanitizeGivesBaseName(name);
      SanitizedLength(name);
      Utf8NotLonger("unnamed");
    }
  }

  lemma {:induction false} DecodedEntries(s: Bytes, at: nat, count: nat)
    requires at <= |s|
    decreases count
    ensures var r := DecodeEntries(s, at, count);
            r.Success? ==> |r.value| == count && forall f <- r.value :: IsDecodedEntry(f)
  {
    hide SanitizeName, DecodeText, Utf8, IsBaseName, FromLe;
    var nameAt := at + FILE_ENTRY_METADATA_LEN;
    if count > 0 && nameAt <= |s| {
      var nameLen := U16At(s, at + 16);
      if nameAt + nameLen <= |s| {
        DecodedName(s[nameAt..nameAt + nameLen]);
        DecodedEntries(s, nameAt + nameLen, count - 1);
      }
    }
  }

  predicate IsDecodedPayload(p: Payload) {
    match p
    case Clipboard(c) => IsConstructed(c) && ImageFits(c)
    case Files(l) =>
      l == NewFiles(l.sourceId, l.version, l.files) && |l.files| <= U16_MAX
      && forall f <- l.files :: IsDecodedEntry(f)
    case _ => true
  }

  lemma DecodedPayload(kind: byte, s: Bytes)
    requires DecodePayload(kind, s).Success?
    ensures IsDecodedPayload(DecodePayload(kind, s).value)
  {
    hide DecodeEvent, DecodeLegacy, DecodeChunk, DecodeControl, DecodeText, DecodeContent, TextHash, DecodeEntries,
         FilesHash;
    var p := DecodePayload(kind, s).value;
    match p
    case Clipboard(c) =>
      DecodedContentIsConstructed(s);
      if kind == PAYLOAD_CLIPBOARD_CONTENT {
        DecodedImageFits(s);
      }
    case Files(l) =>
      DecodedEntries(s, CLIPBOARD_FILES_METADATA_LEN, U16At(s, 32));
    case _ =>
  }

  /** What a decoded payload becomes when it is sent on: file names are sanitised once more. */
  function Settled(p: Payload): Payload {
    match p
    case Files(l) => Files(NewFiles(l.sourceId, l.version, Sanitized(l.files)))
    case _ => p
  }

  lemma {:induction false} SanitizedEntriesShrink(files: seq<FileMetadata>)
    requires forall f <- files :: IsDecodedEntry(f)
    ensures |EntriesBytes(Sanitized(files))| <= |EntriesBytes(files)|
    ensures forall f <- Sanitized(files) :: NameSurvives(f)
  {
    if files != [] {
      var f := files[0];
      assert IsDecodedEntry(f);
      SanitizedEntriesShrink(files[1..]);
      BaseNameLength(f.name);
      SanitizeGivesBaseName(f.name);
      SanitizeOfBaseName(f.name);
      SanitizeFixesBaseName(f.name);
      assert Sanitized(files)[1..] == Sanitized(files[1..]);
    }
  }

  lemma SettledIsRepresentable(p: Payload)
    requires IsDecodedPayload(p) && |PayloadBytes(p)| <= U32_MAX
    ensures RepresentablePayload(Settled(p))
  {
    if p.Files? {
      SanitizedEntriesShrink(p.files.files);
    }
  }

  lemma DecodedFrame(s: Bytes)
    requires Decode(s).Success?
    ensures IsDecodedPayload(Decode(s).value.payload)
  {
    if s[..4] == FRAME_MAGIC {
      DecodedPayload(s[20], s[HEADER_LEN..HEADER_LEN + U32At(s, 21)]);
    }
  }

  lemma ListReencodes(l: ClipboardFiles)
    requires ListFits(l)
    ensures DecodePayload(PAYLOAD_CLIPBOARD_FILES, FilesBytes(l)) == Success(Settled(Files(l)))
  {
    hide NewFiles, FilesBytes, Sanitized, DecodeFiles;
    FilesDecode(l);
  }

  lemma FilesReencode(f: Frame)
    requires f.payload.Files? && IsDecodedPayload(f.payload) && PayloadFits(f)
    ensures Decode(Encode(f)) == Success(f.(payload := Settled(f.payload)))
  {
    hide Decode, Encode, DecodePayload, FilesBytes, NewFiles, Settled;
    DecodeOfEncode(f, []);
    assert Encode(f) + [] == Encode(f);
    ListReencodes(f.payload.files);
  }

  /** Encoding what was decoded and decoding it again sanitises file names once more. */
  lemma DecodedReencodes(f: Frame)
    requires IsDecodedPayload(f.payload) && PayloadFits(f)
    ensures Decode(Encode(f)) == Success(f.(payload := Settled(f.payload)))
  {
    if f.payload.Files? {
      hide *;
      FilesReencode(f);
    } else {
      hide Decode, Encode;
      SettledIsRepresentable(f.payload);
      RoundTripExactly(f);
    }
  }

  /** Sending on whatever was decoded delivers it settled, and settled it never changes again. */
  lemma DecodeNormalises(s: Bytes)
    requires Decode(s).Success? && PayloadFits(Decode(s).value)
    ensures var f := Decode(s).value;
            var g := f.(payload := Settled(f.payload));
            Decode(Encode(f)) == Success(g) && Decode(Encode(g)) == Success(g)
            && (!f.payload.Files? ==> g == f)
  {
    var f := Decode(s).value;
    DecodedFrame(s);
    DecodedReencodes(f);
    SettledIsRepresentable(f.payload);
    RoundTripExactly(f.(payload := Settled(f.payload)));
  }
}
