/**
 The binary frame format (crates/kmsync-core/src/protocol.rs). `Encode` says what
 the bytes of a frame are; FrameEncoders.dfy has the two encoders that produce
 them. `Decode` is the parser, with its legacy paths.
 */
module FrameCodec {
  import opened Bytes
  import opened Events
  import opened Frames
  import opened Text
  import opened Wrappers

  const LEGACY_MAGIC: Bytes := [0x53, 0x59, 0x4E, 0x31] // SYN1
  const FRAME_MAGIC: Bytes := [0x53, 0x59, 0x4E, 0x32]  // SYN2

  const PAYLOAD_INPUT: byte := 1
  const PAYLOAD_CLIPBOARD_TEXT_LEGACY: byte := 10
  const PAYLOAD_CLIPBOARD_TEXT: byte := 11
  const PAYLOAD_CLIPBOARD_CONTENT: byte := 12
  const PAYLOAD_CLIPBOARD_FILES: byte := 13
  const PAYLOAD_FILE_CHUNK: byte := 14
  const PAYLOAD_CONTROL: byte := 20

  const HEADER_LEN: nat := 25
  const INPUT_METADATA_LEN: nat := 35
  const CLIPBOARD_METADATA_LEN: nat := 32
  const CLIPBOARD_CONTENT_METADATA_LEN: nat := 41
  const CLIPBOARD_FILES_METADATA_LEN: nat := 34
  const FILE_ENTRY_METADATA_LEN: nat := 18
  const FILE_CHUNK_METADATA_LEN: nat := 57

  datatype DecodeError =
    | TooShort
    | BadMagic
    | UnknownEventType(kind: byte)
    | UnknownInputChannel(channel: byte)
    | UnknownClipboardFormat(format: byte)
    | UnknownControlMessage(message: byte)
    | UnknownControlSessionState(session: byte)
    | UnknownKey(key: u16)
    | UnknownButton(button: byte)
    | UnknownState(state: byte)
    | InvalidUtf8

  type Decoded<T> = Result<T, DecodeError>

  // ---- One-byte codes ----

  function KeyStateCode(s: KeyState): byte { if s == Pressed then 1 else 2 }

  function DecodeKeyState(b: byte): Decoded<KeyState> {
    if b == 1 then Success(Pressed) else if b == 2 then Success(Released) else Failure(UnknownState(b))
  }

  function ButtonCode(b: MouseButton): byte {
    match b
    case Left => 1
    case Right => 2
    case Middle => 3
    case Back => 4
    case Forward => 5
  }

  function DecodeButton(b: byte): Decoded<MouseButton> {
    match b
    case 1 => Success(Left)
    case 2 => Success(Right)
    case 3 => Success(Middle)
    case 4 => Success(Back)
    case 5 => Success(Forward)
    case _ => Failure(UnknownButton(b))
  }

  function InputChannelCode(c: InputChannel): byte { if c == InputUnreliable then 1 else 2 }

  function DecodeInputChannel(b: byte): Decoded<InputChannel> {
    if b == 1 then Success(InputUnreliable)
    else if b == 2 then Success(InputReliable)
    else Failure(UnknownInputChannel(b))
  }

  function DecodeFormat(b: byte): Decoded<ClipboardFormat> {
    match b
    case 0 => Success(PlainText)
    case 1 => Success(Url)
    case 2 => Success(Html)
    case 3 => Success(Image)
    case _ => Failure(UnknownClipboardFormat(b))
  }

  function FlagsCode(f: ChannelFlags): byte {
    (if f.inputUnreliable then 1 else 0) + (if f.inputReliable then 2 else 0)
    + (if f.clipboard then 4 else 0) + (if f.control then 8 else 0)
  }

  function DecodeFlags(b: byte): ChannelFlags {
    ChannelFlags(b % 2 == 1, b / 2 % 2 == 1, b / 4 % 2 == 1, b / 8 % 2 == 1)
  }

  function SessionStateCode(s: SessionStateKind): byte {
    match s
    case Starting => 1
    case Active => 2
    case Suspended => 3
    case Closing => 4
  }

  function DecodeSessionState(b: byte): Decoded<SessionStateKind> {
    match b
    case 1 => Success(Starting)
    case 2 => Success(Active)
    case 3 => Success(Suspended)
    case 4 => Success(Closing)
    case _ => Failure(UnknownControlSessionState(b))
  }

  // ---- Encoding ----

  function EventBytes(event: InputEvent): (r: Bytes)
    ensures 1 <= |r| <= 9
  {
    match event
    case KeyInput(k) => [1] + Le16(k.key) + [KeyStateCode(k.state), ModifierBits(k.modifiers)]
    case MouseInput(Move(dx, dy)) => [2] + Le32(dx) + Le32(dy)
    case MouseInput(Button(button, state)) => [3, ButtonCode(button), KeyStateCode(state)]
    case ScrollInput(dx, dy) => [4] + Le32(dx) + Le32(dy)
    case MouseInput(Position(x, y)) => [5] + Le32(x) + Le32(y)
  }

  function InputBytes(i: InputEventEnvelope): Bytes {
    Le128(i.sourceDeviceId) + Le128(i.targetDeviceId) + Le16(i.protocolVersion)
    + [InputChannelCode(i.channel)] + EventBytes(i.event)
  }

  predicate UsesContentFrame(c: ClipboardText) {
    c.format != PlainText || c.html.Some? || c.image.Some?
  }

  function HtmlBytes(c: ClipboardText): Bytes {
    if c.html.Some? then Utf8(c.html.value) else []
  }

  function ImageBytes(c: ClipboardText): Bytes {
    if c.image.Some? then c.image.value.rgba else []
  }

  function U32OrZero(n: nat): u32 { if n <= U32_MAX then n else 0 }
  function U16OrZero(n: nat): u16 { if n <= U16_MAX then n else 0 }

  /** The two length fields: byte lengths, or width and height of an image. */
  function ContentLengths(c: ClipboardText): Option<(u32, u32)> {
    if c.format == Image then
      if c.image.Some? then Some((c.image.value.width, c.image.value.height)) else None
    else if |Utf8(c.text)| <= U32_MAX && |HtmlBytes(c)| <= U32_MAX then
      Some((|Utf8(c.text)|, |HtmlBytes(c)|))
    else None
  }

  function ContentMetadata(c: ClipboardText, lengths: (u32, u32)): (r: Bytes)
    ensures |r| == CLIPBOARD_CONTENT_METADATA_LEN
  {
    Le128(c.sourceId) + Le64(c.version) + Le64(c.contentHash) + [FormatCode(c.format)]
    + Le32(lengths.0) + Le32(lengths.1)
  }

  function ClipboardBytes(c: ClipboardText): Bytes {
    if UsesContentFrame(c) then
      var lengths := if ContentLengths(c).Some? then ContentLengths(c).value else (0, 0);
      ContentMetadata(c, lengths) + Utf8(c.text) + HtmlBytes(c) + ImageBytes(c)
    else
      Le128(c.sourceId) + Le64(c.version) + Le64(c.contentHash) + Utf8(c.text)
  }

  function EntryBytes(f: FileMetadata): Bytes {
    Le64(f.byteLen) + Le64(f.contentHash) + Le16(U16OrZero(|Utf8(f.name)|)) + Utf8(f.name)
  }

  function EntriesBytes(files: seq<FileMetadata>): Bytes {
    if files == [] then [] else EntryBytes(files[0]) + EntriesBytes(files[1..])
  }

  function FilesBytes(f: ClipboardFiles): Bytes {
    Le128(f.sourceId) + Le64(f.version) + Le64(f.contentHash) + Le16(U16OrZero(|f.files|)) + EntriesBytes(f.files)
  }

  function ChunkMetadata(c: FileChunk): (r: Bytes)
    ensures |r| == FILE_CHUNK_METADATA_LEN
  {
    Le128(c.transferId) + Le128(c.sourceId) + Le32(c.fileIndex) + Le64(c.offset) + Le64(c.totalSize)
    + Le32(c.chunkIndex) + [if c.isFinal then 1 else 0]
  }

  function ControlBytes(m: ControlMessage): Bytes {
    match m
    case Heartbeat(source, session, sequence) => [1] + Le128(source) + Le128(session) + Le64(sequence)
    case Capabilities(source, low, high, channels) =>
      [2] + Le128(source) + Le16(low) + Le16(high) + [FlagsCode(channels)]
    case ConfigVersion(source, version) => [3] + Le128(source) + Le64(version)
    case SessionState(source, session, state) => [4] + Le128(source) + Le128(session) + [SessionStateCode(state)]
  }

  function PayloadKind(p: Payload): byte {
    match p
    case Input(_) => PAYLOAD_INPUT
    case Clipboard(c) => if UsesContentFrame(c) then PAYLOAD_CLIPBOARD_CONTENT else PAYLOAD_CLIPBOARD_TEXT
    case Files(_) => PAYLOAD_CLIPBOARD_FILES
    case Chunk(_) => PAYLOAD_FILE_CHUNK
    case Control(_) => PAYLOAD_CONTROL
  }

  function PayloadBytes(p: Payload): Bytes {
    match p
    case Input(i) => InputBytes(i)
    case Clipboard(c) => ClipboardBytes(c)
    case Files(f) => FilesBytes(f)
    case Chunk(c) => ChunkMetadata(c) + c.data
    case Control(m) => ControlBytes(m)
  }

  function Header(sequence: u64, timestampMicros: u64, kind: byte, len: u32): (r: Bytes)
    ensures |r| == HEADER_LEN
  {
    FRAME_MAGIC + Le64(sequence) + Le64(timestampMicros) + [kind] + Le32(len)
  }

  /** The bytes of a frame. A payload too long for the length field gets the length 0. */
  function Encode(f: Frame): Bytes {
    var body := PayloadBytes(f.payload);
    Header(f.sequence, f.timestampMicros, PayloadKind(f.payload), U32OrZero(|body|)) + body
  }

  // ---- Decoding ----

  function DecodeEvent(s: Bytes): Decoded<InputEvent> {
    if |s| == 0 then Failure(TooShort)
    else if s[0] == 1 then
      if |s| < 5 then Failure(TooShort)
      else
        var raw := U16At(s, 1);
        if !IsKeyCode(raw) then Failure(UnknownKey(raw))
        else
          var state :- DecodeKeyState(s[3]);
          Success(KeyInput(KeyEvent(raw, state, ModifiersFromBits(s[4]))))
    else if s[0] == 2 then
      if |s| < 9 then Failure(TooShort) else Success(MouseInput(Move(U32At(s, 1), U32At(s, 5))))
    else if s[0] == 5 then
      if |s| < 9 then Failure(TooShort) else Success(MouseInput(Position(U32At(s, 1), U32At(s, 5))))
    else if s[0] == 3 then
      if |s| < 3 then Failure(TooShort)
      else
        var button :- DecodeButton(s[1]);
        var state :- DecodeKeyState(s[2]);
        Success(MouseInput(Button(button, state)))
    else if s[0] == 4 then
      if |s| < 9 then Failure(TooShort) else Success(ScrollInput(U32At(s, 1), U32At(s, 5)))
    else Failure(UnknownEventType(s[0]))
  }

  datatype ProtocolEvent = ProtocolEvent(sequence: u64, timestampMicros: u64, event: InputEvent)

  /** The first wire format: magic, sequence, time, event. */
  function LegacyBytes(e: ProtocolEvent): Bytes {
    LEGACY_MAGIC + Le64(e.sequence) + Le64(e.timestampMicros) + EventBytes(e.event)
  }

  function DecodeLegacy(s: Bytes): Decoded<ProtocolEvent> {
    if |s| < 21 then Failure(TooShort)
    else if s[..4] != LEGACY_MAGIC then Failure(BadMagic)
    else
      var event :- DecodeEvent(s[20..]);
      Success(ProtocolEvent(U64At(s, 4), U64At(s, 12), event))
  }

  function DecodeText(s: Bytes): Decoded<string> {
    match FromUtf8(s)
    case None => Failure(InvalidUtf8)
    case Some(text) => Success(text)
  }

  function DecodeInput(s: Bytes): Decoded<Payload> {
    if |s| < INPUT_METADATA_LEN + 1 then Failure(TooShort)
    else
      var channel :- DecodeInputChannel(s[34]);
      var event :- DecodeEvent(s[INPUT_METADATA_LEN..]);
      Success(Input(InputEventEnvelope(U128At(s, 0), U128At(s, 16), U16At(s, 32), channel, event)))
  }

  function FromParts(sourceId: DeviceId, version: u64, format: ClipboardFormat, text: string, html: Option<string>)
    : ClipboardText
  {
    match format
    case PlainText => NewText(sourceId, version, text)
    case Url => NewUrl(sourceId, version, text)
    case Html => NewHtml(sourceId, version, if html.Some? then html.value else [], text)
    case Image => NewImage(sourceId, version, 0, 0, [])
  }

  function DecodeContent(s: Bytes): Decoded<ClipboardText> {
    if |s| < CLIPBOARD_CONTENT_METADATA_LEN then Failure(TooShort)
    else
      var sourceId, version := U128At(s, 0), U64At(s, 16);
      var format :- DecodeFormat(s[32]);
      var textLen, htmlLen := U32At(s, 33), U32At(s, 37);
      if |s| < CLIPBOARD_CONTENT_METADATA_LEN as int + textLen as int + htmlLen as int then Failure(TooShort)
      else if format == Image then
        Success(NewImage(sourceId, version, textLen, htmlLen, s[CLIPBOARD_CONTENT_METADATA_LEN..]))
      else
        var textEnd := CLIPBOARD_CONTENT_METADATA_LEN as int + textLen as int;
        var text :- DecodeText(s[CLIPBOARD_CONTENT_METADATA_LEN..textEnd]);
        if htmlLen == 0 then Success(FromParts(sourceId, version, format, text, None))
        else
          var html :- DecodeText(s[textEnd..textEnd + htmlLen as int]);
          Success(FromParts(sourceId, version, format, text, Some(html)))
  }

  /** `count` entries of the file list, read from `at` on. */
  function DecodeEntries(s: Bytes, at: nat, count: nat): Decoded<seq<FileMetadata>>
    requires at <= |s|
    decreases count
  {
    if count == 0 then Success([])
    else if |s| < at + FILE_ENTRY_METADATA_LEN then Failure(TooShort)
    else
      var nameAt := at + FILE_ENTRY_METADATA_LEN;
      var nameLen := U16At(s, at + 16);
      if |s| < nameAt + nameLen then Failure(TooShort)
      else
        var name :- DecodeText(s[nameAt..nameAt + nameLen]);
        var rest :- DecodeEntries(s, nameAt + nameLen, count - 1);
        Success([NewFileMetadata(name, U64At(s, at), U64At(s, at + 8))] + rest)
  }

  function DecodeFiles(s: Bytes): Decoded<ClipboardFiles> {
    if |s| < CLIPBOARD_FILES_METADATA_LEN then Failure(TooShort)
    else
      var files :- DecodeEntries(s, CLIPBOARD_FILES_METADATA_LEN, U16At(s, 32));
      Success(NewFiles(U128At(s, 0), U64At(s, 16), files))
  }

  function DecodeChunk(s: Bytes): Decoded<FileChunk> {
    if |s| < FILE_CHUNK_METADATA_LEN then Failure(TooShort)
    else if s[56] > 1 then Failure(UnknownState(s[56]))
    else
      Success(FileChunk(U128At(s, 0), U128At(s, 16), U32At(s, 32), U64At(s, 36), U64At(s, 44), U32At(s, 52),
                        s[56] == 1, s[FILE_CHUNK_METADATA_LEN..]))
  }

  function DecodeControl(s: Bytes): Decoded<ControlMessage> {
    if |s| == 0 then Failure(TooShort)
    else if s[0] == 1 then
      if |s| < 41 then Failure(TooShort) else Success(Heartbeat(U128At(s, 1), U128At(s, 17), U64At(s, 33)))
    else if s[0] == 2 then
      if |s| < 22 then Failure(TooShort)
      else Success(Capabilities(U128At(s, 1), U16At(s, 17), U16At(s, 19), DecodeFlags(s[21])))
    else if s[0] == 3 then
      if |s| < 25 then Failure(TooShort) else Success(ConfigVersion(U128At(s, 1), U64At(s, 17)))
    else if s[0] == 4 then
      if |s| < 34 then Failure(TooShort)
      else
        var state :- DecodeSessionState(s[33]);
        Success(SessionState(U128At(s, 1), U128At(s, 17), state))
    else Failure(UnknownControlMessage(s[0]))
  }

  function DecodePlain(s: Bytes): Decoded<ClipboardText> {
    if |s| < CLIPBOARD_METADATA_LEN then Failure(TooShort)
    else
      var text :- DecodeText(s[CLIPBOARD_METADATA_LEN..]);
      Success(NewText(U128At(s, 0), U64At(s, 16), text))
  }

  function DecodePayload(kind: byte, s: Bytes): Decoded<Payload> {
    if kind == 0 then
      var legacy :- DecodeLegacy(s);
      Success(Input(LegacyEnvelope(legacy.event)))
    else if kind == PAYLOAD_INPUT then DecodeInput(s)
    else if kind == PAYLOAD_CLIPBOARD_TEXT_LEGACY then
      var text :- DecodeText(s);
      Success(Clipboard(NewText(0, 0, text)))
    else if kind == PAYLOAD_CLIPBOARD_TEXT then
      var c :- DecodePlain(s);
      Success(Clipboard(c))
    else if kind == PAYLOAD_CLIPBOARD_CONTENT then
      var c :- DecodeContent(s);
      Success(Clipboard(c))
    else if kind == PAYLOAD_CLIPBOARD_FILES then
      var f :- DecodeFiles(s);
      Success(Files(f))
    else if kind == PAYLOAD_FILE_CHUNK then
      var c :- DecodeChunk(s);
      Success(Chunk(c))
    else if kind == PAYLOAD_CONTROL then
      var m :- DecodeControl(s);
      Success(Control(m))
    else Failure(UnknownEventType(kind))
  }

  /** `ProtocolFrame::decode`. */
  function Decode(s: Bytes): Decoded<Frame> {
    if |s| < HEADER_LEN then Failure(TooShort)
    else if s[..4] != FRAME_MAGIC then
      var legacy :- DecodeLegacy(s);
      Success(Frame(legacy.sequence, legacy.timestampMicros, Input(LegacyEnvelope(legacy.event))))
    else
      var len := U32At(s, 21);
      if |s| < HEADER_LEN + len then Failure(TooShort)
      else
        var payload :- DecodePayload(s[20], s[HEADER_LEN..HEADER_LEN + len]);
        Success(Frame(U64At(s, 4), U64At(s, 12), payload))
  }
}
