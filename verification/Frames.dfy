/** The values a frame carries, and their constructors (crates/kmsync-core/src/protocol.rs). */
module Frames {
  import opened Bytes
  import opened Events
  import opened Text
  import opened Wrappers

  type DeviceId = u128

  const CURRENT_PROTOCOL_VERSION: u16 := 2

  datatype InputChannel = InputUnreliable | InputReliable

  datatype TransportLane = UnreliableLane | ReliableLane | ClipboardLane | ControlLane

  function ChannelForEvent(event: InputEvent): InputChannel {
    if event.MouseInput? && event.mouse.Move? then InputUnreliable else InputReliable
  }

  datatype InputEventEnvelope = InputEventEnvelope(
    sourceDeviceId: DeviceId,
    targetDeviceId: DeviceId,
    protocolVersion: u16,
    channel: InputChannel,
    event: InputEvent)

  function LegacyEnvelope(event: InputEvent): InputEventEnvelope {
    InputEventEnvelope(0, 0, 0, ChannelForEvent(event), event)
  }

  // ---- FNV-1a, 64 bit ----

  const FNV_OFFSET: u64 := 0xcbf2_9ce4_8422_2325
  const FNV_PRIME: u64 := 0x0000_0100_0000_01b3

  function XorByte(a: byte, b: byte): byte {
    (a as bv8 ^ b as bv8) as byte
  }

  function WithLowByte(hash: u64, low: byte): u64 {
    hash - hash % 0x100 + low
  }

  function XorLowByte(hash: u64, b: byte): u64 {
    WithLowByte(hash, XorByte(hash % 0x100, b))
  }

  function FnvStep(hash: u64, b: byte): u64 {
    XorLowByte(hash, b) * FNV_PRIME % 0x1_0000_0000_0000_0000
  }

  function FnvBytes(hash: u64, bytes: Bytes): u64
    decreases |bytes|
  {
    if bytes == [] then hash else FnvBytes(FnvStep(hash, bytes[0]), bytes[1..])
  }

  // ---- Clipboard content ----

  datatype ClipboardFormat = PlainText | Url | Html | Image

  function FormatCode(format: ClipboardFormat): byte {
    match format
    case PlainText => 0
    case Url => 1
    case Html => 2
    case Image => 3
  }

  datatype ClipboardImage = ClipboardImage(width: u32, height: u32, rgba: Bytes)

  datatype ClipboardText = ClipboardText(
    sourceId: DeviceId,
    version: u64,
    contentHash: u64,
    format: ClipboardFormat,
    text: string,
    html: Option<string>,
    image: Option<ClipboardImage>)

  function TextHash(text: string): u64 {
    FnvBytes(FNV_OFFSET, Utf8(text))
  }

  function ContentHash(format: ClipboardFormat, text: string, html: Option<string>): u64 {
    if format == PlainText && html == None then TextHash(text)
    else
      var afterText := FnvStep(FnvBytes(FnvStep(FNV_OFFSET, FormatCode(format)), Utf8(text)), 0xff);
      if html.Some? then FnvBytes(afterText, Utf8(html.value)) else afterText
  }

  function ImageHash(width: u32, height: u32, rgba: Bytes): u64 {
    FnvBytes(FnvBytes(FnvStep(FNV_OFFSET, FormatCode(Image)), Le32(width) + Le32(height)), rgba)
  }

  function NewText(sourceId: DeviceId, version: u64, text: string): ClipboardText {
    ClipboardText(sourceId, version, TextHash(text), PlainText, text, None, None)
  }

  function NewUrl(sourceId: DeviceId, version: u64, text: string): ClipboardText {
    ClipboardText(sourceId, version, ContentHash(Url, text, None), Url, text, None, None)
  }

  function NewHtml(sourceId: DeviceId, version: u64, html: string, text: string): ClipboardText {
    ClipboardText(sourceId, version, ContentHash(Html, text, Some(html)), Html, text, Some(html), None)
  }

  function NewImage(sourceId: DeviceId, version: u64, width: u32, height: u32, rgba: Bytes): ClipboardText {
    ClipboardText(sourceId, version, ImageHash(width, height, rgba), Image, [], None,
                  Some(ClipboardImage(width, height, rgba)))
  }

  /** `c` is what one of the four constructors builds: nothing in it is out of step with its format. */
  predicate IsConstructed(c: ClipboardText) {
    match c.format
    case PlainText => c == NewText(c.sourceId, c.version, c.text)
    case Url => c == NewUrl(c.sourceId, c.version, c.text)
    case Html => c.html.Some? && c == NewHtml(c.sourceId, c.version, c.html.value, c.text)
    case Image =>
      c.image.Some?
      && c == NewImage(c.sourceId, c.version, c.image.value.width, c.image.value.height, c.image.value.rgba)
  }

  // ---- Clipboard files ----

  datatype FileMetadata = FileMetadata(name: string, byteLen: u64, contentHash: u64)

  datatype ClipboardFiles = ClipboardFiles(
    sourceId: DeviceId,
    version: u64,
    contentHash: u64,
    files: seq<FileMetadata>)

  predicate IsSeparator(c: char) {
    c == '/' || c == '\\'
  }

  function AfterLastSeparator(s: string): (r: string)
    ensures |r| <= |s| && r == s[|s| - |r|..]
    ensures forall c <- r :: !IsSeparator(c)
    ensures (forall c <- s :: !IsSeparator(c)) ==> r == s
  {
    if s == [] then s
    else
      var last := s[|s| - 1];
      if IsSeparator(last) then []
      else AfterLastSeparator(s[..|s| - 1]) + [last]
  }

  function SanitizeName(name: string): string {
    var base := AfterLastSeparator(Trim(name));
    if base == [] then "unnamed" else base
  }

  function NewFileMetadata(name: string, byteLen: u64, contentHash: u64): FileMetadata {
    FileMetadata(SanitizeName(name), byteLen, contentHash)
  }

  function FilesHashFrom(hash: u64, files: seq<FileMetadata>): u64
    decreases |files|
  {
    if files == [] then hash
    else
      var afterName := FnvStep(FnvBytes(hash, Utf8(files[0].name)), 0xff);
      FilesHashFrom(FnvBytes(afterName, Le64(files[0].byteLen) + Le64(files[0].contentHash)), files[1..])
  }

  function FilesHash(files: seq<FileMetadata>): u64 {
    FilesHashFrom(FnvStep(FNV_OFFSET, 0x05), files)
  }

  function NewFiles(sourceId: DeviceId, version: u64, files: seq<FileMetadata>): ClipboardFiles {
    ClipboardFiles(sourceId, version, FilesHash(files), files)
  }

  // ---- File chunks and control messages ----

  datatype FileChunk = FileChunk(
    transferId: u128,
    sourceId: DeviceId,
    fileIndex: u32,
    offset: u64,
    totalSize: u64,
    chunkIndex: u32,
    isFinal: bool,
    data: Bytes)

  datatype ChannelFlags = ChannelFlags(inputUnreliable: bool, inputReliable: bool, clipboard: bool, control: bool)

  datatype SessionStateKind = Starting | Active | Suspended | Closing

  datatype ControlMessage =
    | Heartbeat(sourceDeviceId: DeviceId, sessionId: u128, sequence: u64)
    | Capabilities(sourceDeviceId: DeviceId, minVersion: u16, maxVersion: u16, channels: ChannelFlags)
    | ConfigVersion(sourceDeviceId: DeviceId, version: u64)
    | SessionState(sourceDeviceId: DeviceId, sessionId: u128, state: SessionStateKind)

  // ---- Frames ----

  datatype Payload =
    | Input(input: InputEventEnvelope)
    | Clipboard(clipboard: ClipboardText)
    | Files(files: ClipboardFiles)
    | Chunk(chunk: FileChunk)
    | Control(message: ControlMessage)

  datatype Frame = Frame(sequence: u64, timestampMicros: u64, payload: Payload)

  function LaneOf(p: Payload): TransportLane {
    match p
    case Input(input) => if input.channel == InputUnreliable then UnreliableLane else ReliableLane
    case Clipboard(_) => ClipboardLane
    case Files(_) => ClipboardLane
    case Chunk(_) => ClipboardLane
    case Control(_) => ControlLane
  }
}
