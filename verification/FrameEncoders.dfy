/**
 The two encoders of crates/kmsync-core/src/protocol.rs, which fill buffers step
 by step, and the loop that reads a file list. Each is proved against FrameCodec.
 */
module FrameEncoders {
  import opened Bytes
  import opened FrameCodec
  import opened FrameLaws
  import opened Frames
  import opened Text
  import opened Wrappers

  datatype EncodeError = BufferTooSmall | LengthOverflow

  const USIZE_MAX: nat := U64_MAX

  // ---- Lengths, computed without encoding ----

  function EntriesLen(files: seq<FileMetadata>): (n: nat)
  {
    if files == [] then 0 else FILE_ENTRY_METADATA_LEN + |Utf8(files[0].name)| + EntriesLen(files[1..])
  }

  lemma {:induction false} EntriesLenIsLength(files: seq<FileMetadata>)
    ensures |EntriesBytes(files)| == EntriesLen(files)
  {
    hide Utf8, Le;
    if files != [] {
      EntriesLenIsLength(files[1..]);
    }
  }

  /** The `?`-checked sum: None when it overflows `usize`. */
  function CheckedLen(n: nat): Option<nat> {
    if n <= USIZE_MAX then Some(n) else None
  }

  function ContentPayloadLen(c: ClipboardText): Option<nat> {
    CheckedLen(CLIPBOARD_CONTENT_METADATA_LEN + |Utf8(c.text)| + |HtmlBytes(c)| + |ImageBytes(c)|)
  }

  function FilesPayloadLen(l: ClipboardFiles): Option<nat> {
    CheckedLen(CLIPBOARD_FILES_METADATA_LEN + EntriesLen(l.files))
  }

  function ControlPayloadLen(m: ControlMessage): nat {
    match m
    case Heartbeat(_, _, _) => 41
    case Capabilities(_, _, _, _) => 22
    case ConfigVersion(_, _) => 25
    case SessionState(_, _, _) => 34
  }

  lemma ControlPayloadLenIsLength(m: ControlMessage)
    ensures |ControlBytes(m)| == ControlPayloadLen(m)
  {
    hide Le;
  }

  // ---- Growing a vector ----

  method AppendContent(c: ClipboardText, start: Bytes) returns (out: Bytes)
    requires UsesContentFrame(c)
    ensures out == start + [PAYLOAD_CLIPBOARD_CONTENT] + Le32(U32OrZero(|ClipboardBytes(c)|)) + ClipboardBytes(c)
  {
    hide Utf8, Le;
    var text, html, image := Utf8(c.text), HtmlBytes(c), ImageBytes(c);
    var lengths := if ContentLengths(c).Some? then ContentLengths(c).value else (0, 0);
    out := start + [PAYLOAD_CLIPBOARD_CONTENT];
    out := out + Le32(U32OrZero(CLIPBOARD_CONTENT_METADATA_LEN + |text| + |html| + |image|));
    ghost var before := out;
    out := out + Le128(c.sourceId);
    out := out + Le64(c.version);
    out := out + Le64(c.contentHash);
    out := out + [FormatCode(c.format)];
    out := out + Le32(lengths.0);
    out := out + Le32(lengths.1);
    assert out == before + ContentMetadata(c, lengths);
    hide ContentMetadata;
    out := out + text;
    out := out + html;
    out := out + image;
    assert out == before + ClipboardBytes(c);
  }

  method AppendEntry(file: FileMetadata, start: Bytes) returns (out: Bytes)
    ensures out == start + EntryBytes(file)
  {
    hide Utf8, Le;
    var name := Utf8(file.name);
    out := start + Le64(file.byteLen);
    out := out + Le64(file.contentHash);
    out := out + Le16(U16OrZero(|name|));
    out := out + name;
  }

  method AppendFiles(l: ClipboardFiles, start: Bytes) returns (out: Bytes)
    ensures out == start + [PAYLOAD_CLIPBOARD_FILES] + Le32(U32OrZero(|FilesBytes(l)|)) + FilesBytes(l)
  {
    EntriesLenIsLength(l.files);
    hide Le, EntryBytes, EntriesLen;
    out := start + [PAYLOAD_CLIPBOARD_FILES];
    out := out + Le32(U32OrZero(if FilesPayloadLen(l).Some? then FilesPayloadLen(l).value else 0));
    out := out + Le128(l.sourceId);
    out := out + Le64(l.version);
    out := out + Le64(l.contentHash);
    out := out + Le16(U16OrZero(|l.files|));
    ghost var before := out;
    assert before + EntriesBytes(l.files)
        == start + [PAYLOAD_CLIPBOARD_FILES] + Le32(U32OrZero(|FilesBytes(l)|)) + FilesBytes(l);
    for i := 0 to |l.files|
      invariant out == before + EntriesBytes(l.files[..i])
    {
      EntriesBytesSnoc(l.files[..i], l.files[i]);
      assert l.files[..i + 1] == l.files[..i] + [l.files[i]];
      hide EntriesBytes;
      out := AppendEntry(l.files[i], out);
    }
    assert l.files[..|l.files|] == l.files;
  }

  lemma EntriesBytesCons(first: FileMetadata, rest: seq<FileMetadata>)
    ensures EntriesBytes([first] + rest) == EntryBytes(first) + EntriesBytes(rest)
  {
    hide EntryBytes;
    assert ([first] + rest)[1..] == rest;
  }

  lemma {:induction false} EntriesBytesConcat(a: seq<FileMetadata>, b: seq<FileMetadata>)
    ensures EntriesBytes(a + b) == EntriesBytes(a) + EntriesBytes(b)
  {
    hide EntryBytes;
    assert EntriesBytes([]) == [];
    hide EntriesBytes;
    if a == [] {
      assert a + b == b;
    } else {
      var first, rest := a[0], a[1..];
      assert a == [first] + rest;
      assert a + b == [first] + (rest + b);
      EntriesBytesCons(first, rest);
      EntriesBytesCons(first, rest + b);
      EntriesBytesConcat(rest, b);
    }
  }

  lemma EntriesBytesSnoc(files: seq<FileMetadata>, last: FileMetadata)
    ensures EntriesBytes(files + [last]) == EntriesBytes(files) + EntryBytes(last)
  {
    EntriesBytesConcat(files, [last]);
    assert EntriesBytes([last]) == EntryBytes(last) by {
      hide EntryBytes;
      EntriesBytesCons(last, []);
      assert [last] + [] == [last];
    }
    hide EntriesBytes, EntryBytes;
  }

  method AppendChunk(c: FileChunk, start: Bytes) returns (out: Bytes)
    ensures var body := ChunkMetadata(c) + c.data;
            out == start + [PAYLOAD_FILE_CHUNK] + Le32(U32OrZero(|body|)) + body
  {
    hide Le;
    out := start + [PAYLOAD_FILE_CHUNK];
    out := out + Le32(U32OrZero(FILE_CHUNK_METADATA_LEN + |c.data|));
    out := out + ChunkMetadata(c);
    out := out + c.data;
  }

  method AppendControl(m: ControlMessage, start: Bytes) returns (out: Bytes)
    ensures out == start + [PAYLOAD_CONTROL] + Le32(U32OrZero(|ControlBytes(m)|)) + ControlBytes(m)
  {
    hide ControlBytes;
    ControlPayloadLenIsLength(m);
    out := start + [PAYLOAD_CONTROL];
    out := out + Le32(U32OrZero(ControlPayloadLen(m)));
    out := out + ControlBytes(m);
  }

  /** `ProtocolFrame::encode_vec`. */
  method EncodeVec(f: Frame) returns (out: Bytes)
    ensures out == Encode(f)
  {
    hide Le, EventBytes, Utf8, EntriesBytes, ControlBytes, ChunkMetadata, ContentMetadata;
    out := FRAME_MAGIC;
    out := out + Le64(f.sequence);
    out := out + Le64(f.timestampMicros);
    match f.payload {
      case Input(input) =>
        var event := EventBytes(input.event);
        out := out + [PAYLOAD_INPUT];
        out := out + Le32(U32OrZero(INPUT_METADATA_LEN + |event|));
        out := out + Le128(input.sourceDeviceId);
        out := out + Le128(input.targetDeviceId);
        out := out + Le16(input.protocolVersion);
        out := out + [InputChannelCode(input.channel)];
        out := out + event;
      case Clipboard(clipboard) =>
        if UsesContentFrame(clipboard) {
          out := AppendContent(clipboard, out);
        } else {
          var text := Utf8(clipboard.text);
          out := out + [PAYLOAD_CLIPBOARD_TEXT];
          out := out + Le32(U32OrZero(CLIPBOARD_METADATA_LEN + |text|));
          out := out + Le128(clipboard.sourceId);
          out := out + Le64(clipboard.version);
          out := out + Le64(clipboard.contentHash);
          out := out + text;
        }
      case Files(files) =>
        out := AppendFiles(files, out);
      case Chunk(chunk) =>
        out := AppendChunk(chunk, out);
      case Control(message) =>
        out := AppendControl(message, out);
    }
  }

  // ---- Filling a buffer in place ----

  /** All lengths fit the fields that carry them. */
  predicate LengthsFit(p: Payload) {
    |PayloadBytes(p)| <= U32_MAX
    && match p
       case Clipboard(c) => c.format == Image ==> c.image.Some?
       case Files(l) => ListFits(l)
       case _ => true
  }

  /** `out` holds `written` and, after it, what it held before. */
  ghost predicate IsOverwritten(out: array<byte>, written: Bytes, was: Bytes)
    reads out
  {
    |was| == out.Length && |written| <= |was| && out[..] == written + was[|written|..]
  }

  /** `out[at..at + len].copy_from_slice(src)`, at the end of what is written so far. */
  method Put(out: array<byte>, ghost written: Bytes, ghost was: Bytes, at: nat, src: Bytes)
    returns (ghost next: Bytes)
    requires IsOverwritten(out, written, was) && at == |written| && at + |src| <= out.Length
    modifies out
    ensures next == written + src && IsOverwritten(out, next, was)
  {
    for i := 0 to |src|
      invariant out[..] == written + src[..i] + was[at + i..]
    {
      out[at + i] := src[i];
    }
    next := written + src;
  }

  /** Bytes 20 to 24: the payload kind and its length. */
  method PutHeader(out: array<byte>, ghost written: Bytes, ghost was: Bytes, kind: byte, len: u32)
    returns (ghost next: Bytes)
    requires IsOverwritten(out, written, was) && |written| == 20 && 25 <= out.Length
    modifies out
    ensures next == written + ([kind] + Le32(len)) && IsOverwritten(out, next, was)
  {
    hide Le;
    next := Put(out, written, was, 20, [kind]);
    next := Put(out, next, was, 21, Le32(len));
    assert next == written + ([kind] + Le32(len));
  }

  /** What one of the five branches leaves behind: all of the payload on success, the first 20 bytes otherwise. */
  ghost predicate Filled(
    out: array<byte>, written: Bytes, was: Bytes, kind: byte, body: Bytes, r: Result<nat, EncodeError>)
    reads out
  {
    match r
    case Success(n) => n == 25 + |body| && IsOverwritten(out, written + ([kind] + Le32(U32OrZero(|body|))) + body, was)
    case Failure(_) => IsOverwritten(out, written, was)
  }

  method EncodeInputInto(i: InputEventEnvelope, out: array<byte>, ghost written: Bytes, ghost was: Bytes)
    returns (r: Result<nat, EncodeError>)
    requires IsOverwritten(out, written, was) && |written| == 20 && 25 <= out.Length
    modifies out
    ensures Filled(out, written, was, PAYLOAD_INPUT, InputBytes(i), r)
    ensures r.Success? <==> 25 + |InputBytes(i)| <= out.Length
    ensures r.Failure? ==> r.error == BufferTooSmall
  {
    hide Le, EventBytes;
    var event := EventBytes(i.event);
    var required := 25 + INPUT_METADATA_LEN + |event|;
    if out.Length < required {
      return Failure(BufferTooSmall);
    }
    ghost var next := PutHeader(out, written, was, PAYLOAD_INPUT, INPUT_METADATA_LEN + |event|);
    ghost var header := next;
    next := Put(out, next, was, 25, Le128(i.sourceDeviceId));
    next := Put(out, next, was, 41, Le128(i.targetDeviceId));
    next := Put(out, next, was, 57, Le16(i.protocolVersion));
    next := Put(out, next, was, 59, [InputChannelCode(i.channel)]);
    next := Put(out, next, was, 60, event);
    assert next == header + InputBytes(i);
    return Success(required);
  }

  method EncodeTextInto(c: ClipboardText, out: array<byte>, ghost written: Bytes, ghost was: Bytes)
    returns (r: Result<nat, EncodeError>)
    requires !UsesContentFrame(c)
    requires IsOverwritten(out, written, was) && |written| == 20 && 25 <= out.Length
    modifies out
    ensures var body := ClipboardBytes(c);
            Filled(out, written, was, PAYLOAD_CLIPBOARD_TEXT, body, r)
            && (r.Success? <==> |body| <= U32_MAX && 25 + |body| <= out.Length)
            && (r.Failure? ==> r.error == if |body| <= U32_MAX then BufferTooSmall else LengthOverflow)
  {
    hide Le, Utf8;
    var text := Utf8(c.text);
    if CLIPBOARD_METADATA_LEN + |text| > U32_MAX {
      return Failure(LengthOverflow);
    }
    var required := 25 + CLIPBOARD_METADATA_LEN + |text|;
    if out.Length < required {
      return Failure(BufferTooSmall);
    }
    ghost var next := PutHeader(out, written, was, PAYLOAD_CLIPBOARD_TEXT, CLIPBOARD_METADATA_LEN + |text|);
    ghost var header := next;
    next := Put(out, next, was, 25, Le128(c.sourceId));
    next := Put(out, next, was, 41, Le64(c.version));
    next := Put(out, next, was, 49, Le64(c.contentHash));
    next := Put(out, next, was, 57, text);
    assert next == header + ClipboardBytes(c);
    return Success(required);
  }

  /** The error of the branches that check the buffer before the length fields. */
  predicate BufferFirst(bodyLen: nat, cap: nat, r: Result<nat, EncodeError>) {
    r.Failure? ==>
      r.error == if 25 + bodyLen <= USIZE_MAX && cap < 25 + bodyLen then BufferTooSmall else LengthOverflow
  }

  method PutContentMetadata(
    c: ClipboardText, lengths: (u32, u32), out: array<byte>, ghost written: Bytes, ghost was: Bytes)
    returns (ghost next: Bytes)
    requires IsOverwritten(out, written, was) && |written| == 25 && 66 <= out.Length
    modifies out
    ensures |next| == 66 && next == written + ContentMetadata(c, lengths) && IsOverwritten(out, next, was)
  {
    hide Le;
    next := Put(out, written, was, 25, Le128(c.sourceId));
    next := Put(out, next, was, 41, Le64(c.version));
    next := Put(out, next, was, 49, Le64(c.contentHash));
    next := Put(out, next, was, 57, [FormatCode(c.format)]);
    next := Put(out, next, was, 58, Le32(lengths.0));
    next := Put(out, next, was, 62, Le32(lengths.1));
  }

  method EncodeContentInto(c: ClipboardText, out: array<byte>, ghost written: Bytes, ghost was: Bytes)
    returns (r: Result<nat, EncodeError>)
    requires UsesContentFrame(c) && out.Length <= USIZE_MAX
    requires IsOverwritten(out, written, was) && |written| == 20 && 25 <= out.Length
    modifies out
    ensures var body := ClipboardBytes(c);
            Filled(out, written, was, PAYLOAD_CLIPBOARD_CONTENT, body, r) && BufferFirst(|body|, out.Length, r)
            && (r.Success? <==> |body| <= U32_MAX && ContentLengths(c).Some? && 25 + |body| <= out.Length)
  {
    hide Le, Utf8;
    var text, html, image := Utf8(c.text), HtmlBytes(c), ImageBytes(c);
    var payloadLen := ContentPayloadLen(c);
    if payloadLen == None || 25 + payloadLen.value > USIZE_MAX {
      return Failure(LengthOverflow);
    }
    var required := 25 + payloadLen.value;
    if out.Length < required {
      return Failure(BufferTooSmall);
    }
    if payloadLen.value > U32_MAX || ContentLengths(c) == None {
      return Failure(LengthOverflow);
    }
    ghost var next := PutHeader(out, written, was, PAYLOAD_CLIPBOARD_CONTENT, payloadLen.value);
    ghost var header := next;
    next := PutContentMetadata(c, ContentLengths(c).value, out, next, was);
    next := Put(out, next, was, 66, text);
    next := Put(out, next, was, 66 + |text|, html);
    next := Put(out, next, was, 66 + |text| + |html|, image);
    hide ContentMetadata;
    assert next == header + ClipboardBytes(c);
    return Success(required);
  }

  method EncodeChunkInto(c: FileChunk, out: array<byte>, ghost written: Bytes, ghost was: Bytes)
    returns (r: Result<nat, EncodeError>)
    requires out.Length <= USIZE_MAX
    requires IsOverwritten(out, written, was) && |written| == 20 && 25 <= out.Length
    modifies out
    ensures var body := ChunkMetadata(c) + c.data;
            Filled(out, written, was, PAYLOAD_FILE_CHUNK, body, r) && BufferFirst(|body|, out.Length, r)
            && (r.Success? <==> |body| <= U32_MAX && 25 + |body| <= out.Length)
  {
    hide ChunkMetadata, Le;
    var payloadLen := FILE_CHUNK_METADATA_LEN + |c.data|;
    var required := 25 + payloadLen;
    if required > USIZE_MAX {
      return Failure(LengthOverflow);
    }
    if out.Length < required {
      return Failure(BufferTooSmall);
    }
    if payloadLen > U32_MAX {
      return Failure(LengthOverflow);
    }
    ghost var next := PutHeader(out, written, was, PAYLOAD_FILE_CHUNK, payloadLen);
    ghost var header := next;
    next := Put(out, next, was, 25, ChunkMetadata(c));
    next := Put(out, next, was, 82, c.data);
    assert next == header + (ChunkMetadata(c) + c.data);
    return Success(required);
  }

  method EncodeControlInto(m: ControlMessage, out: array<byte>, ghost written: Bytes, ghost was: Bytes)
    returns (r: Result<nat, EncodeError>)
    requires IsOverwritten(out, written, was) && |written| == 20 && 25 <= out.Length
    modifies out
    ensures Filled(out, written, was, PAYLOAD_CONTROL, ControlBytes(m), r)
    ensures r.Success? <==> 25 + |ControlBytes(m)| <= out.Length
    ensures r.Failure? ==> r.error == BufferTooSmall
  {
    hide ControlBytes, Le;
    ControlPayloadLenIsLength(m);
    var payloadLen := ControlPayloadLen(m);
    if out.Length < 25 + payloadLen {
      return Failure(BufferTooSmall);
    }
    ghost var next := PutHeader(out, written, was, PAYLOAD_CONTROL, payloadLen);
    next := Put(out, next, was, 25, ControlBytes(m));
    return Success(25 + payloadLen);
  }

  method PutEntry(file: FileMetadata, out: array<byte>, ghost written: Bytes, ghost was: Bytes, at: nat)
    returns (ghost next: Bytes, cursor: nat)
    requires |Utf8(file.name)| <= U16_MAX
    requires IsOverwritten(out, written, was) && at == |written| && at + |EntryBytes(file)| <= out.Length
    modifies out
    ensures next == written + EntryBytes(file) && IsOverwritten(out, next, was) && cursor == |next|
  {
    hide Le, Utf8;
    var name := Utf8(file.name);
    cursor := at;
    next := Put(out, written, was, cursor, Le64(file.byteLen));
    cursor := cursor + 8;
    next := Put(out, next, was, cursor, Le64(file.contentHash));
    cursor := cursor + 8;
    next := Put(out, next, was, cursor, Le16(|name|));
    cursor := cursor + 2;
    next := Put(out, next, was, cursor, name);
    cursor := cursor + |name|;
    assert next == written + EntryBytes(file);
  }

  /** The entries up to and including `i` are no longer than all of them. */
  lemma EntriesPrefix(files: seq<FileMetadata>, i: nat)
    requires i < |files|
    ensures EntriesBytes(files[..i + 1]) == EntriesBytes(files[..i]) + EntryBytes(files[i])
    ensures |EntriesBytes(files[..i + 1])| <= |EntriesBytes(files)|
  {
    hide EntriesBytes;
    EntriesBytesSnoc(files[..i], files[i]);
    EntriesBytesConcat(files[..i + 1], files[i + 1..]);
    assert files[..i + 1] == files[..i] + [files[i]];
    assert files == files[..i + 1] + files[i + 1..];
  }

  /** The entry loop. It stops at a name too long for its length field, with the entries before it written. */
  method PutEntries(files: seq<FileMetadata>, out: array<byte>, ghost written: Bytes, ghost was: Bytes, at: nat)
    returns (ok: bool, ghost next: Bytes)
    requires IsOverwritten(out, written, was) && at == |written| && at + |EntriesBytes(files)| <= out.Length
    modifies out
    ensures ok <==> forall f <- files :: |Utf8(f.name)| <= U16_MAX
    ensures ok ==> next == written + EntriesBytes(files) && IsOverwritten(out, next, was)
  {
    hide EntryBytes;
    next := written;
    var cursor := at;
    for i := 0 to |files|
      invariant forall f <- files[..i] :: |Utf8(f.name)| <= U16_MAX
      invariant next == written + EntriesBytes(files[..i]) && IsOverwritten(out, next, was) && cursor == |next|
    {
      if |Utf8(files[i].name)| > U16_MAX {
        return false, next;
      }
      EntriesPrefix(files, i);
      hide EntriesBytes, Utf8;
      next, cursor := PutEntry(files[i], out, next, was, cursor);
    }
    assert files[..|files|] == files;
    ok := true;
  }

  method PutFilesMetadata(l: ClipboardFiles, out: array<byte>, ghost written: Bytes, ghost was: Bytes)
    returns (ghost next: Bytes)
    requires |l.files| <= U16_MAX
    requires IsOverwritten(out, written, was) && |written| == 25 && 59 <= out.Length
    modifies out
    ensures |next| == 59 && next + EntriesBytes(l.files) == written + FilesBytes(l) && IsOverwritten(out, next, was)
  {
    hide Le, EntriesBytes;
    next := Put(out, written, was, 25, Le128(l.sourceId));
    next := Put(out, next, was, 41, Le64(l.version));
    next := Put(out, next, was, 49, Le64(l.contentHash));
    next := Put(out, next, was, 57, Le16(|l.files|));
    assert next + EntriesBytes(l.files) == written + FilesBytes(l);
  }

  method EncodeFilesInto(l: ClipboardFiles, out: array<byte>, ghost written: Bytes, ghost was: Bytes)
    returns (r: Result<nat, EncodeError>)
    requires out.Length <= USIZE_MAX
    requires IsOverwritten(out, written, was) && |written| == 20 && 25 <= out.Length
    modifies out
    ensures NamesFit(l) ==> Filled(out, written, was, PAYLOAD_CLIPBOARD_FILES, FilesBytes(l), r)
    ensures BufferFirst(|FilesBytes(l)|, out.Length, r)
    ensures r.Success? <==> |FilesBytes(l)| <= U32_MAX && ListFits(l) && 25 + |FilesBytes(l)| <= out.Length
  {
    EntriesLenIsLength(l.files);
    hide EntryBytes, EntriesBytes;
    var payloadLen := FilesPayloadLen(l);
    if payloadLen == None || 25 + payloadLen.value > USIZE_MAX {
      return Failure(LengthOverflow);
    }
    var required := 25 + payloadLen.value;
    if out.Length < required {
      return Failure(BufferTooSmall);
    }
    if payloadLen.value > U32_MAX || |l.files| > U16_MAX {
      return Failure(LengthOverflow);
    }
    assert |FilesBytes(l)| == payloadLen.value;
    hide FilesBytes, Utf8;
    ghost var next := PutHeader(out, written, was, PAYLOAD_CLIPBOARD_FILES, payloadLen.value);
    next := PutFilesMetadata(l, out, next, was);
    var ok;
    ok, next := PutEntries(l.files, out, next, was, 59);
    return if ok then Success(required) else Failure(LengthOverflow);
  }

  predicate NamesFit(l: ClipboardFiles) {
    forall f <- l.files :: |Utf8(f.name)| <= U16_MAX
  }

  /** Why a payload cannot be encoded: plain text checks its length first, the other kinds the buffer. */
  function PayloadError(p: Payload, cap: nat): EncodeError {
    var len := |PayloadBytes(p)|;
    if p.Clipboard? && !UsesContentFrame(p.clipboard) then
      if len <= U32_MAX then BufferTooSmall else LengthOverflow
    else if 25 + len <= USIZE_MAX && cap < 25 + len then BufferTooSmall
    else LengthOverflow
  }

  method EncodePayloadInto(p: Payload, out: array<byte>, ghost written: Bytes, ghost was: Bytes)
    returns (r: Result<nat, EncodeError>)
    requires out.Length <= USIZE_MAX
    requires IsOverwritten(out, written, was) && |written| == 20 && 25 <= out.Length
    modifies out
    ensures r.Success? || (p.Files? ==> NamesFit(p.files)) ==>
              Filled(out, written, was, PayloadKind(p), PayloadBytes(p), r)
    ensures r.Success? <==> LengthsFit(p) && 25 + |PayloadBytes(p)| <= out.Length
    ensures r.Failure? ==> r.error == PayloadError(p, out.Length)
  {
    hide InputBytes, ClipboardBytes, FilesBytes, ChunkMetadata, ControlBytes, Utf8, Le;
    match p {
      case Input(input) =>
        InputBytesAreShort(input);
        r := EncodeInputInto(input, out, written, was);
      case Clipboard(clipboard) =>
        if UsesContentFrame(clipboard) {
          ContentLengthsExist(clipboard);
          r := EncodeContentInto(clipboard, out, written, was);
        } else {
          r := EncodeTextInto(clipboard, out, written, was);
        }
      case Files(files) =>
        r := EncodeFilesInto(files, out, written, was);
      case Chunk(chunk) =>
        r := EncodeChunkInto(chunk, out, written, was);
      case Control(message) =>
        ControlPayloadLenIsLength(message);
        r := EncodeControlInto(message, out, written, was);
    }
  }

  lemma InputBytesAreShort(i: InputEventEnvelope)
    ensures |InputBytes(i)| <= 44
  {
    hide Le, EventBytes;
  }

  /** The two length fields can be filled for every payload that fits, except an image frame without an image. */
  lemma ContentLengthsExist(c: ClipboardText)
    requires UsesContentFrame(c)
    ensures |ClipboardBytes(c)| <= U32_MAX
        ==> (ContentLengths(c).Some? <==> (c.format == Image ==> c.image.Some?))
  {
    hide Utf8, Le;
  }

  /** Magic, sequence and time: written before the buffer is known to be large enough. */
  method PutStart(f: Frame, out: array<byte>) returns (ghost next: Bytes)
    requires 25 <= out.Length
    modifies out
    ensures next == FRAME_MAGIC + Le64(f.sequence) + Le64(f.timestampMicros) && |next| == 20
    ensures IsOverwritten(out, next, old(out[..]))
  {
    hide Le;
    ghost var was := out[..];
    next := Put(out, [], was, 0, FRAME_MAGIC);
    assert next == FRAME_MAGIC;
    next := Put(out, next, was, 4, Le64(f.sequence));
    next := Put(out, next, was, 12, Le64(f.timestampMicros));
  }

  lemma EncodeParts(f: Frame, start: Bytes)
    requires start == FRAME_MAGIC + Le64(f.sequence) + Le64(f.timestampMicros)
    ensures var body := PayloadBytes(f.payload);
            Encode(f) == start + ([PayloadKind(f.payload)] + Le32(U32OrZero(|body|))) + body
            && |Encode(f)| == 25 + |body|
  {
    hide PayloadBytes, PayloadKind, Le;
  }

  /** `ProtocolFrame::encode_into`: it writes what `EncodeVec` returns, or fails for the stated reason. */
  method EncodeInto(f: Frame, out: array<byte>) returns (r: Result<nat, EncodeError>)
    requires out.Length <= USIZE_MAX
    modifies out
    ensures r.Success? <==> LengthsFit(f.payload) && |Encode(f)| <= out.Length
    ensures r.Success? ==>
              r.value == |Encode(f)| <= out.Length && out[..] == Encode(f) + old(out[..])[|Encode(f)|..]
    ensures r.Failure? ==> r.error == if out.Length < 25 then BufferTooSmall else PayloadError(f.payload, out.Length)
    ensures r.Failure? && (f.payload.Files? ==> NamesFit(f.payload.files)) ==>
              forall i :: 20 <= i < out.Length ==> out[i] == old(out[i])
    ensures out.Length < 25 ==> out[..] == old(out[..])
  {
    hide PayloadBytes, PayloadKind, Le, LengthsFit, NamesFit, U32OrZero, PayloadError;
    ghost var start := FRAME_MAGIC + Le64(f.sequence) + Le64(f.timestampMicros);
    EncodeParts(f, start);
    hide Encode;
    if out.Length < 25 {
      return Failure(BufferTooSmall);
    }
    ghost var was := out[..];
    ghost var next := PutStart(f, out);
    r := EncodePayloadInto(f.payload, out, next, was);
    if r.Failure? && (f.payload.Files? ==> NamesFit(f.payload.files)) {
      assert out[..] == next + was[20..];
    }
  }

  /** `ProtocolEvent::encode`: the first wire format, into a buffer of 32 bytes. */
  method EncodeEvent(e: ProtocolEvent, out: array<byte>) returns (n: nat)
    requires out.Length == 32
    modifies out
    ensures n == |LegacyBytes(e)| <= 32 && out[..] == LegacyBytes(e) + old(out[..])[n..]
  {
    hide Le, EventBytes;
    ghost var was := out[..];
    var event := EventBytes(e.event);
    ghost var next := Put(out, [], was, 0, LEGACY_MAGIC);
    assert next == LEGACY_MAGIC;
    next := Put(out, next, was, 4, Le64(e.sequence));
    next := Put(out, next, was, 12, Le64(e.timestampMicros));
    next := Put(out, next, was, 20, event);
    assert next == LegacyBytes(e);
    n := 20 + |event|;
  }

  // ---- Reading a file list ----

  /** The loop of `decode_clipboard_files`. */
  method DecodeClipboardFiles(s: Bytes) returns (r: Decoded<ClipboardFiles>)
    ensures r == DecodeFiles(s)
  {
    hide FromUtf8, DecodeText, NewFileMetadata, NewFiles, U16At, U64At, U128At;
    if |s| < CLIPBOARD_FILES_METADATA_LEN {
      return Failure(TooShort);
    }
    var count: nat := U16At(s, 32);
    var cursor := CLIPBOARD_FILES_METADATA_LEN;
    var files: seq<FileMetadata> := [];
    ghost var all := DecodeEntries(s, CLIPBOARD_FILES_METADATA_LEN, count);
    assert all.Success? ==> files + all.value == all.value;
    for i := 0 to count
      invariant CLIPBOARD_FILES_METADATA_LEN <= cursor <= |s|
      invariant var rest := DecodeEntries(s, cursor, count - i);
                all == if rest.Success? then Success(files + rest.value) else rest
    {
      if |s| < cursor + FILE_ENTRY_METADATA_LEN {
        return Failure(TooShort);
      }
      var byteLen := U64At(s, cursor);
      cursor := cursor + 8;
      var contentHash := U64At(s, cursor);
      cursor := cursor + 8;
      var nameLen := U16At(s, cursor);
      cursor := cursor + 2;
      if |s| < cursor + nameLen {
        return Failure(TooShort);
      }
      var name := DecodeText(s[cursor..cursor + nameLen]);
      if name.Failure? {
        return Failure(name.error);
      }
      cursor := cursor + nameLen;
      ghost var rest := DecodeEntries(s, cursor, count - i - 1);
      if rest.Success? {
        assert files + ([NewFileMetadata(name.value, byteLen, contentHash)] + rest.value)
            == (files + [NewFileMetadata(name.value, byteLen, contentHash)]) + rest.value;
      }
      files := files + [NewFileMetadata(name.value, byteLen, contentHash)];
    }
    assert files + [] == files;
    return Success(NewFiles(U128At(s, 0), U64At(s, 16), files));
  }
}
