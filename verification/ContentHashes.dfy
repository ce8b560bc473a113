/**
 What the content hashes are taken over (crates/kmsync-core/src/protocol.rs): one byte
 string for each kind of content, from which the content can be told, and FNV-1a over it.
 */
module ContentHashes {
  import opened Bytes
  import opened Frames
  import opened Sequences
  import opened Text
  import opened Wrappers

  // ---- FNV-1a ----

  lemma KnownXor()
    ensures XorByte(0x25, 0x61) == 0x44
  {
    var a: bv8, b: bv8 := 0x25, 0x61;
    assert a ^ b == 0x44;
  }

  lemma StepOf(hash: u64, b: byte, low: byte, next: u64)
    requires XorByte(hash % 0x100, b) == low
    requires (hash - hash % 0x100 + low) * FNV_PRIME % 0x1_0000_0000_0000_0000 == next
    ensures FnvStep(hash, b) == next
  {
    hide XorByte;
  }

  lemma HashOfCons(hash: u64, b: byte, rest: Bytes)
    ensures FnvBytes(hash, [b] + rest) == FnvBytes(FnvStep(hash, b), rest)
  {
    hide FnvStep;
    assert ([b] + rest)[1..] == rest;
  }

  /** The published 64-bit FNV-1a hashes of the texts "" and "a". */
  lemma KnownHashes()
    ensures FnvBytes(FNV_OFFSET, []) == 0xcbf2_9ce4_8422_2325
    ensures FnvBytes(FNV_OFFSET, [0x61]) == 0xaf63_dc4c_8601_ec8c
  {
    hide FnvStep, XorByte;
    KnownXor();
    StepOf(FNV_OFFSET, 0x61, 0x44, 0xaf63_dc4c_8601_ec8c);
    HashOfCons(FNV_OFFSET, 0x61, []);
    assert [0x61] + [] == [0x61];
  }

  lemma {:induction false} HashOfConcat(hash: u64, a: Bytes, b: Bytes)
    ensures FnvBytes(hash, a + b) == FnvBytes(FnvBytes(hash, a), b)
    decreases |a|
  {
    hide FnvStep;
    if a == [] {
      assert a + b == b;
    } else {
      assert (a + b)[1..] == a[1..] + b;
      HashOfConcat(FnvStep(hash, a[0]), a[1..], b);
    }
  }

  // ---- What is hashed ----

  /** No byte of a text is 0xff, which therefore ends a text. */
  lemma {:induction false} TextHasNoEndMark(text: string)
    ensures 0xff !in Utf8(text)
  {
    if text != [] {
      assert 0xff !in EncodeChar(text[0]);
      TextHasNoEndMark(text[1..]);
      hide EncodeChar;
    }
  }

  lemma TextsAreEqual(a: string, b: string)
    requires Utf8(a) == Utf8(b)
    ensures a == b
  {
    hide Utf8, FromUtf8;
    FromUtf8OfUtf8(a);
    FromUtf8OfUtf8(b);
  }

  function OrEmpty(html: Option<string>): string {
    if html.Some? then html.value else []
  }

  /** The bytes that the hash of a text is taken over; plain text is hashed as it is. */
  function ContentInput(format: ClipboardFormat, text: string, html: Option<string>): Bytes {
    if format == PlainText && html == None then Utf8(text)
    else [FormatCode(format)] + (Utf8(text) + [0xff] + Utf8(OrEmpty(html)))
  }

  lemma ContentHashExactly(format: ClipboardFormat, text: string, html: Option<string>)
    ensures ContentHash(format, text, html) == FnvBytes(FNV_OFFSET, ContentInput(format, text, html))
    ensures TextHash(text) == FnvBytes(FNV_OFFSET, Utf8(text))
  {
    hide FnvStep, FnvBytes;
    if format != PlainText || html != None {
      var t, h := Utf8(text), Utf8(OrEmpty(html));
      HashOfCons(FNV_OFFSET, FormatCode(format), t + [0xff] + h);
      var start := FnvStep(FNV_OFFSET, FormatCode(format));
      HashOfConcat(start, t + [0xff], h);
      HashOfConcat(start, t, [0xff]);
      HashOfCons(FnvBytes(start, t), 0xff, []);
      assert [0xff] + [] == [0xff];
      HashOfNothing(FnvStep(FnvBytes(start, t), 0xff));
      assert Utf8([]) == [];
    }
  }

  lemma HashOfNothing(hash: u64)
    ensures FnvBytes(hash, []) == hash
  {
  }

  /** Text with a format or markup is told from its hashed bytes, but for markup that is empty. */
  lemma ContentInputTells(
    format: ClipboardFormat, text: string, html: Option<string>,
    format': ClipboardFormat, text': string, html': Option<string>)
    requires (format != PlainText || html.Some?) && (format' != PlainText || html'.Some?)
    ensures ContentInput(format, text, html) == ContentInput(format', text', html')
       <==> format == format' && text == text' && OrEmpty(html) == OrEmpty(html')
  {
    hide Utf8;
    var r, r' := Utf8(text) + [0xff] + Utf8(OrEmpty(html)), Utf8(text') + [0xff] + Utf8(OrEmpty(html'));
    if ContentInput(format, text, html) == ContentInput(format', text', html') {
      SplitAtLength([FormatCode(format)], r, [FormatCode(format')], r');
      TextHasNoEndMark(text);
      TextHasNoEndMark(text');
      SplitAtFirst(0xff, Utf8(text), Utf8(OrEmpty(html)), Utf8(text'), Utf8(OrEmpty(html')));
      TextsAreEqual(text, text');
      TextsAreEqual(OrEmpty(html), OrEmpty(html'));
    }
  }

  function ImageInput(width: u32, height: u32, rgba: Bytes): Bytes {
    [FormatCode(Image)] + ((Le32(width) + Le32(height)) + rgba)
  }

  lemma ImageHashExactly(width: u32, height: u32, rgba: Bytes)
    ensures ImageHash(width, height, rgba) == FnvBytes(FNV_OFFSET, ImageInput(width, height, rgba))
  {
    hide FnvStep, FnvBytes, Le;
    HashOfCons(FNV_OFFSET, FormatCode(Image), Le32(width) + Le32(height) + rgba);
    HashOfConcat(FnvStep(FNV_OFFSET, FormatCode(Image)), Le32(width) + Le32(height), rgba);
  }

  lemma ImageInputTells(width: u32, height: u32, rgba: Bytes, width': u32, height': u32, rgba': Bytes)
    ensures ImageInput(width, height, rgba) == ImageInput(width', height', rgba')
       <==> width == width' && height == height' && rgba == rgba'
  {
    hide Le, FromLe;
    if ImageInput(width, height, rgba) == ImageInput(width', height', rgba') {
      SplitAtLength([FormatCode(Image)], Le32(width) + Le32(height) + rgba,
                    [FormatCode(Image)], Le32(width') + Le32(height') + rgba');
      SplitAtLength(Le32(width) + Le32(height), rgba, Le32(width') + Le32(height'), rgba');
      SplitAtLength(Le32(width), Le32(height), Le32(width'), Le32(height'));
      PowersOf256();
      FromLeOfLe(width, 4);
      FromLeOfLe(width', 4);
      FromLeOfLe(height, 4);
      FromLeOfLe(height', 4);
    }
  }

  // ---- File lists ----

  /** The bytes of one file in the hash of a list. */
  function FileInput(f: FileMetadata): Bytes {
    Utf8(f.name) + [0xff] + (Le64(f.byteLen) + Le64(f.contentHash))
  }

  function FilesInput(files: seq<FileMetadata>): Bytes {
    if files == [] then [] else FileInput(files[0]) + FilesInput(files[1..])
  }

  lemma HashOfFile(hash: u64, f: FileMetadata)
    ensures FnvBytes(hash, FileInput(f))
         == FnvBytes(FnvStep(FnvBytes(hash, Utf8(f.name)), 0xff), Le64(f.byteLen) + Le64(f.contentHash))
  {
    hide FnvStep, FnvBytes, Utf8, Le;
    var numbers := Le64(f.byteLen) + Le64(f.contentHash);
    assert FileInput(f) == Utf8(f.name) + ([0xff] + numbers);
    HashOfConcat(hash, Utf8(f.name), [0xff] + numbers);
    HashOfCons(FnvBytes(hash, Utf8(f.name)), 0xff, numbers);
  }

  lemma {:induction false} FilesHashFromExactly(hash: u64, files: seq<FileMetadata>)
    ensures FilesHashFrom(hash, files) == FnvBytes(hash, FilesInput(files))
    decreases |files|
  {
    hide FnvStep, FileInput, Utf8, Le;
    if files == [] {
      HashOfNothing(hash);
    } else {
      hide FnvBytes;
      HashOfFile(hash, files[0]);
      FilesHashFromExactly(FnvBytes(hash, FileInput(files[0])), files[1..]);
      HashOfConcat(hash, FileInput(files[0]), FilesInput(files[1..]));
    }
  }

  /** The hash of a list is taken over the byte 5 and then its files. */
  lemma FilesHashExactly(files: seq<FileMetadata>)
    ensures FilesHash(files) == FnvBytes(FNV_OFFSET, [5] + FilesInput(files))
  {
    hide FnvStep, FnvBytes, FilesInput, FilesHashFrom;
    HashOfCons(FNV_OFFSET, 5, FilesInput(files));
    FilesHashFromExactly(FnvStep(FNV_OFFSET, 5), files);
  }

  lemma FileInputTells(f: FileMetadata, rest: Bytes, g: FileMetadata, other: Bytes)
    requires FileInput(f) + rest == FileInput(g) + other
    ensures f == g && rest == other
  {
    hide Utf8, Le, FromLe;
    var numbers, numbers' := Le64(f.byteLen) + Le64(f.contentHash), Le64(g.byteLen) + Le64(g.contentHash);
    assert FileInput(f) + rest == Utf8(f.name) + [0xff] + (numbers + rest);
    assert FileInput(g) + other == Utf8(g.name) + [0xff] + (numbers' + other);
    TextHasNoEndMark(f.name);
    TextHasNoEndMark(g.name);
    SplitAtFirst(0xff, Utf8(f.name), numbers + rest, Utf8(g.name), numbers' + other);
    TextsAreEqual(f.name, g.name);
    SplitAtLength(numbers, rest, numbers', other);
    SplitAtLength(Le64(f.byteLen), Le64(f.contentHash), Le64(g.byteLen), Le64(g.contentHash));
    PowersOf256();
    FromLeOfLe(f.byteLen, 8);
    FromLeOfLe(g.byteLen, 8);
    FromLeOfLe(f.contentHash, 8);
    FromLeOfLe(g.contentHash, 8);
  }

  /** A list of files is told from its hashed bytes. */
  lemma {:induction false} FilesInputTells(a: seq<FileMetadata>, b: seq<FileMetadata>)
    ensures FilesInput(a) == FilesInput(b) <==> a == b
    decreases |a|
  {
    hide Utf8, Le;
    if a != [] && b != [] {
      hide FileInput;
      if FilesInput(a) == FilesInput(b) {
        FileInputTells(a[0], FilesInput(a[1..]), b[0], FilesInput(b[1..]));
        FilesInputTells(a[1..], b[1..]);
        assert a == [a[0]] + a[1..] && b == [b[0]] + b[1..];
      }
    }
  }

  // ---- Constructors ----

  /** Every constructor keeps what it is given and puts the hash of exactly that beside it. */
  lemma ConstructorsHash(
    sourceId: DeviceId, version: u64, text: string, html: string, width: u32, height: u32, rgba: Bytes)
    ensures NewText(sourceId, version, text)
         == ClipboardText(sourceId, version, FnvBytes(FNV_OFFSET, Utf8(text)), PlainText, text, None, None)
    ensures NewUrl(sourceId, version, text)
         == ClipboardText(sourceId, version, FnvBytes(FNV_OFFSET, ContentInput(Url, text, None)), Url, text, None, None)
    ensures NewHtml(sourceId, version, html, text)
         == ClipboardText(sourceId, version, FnvBytes(FNV_OFFSET, ContentInput(Html, text, Some(html))), Html, text,
                          Some(html), None)
    ensures NewImage(sourceId, version, width, height, rgba)
         == ClipboardText(sourceId, version, FnvBytes(FNV_OFFSET, ImageInput(width, height, rgba)), Image, [], None,
                          Some(ClipboardImage(width, height, rgba)))
  {
    ContentHashExactly(PlainText, text, None);
    ContentHashExactly(Url, text, None);
    ContentHashExactly(Html, text, Some(html));
    ImageHashExactly(width, height, rgba);
    hide FnvBytes, Utf8, ContentHash, TextHash, ImageHash, ContentInput, ImageInput;
  }
}
