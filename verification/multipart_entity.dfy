/**
  The multipart/form-data entity builder.

  An entity holds a boundary token, an ordered list of byte chunks (in-memory
  text or the bytes of an opened file), a running total that is announced as
  the Content-Length, and a flag that says whether `finish` has been called.
  Every operation is a pure function from the old entity to the new one.

  The running total adds `String.length()` of each text chunk, while the chunk
  itself holds `String.getBytes()`; the two agree only for ASCII text, and the
  lemmas at the end of this module say exactly when the total is right.
 */
module MultipartEntity {
  import opened Wrappers
  import opened JavaText
  import opened WireFormat

  /**
    A file as `addFile` finds it.  `Readable` files open and yield their
    contents; any other file (missing, a directory, unreadable) makes
    `new FileInputStream(file)` throw, while `File.length()` still reports
    `reportedLength` for it (0 for a missing file).
   */
  datatype FileState = Readable(contents: seq<byte>) | Unopenable(reportedLength: nat)

  /** The I/O failure `addFile` rethrows: the file could not be opened. */
  datatype IoError = CannotOpen

  /** One input stream of the entity. */
  datatype Chunk = InMemory(content: seq<byte>) | FileBacked(content: seq<byte>)

  datatype Entity = Entity(boundary: string, chunks: seq<Chunk>, totalLength: nat, ready: bool)

  /** How an operation that may throw ends: normally, or by an exception after which `after` is the state left behind. */
  datatype Completion = Completed(after: Entity) | Raised(after: Entity, cause: IoError)

  datatype Header = Header(name: string, value: string)

  /** `File.length()`. */
  function FileLength(f: FileState): nat {
    match f
    case Readable(contents) => |contents|
    case Unopenable(reportedLength) => reportedLength
  }

  /** The bytes of a chunk list, first chunk first. */
  function Concat(chunks: seq<Chunk>): seq<byte> {
    if |chunks| == 0 then [] else Concat(chunks[..|chunks| - 1]) + chunks[|chunks| - 1].content
  }

  lemma ConcatAppend(chunks: seq<Chunk>, c: Chunk)
    ensures Concat(chunks + [c]) == Concat(chunks) + c.content
  {
    assert (chunks + [c])[..|chunks|] == chunks;
  }

  lemma ConcatAppendPair(chunks: seq<Chunk>, c: Chunk, d: Chunk)
    ensures Concat(chunks + [c, d]) == Concat(chunks) + (c.content + d.content)
  {
    ConcatAppend(chunks, c);
    assert chunks + [c, d] == (chunks + [c]) + [d];
    ConcatAppend(chunks + [c], d);
  }

  /** The announced Content-Length is the number of bytes the body really has. */
  predicate Accurate(e: Entity) {
    e.totalLength == |GetContent(e)|
  }

  /** How many body bytes the announced Content-Length leaves out. */
  function Deficit(e: Entity): int {
    |GetContent(e)| - e.totalLength
  }

  /** A fresh entity whose boundary would be a random UUID; here it is given. */
  function NewEntity(boundary: string): (e: Entity)
    ensures e.boundary == boundary
    ensures GetContent(e) == [] && Accurate(e) && !IsStreaming(e)
  {
    Entity(boundary, [], 0, false)
  }

  // The texts below are assembled the way the builder appends them.

  function HeaderBuilder(boundary: string, name: string): string {
    "\n--" + boundary + "\n" + DispositionPrefix + "\"" + name
  }

  function ValueData(boundary: string, name: string, value: string): string {
    HeaderBuilder(boundary, name) + "\"\n\n" + value
  }

  function FileHeaderData(boundary: string, name: string, fileName: string): string {
    HeaderBuilder(boundary, name) + "\"; filename=\"" + fileName + "\"\n" + ContentTypeLine + "\n\n"
  }

  function ClosingData(boundary: string): string {
    "\n--" + boundary + "--\n"
  }

  // The literals the builder appends, split into the lines of the wire format.

  lemma DispositionLiteral()
    ensures "\n--" == LF + "--"
    ensures "\n" == LF
  {
  }

  lemma SeparatorLiterals()
    ensures "\"\n\n" == "\"" + LF + LF
    ensures "\"; filename=\"" == "\"" + "; filename=" + "\""
    ensures "\"\n" == "\"" + LF
    ensures "\n\n" == LF + LF
    ensures "--\n" == "--" + LF
  {
  }

  /** The opening the builder shares between both kinds of part, once its name is closed by a quote. */
  lemma NamedHeader(boundary: string, name: string)
    ensures HeaderBuilder(boundary, name) + "\"" == Delimiter(boundary) + Disposition(name)
  {
    DispositionLiteral();
    calc {
      HeaderBuilder(boundary, name) + "\"";
      LF + "--" + boundary + LF + DispositionPrefix + "\"" + name + "\"";
      LF + DashBoundary(boundary) + LF + (DispositionPrefix + Quoted(name));
    }
  }

  /** The builder's texts are exactly the parts of the LF wire format. */
  lemma ValueDataIsFieldText(boundary: string, name: string, value: string)
    ensures ValueData(boundary, name, value) == FieldText(boundary, name, value)
  {
    NamedHeader(boundary, name);
    SeparatorLiterals();
    var h := HeaderBuilder(boundary, name);
    assert ValueData(boundary, name, value) == (h + "\"") + LF + LF + value;
  }

  lemma FileHeaderDataIsAttachmentHeader(boundary: string, name: string, fileName: string)
    ensures FileHeaderData(boundary, name, fileName) == AttachmentHeader(boundary, name, fileName)
  {
    NamedHeader(boundary, name);
    SeparatorLiterals();
    var h := HeaderBuilder(boundary, name);
    assert FileHeaderData(boundary, name, fileName)
      == h + ("\"" + "; filename=" + "\"") + fileName + ("\"" + LF) + ContentTypeLine + (LF + LF);
    assert FileHeaderData(boundary, name, fileName)
      == (h + "\"") + "; filename=" + ("\"" + fileName + "\"") + LF + ContentTypeLine + LF + LF;
  }

  lemma ClosingDataIsCloseDelimiter(boundary: string)
    ensures ClosingData(boundary) == CloseDelimiter(boundary)
  {
    DispositionLiteral();
    SeparatorLiterals();
  }

  /**
    `addValue`: one in-memory chunk holding the field's part is appended; the
    total grows by the part's `String.length()`.
   */
  function AddValue(e: Entity, name: string, value: string): (r: Entity)
    ensures r.boundary == e.boundary && r.ready == e.ready
    ensures r.chunks == e.chunks + [InMemory(Encode(FieldText(e.boundary, name, value)))]
    ensures GetContent(r) == GetContent(e) + RenderPart(e.boundary, Field(name, value))
    ensures r.totalLength == e.totalLength + JavaLength(FieldText(e.boundary, name, value))
  {
    ValueDataIsFieldText(e.boundary, name, value);
    var data := ValueData(e.boundary, name, value);
    ConcatAppend(e.chunks, InMemory(Encode(data)));
    e.(totalLength := e.totalLength + JavaLength(data), chunks := e.chunks + [InMemory(Encode(data))])
  }

  /**
    `addFile`: the total grows by the file length plus the header length and the
    header chunk is appended BEFORE the file is opened; if opening fails the
    exception escapes with that state left in place.
   */
  function AddFile(e: Entity, name: string, fileName: string, file: FileState): (r: Completion)
    ensures r.after.boundary == e.boundary && r.after.ready == e.ready
    ensures r.Completed? <==> file.Readable?
    ensures r.after.totalLength == e.totalLength + FileLength(file) + JavaLength(AttachmentHeader(e.boundary, name, fileName))
    ensures r.Completed? ==> r.after.chunks == e.chunks + [InMemory(Encode(AttachmentHeader(e.boundary, name, fileName))), FileBacked(file.contents)]
    ensures r.Completed? ==> GetContent(r.after) == GetContent(e) + RenderPart(e.boundary, Attachment(name, fileName, file.contents))
    ensures r.Raised? ==> r.after.chunks == e.chunks + [InMemory(Encode(AttachmentHeader(e.boundary, name, fileName)))]
    ensures r.Raised? ==> GetContent(r.after) == GetContent(e) + Encode(AttachmentHeader(e.boundary, name, fileName))
  {
    FileHeaderDataIsAttachmentHeader(e.boundary, name, fileName);
    var data := FileHeaderData(e.boundary, name, fileName);
    var header := InMemory(Encode(data));
    var counted := e.(totalLength := e.totalLength + FileLength(file) + JavaLength(data), chunks := e.chunks + [header]);
    match file
    case Readable(contents) =>
      ConcatAppendPair(e.chunks, header, FileBacked(contents));
      assert counted.chunks + [FileBacked(contents)] == e.chunks + [header, FileBacked(contents)];
      Completed(counted.(chunks := counted.chunks + [FileBacked(contents)]))
    case Unopenable(_) =>
      ConcatAppend(e.chunks, header);
      Raised(counted, CannotOpen)
  }

  /** `finish`: the close-delimiter is appended, counted, and the entity becomes streaming. */
  function Finish(e: Entity): (r: Entity)
    ensures r.boundary == e.boundary && IsStreaming(r)
    ensures r.chunks == e.chunks + [InMemory(Encode(CloseDelimiter(e.boundary)))]
    ensures GetContent(r) == GetContent(e) + Encode(CloseDelimiter(e.boundary))
    ensures r.totalLength == e.totalLength + JavaLength(CloseDelimiter(e.boundary))
  {
    ClosingDataIsCloseDelimiter(e.boundary);
    var data := ClosingData(e.boundary);
    ConcatAppend(e.chunks, InMemory(Encode(data)));
    e.(totalLength := e.totalLength + JavaLength(data), chunks := e.chunks + [InMemory(Encode(data))], ready := true)
  }

  /** `consumeContent`: whatever came before, the entity is emptied back to its fresh state. */
  function ConsumeContent(e: Entity): (r: Entity)
    ensures r == NewEntity(e.boundary)
    ensures GetContent(r) == [] && r.totalLength == 0 && !IsStreaming(r)
  {
    e.(totalLength := 0, chunks := [], ready := false)
  }

  /** `getContent`: the stream that reads every chunk in insertion order. */
  function GetContent(e: Entity): (r: seq<byte>)
    ensures |r| == ChunkBytes(e.chunks)
  {
    ConcatLength(e.chunks);
    Concat(e.chunks)
  }

  /** The number of bytes a chunk list holds, counted chunk by chunk. */
  function ChunkBytes(chunks: seq<Chunk>): nat {
    if |chunks| == 0 then 0 else |chunks[0].content| + ChunkBytes(chunks[1..])
  }

  lemma {:induction false} ChunkBytesAppend(chunks: seq<Chunk>, c: Chunk)
    ensures ChunkBytes(chunks + [c]) == ChunkBytes(chunks) + |c.content|
  {
    if |chunks| == 0 {
      assert (chunks + [c])[1..] == [];
    } else {
      assert (chunks + [c])[1..] == chunks[1..] + [c];
      ChunkBytesAppend(chunks[1..], c);
    }
  }

  lemma {:induction false} ConcatLength(chunks: seq<Chunk>)
    ensures |Concat(chunks)| == ChunkBytes(chunks)
  {
    if |chunks| > 0 {
      var init := chunks[..|chunks| - 1];
      ConcatLength(init);
      ChunkBytesAppend(init, chunks[|chunks| - 1]);
      assert init + [chunks[|chunks| - 1]] == chunks;
    }
  }

  /** `getContentLength`: the running total, which is the body's size whenever the entity is accurate. */
  function GetContentLength(e: Entity): (n: nat)
    ensures Accurate(e) ==> n == |GetContent(e)|
    ensures n == |GetContent(e)| - Deficit(e)
  {
    e.totalLength
  }

  /** `getContentType`: announces the same boundary the delimiters carry. */
  function GetContentType(e: Entity): (h: Header)
    ensures h.name == "Content-Type"
    ensures BoundaryParameter(h.value) == Some(e.boundary)
  {
    ContentTypeAnnouncesBoundary(e.boundary);
    Header("Content-Type", ContentTypeValue(e.boundary))
  }

  /** `isStreaming`: true once `finish` has run and until `consumeContent`. */
  predicate IsStreaming(e: Entity) {
    e.ready
  }

  /**
    The life of the streaming flag: a new entity is not streaming, adding parts
    leaves the flag as it was, `finish` sets it and `consumeContent` clears it.
   */
  lemma StreamingLifecycle(e: Entity, boundary: string, name: string, value: string, fileName: string, file: FileState)
    ensures !IsStreaming(NewEntity(boundary))
    ensures IsStreaming(AddValue(e, name, value)) == IsStreaming(e)
    ensures IsStreaming(AddFile(e, name, fileName, file).after) == IsStreaming(e)
    ensures IsStreaming(Finish(e))
    ensures !IsStreaming(ConsumeContent(e))
  {
  }

  // What each operation does to the gap between announced and real length.

  lemma AddValueLength(e: Entity, name: string, value: string)
    ensures Deficit(AddValue(e, name, value)) >= Deficit(e)
    ensures Deficit(AddValue(e, name, value)) == Deficit(e) <==> IsAscii(e.boundary) && IsAscii(name) && IsAscii(value)
  {
    EncodedLengthVersusJavaLength(FieldText(e.boundary, name, value));
    AsciiFieldText(e.boundary, name, value);
  }

  lemma AddFileLength(e: Entity, name: string, fileName: string, file: FileState)
    requires file.Readable?
    ensures Deficit(AddFile(e, name, fileName, file).after) >= Deficit(e)
    ensures Deficit(AddFile(e, name, fileName, file).after) == Deficit(e) <==> IsAscii(e.boundary) && IsAscii(name) && IsAscii(fileName)
  {
    EncodedLengthVersusJavaLength(AttachmentHeader(e.boundary, name, fileName));
    AsciiAttachmentHeader(e.boundary, name, fileName);
  }

  /**
    After a failed `addFile` the total has counted the file's reported length and
    the header, but only the header is in the body.
   */
  lemma FailedAddFileLength(e: Entity, name: string, fileName: string, file: FileState)
    requires file.Unopenable?
    ensures Deficit(AddFile(e, name, fileName, file).after)
      == Deficit(e) + |Encode(AttachmentHeader(e.boundary, name, fileName))| - JavaLength(AttachmentHeader(e.boundary, name, fileName)) - file.reportedLength
    ensures IsAscii(e.boundary) && IsAscii(name) && IsAscii(fileName) ==>
      Deficit(AddFile(e, name, fileName, file).after) == Deficit(e) - file.reportedLength
  {
    EncodedLengthVersusJavaLength(AttachmentHeader(e.boundary, name, fileName));
    AsciiAttachmentHeader(e.boundary, name, fileName);
  }

  lemma FinishLength(e: Entity)
    ensures Deficit(Finish(e)) >= Deficit(e)
    ensures Deficit(Finish(e)) == Deficit(e) <==> IsAscii(e.boundary)
  {
    EncodedLengthVersusJavaLength(CloseDelimiter(e.boundary));
    AsciiDelimiters(e.boundary);
  }
}
