/**
  The multipart/form-data wire format the entity produces, written line by line.

  The shape follows section 5.1.1 of RFC 2046 (dash-boundary, delimiter,
  close-delimiter, header lines, a blank line, then the body), except that every
  line ends in a bare LF where the RFC asks for CRLF; the entity emits LF and so
  does this reference.  A body is the rendered parts in order followed by the
  close-delimiter.
 */
module WireFormat {
  import opened Wrappers
  import opened JavaText

  const LF: string := "\n"
  const ContentTypePrefix: string := "multipart/form-data; boundary="
  const DispositionPrefix: string := "Content-Disposition: form-data; name="
  const ContentTypeLine: string := "Content-Type: application/octet-stream"

  /** One part of a form: a text field, or a file attachment with its bytes. */
  datatype Part =
    | Field(name: string, value: string)
    | Attachment(name: string, fileName: string, contents: seq<byte>)

  function DashBoundary(boundary: string): string {
    "--" + boundary
  }

  /** The line that opens every part: LF, then the dash-boundary, then LF. */
  function Delimiter(boundary: string): string {
    LF + DashBoundary(boundary) + LF
  }

  /** The line that closes the body. */
  function CloseDelimiter(boundary: string): string {
    LF + DashBoundary(boundary) + "--" + LF
  }

  function Quoted(s: string): string {
    "\"" + s + "\""
  }

  function Disposition(name: string): string {
    DispositionPrefix + Quoted(name)
  }

  /** Delimiter, disposition header, blank line, value. */
  function FieldText(boundary: string, name: string, value: string): string {
    Delimiter(boundary) + Disposition(name) + LF + LF + value
  }

  /** Delimiter, disposition header with file name, content-type header, blank line. */
  function AttachmentHeader(boundary: string, name: string, fileName: string): string {
    Delimiter(boundary)
    + Disposition(name) + "; filename=" + Quoted(fileName) + LF
    + ContentTypeLine + LF
    + LF
  }

  function RenderPart(boundary: string, p: Part): seq<byte> {
    match p
    case Field(name, value) => Encode(FieldText(boundary, name, value))
    case Attachment(name, fileName, contents) => Encode(AttachmentHeader(boundary, name, fileName)) + contents
  }

  function RenderParts(boundary: string, parts: seq<Part>): seq<byte> {
    if |parts| == 0 then [] else RenderPart(boundary, parts[0]) + RenderParts(boundary, parts[1..])
  }

  /** The whole body: every part in order, then the close-delimiter. */
  function RenderBody(boundary: string, parts: seq<Part>): seq<byte> {
    RenderParts(boundary, parts) + Encode(CloseDelimiter(boundary))
  }

  /** The value of the Content-Type header that announces `boundary`. */
  function ContentTypeValue(boundary: string): string {
    ContentTypePrefix + boundary
  }

  /** Recovers the boundary parameter from a Content-Type value, if it has the form above. */
  function BoundaryParameter(contentType: string): Option<string> {
    if |ContentTypePrefix| <= |contentType| && contentType[..|ContentTypePrefix|] == ContentTypePrefix
    then Some(contentType[|ContentTypePrefix|..])
    else None
  }

  /** The boundary announced in the header is the one the delimiters use. */
  lemma ContentTypeAnnouncesBoundary(boundary: string)
    ensures BoundaryParameter(ContentTypeValue(boundary)) == Some(boundary)
  {
    assert ContentTypeValue(boundary)[..|ContentTypePrefix|] == ContentTypePrefix;
    assert ContentTypeValue(boundary)[|ContentTypePrefix|..] == boundary;
  }

  lemma AsciiDelimiters(boundary: string)
    ensures IsAscii(Delimiter(boundary)) <==> IsAscii(boundary)
    ensures IsAscii(CloseDelimiter(boundary)) <==> IsAscii(boundary)
  {
    IsAsciiAppend("--", boundary);
    IsAsciiAppend(LF, DashBoundary(boundary));
    IsAsciiAppend(LF + DashBoundary(boundary), LF);
    IsAsciiAppend(LF + DashBoundary(boundary), "--");
    IsAsciiAppend(LF + DashBoundary(boundary) + "--", LF);
  }

  lemma AsciiDisposition(name: string)
    ensures IsAscii(Disposition(name)) <==> IsAscii(name)
  {
    IsAsciiAppend("\"", name);
    IsAsciiAppend("\"" + name, "\"");
    IsAsciiAppend(DispositionPrefix, Quoted(name));
  }

  /** A field's text is pure ASCII exactly when its boundary, name and value are. */
  lemma AsciiFieldText(boundary: string, name: string, value: string)
    ensures IsAscii(FieldText(boundary, name, value)) <==> IsAscii(boundary) && IsAscii(name) && IsAscii(value)
  {
    AsciiDelimiters(boundary);
    AsciiDisposition(name);
    var d := Delimiter(boundary) + Disposition(name);
    IsAsciiAppend(Delimiter(boundary), Disposition(name));
    IsAsciiAppend(d, LF);
    IsAsciiAppend(d + LF, LF);
    IsAsciiAppend(d + LF + LF, value);
  }

  /** An attachment header is pure ASCII exactly when its boundary, name and file name are. */
  lemma AsciiAttachmentHeader(boundary: string, name: string, fileName: string)
    ensures IsAscii(AttachmentHeader(boundary, name, fileName)) <==> IsAscii(boundary) && IsAscii(name) && IsAscii(fileName)
  {
    AsciiDelimiters(boundary);
    AsciiDisposition(name);
    IsAsciiAppend("\"", fileName);
    IsAsciiAppend("\"" + fileName, "\"");
    var d := Delimiter(boundary) + Disposition(name);
    IsAsciiAppend(Delimiter(boundary), Disposition(name));
    IsAsciiAppend(d, "; filename=");
    var f := d + "; filename=";
    IsAsciiAppend(f, Quoted(fileName));
    IsAsciiAppend(f + Quoted(fileName), LF);
    var g := f + Quoted(fileName) + LF;
    IsAsciiAppend(g, ContentTypeLine);
    IsAsciiAppend(g + ContentTypeLine, LF);
    IsAsciiAppend(g + ContentTypeLine + LF, LF);
  }
}
