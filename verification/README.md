# Breakpad crash-report upload: the multipart body

This project models the part of the Android Breakpad integration that turns a
crash dump into an HTTP request body. `MultipartHttpEntity` is a hand-written
`multipart/form-data` entity. It collects text fields and files as a list of
chunks, keeps a running Content-Length, and streams the chunks to the socket.
`CrashHandler` decides what goes into that body:

- a sanitised device name;
- the version code, or "UnknownVersion";
- the application name;
- the minidump file;
- optional JSON parameters;
- any extra files registered with `includeFile`, in the table's iteration order.

The modules follow the program:

- `JavaText`: Java strings as UTF-16 code units (`String.length()`) and as UTF-8
  bytes (`String.getBytes()` with Android's default charset).
- `WireFormat`: an independent, line-by-line reference definition of the body
  the entity is meant to produce, and the Content-Type header.
- `MultipartEntity`: the entity's state (boundary, chunks, running total, ready
  flag) and its operations as pure functions. `addFile` returns a `Completion`,
  because it can throw after having changed the state.
- `MultipartStream`: `writeTo` and its copy loop, with reads of any size up to
  the 2048-byte buffer and an optional read failure per chunk.
- `MultipartBody`: a whole run of `addValue`/`addFile` calls followed by
  `finish`, stopping at the first exception.
- `CrashHandler`: `getDeviceName`, `getVersionCode`, `includeFile`, and the
  sequence of calls `sendCrashReportImpl` makes on the entity.

The main results:

- When every file opens, the built body is byte-for-byte the reference wire
  format (`MultipartBody.BuildBodyIsWireFormat`).
- The running total counts characters, but the body carries bytes. So the
  announced Content-Length is the real size exactly when the boundary and every
  name, value and file name are pure ASCII (`MultipartBody.BuildBodyLengthExact`,
  `CrashHandler.ReportBody`).
- A file that cannot be opened aborts the build after its header has been
  appended and its reported length counted.

Behaviours of the code that the model keeps as written:

- A failed `addFile` is not rolled back. The total and the header chunk are
  updated before the file is opened (MultipartHttpEntity.java lines 81-83), so
  the exception leaves them in place. The model keeps that partial state in
  `Raised(after, cause)`.
- A read that throws while the body is being streamed is logged and swallowed
  by `writeFromInputToOutput` (MultipartHttpEntity.java lines 230-233). It is not
  propagated to the caller. `MultipartStream.WriteTo` models this: the chunk is
  cut short and streaming continues with the next chunk.
- The delimiters and header lines use a bare LF, as the code writes them, and
  not the CRLF that section 5.1.1 of RFC 2046 prescribes.

## Model

| member | source | states |
|---|---|---|
| MultipartEntity.NewEntity | BreakpadIntergation/src/com/pixonic/breakpadintergation/MultipartHttpEntity.java:33-40 | A new entity has the given boundary, no content and a total of 0, is accurate, and is not streaming |
| MultipartEntity.AddValue | BreakpadIntergation/src/com/pixonic/breakpadintergation/MultipartHttpEntity.java:50-58 | Appends one in-memory chunk whose bytes are exactly the field's part in the reference wire format. The total grows by that part's UTF-16 length. Boundary and ready flag are unchanged |
| MultipartEntity.AddFile | BreakpadIntergation/src/com/pixonic/breakpadintergation/MultipartHttpEntity.java:71-90 | Completes iff the file can be opened. Either way the header chunk was appended and the total grew by the file length plus the header's UTF-16 length. On success the content gains the whole rendered attachment; on failure it gains only the header |
| MultipartEntity.FileHeaderDataIsAttachmentHeader | BreakpadIntergation/src/com/pixonic/breakpadintergation/MultipartHttpEntity.java:75-77 | The header text `addFile` builds, from `createHeaderBuilder` and its own suffix, is the reference attachment header |
| MultipartEntity.ValueDataIsFieldText | BreakpadIntergation/src/com/pixonic/breakpadintergation/MultipartHttpEntity.java:52-55 | The text `addValue` builds, from `createHeaderBuilder` and its own suffix, is the reference field text |
| MultipartEntity.NamedHeader | BreakpadIntergation/src/com/pixonic/breakpadintergation/MultipartHttpEntity.java:92-98 | `createHeaderBuilder` yields the delimiter line for the boundary followed by the start of the Content-Disposition line for the name |
| MultipartEntity.Finish | BreakpadIntergation/src/com/pixonic/breakpadintergation/MultipartHttpEntity.java:103-110 | Appends the close-delimiter and counts its length. The entity becomes streaming, keeps its boundary, and the content gains exactly the close-delimiter |
| MultipartEntity.ClosingDataIsCloseDelimiter | BreakpadIntergation/src/com/pixonic/breakpadintergation/MultipartHttpEntity.java:105 | The text `finish` builds is the reference close-delimiter |
| MultipartEntity.ConsumeContent | BreakpadIntergation/src/com/pixonic/breakpadintergation/MultipartHttpEntity.java:118-124 | From any state, the entity returns to the fresh entity for its boundary: empty, total 0, not streaming |
| MultipartEntity.GetContent | BreakpadIntergation/src/com/pixonic/breakpadintergation/MultipartHttpEntity.java:132-135 | The stream yields as many bytes as all the chunks hold together, counted chunk by chunk |
| MultipartEntity.StreamingLifecycle | BreakpadIntergation/src/com/pixonic/breakpadintergation/MultipartHttpEntity.java:197-201 | A new entity is not streaming. Adding a value or a file leaves the flag as it was, `finish` sets it, and `consumeContent` clears it |
| MultipartEntity.GetContentType | BreakpadIntergation/src/com/pixonic/breakpadintergation/MultipartHttpEntity.java:165-168 | The header is named Content-Type, and parsing its boundary parameter gives back the boundary the delimiters use |
| MultipartEntity.AddValueLength | BreakpadIntergation/src/com/pixonic/breakpadintergation/MultipartHttpEntity.java:56-57 | Counting characters never over-counts bytes: the deficit never shrinks, and it stays the same iff boundary, name and value are ASCII |
| MultipartEntity.AddFileLength | BreakpadIntergation/src/com/pixonic/breakpadintergation/MultipartHttpEntity.java:81-83 | For a readable file the deficit never shrinks, and it stays the same iff boundary, name and file name are ASCII |
| MultipartEntity.FailedAddFileLength | BreakpadIntergation/src/com/pixonic/breakpadintergation/MultipartHttpEntity.java:81-88 | After a failed open the total has counted the reported file length that never reaches the body. With ASCII text the announced length over-counts by exactly that amount |
| MultipartEntity.FinishLength | BreakpadIntergation/src/com/pixonic/breakpadintergation/MultipartHttpEntity.java:105-107 | The close-delimiter keeps the deficit unchanged iff the boundary is ASCII, and never shrinks it |
| JavaText.EncodedLengthVersusJavaLength | BreakpadIntergation/src/com/pixonic/breakpadintergation/MultipartHttpEntity.java:56-57 | `getBytes()` never yields fewer bytes than `length()` counts, and the two agree iff the string is ASCII |
| JavaText.AsciiRoundTrip | BreakpadIntergation/src/com/pixonic/breakpadintergation/MultipartHttpEntity.java:55-57 | An ASCII string encodes to one byte per character, and decoding those bytes gives the string back |
| WireFormat.ContentTypeAnnouncesBoundary | BreakpadIntergation/src/com/pixonic/breakpadintergation/MultipartHttpEntity.java:167 | Round trip: the Content-Type value built from a boundary parses back to that boundary |
| WireFormat.AsciiFieldText | BreakpadIntergation/src/com/pixonic/breakpadintergation/MultipartHttpEntity.java:52-55 | A field's text is ASCII iff its boundary, name and value are |
| WireFormat.AsciiAttachmentHeader | BreakpadIntergation/src/com/pixonic/breakpadintergation/MultipartHttpEntity.java:75-79 | An attachment header is ASCII iff its boundary, name and file name are |
| MultipartStream.WriteFromInputToOutput | BreakpadIntergation/src/com/pixonic/breakpadintergation/MultipartHttpEntity.java:217-235 | The sink receives the source unchanged and in order, in writes of 1 to 2048 bytes. The returned count is the bytes written: the whole source, or the prefix before a failed read |
| MultipartStream.WriteTo | BreakpadIntergation/src/com/pixonic/breakpadintergation/MultipartHttpEntity.java:209-215 | Every chunk is copied in insertion order, and a chunk cut short by a read failure is followed by the next chunk. Without failures the sink receives exactly what `getContent` streams |
| MultipartStream.StreamedWithoutFaults | BreakpadIntergation/src/com/pixonic/breakpadintergation/MultipartHttpEntity.java:132-135 | Without failures, the chunk-by-chunk copy equals the concatenation of all chunks, which is what the sequence stream reads |
| MultipartBody.BuildBodyIsWireFormat | BreakpadIntergation/src/com/pixonic/breakpadintergation/MultipartHttpEntity.java:50-110 | When every file opens, the run of calls and then `finish` completes. It keeps the boundary, is streaming, and its content equals the reference body for the same parts |
| MultipartBody.BuildBodyLengthExact | BreakpadIntergation/src/com/pixonic/breakpadintergation/MultipartHttpEntity.java:154-157 | For a body built from a fresh entity and finished, the length `getContentLength` reports never exceeds the bytes `getContent` yields, and equals them iff the boundary and every name, value and file name are ASCII |
| MultipartBody.BuildBodyStopsAtUnopenable | BreakpadIntergation/src/com/pixonic/breakpadintergation/MultipartHttpEntity.java:81-88 | The first file that cannot be opened stops the run without `finish`. The content is the parts before it followed by its header |
| MultipartBody.AddPartsLength | BreakpadIntergation/src/com/pixonic/breakpadintergation/MultipartHttpEntity.java:56-83 | Over a run of successful calls the deficit never shrinks, and it stays the same iff all the text involved is ASCII |
| CrashHandler.GetDeviceName | BreakpadIntergation/src/com/pixonic/breakpadintergation/CrashHandler.java:251-256 | The result has only word characters: the sanitised manufacturer and model joined by one underscore |
| CrashHandler.ReplaceNonWord | BreakpadIntergation/src/com/pixonic/breakpadintergation/CrashHandler.java:255 | Same length as the input; each position keeps a word character and turns any other character into `_` |
| CrashHandler.ReplaceNonWordIdempotent | BreakpadIntergation/src/com/pixonic/breakpadintergation/CrashHandler.java:255 | Sanitising twice is the same as sanitising once |
| CrashHandler.ReplaceNonWordFixedPoints | BreakpadIntergation/src/com/pixonic/breakpadintergation/CrashHandler.java:255 | Sanitising leaves a string unchanged iff it has only word characters |
| CrashHandler.GetVersionCode | BreakpadIntergation/src/com/pixonic/breakpadintergation/CrashHandler.java:232-249 | "UnknownVersion" iff no package info could be read. Otherwise an ASCII decimal string that parses back to the version code, in canonical form: no leading zero, and a minus sign only before a nonzero number |
| CrashHandler.JavaIntToStringRoundTrip | BreakpadIntergation/src/com/pixonic/breakpadintergation/CrashHandler.java:248 | `String.valueOf(int)` reads back as the same integer, negatives included |
| CrashHandler.CanonicalDecimalUnique | BreakpadIntergation/src/com/pixonic/breakpadintergation/CrashHandler.java:248 | Two canonical decimal strings that read as the same integer are the same string, so the version string is the one spelling `String.valueOf` gives |
| CrashHandler.IncludeFile | BreakpadIntergation/src/com/pixonic/breakpadintergation/CrashHandler.java:80-88 | A missing table is created. Afterwards the name maps to the new path, the keys are the old keys plus the name, and every other entry is unchanged |
| CrashHandler.BaseNameIsLastComponent | BreakpadIntergation/src/com/pixonic/breakpadintergation/CrashHandler.java:281-282 | The file name sent for an included file is the last component of its path: a suffix with no separator, preceded by a separator unless it is the whole path |
| CrashHandler.ReportPartOrder | BreakpadIntergation/src/com/pixonic/breakpadintergation/CrashHandler.java:265-284 | The parts are named, in order: device, version, product_name, symbol_file, then optional if the JSON is set, then every included name in the table's iteration order |
| CrashHandler.ReportIncludedFiles | BreakpadIntergation/src/com/pixonic/breakpadintergation/CrashHandler.java:277-284 | The report has exactly that many parts. Each trailing part sends the file at the path stored under its name, under that path's last component |
| CrashHandler.ReportFieldValues | BreakpadIntergation/src/com/pixonic/breakpadintergation/CrashHandler.java:266-274 | The fixed parts carry the sanitised device name, the version string, the application name, the dump file from the files directory, and the JSON text |
| CrashHandler.SendCrashReportBody | BreakpadIntergation/src/com/pixonic/breakpadintergation/CrashHandler.java:265-286 | The upload completes and is finished iff every file in the report can be opened, and it uses one boundary throughout |
| CrashHandler.ReportBody | BreakpadIntergation/src/com/pixonic/breakpadintergation/CrashHandler.java:265-286 | When every file opens, the upload is the reference body of the report's parts. The length `getContentLength` reports never exceeds the bytes sent, and equals them iff the boundary, application name, dump file name, JSON text and included names are ASCII. The device and version fields do not appear in that condition only because `\W` is taken in its Java SE sense; see CrashHandler.IsWordChar under Left out |
| CrashHandler.ReportWithoutDump | BreakpadIntergation/src/com/pixonic/breakpadintergation/CrashHandler.java:265-270 | A dump file that cannot be opened aborts the upload unfinished, holding only the three fields and the dump file's header |
| CrashHandler.GeneratedFieldsAreAscii | BreakpadIntergation/src/com/pixonic/breakpadintergation/CrashHandler.java:251-256 | The device and version fields are always ASCII, so they never make the Content-Length wrong. This rests on the Java SE meaning of `\W`. Under Android's ICU rules non-ASCII letters survive sanitising, and a non-ASCII device name would make the length short |

## Left out

- The boundary is a parameter. `UUID.randomUUID()` in the constructor is randomness.
- Files are snapshots: either readable with fixed contents, or unopenable with
  the length `File.length()` reports (0 for a missing file). Opening, reading and
  closing are I/O. Changes to a file between `addFile` and `writeTo` are not modelled.
- `getContent` is modelled as the bytes its `SequenceInputStream` yields. Read
  failures while reading that stream, and the fact that the entity's streams can
  be read only once, are not modelled.
- The `HttpEntity` interface, `BasicHeader`, and the constant answers of
  `getContentEncoding`, `isChunked` and `isRepeatable` carry no logic and are left out.
- MultipartEntity.GetContentLength: the total is an unbounded integer. Overflow
  of the Java `long` total, and of the `int` count in the copy loop, is not
  modelled; both need more than 2^31 bytes.
- MultipartStream.WriteFromInputToOutput: a failing `write` on the sink is not
  modelled. Only a failing `read` is, as the number of bytes a chunk delivers
  before the read throws. Logging the exception is left out.
- Logging, `HttpClient`, the endpoint URL, the response, the progress dialog,
  threads, JNI, handler initialisation and `setApplicationName` are I/O or
  platform calls, and are left out.
- `includeJsonData` and `JSONObject.toString()`: the JSON text is an input string.
- `HashMap` iteration order is unspecified. It is a parameter constrained to list
  every key of the table exactly once.
- CrashHandler.BaseName: `java.io.File` path normalisation is not modelled, for
  example removing a trailing separator. The model takes the text after the last `/`.
- CrashHandler.IsWordChar: `\W` follows the Java SE definition `[^a-zA-Z_0-9]`.
  Android's ICU regular expressions may treat non-ASCII letters and digits as
  word characters. Under that reading the device field can be non-ASCII, and the
  ASCII claims of CrashHandler.GeneratedFieldsAreAscii and CrashHandler.ReportBody
  do not carry over to Android.
- JavaText.Encode: strings are sequences of Unicode scalar values, so lone
  surrogates cannot occur. Java would encode them as `?`.
