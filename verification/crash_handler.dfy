/**
  The pure parts of the crash handler that feed the multipart entity: the
  device name, the version string, the table of extra files to upload, and the
  order in which the crash-report upload assembles its parts.

  The Android values the handler reads (`Build.MANUFACTURER`, `Build.MODEL`,
  the package info, the files directory, the files on disk) are inputs here.
 */
module CrashHandler {
  import opened Wrappers
  import opened JavaText
  import opened WireFormat
  import opened MultipartEntity
  import opened MultipartBody

  // ---- device name ----

  /** A character of the regular-expression class `\w`, that is `[a-zA-Z_0-9]`. */
  predicate IsWordChar(c: char) {
    ('a' <= c <= 'z') || ('A' <= c <= 'Z') || ('0' <= c <= '9') || c == '_'
  }

  predicate AllWordChars(s: string) {
    forall i :: 0 <= i < |s| ==> IsWordChar(s[i])
  }

  /** `s.replaceAll("\\W", "_")`: word characters stay where they are, every other character becomes one underscore. */
  function ReplaceNonWord(s: string): (r: string)
    ensures |r| == |s|
    ensures forall i :: 0 <= i < |s| ==> r[i] == (if IsWordChar(s[i]) then s[i] else '_')
  {
    if |s| == 0 then [] else [if IsWordChar(s[0]) then s[0] else '_'] + ReplaceNonWord(s[1..])
  }

  /** `getDeviceName`: manufacturer and model joined by a comma, then sanitised. */
  function GetDeviceName(manufacturer: string, model: string): (r: string)
    ensures AllWordChars(r)
    ensures r == ReplaceNonWord(manufacturer) + "_" + ReplaceNonWord(model)
  {
    var device := manufacturer + "," + model;
    var r := ReplaceNonWord(device);
    assert r == ReplaceNonWord(manufacturer) + "_" + ReplaceNonWord(model);
    r
  }

  /** Sanitising is idempotent. */
  lemma ReplaceNonWordIdempotent(s: string)
    ensures ReplaceNonWord(ReplaceNonWord(s)) == ReplaceNonWord(s)
  {
  }

  /** A string is left unchanged exactly when it has only word characters. */
  lemma ReplaceNonWordFixedPoints(s: string)
    ensures ReplaceNonWord(s) == s <==> AllWordChars(s)
  {
    if ReplaceNonWord(s) == s {
      forall i | 0 <= i < |s|
        ensures IsWordChar(s[i])
      {
        assert ReplaceNonWord(s)[i] == s[i];
      }
    }
  }

  lemma WordCharsAreAscii(s: string)
    requires AllWordChars(s)
    ensures IsAscii(s)
  {
    forall c | c in s
      ensures IsAsciiChar(c)
    {
      var i :| 0 <= i < |s| && s[i] == c;
    }
  }

  // ---- version code ----

  /** A Java `int`. */
  type int32 = x: int | -0x8000_0000 <= x < 0x8000_0000

  datatype PackageInfo = PackageInfo(versionCode: int32)

  const UnknownVersion: string := "UnknownVersion"

  predicate IsDigit(c: char) {
    '0' <= c <= '9'
  }

  predicate AllDigits(s: string) {
    forall i :: 0 <= i < |s| ==> IsDigit(s[i])
  }

  function DigitChar(d: nat): (c: char)
    requires d < 10
    ensures IsDigit(c)
  {
    ('0' as int + d) as char
  }

  /** Decimal digits of `n`, most significant first, no leading zero. */
  function NaturalDecimal(n: nat): (s: string)
    ensures |s| >= 1 && AllDigits(s)
    ensures |s| > 1 ==> s[0] != '0'
    ensures n > 0 ==> s[0] != '0'
  {
    if n < 10 then [DigitChar(n)] else NaturalDecimal(n / 10) + [DigitChar(n % 10)]
  }

  /**
    The one spelling `String.valueOf(int)` gives a number: digits without a
    leading zero (a lone "0" aside), or a minus sign before such digits for a
    negative number, never "-0".
   */
  predicate CanonicalDecimal(s: string) {
    || (|s| >= 1 && AllDigits(s) && (|s| > 1 ==> s[0] != '0'))
    || (|s| >= 2 && s[0] == '-' && AllDigits(s[1..]) && s[1] != '0')
  }

  /** `String.valueOf(int)`: a minus sign for negatives, then the decimal digits. */
  function JavaIntToString(n: int): (s: string)
    ensures CanonicalDecimal(s)
  {
    if n < 0 then
      var digits := NaturalDecimal(-n);
      assert ("-" + digits)[1..] == digits;
      "-" + digits
    else NaturalDecimal(n)
  }

  /** The value of a string of decimal digits. */
  function DigitsValue(s: string): nat
    requires AllDigits(s)
  {
    if |s| == 0 then 0 else DigitsValue(s[..|s| - 1]) * 10 + (s[|s| - 1] as int - '0' as int)
  }

  /** Reads an optionally signed decimal integer back; anything else is `None`. */
  function ParseDecimal(s: string): Option<int> {
    if |s| == 0 then None
    else if s[0] == '-' then
      if |s| > 1 && AllDigits(s[1..]) then Some(0 - DigitsValue(s[1..]) as int) else None
    else if AllDigits(s) then Some(DigitsValue(s))
    else None
  }

  lemma {:induction false} NaturalDecimalValue(n: nat)
    ensures DigitsValue(NaturalDecimal(n)) == n
  {
    if n >= 10 {
      var s := NaturalDecimal(n);
      NaturalDecimalValue(n / 10);
      assert s[..|s| - 1] == NaturalDecimal(n / 10);
    }
  }

  /** The decimal rendering reads back as the number it rendered. */
  lemma JavaIntToStringRoundTrip(n: int)
    ensures ParseDecimal(JavaIntToString(n)) == Some(n)
  {
    if n < 0 {
      var s := JavaIntToString(n);
      assert s[1..] == NaturalDecimal(-n);
      NaturalDecimalValue(-n);
    } else {
      NaturalDecimalValue(n);
    }
  }

  lemma {:induction false} LeadingDigitPositive(s: string)
    requires |s| >= 1 && AllDigits(s) && s[0] != '0'
    ensures DigitsValue(s) >= 1
    ensures |s| >= 2 ==> DigitsValue(s) >= 10
  {
    if |s| >= 2 {
      var init := s[..|s| - 1];
      assert init[0] == s[0];
      LeadingDigitPositive(init);
    }
  }

  lemma LastDigit(i: nat, d: nat)
    requires d < 10
    ensures (i * 10 + d) / 10 == i && (i * 10 + d) % 10 == d
  {
  }

  /** Digit strings without a leading zero denote different numbers. */
  lemma {:induction false} DigitsInjective(a: string, b: string)
    requires |a| >= 1 && AllDigits(a) && (|a| > 1 ==> a[0] != '0')
    requires |b| >= 1 && AllDigits(b) && (|b| > 1 ==> b[0] != '0')
    requires DigitsValue(a) == DigitsValue(b)
    decreases |a|
    ensures a == b
  {
    if |a| == 1 && |b| == 1 {
      assert a[..0] == b[..0];
    } else if |a| == 1 {
      LeadingDigitPositive(b);
      assert false;
    } else if |b| == 1 {
      LeadingDigitPositive(a);
      assert false;
    } else {
      var ia, ib := a[..|a| - 1], b[..|b| - 1];
      var da, db := a[|a| - 1] as int - '0' as int, b[|b| - 1] as int - '0' as int;
      LastDigit(DigitsValue(ia), da);
      LastDigit(DigitsValue(ib), db);
      assert ia[0] == a[0] && ib[0] == b[0];
      DigitsInjective(ia, ib);
      assert a == ia + [a[|a| - 1]] && b == ib + [b[|b| - 1]];
    }
  }

  /** Two canonical decimals that read as the same number are the same string. */
  lemma CanonicalDecimalUnique(a: string, b: string)
    requires CanonicalDecimal(a) && CanonicalDecimal(b)
    requires ParseDecimal(a) == ParseDecimal(b)
    ensures a == b
  {
    if a[0] == '-' && b[0] == '-' {
      DigitsInjective(a[1..], b[1..]);
      assert a == [a[0]] + a[1..] && b == [b[0]] + b[1..];
    } else if a[0] == '-' {
      LeadingDigitPositive(a[1..]);
      assert false;
    } else if b[0] == '-' {
      LeadingDigitPositive(b[1..]);
      assert false;
    } else {
      DigitsInjective(a, b);
    }
  }

  /**
    `getVersionCode`: "UnknownVersion" exactly when no package info could be
    read, otherwise a decimal string that reads back as the version code.
   */
  function GetVersionCode(info: Option<PackageInfo>): (r: string)
    ensures info.None? <==> r == UnknownVersion
    ensures info.Some? ==> ParseDecimal(r) == Some(info.value.versionCode as int)
    ensures info.Some? ==> CanonicalDecimal(r)
    ensures info.Some? ==> IsAscii(r)
  {
    match info
    case None => UnknownVersion
    case Some(p) =>
      var r := JavaIntToString(p.versionCode as int);
      JavaIntToStringRoundTrip(p.versionCode as int);
      assert r[0] == '-' || IsDigit(r[0]);
      assert r[0] != UnknownVersion[0];
      assert forall c | c in r :: c == '-' || IsDigit(c);
      r
  }

  // ---- extra files ----

  /** The table of extra files; a `null` table is empty. */
  function Included(files: Option<map<string, string>>): map<string, string> {
    match files
    case None => map[]
    case Some(m) => m
  }

  /**
    `includeFile`: creates the table on first use, then maps `name` to `file`,
    replacing any earlier path for that name and leaving other names alone.
   */
  function IncludeFile(files: Option<map<string, string>>, name: string, file: string): (r: map<string, string>)
    ensures name in r && r[name] == file
    ensures r.Keys == Included(files).Keys + {name}
    ensures forall k | k in r && k != name :: k in Included(files) && r[k] == Included(files)[k]
  {
    var table := if files.None? then map[] else files.value;
    table[name := file]
  }

  // ---- the upload ----

  /** Everything the upload reads from the handler and the platform. */
  datatype CrashContext = CrashContext(
    manufacturer: string,
    model: string,
    packageInfo: Option<PackageInfo>,
    applicationName: string,
    filesDir: string,
    disk: map<string, FileState>,
    optionalParameters: Option<string>,
    optionalFilesToSend: Option<map<string, string>>)

  /** The file at `path`; a path with nothing on the disk cannot be opened and has length 0. */
  function FileAt(disk: map<string, FileState>, path: string): FileState {
    if path in disk then disk[path] else Unopenable(0)
  }

  /** `File.getName()`: the part of the path after its last separator. */
  function BaseName(path: string): string {
    if |path| == 0 || path[|path| - 1] == '/' then "" else BaseName(path[..|path| - 1]) + [path[|path| - 1]]
  }

  /** The name is the path's last component: a separator-free suffix, preceded by a separator unless it is the whole path. */
  lemma {:induction false} BaseNameIsLastComponent(path: string)
    ensures '/' !in BaseName(path)
    ensures |BaseName(path)| <= |path| && BaseName(path) == path[|path| - |BaseName(path)|..]
    ensures |BaseName(path)| < |path| ==> path[|path| - |BaseName(path)| - 1] == '/'
  {
    if |path| != 0 && path[|path| - 1] != '/' {
      var init := path[..|path| - 1];
      BaseNameIsLastComponent(init);
      var r := BaseName(path);
      assert r == BaseName(init) + [path[|path| - 1]];
      assert path[|path| - |r|..] == init[|init| - |BaseName(init)|..] + [path[|path| - 1]];
      if |r| < |path| {
        assert path[|path| - |r| - 1] == init[|init| - |BaseName(init)| - 1];
      }
    }
  }

  /** Every name in `order` is in the table. */
  predicate ListsIncluded(order: seq<string>, files: Option<map<string, string>>) {
    forall i :: 0 <= i < |order| ==> order[i] in Included(files)
  }

  /** `order` lists every key of the table exactly once: the table's iteration order. */
  predicate IsIterationOrder(order: seq<string>, files: Option<map<string, string>>) {
    && ListsIncluded(order, files)
    && (forall k :: k in Included(files) ==> k in order)
    && (forall i, j :: 0 <= i < j < |order| ==> order[i] != order[j])
  }

  function PartName(req: PartRequest): string {
    req.name
  }

  function PartNames(reqs: seq<PartRequest>): (names: seq<string>)
    ensures |names| == |reqs|
  {
    if |reqs| == 0 then [] else [PartName(reqs[0])] + PartNames(reqs[1..])
  }

  lemma {:induction false} PartNamesAppend(a: seq<PartRequest>, b: seq<PartRequest>)
    ensures PartNames(a + b) == PartNames(a) + PartNames(b)
  {
    if |a| != 0 {
      assert (a + b)[1..] == a[1..] + b;
      PartNamesAppend(a[1..], b);
    } else {
      assert a + b == b;
    }
  }

  lemma PartNamesFour(a: PartRequest, b: PartRequest, c: PartRequest, d: PartRequest)
    ensures PartNames([a, b, c, d]) == [a.name, b.name, c.name, d.name]
  {
    assert [d][1..] == [];
    assert PartNames([d]) == [d.name];
    assert [c, d][1..] == [d];
    assert PartNames([c, d]) == [c.name, d.name];
    assert [b, c, d][1..] == [c, d];
    assert PartNames([b, c, d]) == [b.name, c.name, d.name];
    assert [a, b, c, d][1..] == [b, c, d];
  }

  /** The file part for an included name: the file at its path, sent under the path's last component. */
  function IncludedRequest(ctx: CrashContext, name: string): PartRequest
    requires name in Included(ctx.optionalFilesToSend)
  {
    var path := Included(ctx.optionalFilesToSend)[name];
    FileRequest(name, BaseName(path), FileAt(ctx.disk, path))
  }

  /** One file part per included name, in the given order. */
  function IncludedFileRequests(ctx: CrashContext, order: seq<string>): (reqs: seq<PartRequest>)
    requires ListsIncluded(order, ctx.optionalFilesToSend)
    ensures |reqs| == |order|
    ensures PartNames(reqs) == order
  {
    if |order| == 0 then [] else [IncludedRequest(ctx, order[0])] + IncludedFileRequests(ctx, order[1..])
  }

  /** The `j`-th file part sends the file stored under the `j`-th name. */
  lemma {:induction false} IncludedFileRequestAt(ctx: CrashContext, order: seq<string>, j: nat)
    requires ListsIncluded(order, ctx.optionalFilesToSend) && j < |order|
    ensures IncludedFileRequests(ctx, order)[j] == IncludedRequest(ctx, order[j])
  {
    if j > 0 {
      assert ListsIncluded(order[1..], ctx.optionalFilesToSend);
      IncludedFileRequestAt(ctx, order[1..], j - 1);
      assert order[1..][j - 1] == order[j];
    }
  }

  /** The parts every report has: device, version, product name, then the dump file. */
  function FixedRequests(ctx: CrashContext, dumpFile: string): seq<PartRequest> {
    [ ValueRequest("device", GetDeviceName(ctx.manufacturer, ctx.model)),
      ValueRequest("version", GetVersionCode(ctx.packageInfo)),
      ValueRequest("product_name", ctx.applicationName),
      FileRequest("symbol_file", dumpFile, FileAt(ctx.disk, ctx.filesDir + "/" + dumpFile)) ]
  }

  /** The JSON parameters, only when they have been set. */
  function OptionalRequests(ctx: CrashContext): seq<PartRequest> {
    if ctx.optionalParameters.Some? then [ValueRequest("optional", ctx.optionalParameters.value)] else []
  }

  /**
    The calls `sendCrashReportImpl` makes on the entity, in order: the device,
    version and product-name fields, the dump file, the JSON parameters when
    set, then one file part per included file in the table's iteration order.
   */
  function ReportRequests(ctx: CrashContext, dumpFile: string, order: seq<string>): seq<PartRequest>
    requires ListsIncluded(order, ctx.optionalFilesToSend)
  {
    FixedRequests(ctx, dumpFile) + OptionalRequests(ctx) + IncludedFileRequests(ctx, order)
  }

  /** The report's parts, by name: the four fixed ones, `optional` when set, then the included names in iteration order. */
  lemma ReportPartOrder(ctx: CrashContext, dumpFile: string, order: seq<string>)
    requires IsIterationOrder(order, ctx.optionalFilesToSend)
    ensures PartNames(ReportRequests(ctx, dumpFile, order))
      == ["device", "version", "product_name", "symbol_file"]
      + (if ctx.optionalParameters.Some? then ["optional"] else [])
      + order
  {
    var fixed := FixedRequests(ctx, dumpFile);
    var optional := OptionalRequests(ctx);
    var files := IncludedFileRequests(ctx, order);
    PartNamesAppend(fixed, optional);
    PartNamesAppend(fixed + optional, files);
    assert PartNames(fixed) == ["device", "version", "product_name", "symbol_file"] by {
      PartNamesFour(fixed[0], fixed[1], fixed[2], fixed[3]);
      assert fixed == [fixed[0], fixed[1], fixed[2], fixed[3]];
    }
    assert PartNames(optional) == if ctx.optionalParameters.Some? then ["optional"] else [] by {
      if ctx.optionalParameters.Some? {
        assert optional[1..] == [];
      }
    }
  }

  /** Every part after the fixed ones and the JSON one is an included file: its name, the path's last component, and the file at that path. */
  lemma ReportIncludedFiles(ctx: CrashContext, dumpFile: string, order: seq<string>)
    requires IsIterationOrder(order, ctx.optionalFilesToSend)
    ensures var reqs := ReportRequests(ctx, dumpFile, order);
      && |reqs| == 4 + (if ctx.optionalParameters.Some? then 1 else 0) + |order|
      && forall j :: 0 <= j < |order| ==>
           var path := Included(ctx.optionalFilesToSend)[order[j]];
           reqs[|reqs| - |order| + j] == FileRequest(order[j], BaseName(path), FileAt(ctx.disk, path))
  {
    var leading := FixedRequests(ctx, dumpFile) + OptionalRequests(ctx);
    var files := IncludedFileRequests(ctx, order);
    forall j | 0 <= j < |order|
      ensures (leading + files)[|leading| + j] == IncludedRequest(ctx, order[j])
    {
      IncludedFileRequestAt(ctx, order, j);
    }
  }

  /** The first four parts are the fixed ones. */
  lemma ReportStartsWithFixed(ctx: CrashContext, dumpFile: string, order: seq<string>)
    requires ListsIncluded(order, ctx.optionalFilesToSend)
    ensures |ReportRequests(ctx, dumpFile, order)| >= 4
    ensures ReportRequests(ctx, dumpFile, order)[..4] == FixedRequests(ctx, dumpFile)
  {
    var fixed := FixedRequests(ctx, dumpFile);
    var rest := OptionalRequests(ctx) + IncludedFileRequests(ctx, order);
    assert ReportRequests(ctx, dumpFile, order) == fixed + rest;
    assert (fixed + rest)[..4] == fixed;
  }

  /**
    What each of the fixed parts of the report carries: the sanitised device
    name, the version string, the application name, the dump file read from the
    files directory under its own name, and the JSON text when it is set.
   */
  lemma ReportFieldValues(ctx: CrashContext, dumpFile: string, order: seq<string>)
    requires IsIterationOrder(order, ctx.optionalFilesToSend)
    ensures var reqs := ReportRequests(ctx, dumpFile, order);
      && |reqs| >= 4
      && reqs[0] == ValueRequest("device", GetDeviceName(ctx.manufacturer, ctx.model))
      && reqs[1] == ValueRequest("version", GetVersionCode(ctx.packageInfo))
      && reqs[2] == ValueRequest("product_name", ctx.applicationName)
      && reqs[3] == FileRequest("symbol_file", dumpFile, FileAt(ctx.disk, ctx.filesDir + "/" + dumpFile))
      && (ctx.optionalParameters.Some? ==> |reqs| >= 5 && reqs[4] == ValueRequest("optional", ctx.optionalParameters.value))
  {
    var fixed := FixedRequests(ctx, dumpFile);
    var rest := OptionalRequests(ctx) + IncludedFileRequests(ctx, order);
    var reqs := ReportRequests(ctx, dumpFile, order);
    assert reqs == fixed + rest;
    assert forall i :: 0 <= i < 4 ==> reqs[i] == fixed[i];
    if ctx.optionalParameters.Some? {
      assert reqs[4] == rest[0];
    }
  }

  /**
    `sendCrashReportImpl`, up to handing the entity to the HTTP client: the body
    it builds, or the exception that makes it give up without sending.
   */
  function SendCrashReportBody(ctx: CrashContext, boundary: string, dumpFile: string, order: seq<string>): (r: Completion)
    requires IsIterationOrder(order, ctx.optionalFilesToSend)
    ensures r.after.boundary == boundary
    ensures r.Completed? <==> AllOpen(ReportRequests(ctx, dumpFile, order))
    ensures r.Completed? ==> IsStreaming(r.after)
  {
    var reqs := ReportRequests(ctx, dumpFile, order);
    if AllOpen(reqs) then
      BuildBodyIsWireFormat(boundary, reqs);
      BuildBody(boundary, reqs)
    else
      BuildBodyStopsAtUnopenable(boundary, reqs);
      BuildBody(boundary, reqs)
  }

  /** The device and version fields are always pure ASCII, whatever the device reports. */
  lemma GeneratedFieldsAreAscii(ctx: CrashContext)
    ensures IsAscii(GetDeviceName(ctx.manufacturer, ctx.model))
    ensures IsAscii(GetVersionCode(ctx.packageInfo))
  {
    WordCharsAreAscii(GetDeviceName(ctx.manufacturer, ctx.model));
  }

  lemma AllAsciiAppend(a: seq<PartRequest>, b: seq<PartRequest>)
    ensures AllAscii(a + b) <==> AllAscii(a) && AllAscii(b)
  {
    if AllAscii(a) && AllAscii(b) {
      forall i | 0 <= i < |a + b|
        ensures AsciiRequest((a + b)[i])
      {
        if i >= |a| {
          assert (a + b)[i] == b[i - |a|];
        }
      }
    }
    if AllAscii(a + b) {
      forall i | 0 <= i < |a|
        ensures AsciiRequest(a[i])
      {
        assert (a + b)[i] == a[i];
      }
      forall i | 0 <= i < |b|
        ensures AsciiRequest(b[i])
      {
        assert (a + b)[|a| + i] == b[i];
      }
    }
  }

  lemma AllAsciiFour(a: PartRequest, b: PartRequest, c: PartRequest, d: PartRequest)
    ensures AllAscii([a, b, c, d]) <==> AsciiRequest(a) && AsciiRequest(b) && AsciiRequest(c) && AsciiRequest(d)
  {
    var s := [a, b, c, d];
    assert s[0] == a && s[1] == b && s[2] == c && s[3] == d;
  }

  /** The part names the report uses are ASCII. */
  lemma PartNamesAreAscii()
    ensures IsAscii("device") && IsAscii("version") && IsAscii("product_name")
    ensures IsAscii("symbol_file") && IsAscii("optional")
  {
    AsciiByIndex("device");
    AsciiByIndex("version");
    AsciiByIndex("product_name");
    AsciiByIndex("symbol_file");
    AsciiByIndex("optional");
  }

  lemma FixedAscii(ctx: CrashContext, dumpFile: string)
    ensures AllAscii(FixedRequests(ctx, dumpFile)) <==> IsAscii(ctx.applicationName) && IsAscii(dumpFile)
  {
    var fixed := FixedRequests(ctx, dumpFile);
    GeneratedFieldsAreAscii(ctx);
    PartNamesAreAscii();
    AllAsciiFour(fixed[0], fixed[1], fixed[2], fixed[3]);
    assert fixed == [fixed[0], fixed[1], fixed[2], fixed[3]];
  }

  lemma OptionalAscii(ctx: CrashContext)
    ensures AllAscii(OptionalRequests(ctx)) <==> (ctx.optionalParameters.Some? ==> IsAscii(ctx.optionalParameters.value))
  {
    PartNamesAreAscii();
    if ctx.optionalParameters.Some? {
      assert AllAscii(OptionalRequests(ctx)) <==> AsciiRequest(OptionalRequests(ctx)[0]);
    }
  }

  /**
    When the dump and every included file open, the upload is the wire-format
    body of the report's parts, and its Content-Length is right exactly when the
    boundary, the application name, the dump file name, the JSON text and every
    included file's name and file name are ASCII.
   */
  lemma ReportBody(ctx: CrashContext, boundary: string, dumpFile: string, order: seq<string>)
    requires IsIterationOrder(order, ctx.optionalFilesToSend)
    requires AllOpen(ReportRequests(ctx, dumpFile, order))
    ensures var r := SendCrashReportBody(ctx, boundary, dumpFile, order);
      && r.Completed?
      && GetContent(r.after) == RenderBody(boundary, ToParts(ReportRequests(ctx, dumpFile, order)))
      && GetContentLength(r.after) <= |GetContent(r.after)|
      && (GetContentLength(r.after) == |GetContent(r.after)| <==>
           && IsAscii(boundary) && IsAscii(ctx.applicationName) && IsAscii(dumpFile)
           && (ctx.optionalParameters.Some? ==> IsAscii(ctx.optionalParameters.value))
           && AllAscii(IncludedFileRequests(ctx, order)))
  {
    var fixed := FixedRequests(ctx, dumpFile);
    var optional := OptionalRequests(ctx);
    var files := IncludedFileRequests(ctx, order);
    var reqs := ReportRequests(ctx, dumpFile, order);
    assert SendCrashReportBody(ctx, boundary, dumpFile, order) == BuildBody(boundary, reqs);
    BuildBodyIsWireFormat(boundary, reqs);
    BuildBodyLengthExact(boundary, reqs);
    assert AllAscii(reqs) <==> AllAscii(fixed) && AllAscii(optional) && AllAscii(files) by {
      assert reqs == fixed + optional + files;
      AllAsciiAppend(fixed, optional);
      AllAsciiAppend(fixed + optional, files);
    }
    FixedAscii(ctx, dumpFile);
    OptionalAscii(ctx);
  }

  /**
    A dump file that cannot be opened ends the upload before anything is sent:
    the entity holds the three fields and the dump file's header, and is never
    finished.
   */
  lemma ReportWithoutDump(ctx: CrashContext, boundary: string, dumpFile: string, order: seq<string>)
    requires IsIterationOrder(order, ctx.optionalFilesToSend)
    requires FileAt(ctx.disk, ctx.filesDir + "/" + dumpFile).Unopenable?
    ensures var r := SendCrashReportBody(ctx, boundary, dumpFile, order);
      && r.Raised?
      && !IsStreaming(r.after)
      && GetContent(r.after)
         == RenderParts(boundary, [ Field("device", GetDeviceName(ctx.manufacturer, ctx.model)),
                                    Field("version", GetVersionCode(ctx.packageInfo)),
                                    Field("product_name", ctx.applicationName) ])
          + Encode(AttachmentHeader(boundary, "symbol_file", dumpFile))
  {
    var reqs := ReportRequests(ctx, dumpFile, order);
    var fixed := FixedRequests(ctx, dumpFile);
    ReportStartsWithFixed(ctx, dumpFile, order);
    FixedFieldParts(ctx, dumpFile);
    assert FirstFailure(reqs) == 3 by {
      assert forall i :: 0 <= i < 4 ==> reqs[i] == fixed[i];
      FirstFailureIsFirst(reqs, 3);
    }
    assert SendCrashReportBody(ctx, boundary, dumpFile, order) == BuildBody(boundary, reqs);
    BuildBodyStopsAtUnopenable(boundary, reqs);
    assert reqs[..3] == fixed[..3];
  }

  /** The three fields open, and the parts they become are the device, version and product-name fields. */
  lemma FixedFieldParts(ctx: CrashContext, dumpFile: string)
    ensures var fixed := FixedRequests(ctx, dumpFile);
      && Opens(fixed[0]) && Opens(fixed[1]) && Opens(fixed[2])
      && (!Opens(fixed[3]) <==> FileAt(ctx.disk, ctx.filesDir + "/" + dumpFile).Unopenable?)
      && AllOpen(fixed[..3])
      && ToParts(fixed[..3]) == [ Field("device", GetDeviceName(ctx.manufacturer, ctx.model)),
                                  Field("version", GetVersionCode(ctx.packageInfo)),
                                  Field("product_name", ctx.applicationName) ]
  {
    var fixed := FixedRequests(ctx, dumpFile);
    var prefix := fixed[..3];
    assert prefix == [fixed[0], fixed[1], fixed[2]];
    assert prefix[1..] == [fixed[1], fixed[2]];
    assert prefix[1..][1..] == [fixed[2]];
    assert ToParts([fixed[2]]) == [ToPart(fixed[2])];
    assert ToParts(prefix[1..]) == [ToPart(fixed[1]), ToPart(fixed[2])];
  }

  lemma {:induction false} FirstFailureIsFirst(reqs: seq<PartRequest>, k: nat)
    requires k < |reqs| && !Opens(reqs[k])
    requires forall i :: 0 <= i < k ==> Opens(reqs[i])
    ensures FirstFailure(reqs) == k
  {
    if k > 0 {
      FirstFailureIsFirst(reqs[1..], k - 1);
    }
  }
}
