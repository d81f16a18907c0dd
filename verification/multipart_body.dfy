/**
  A whole body built the way a client drives the entity: a fresh entity, a run
  of `addValue` / `addFile` calls in order, then `finish`.  The first `addFile`
  that throws ends the run, and `finish` is never reached.

  The theorems here connect the builder with the reference wire format and say
  when the announced Content-Length is right.
 */
module MultipartBody {
  import opened JavaText
  import opened WireFormat
  import opened MultipartEntity

  /** One call a client makes on the entity. */
  datatype PartRequest =
    | ValueRequest(name: string, value: string)
    | FileRequest(name: string, fileName: string, file: FileState)

  function Apply(e: Entity, req: PartRequest): Completion {
    match req
    case ValueRequest(name, value) => Completed(AddValue(e, name, value))
    case FileRequest(name, fileName, file) => AddFile(e, name, fileName, file)
  }

  /** Applies the requests in order; an exception stops the run where it happened. */
  function AddParts(e: Entity, reqs: seq<PartRequest>): Completion
    decreases |reqs|
  {
    if |reqs| == 0 then Completed(e)
    else
      match Apply(e, reqs[0])
      case Completed(next) => AddParts(next, reqs[1..])
      case Raised(left, cause) => Raised(left, cause)
  }

  /** A fresh entity, every request, then `finish` if nothing threw. */
  function BuildBody(boundary: string, reqs: seq<PartRequest>): Completion {
    match AddParts(NewEntity(boundary), reqs)
    case Completed(e) => Completed(Finish(e))
    case Raised(left, cause) => Raised(left, cause)
  }

  predicate Opens(req: PartRequest) {
    req.FileRequest? ==> req.file.Readable?
  }

  predicate AllOpen(reqs: seq<PartRequest>) {
    forall i :: 0 <= i < |reqs| ==> Opens(reqs[i])
  }

  /** Every text the request contributes (name, value, file name) is ASCII. */
  predicate AsciiRequest(req: PartRequest) {
    match req
    case ValueRequest(name, value) => IsAscii(name) && IsAscii(value)
    case FileRequest(name, fileName, _) => IsAscii(name) && IsAscii(fileName)
  }

  predicate AllAscii(reqs: seq<PartRequest>) {
    forall i :: 0 <= i < |reqs| ==> AsciiRequest(reqs[i])
  }

  /** The part a request becomes once its file has been read. */
  function ToPart(req: PartRequest): Part
    requires Opens(req)
  {
    match req
    case ValueRequest(name, value) => Field(name, value)
    case FileRequest(name, fileName, file) => Attachment(name, fileName, file.contents)
  }

  function ToParts(reqs: seq<PartRequest>): (ps: seq<Part>)
    requires AllOpen(reqs)
    ensures |ps| == |reqs|
  {
    if |reqs| == 0 then [] else [ToPart(reqs[0])] + ToParts(reqs[1..])
  }

  lemma RenderPartsCons(boundary: string, reqs: seq<PartRequest>)
    requires AllOpen(reqs) && |reqs| > 0
    ensures AllOpen(reqs[1..])
    ensures RenderParts(boundary, ToParts(reqs)) == RenderPart(boundary, ToPart(reqs[0])) + RenderParts(boundary, ToParts(reqs[1..]))
  {
    var ps := ToParts(reqs);
    assert ps[0] == ToPart(reqs[0]);
    assert ps[1..] == ToParts(reqs[1..]);
  }

  /** Index of the first request whose file cannot be opened. */
  function FirstFailure(reqs: seq<PartRequest>): (k: nat)
    requires !AllOpen(reqs)
    ensures k < |reqs| && !Opens(reqs[k])
    ensures AllOpen(reqs[..k])
  {
    if !Opens(reqs[0]) then 0
    else
      var k := FirstFailure(reqs[1..]);
      assert reqs[..k + 1] == [reqs[0]] + reqs[1..][..k];
      k + 1
  }

  /** One request whose file opens appends exactly its rendered part. */
  lemma ApplyRenders(e: Entity, req: PartRequest)
    requires Opens(req)
    ensures Apply(e, req).Completed?
    ensures Apply(e, req).after.boundary == e.boundary
    ensures Apply(e, req).after.ready == e.ready
    ensures GetContent(Apply(e, req).after) == GetContent(e) + RenderPart(e.boundary, ToPart(req))
  {
  }

  /** When every file opens, the run appends exactly the rendered parts and keeps the boundary and flag. */
  lemma {:induction false} AddPartsRenders(e: Entity, reqs: seq<PartRequest>)
    requires AllOpen(reqs)
    decreases |reqs|
    ensures AddParts(e, reqs).Completed?
    ensures AddParts(e, reqs).after.boundary == e.boundary
    ensures AddParts(e, reqs).after.ready == e.ready
    ensures GetContent(AddParts(e, reqs).after) == GetContent(e) + RenderParts(e.boundary, ToParts(reqs))
  {
    if |reqs| != 0 {
      ApplyRenders(e, reqs[0]);
      var next := Apply(e, reqs[0]).after;
      assert AddParts(e, reqs) == AddParts(next, reqs[1..]);
      RenderPartsCons(e.boundary, reqs);
      AddPartsRenders(next, reqs[1..]);
      AppendAssoc(GetContent(e), RenderPart(e.boundary, ToPart(reqs[0])), RenderParts(e.boundary, ToParts(reqs[1..])));
    }
  }

  /** When every file opens, the announced length falls short by at least what it did, and by no more exactly for ASCII text. */
  lemma {:induction false} AddPartsLength(e: Entity, reqs: seq<PartRequest>)
    requires AllOpen(reqs)
    decreases |reqs|
    ensures AddParts(e, reqs).Completed?
    ensures Deficit(AddParts(e, reqs).after) >= Deficit(e)
    ensures Deficit(AddParts(e, reqs).after) == Deficit(e) <==> |reqs| == 0 || (IsAscii(e.boundary) && AllAscii(reqs))
  {
    AddPartsRenders(e, reqs);
    if |reqs| != 0 {
      var req := reqs[0];
      var next := Apply(e, req).after;
      match req {
        case ValueRequest(name, value) => AddValueLength(e, name, value);
        case FileRequest(name, fileName, file) => AddFileLength(e, name, fileName, file);
      }
      assert AllOpen(reqs[1..]);
      AddPartsLength(next, reqs[1..]);
      assert AddParts(e, reqs) == AddParts(next, reqs[1..]);
      assert next.boundary == e.boundary;
      assert AllAscii(reqs) <==> AsciiRequest(req) && AllAscii(reqs[1..]) by {
        assert forall i :: 1 <= i < |reqs| ==> reqs[i] == reqs[1..][i - 1];
      }
    }
  }

  /**
    The builder produces the reference wire format: if every file opens, the
    body completes, is streaming, and its content is every part in order
    followed by the close-delimiter.
   */
  lemma BuildBodyIsWireFormat(boundary: string, reqs: seq<PartRequest>)
    requires AllOpen(reqs)
    ensures BuildBody(boundary, reqs).Completed?
    ensures BuildBody(boundary, reqs).after.boundary == boundary
    ensures IsStreaming(BuildBody(boundary, reqs).after)
    ensures GetContent(BuildBody(boundary, reqs).after) == RenderBody(boundary, ToParts(reqs))
  {
    var e := NewEntity(boundary);
    AddPartsRenders(e, reqs);
    var built := AddParts(e, reqs).after;
    assert BuildBody(boundary, reqs) == Completed(Finish(built));
    assert GetContent(built) == RenderParts(boundary, ToParts(reqs));
  }

  /**
    The announced Content-Length of a finished body equals its byte count
    exactly when the boundary and every name, value and file name are ASCII.
   */
  lemma BuildBodyLengthExact(boundary: string, reqs: seq<PartRequest>)
    requires AllOpen(reqs)
    ensures Accurate(BuildBody(boundary, reqs).after) <==> IsAscii(boundary) && AllAscii(reqs)
    ensures GetContentLength(BuildBody(boundary, reqs).after) <= |GetContent(BuildBody(boundary, reqs).after)|
    ensures GetContentLength(BuildBody(boundary, reqs).after) == |GetContent(BuildBody(boundary, reqs).after)|
      <==> IsAscii(boundary) && AllAscii(reqs)
  {
    var e := NewEntity(boundary);
    AddPartsLength(e, reqs);
    FinishLength(AddParts(e, reqs).after);
    AddPartsRenders(e, reqs);
  }

  /**
    A file that cannot be opened stops the build at the first such request, with
    no `finish`: the body holds the parts before it and that request's header,
    and the total has already counted the header and the reported file length.
   */
  lemma BuildBodyStopsAtUnopenable(boundary: string, reqs: seq<PartRequest>)
    requires !AllOpen(reqs)
    ensures BuildBody(boundary, reqs).Raised?
    ensures BuildBody(boundary, reqs).after.boundary == boundary
    ensures !IsStreaming(BuildBody(boundary, reqs).after)
    ensures var k := FirstFailure(reqs);
      GetContent(BuildBody(boundary, reqs).after)
      == RenderParts(boundary, ToParts(reqs[..k])) + Encode(AttachmentHeader(boundary, reqs[k].name, reqs[k].fileName))
  {
    var k := FirstFailure(reqs);
    var e := NewEntity(boundary);
    assert reqs == reqs[..k] + [reqs[k]] + reqs[k + 1..];
    StopsAt(e, reqs[..k], reqs[k], reqs[k + 1..]);
    assert BuildBody(boundary, reqs) == AddParts(e, reqs);
    var rendered := RenderParts(boundary, ToParts(reqs[..k]));
    var header := Encode(AttachmentHeader(boundary, reqs[k].name, reqs[k].fileName));
    AppendAssoc(GetContent(e), rendered, header);
    assert GetContent(e) + (rendered + header) == rendered + header;
  }

  /** The run up to and including the first request whose file does not open. */
  lemma {:induction false} StopsAt(e: Entity, before: seq<PartRequest>, failing: PartRequest, after: seq<PartRequest>)
    requires AllOpen(before) && !Opens(failing)
    decreases |before|
    ensures AddParts(e, before + [failing] + after).Raised?
    ensures AddParts(e, before + [failing] + after).after.boundary == e.boundary
    ensures AddParts(e, before + [failing] + after).after.ready == e.ready
    ensures GetContent(AddParts(e, before + [failing] + after).after)
      == GetContent(e) + RenderParts(e.boundary, ToParts(before)) + Encode(AttachmentHeader(e.boundary, failing.name, failing.fileName))
  {
    var reqs := before + [failing] + after;
    if |before| == 0 {
      assert reqs[0] == failing;
      assert AddParts(e, reqs) == AddFile(e, failing.name, failing.fileName, failing.file);
    } else {
      ApplyRenders(e, before[0]);
      var next := Apply(e, before[0]).after;
      assert AddParts(e, reqs) == AddParts(next, before[1..] + [failing] + after) by {
        assert reqs[0] == before[0];
        assert reqs[1..] == before[1..] + [failing] + after;
      }
      RenderPartsCons(e.boundary, before);
      StopsAt(next, before[1..], failing, after);
      AppendAssoc(GetContent(e), RenderPart(e.boundary, ToPart(before[0])), RenderParts(e.boundary, ToParts(before[1..])));
    }
  }
}
