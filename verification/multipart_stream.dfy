/**
  Streaming the entity to a sink: `writeTo` copies each chunk in turn through
  `writeFromInputToOutput`, which reads the chunk into a fixed buffer and writes
  what each read returned.

  A read may return fewer bytes than the buffer holds, so the size of each read
  is chosen nondeterministically.  A read may also throw; the copy loop logs the
  exception, stops copying that chunk and returns the count so far, and `writeTo`
  goes on with the next chunk.  A fault is given as the number of bytes a chunk
  delivers before its next read throws.
 */
module MultipartStream {
  import opened Wrappers
  import opened JavaText
  import opened MultipartEntity

  const BUFFER_SIZE: nat := 2048

  /** The bytes a sink has received from a list of `write` calls. */
  function Flatten(writes: seq<seq<byte>>): seq<byte> {
    if |writes| == 0 then [] else Flatten(writes[..|writes| - 1]) + writes[|writes| - 1]
  }

  /** How many bytes of a `size`-byte chunk are copied before the fault, if any, stops the copy. */
  function Delivered(size: nat, fault: Option<nat>): nat {
    match fault
    case None => size
    case Some(k) => if k < size then k else size
  }

  /** What the sink receives from `writeTo`: each chunk's delivered prefix, in order. */
  function Streamed(chunks: seq<Chunk>, faults: seq<Option<nat>>): seq<byte>
    requires |faults| == |chunks|
  {
    if |chunks| == 0 then []
    else
      var last := |chunks| - 1;
      Streamed(chunks[..last], faults[..last]) + chunks[last].content[..Delivered(|chunks[last].content|, faults[last])]
  }

  predicate NoFaults(faults: seq<Option<nat>>) {
    forall i :: 0 <= i < |faults| ==> faults[i].None?
  }

  /** Without faults, the sink receives exactly the entity's content. */
  lemma {:induction false} StreamedWithoutFaults(chunks: seq<Chunk>, faults: seq<Option<nat>>)
    requires |faults| == |chunks| && NoFaults(faults)
    ensures Streamed(chunks, faults) == Concat(chunks)
  {
    if |chunks| != 0 {
      var last := |chunks| - 1;
      assert NoFaults(faults[..last]);
      StreamedWithoutFaults(chunks[..last], faults[..last]);
      assert chunks[last].content[..|chunks[last].content|] == chunks[last].content;
    }
  }

  /**
    `writeFromInputToOutput`: copies `source` to the sink in writes of at most
    BUFFER_SIZE bytes, unchanged and in order, and returns the number of bytes
    written, which falls short of the whole source only when a read threw.
   */
  method WriteFromInputToOutput(source: seq<byte>, fault: Option<nat>) returns (count: nat, writes: seq<seq<byte>>)
    ensures count == Delivered(|source|, fault)
    ensures Flatten(writes) == source[..count]
    ensures forall i :: 0 <= i < |writes| ==> 0 < |writes[i]| <= BUFFER_SIZE
  {
    count := 0;
    writes := [];
    while true
      invariant count <= Delivered(|source|, fault)
      invariant Flatten(writes) == source[..count]
      invariant forall i :: 0 <= i < |writes| ==> 0 < |writes[i]| <= BUFFER_SIZE
      decreases |source| - count
    {
      if count == |source| {
        // the read returns EOF_MARK
        break;
      }
      if fault.Some? && count >= fault.value {
        // the read throws; the exception is logged and swallowed
        break;
      }
      var bytesRead :| 0 < bytesRead <= BUFFER_SIZE && count + bytesRead <= Delivered(|source|, fault);
      var buffer := source[count..count + bytesRead];
      assert (writes + [buffer])[..|writes|] == writes;
      assert source[..count] + buffer == source[..count + bytesRead];
      writes := writes + [buffer];
      count := count + bytesRead;
    }
  }

  /**
    `writeTo`: every chunk is copied in insertion order; a chunk whose read
    throws is cut short and the next chunk follows it directly.  Without faults
    the sink receives exactly what `getContent` would stream.
   */
  method WriteTo(e: Entity, faults: seq<Option<nat>>) returns (written: seq<byte>)
    requires |faults| == |e.chunks|
    ensures written == Streamed(e.chunks, faults)
    ensures NoFaults(faults) ==> written == GetContent(e)
  {
    written := [];
    for i := 0 to |e.chunks|
      invariant written == Streamed(e.chunks[..i], faults[..i])
    {
      var count, writes := WriteFromInputToOutput(e.chunks[i].content, faults[i]);
      assert e.chunks[..i + 1][..i] == e.chunks[..i];
      assert faults[..i + 1][..i] == faults[..i];
      written := written + Flatten(writes);
    }
    assert e.chunks[..|e.chunks|] == e.chunks;
    assert faults[..|faults|] == faults;
    if NoFaults(faults) {
      StreamedWithoutFaults(e.chunks, faults);
    }
  }
}
