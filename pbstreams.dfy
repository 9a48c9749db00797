/**
 * escapingarraystream: the zero-copy output stream that protobuf serializes
 * one record into, and that turns the written bytes into one escaped,
 * newline-terminated line (pbeApp/pbstreams.h, pbeApp/pbstreams.cpp).
 *
 * The std::vector<char> buffers are sequences of bytes that the methods
 * reassign; resizing a vector appends zero bytes.
 */
module PbStreams {
  import opened EscapeCodec

  /** `n` zero bytes: what std::vector<char>::resize appends. */
  function Zeros(n: nat): seq<bv8>
  {
    seq(n, _ => 0)
  }

  /**
   * plan_size (pbeApp/pbstreams.cpp:33-45): the size of the escaped form of
   * b[0..l), counted by a loop that adds one for each LF, CR and ESC.
   */
  method PlanSize(b: seq<bv8>, l: nat) returns (outlen: nat)
    requires l <= |b|
    ensures outlen == l + CountSpecial(b[..l])
    ensures outlen == |Escape(b[..l])|
  {
    outlen := l;
    var k := 0;
    while k < l
      invariant 0 <= k <= l
      invariant outlen == l + CountSpecial(b[..k])
    {
      CountSpecialAppend(b[..k], [b[k]]);
      assert b[..k + 1] == b[..k] + [b[k]];
      if b[k] == LF || b[k] == CR || b[k] == ESC {
        outlen := outlen + 1;
      }
      k := k + 1;
    }
    assert b[..k] == b[..l];
    EscapeLength(b[..l]);
  }

  class EscapingArrayStream {
    /** Bytes handed out to the serializer; [0, pos) hold the record written so far. */
    var inbuf: seq<bv8>
    /** The finished line produced by Finalize. */
    var outbuf: seq<bv8>
    /** The write position, the ByteCount of the stream. */
    var pos: nat

    /** The class invariant: the write position never runs past the buffer. */
    ghost predicate Valid()
      reads this
    {
      pos <= |inbuf|
    }

    /** The state after construction, the same as after Reset. */
    ghost predicate Empty()
      reads this
    {
      inbuf == [] && outbuf == [] && pos == 0
    }

    /** escapingarraystream() (pbeApp/pbstreams.cpp:4-8): both buffers empty, nothing written. */
    constructor ()
      ensures Valid() && Empty()
    {
      inbuf := [];
      outbuf := [];
      pos := 0;
    }

    /** reset() (pbeApp/pbstreams.h:21-26): back to the state of a fresh stream. */
    method Reset()
      modifies this
      ensures Valid() && Empty()
    {
      inbuf := [];
      outbuf := [];
      pos := 0;
    }

    /**
     * Next (pbeApp/pbstreams.cpp:10-20): hands out the whole rest of the
     * buffer, from the old position on, as the region `data`..`data + size`.
     * The buffer first grows by 64 zero bytes when fewer than 32 remain, so
     * the region is never shorter than 32 bytes.
     */
    method Next() returns (ok: bool, data: nat, size: nat)
      requires Valid()
      modifies this`inbuf, this`pos
      ensures Valid()
      ensures ok && data == old(pos) && size >= 32
      ensures pos == |inbuf| && size == |inbuf| - old(pos)
      ensures inbuf == if old(pos >= |inbuf| || |inbuf| - pos < 32) then old(inbuf) + Zeros(64) else old(inbuf)
      ensures inbuf[..old(pos)] == old(inbuf[..pos])
    {
      if pos >= |inbuf| || |inbuf| - pos < 32 {
        inbuf := inbuf + Zeros(64);
      }
      var more := |inbuf| - pos;
      data := pos;
      size := more;
      pos := pos + more;
      ok := true;
    }

    /** BackUp (pbeApp/pbstreams.cpp:22-25): gives the last `count` bytes back. */
    method BackUp(count: int)
      requires Valid() && 0 <= count <= pos
      modifies this`pos
      ensures Valid()
      ensures pos == old(pos) - count
    {
      pos := pos - count;
    }

    /** ByteCount (pbeApp/pbstreams.cpp:27-31): the number of bytes written, never more than the buffer holds. */
    function ByteCount(): (n: int)
      requires Valid()
      reads this
      ensures n == pos && 0 <= n <= |inbuf|
    {
      pos
    }

    /**
     * finalize (pbeApp/pbstreams.cpp:47-76): the written bytes inbuf[0, pos)
     * are escaped into an output buffer sized by plan_size, with one read
     * index and one write index, then one LF is appended. The previous line
     * is discarded and the stream is emptied for the next record.
     */
    method Finalize()
      requires Valid()
      modifies this
      ensures Valid()
      ensures outbuf == EncodeLine(old(inbuf[..pos]))
      ensures |outbuf| == old(pos) + CountSpecial(old(inbuf[..pos])) + 1
      ensures inbuf == [] && pos == 0
    {
      inbuf := inbuf[..pos];
      var planned := PlanSize(inbuf, |inbuf|);
      assert inbuf[..|inbuf|] == inbuf;
      var escaped := EscapeInto(inbuf, planned);
      EscapeLength(inbuf);
      outbuf := escaped + [LF];
      inbuf := [];
      pos := 0;
    }
  }

  /**
   * The copy loop of finalize (pbeApp/pbstreams.cpp:52-72): an output buffer
   * of the planned size is filled with a read index `i` and a write index
   * `o`; each input byte is written out by PutEscaped.
   */
  method EscapeInto(src: seq<bv8>, planned: nat) returns (escaped: seq<bv8>)
    requires planned == |Escape(src)|
    ensures escaped == Escape(src)
  {
    var out := new bv8[planned];
    var i, o := 0, 0;
    while i < |src|
      invariant 0 <= i <= |src|
      invariant o == |Escape(src[..i])| <= out.Length
      invariant out[..o] == Escape(src[..i])
    {
      EscapeSnoc(src[..i], src[i]);
      assert src[..i + 1] == src[..i] + [src[i]];
      EscapePrefixLength(src, i + 1);
      o := PutEscaped(out, o, src[i]);
      i := i + 1;
    }
    assert src[..i] == src;
    assert out[..] == out[..o];
    escaped := out[..];
  }

  /**
   * One step of the copy loop (pbeApp/pbstreams.cpp:55-71): a special byte
   * is written as ESC followed by its code, any other byte as itself; the
   * result is the advanced write index.
   */
  method PutEscaped(out: array<bv8>, o: nat, c: bv8) returns (next: nat)
    requires o + |EscapeByte(c)| <= out.Length
    modifies out
    ensures next == o + |EscapeByte(c)|
    ensures out[..next] == old(out[..o]) + EscapeByte(c)
  {
    if c == LF || c == CR || c == ESC {
      out[o] := ESC;
      if c == ESC {
        out[o + 1] := 1;
      } else if c == LF {
        out[o + 1] := 2;
      } else {
        out[o + 1] := 3;
      }
      next := o + 2;
    } else {
      out[o] := c;
      next := o + 1;
    }
  }

  /**
   * What protobuf's CodedOutputStream does with the stream while one message
   * is serialized (pbeApp/testPB.cpp:65-81): ask for regions with Next, copy
   * the payload into them, and give the unused tail back with BackUp.
   */
  method WriteRecord(s: EscapingArrayStream, payload: seq<bv8>)
    requires s.Valid()
    modifies s`inbuf, s`pos
    ensures s.Valid()
    ensures s.outbuf == old(s.outbuf)
    ensures s.pos == old(s.pos) + |payload|
    ensures s.inbuf[..s.pos] == old(s.inbuf[..s.pos]) + payload
  {
    ghost var before := s.inbuf[..s.pos];
    var rest := payload;
    while rest != []
      invariant s.Valid()
      invariant |payload| - |rest| >= 0 && rest == payload[|payload| - |rest|..]
      invariant s.pos == |before| + |payload| - |rest|
      invariant s.inbuf[..s.pos] == before + payload[..|payload| - |rest|]
      decreases |rest|
    {
      ghost var written := s.inbuf[..s.pos];
      var ok, data, size := s.Next();
      assert s.inbuf[..data] == written;
      var n := if size < |rest| then size else |rest|;
      s.inbuf := s.inbuf[..data] + rest[..n] + s.inbuf[data + n..];
      assert s.inbuf[..data + n] == written + rest[..n];
      if n < size {
        s.BackUp(size - n);
      }
      assert payload[..|payload| - |rest| + n] == payload[..|payload| - |rest|] + rest[..n];
      rest := rest[n..];
    }
    assert payload[..|payload|] == payload;
  }

  /**
   * The scenario of pbeApp/testPB.cpp:65-96: one stream serializes the same
   * message twice, finalizing after each. The second line equals the first,
   * because finalize empties the stream instead of accumulating.
   */
  method EncodeTwice(payload: seq<bv8>) returns (first: seq<bv8>, second: seq<bv8>)
    ensures first == second == EncodeLine(payload)
    ensures |first| == |payload| + CountSpecial(payload) + 1
  {
    var s := new EscapingArrayStream();
    WriteRecord(s, payload);
    assert s.inbuf[..s.pos] == payload;
    s.Finalize();
    first := s.outbuf;
    WriteRecord(s, payload);
    assert s.inbuf[..s.pos] == payload;
    s.Finalize();
    second := s.outbuf;
  }
}
