/**
 * The line-safe escaping used for every record of an exported .pb file.
 *
 * `Escape` is the byte transformation that escapingarraystream::finalize
 * performs (pbeApp/pbstreams.cpp:49-73); `Unescape` is the decoder the
 * Python test suite applies to each line (pbeApp/testconvert.py:31-38).
 * Escaping is proved to be a bijection between arbitrary byte strings and
 * the well-escaped bodies that contain no line break.
 */
module EscapeCodec {
  import opened Wrappers

  const ESC: bv8 := 0x1B
  const LF: bv8 := 0x0A
  const CR: bv8 := 0x0D

  /** The three bytes that cannot appear raw in a line. */
  predicate IsSpecial(c: bv8) {
    c == ESC || c == LF || c == CR
  }

  /** The code byte written after ESC for a special byte. */
  function EscapeCode(c: bv8): (d: bv8)
    requires IsSpecial(c)
    ensures 1 <= d <= 3
  {
    if c == ESC then 1 else if c == LF then 2 else 3
  }

  /** Inverse of EscapeCode; None for a code the decoder does not know. */
  function UnescapeCode(d: bv8): (r: Option<bv8>)
    ensures r.Some? <==> 1 <= d <= 3
    ensures r.Some? ==> IsSpecial(r.value) && EscapeCode(r.value) == d
  {
    if d == 1 then Some(ESC) else if d == 2 then Some(LF) else if d == 3 then Some(CR) else None
  }

  /** The output for one input byte: two bytes for a special byte, the byte itself otherwise. */
  function EscapeByte(c: bv8): (r: seq<bv8>)
    ensures |r| == 2 <==> IsSpecial(c)
    ensures 1 <= |r| <= 2 && r[0] != LF && r[0] != CR && r[|r| - 1] != LF && r[|r| - 1] != CR
  {
    if IsSpecial(c) then [ESC, EscapeCode(c)] else [c]
  }

  /** The escaped form of a whole payload, byte by byte, in order. */
  function Escape(s: seq<bv8>): (r: seq<bv8>)
    ensures |s| <= |r| <= 2 * |s|
  {
    if s == [] then [] else EscapeByte(s[0]) + Escape(s[1..])
  }

  /** How many bytes of `s` need an escape. */
  function CountSpecial(s: seq<bv8>): nat
  {
    if s == [] then 0 else (if IsSpecial(s[0]) then 1 else 0) + CountSpecial(s[1..])
  }

  /** One record line: the escaped payload and its terminator. */
  function EncodeLine(s: seq<bv8>): seq<bv8>
  {
    Escape(s) + [LF]
  }

  /** The escaped output grows by exactly one byte per special input byte. */
  lemma {:induction false} EscapeLength(s: seq<bv8>)
    ensures |Escape(s)| == |s| + CountSpecial(s)
  {
    if s != [] {
      EscapeLength(s[1..]);
    }
  }

  /** Escaping works byte by byte, so it distributes over concatenation. */
  lemma {:induction false} EscapeAppend(a: seq<bv8>, b: seq<bv8>)
    ensures Escape(a + b) == Escape(a) + Escape(b)
  {
    if a != [] {
      assert (a + b)[1..] == a[1..] + b;
      EscapeAppend(a[1..], b);
    } else {
      assert a + b == b;
    }
  }

  /** Counting distributes over concatenation too. */
  lemma {:induction false} CountSpecialAppend(a: seq<bv8>, b: seq<bv8>)
    ensures CountSpecial(a + b) == CountSpecial(a) + CountSpecial(b)
  {
    if a != [] {
      assert (a + b)[1..] == a[1..] + b;
      CountSpecialAppend(a[1..], b);
    } else {
      assert a + b == b;
    }
  }

  /** Escaping one more byte appends that byte's escape. */
  lemma EscapeSnoc(s: seq<bv8>, c: bv8)
    ensures Escape(s + [c]) == Escape(s) + EscapeByte(c)
  {
    EscapeAppend(s, [c]);
    assert Escape([c]) == EscapeByte(c) + Escape([]);
  }

  /** Escaping a prefix never yields more than escaping the whole. */
  lemma EscapePrefixLength(s: seq<bv8>, k: nat)
    requires k <= |s|
    ensures |Escape(s[..k])| <= |Escape(s)|
  {
    assert s == s[..k] + s[k..];
    EscapeAppend(s[..k], s[k..]);
  }

  /** A well-escaped line body: no raw LF or CR, and every ESC opens one of the three codes. */
  predicate WellEscaped(e: seq<bv8>) {
    && (forall i :: 0 <= i < |e| ==> e[i] != LF && e[i] != CR)
    && (forall i :: 0 <= i < |e| && e[i] == ESC ==> i + 1 < |e| && 1 <= e[i + 1] <= 3)
  }

  /** The escaped body of any payload is well escaped: its only possible LF is the terminator. */
  lemma {:induction false} EscapeWellEscaped(s: seq<bv8>)
    ensures WellEscaped(Escape(s))
  {
    if s != [] {
      EscapeWellEscaped(s[1..]);
      var h, t := EscapeByte(s[0]), Escape(s[1..]);
      assert Escape(s) == h + t;
      forall i | 0 <= i < |h + t| && (h + t)[i] == ESC
        ensures i + 1 < |h + t| && 1 <= (h + t)[i + 1] <= 3
      {
        if i >= |h| {
          assert (h + t)[i] == t[i - |h|];
        }
      }
    }
  }

  /** A record line has exactly one LF, its last byte. */
  lemma EncodeLineSingleTerminator(s: seq<bv8>)
    ensures var line := EncodeLine(s);
      line[|line| - 1] == LF && forall i :: 0 <= i < |line| - 1 ==> line[i] != LF && line[i] != CR
  {
    EscapeWellEscaped(s);
  }

  /**
   * The decoder of pbeApp/testconvert.py:31-38: the regular expression
   * `\x1b(.)` is replaced left to right through the table 1 -> ESC,
   * 2 -> LF, 3 -> CR. A code outside the table raises KeyError there and is
   * None here (a corrupt record). As `.` does not match a newline, an ESC
   * before an LF, or an ESC ending the input, is left as it is.
   */
  function Unescape(e: seq<bv8>): (r: Option<seq<bv8>>)
    ensures r.Some? ==> |r.value| <= |e|
    ensures ESC !in e ==> r == Some(e)
  {
    if e == [] then Some([])
    else if e[0] == ESC && |e| >= 2 && e[1] != LF then
      match UnescapeCode(e[1])
      case None => None
      case Some(c) =>
        match Unescape(e[2..])
        case None => None
        case Some(rest) => Some([c] + rest)
    else
      assert e == [e[0]] + e[1..];
      match Unescape(e[1..])
      case None => None
      case Some(rest) => Some([e[0]] + rest)
  }

  /** Round trip: unescaping the escaped form gives back the payload. */
  lemma {:induction false} UnescapeEscape(s: seq<bv8>)
    ensures Unescape(Escape(s)) == Some(s)
  {
    if s != [] {
      var h, t := EscapeByte(s[0]), Escape(s[1..]);
      assert Escape(s) == h + t;
      UnescapeEscape(s[1..]);
      if IsSpecial(s[0]) {
        assert (h + t)[2..] == t;
      } else {
        assert (h + t)[1..] == t;
      }
      assert s == [s[0]] + s[1..];
    }
  }

  /** Escaping is injective, so distinct payloads give distinct lines. */
  lemma EscapeInjective(a: seq<bv8>, b: seq<bv8>)
    requires Escape(a) == Escape(b)
    ensures a == b
  {
    UnescapeEscape(a);
    UnescapeEscape(b);
  }

  /** Converse of the round trip: every well-escaped body is the escape of what it decodes to. */
  lemma {:induction false} UnescapeWellEscaped(e: seq<bv8>)
    requires WellEscaped(e)
    ensures Unescape(e).Some? && Escape(Unescape(e).value) == e
    decreases |e|
  {
    if e != [] {
      if e[0] == ESC {
        assert WellEscaped(e[2..]) by {
          forall i | 0 <= i < |e[2..]| && e[2..][i] == ESC
            ensures i + 1 < |e[2..]| && 1 <= e[2..][i + 1] <= 3
          {
            assert e[i + 2] == ESC;
          }
        }
        UnescapeWellEscaped(e[2..]);
        var c := UnescapeCode(e[1]).value;
        var rest := Unescape(e[2..]).value;
        assert Escape([c] + rest) == EscapeByte(c) + Escape(rest) by {
          assert ([c] + rest)[1..] == rest;
        }
        assert e == [e[0], e[1]] + e[2..];
      } else {
        assert WellEscaped(e[1..]) by {
          forall i | 0 <= i < |e[1..]| && e[1..][i] == ESC
            ensures i + 1 < |e[1..]| && 1 <= e[1..][i + 1] <= 3
          {
            assert e[i + 1] == ESC;
          }
        }
        UnescapeWellEscaped(e[1..]);
        var rest := Unescape(e[1..]).value;
        assert Escape([e[0]] + rest) == EscapeByte(e[0]) + Escape(rest) by {
          assert ([e[0]] + rest)[1..] == rest;
        }
        assert e == [e[0]] + e[1..];
      }
    }
  }

  /** An ESC followed by a code outside 1..3 (and not by LF) is a corrupt record. */
  lemma UnescapeRejectsUnknownCode(d: bv8, rest: seq<bv8>)
    requires d != LF && !(1 <= d <= 3)
    ensures Unescape([ESC, d] + rest) == None
  {
  }

  /** Decodes one line as read by readlines(): the trailing LF, when present, is the terminator. */
  function DecodeLine(line: seq<bv8>): Option<seq<bv8>>
  {
    if line != [] && line[|line| - 1] == LF then Unescape(line[..|line| - 1]) else Unescape(line)
  }

  /** Line round trip with the corrected decoder. */
  lemma DecodeEncodeLine(s: seq<bv8>)
    ensures DecodeLine(EncodeLine(s)) == Some(s)
  {
    assert EncodeLine(s)[..|EncodeLine(s)| - 1] == Escape(s);
    UnescapeEscape(s);
  }

  /** The bytes Python 2's str.strip() removes: space, TAB, LF, VT, FF and CR. */
  predicate IsPySpace(c: bv8) {
    c == 0x20 || (0x09 <= c <= 0x0D)
  }

  /** str.lstrip(): the longest suffix that does not start with whitespace. */
  function LStrip(s: seq<bv8>): (r: seq<bv8>)
    ensures |r| <= |s| && r == s[|s| - |r|..]
    ensures forall i :: 0 <= i < |s| - |r| ==> IsPySpace(s[i])
    ensures r == [] || !IsPySpace(r[0])
  {
    if s != [] && IsPySpace(s[0]) then LStrip(s[1..]) else s
  }

  /** str.rstrip(): the longest prefix that does not end with whitespace. */
  function RStrip(s: seq<bv8>): (r: seq<bv8>)
    ensures |r| <= |s| && r == s[..|r|]
    ensures forall i :: |r| <= i < |s| ==> IsPySpace(s[i])
    ensures r == [] || !IsPySpace(r[|r| - 1])
  {
    if s != [] && IsPySpace(s[|s| - 1]) then RStrip(s[..|s| - 1]) else s
  }

  /** The line decoder as pbeApp/testconvert.py:39-40 writes it: strip, then unescape. */
  function DecodeLineStripped(line: seq<bv8>): (r: Option<seq<bv8>>)
    ensures r.Some? ==> |r.value| <= |line|
    ensures line != [] && !IsPySpace(line[0]) && !IsPySpace(line[|line| - 1]) ==> r == Unescape(line)
  {
    Unescape(RStrip(LStrip(line)))
  }

  /** strip() also eats payload bytes: a payload consisting of one space byte decodes to nothing. */
  lemma StripLosesPayloadSpace()
    ensures EncodeLine([0x20]) == [0x20, LF]
    ensures DecodeLineStripped(EncodeLine([0x20])) == Some([])
    ensures DecodeLineStripped(EncodeLine([0x20])) != Some([0x20])
  {
    assert Escape([0x20]) == [0x20];
    var line := EncodeLine([0x20]);
    assert IsPySpace(line[0]) && IsPySpace(line[1]);
    assert LStrip(line) == [];
  }

  /** "hello" and "world" as bytes, for the literal case of pbeApp/testPB.cpp:15. */
  const Hello: seq<bv8> := [0x68, 0x65, 0x6C, 0x6C, 0x6F]
  const World: seq<bv8> := [0x77, 0x6F, 0x72, 0x6C, 0x64]

  /** The literal case: "hello\nworld" becomes "hello" ESC 02 "world" LF. */
  lemma EscapeHelloWorld()
    ensures EncodeLine(Hello + [LF] + World) == Hello + [ESC, 0x02] + World + [LF]
  {
    EscapeAroundLF(Hello, World);
  }

  /** Two plain payloads around one LF: only the LF changes, into ESC 0x02. */
  lemma EscapeAroundLF(a: seq<bv8>, b: seq<bv8>)
    requires forall i :: 0 <= i < |a| ==> !IsSpecial(a[i])
    requires forall i :: 0 <= i < |b| ==> !IsSpecial(b[i])
    ensures EncodeLine(a + [LF] + b) == a + [ESC, 0x02] + b + [LF]
  {
    EscapeAppend(a + [LF], b);
    EscapeAppend(a, [LF]);
    NoSpecialEscape(a);
    NoSpecialEscape(b);
    assert Escape([LF]) == [ESC, 0x02] + Escape([]);
  }

  /** The expectation at pbeApp/testPB.cpp:16 ("hello" ESC 01 "world" LF) is not what finalize produces. */
  lemma TestExpectationDiffers()
    ensures EncodeLine(Hello + [LF] + World) != Hello + [ESC, 0x01] + World + [LF]
  {
    EscapeHelloWorld();
    assert (Hello + [ESC, 0x02] + World + [LF])[6] == 0x02;
    assert (Hello + [ESC, 0x01] + World + [LF])[6] == 0x01;
  }

  /** A payload without special bytes is its own escape. */
  lemma {:induction false} NoSpecialEscape(s: seq<bv8>)
    requires forall i :: 0 <= i < |s| ==> !IsSpecial(s[i])
    ensures Escape(s) == s
  {
    if s != [] {
      NoSpecialEscape(s[1..]);
    }
  }
}
