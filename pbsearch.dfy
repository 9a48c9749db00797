/**
 * pbeApp/pbsearch.h: the compile-time table from (DBR_TIME_* kind, isarray)
 * to the protobuf message class and PayloadType code, and the scan of an
 * existing output file for its last sample.
 *
 * A file is its bytes; a file that cannot be opened reads as empty. The
 * unescaping of a line followed by protobuf's ParseFromString is an
 * external decoder, passed in as a function.
 */
module PbSearch {
  import opened Wrappers
  import opened SeqSearch
  import opened EscapeCodec

  /** The seven DBR_TIME_* request types the exporter handles. */
  datatype DbrKind = TimeString | TimeChar | TimeShort | TimeEnum | TimeLong | TimeFloat | TimeDouble

  /** The protobuf message classes of the EPICS event schema. */
  datatype PbClass =
    | ScalarString | ScalarByte | ScalarShort | ScalarEnum | ScalarInt | ScalarFloat | ScalarDouble
    | VectorString | VectorChar | VectorShort | VectorEnum | VectorInt | VectorFloat | VectorDouble

  /** The message classes whose value is a number (or numbers). */
  predicate IsNumericClass(c: PbClass) {
    c in {ScalarShort, ScalarInt, ScalarFloat, ScalarDouble, VectorShort, VectorInt, VectorFloat, VectorDouble}
  }

  /** The waveform (array) message classes. */
  predicate IsVectorClass(c: PbClass) {
    c in {VectorString, VectorChar, VectorShort, VectorEnum, VectorInt, VectorFloat, VectorDouble}
  }

  /** One specialisation of dbrstruct<dbr, isarray>: its pbtype and pbcode. */
  datatype DbrEntry = DbrEntry(pbtype: PbClass, pbcode: int)

  /**
   * The 14 ENTRY lines of pbeApp/pbsearch.h:25-38. The PayloadType codes
   * are those of the schema: string 0, short 1, float 2, enum 3, byte 4,
   * int 5, double 6, and the waveform of each kind 7 more.
   */
  function DbrStruct(kind: DbrKind, isarray: bool): (e: DbrEntry)
    ensures 0 <= e.pbcode < 14
    ensures isarray <==> e.pbcode >= 7
    ensures isarray <==> IsVectorClass(e.pbtype)
  {
    match (kind, isarray)
    case (TimeString, false) => DbrEntry(ScalarString, 0)
    case (TimeChar, false) => DbrEntry(ScalarByte, 4)
    case (TimeShort, false) => DbrEntry(ScalarShort, 1)
    case (TimeEnum, false) => DbrEntry(ScalarEnum, 3)
    case (TimeLong, false) => DbrEntry(ScalarInt, 5)
    case (TimeFloat, false) => DbrEntry(ScalarFloat, 2)
    case (TimeDouble, false) => DbrEntry(ScalarDouble, 6)
    case (TimeString, true) => DbrEntry(VectorString, 7)
    case (TimeChar, true) => DbrEntry(VectorChar, 11)
    case (TimeShort, true) => DbrEntry(VectorShort, 8)
    case (TimeEnum, true) => DbrEntry(VectorEnum, 10)
    case (TimeLong, true) => DbrEntry(VectorInt, 12)
    case (TimeFloat, true) => DbrEntry(VectorFloat, 9)
    case (TimeDouble, true) => DbrEntry(VectorDouble, 13)
  }

  /** The table read backwards: which (kind, isarray) a PayloadType code belongs to. */
  function EntryForCode(code: int): (r: Option<(DbrKind, bool)>)
    ensures r.Some? <==> 0 <= code < 14
    ensures r.Some? ==> DbrStruct(r.value.0, r.value.1).pbcode == code
  {
    match code
    case 0 => Some((TimeString, false))
    case 1 => Some((TimeShort, false))
    case 2 => Some((TimeFloat, false))
    case 3 => Some((TimeEnum, false))
    case 4 => Some((TimeChar, false))
    case 5 => Some((TimeLong, false))
    case 6 => Some((TimeDouble, false))
    case 7 => Some((TimeString, true))
    case 8 => Some((TimeShort, true))
    case 9 => Some((TimeFloat, true))
    case 10 => Some((TimeEnum, true))
    case 11 => Some((TimeChar, true))
    case 12 => Some((TimeLong, true))
    case 13 => Some((TimeDouble, true))
    case _ => None
  }

  /**
   * The table has exactly 14 entries: every (kind, isarray) pair has its own
   * code, and every code in 0..13 belongs to one pair.
   */
  lemma DbrStructBijective(kind: DbrKind, isarray: bool)
    ensures EntryForCode(DbrStruct(kind, isarray).pbcode) == Some((kind, isarray))
  {
  }

  lemma DbrStructInjective(k1: DbrKind, a1: bool, k2: DbrKind, a2: bool)
    requires DbrStruct(k1, a1).pbcode == DbrStruct(k2, a2).pbcode
    ensures k1 == k2 && a1 == a2
  {
    DbrStructBijective(k1, a1);
    DbrStructBijective(k2, a2);
  }

  /** The byte kind is special-cased: ScalarByte as a scalar, VectorChar as a waveform, never a numeric class. */
  lemma CharKindIsNotNumeric()
    ensures DbrStruct(TimeChar, false).pbtype == ScalarByte
    ensures DbrStruct(TimeChar, true).pbtype == VectorChar
    ensures !IsNumericClass(DbrStruct(TimeChar, false).pbtype) && !IsNumericClass(DbrStruct(TimeChar, true).pbtype)
  {
  }

  /** One call of std::getline followed by good(): the line, the bytes consumed, and whether an LF ended it. */
  datatype LineRead = LineRead(line: seq<bv8>, consumed: nat, good: bool)

  /**
   * std::getline on the unread part `rest` of the stream: reads up to the
   * first LF and consumes it. With no LF left the stream reaches end of
   * file and good() is false, whatever was read.
   */
  function GetLine(rest: seq<bv8>): (r: LineRead)
    ensures r.good ==> r.consumed == |r.line| + 1 <= |rest| && rest[..r.consumed] == r.line + [LF]
    ensures !r.good ==> r.consumed == |rest| && r.line == rest
    ensures LF !in r.line && (!r.good ==> LF !in rest)
  {
    match FindFirstOf(rest, [LF], 0)
    case Some(q) =>
      assert rest[..q + 1] == rest[..q] + [LF];
      LineRead(rest[..q], q + 1, true)
    case None => LineRead(rest, |rest|, false)
  }

  /** The lines a `while (getline(...).good())` loop reads from `rest`: the LF-terminated ones, in order. */
  function Lines(rest: seq<bv8>): seq<seq<bv8>>
    decreases |rest|
  {
    var r := GetLine(rest);
    if r.good then [r.line] + Lines(rest[r.consumed..]) else []
  }

  /** The lines written back with their terminators. */
  function Join(lines: seq<seq<bv8>>): seq<bv8>
  {
    if lines == [] then [] else lines[0] + [LF] + Join(lines[1..])
  }

  /** Every file is its terminated lines followed by an unterminated remainder. */
  lemma {:induction false} LinesDecompose(file: seq<bv8>)
    ensures |Join(Lines(file))| <= |file| && file[..|Join(Lines(file))|] == Join(Lines(file))
    ensures LF !in file[|Join(Lines(file))|..]
    ensures forall l :: l in Lines(file) ==> LF !in l
    decreases |file|
  {
    var r := GetLine(file);
    if r.good {
      var rest := file[r.consumed..];
      LinesDecompose(rest);
      var ls := Lines(file);
      assert ls == [r.line] + Lines(rest);
      assert ls[1..] == Lines(rest);
      assert Join(ls) == r.line + [LF] + Join(Lines(rest));
      assert file == file[..r.consumed] + rest;
      assert file[|Join(ls)|..] == rest[|Join(Lines(rest))|..];
    }
  }

  /** ...and that decomposition is the only one: terminated LF-free lines read back as themselves. */
  lemma {:induction false} LinesOfJoin(lines: seq<seq<bv8>>, tail: seq<bv8>)
    requires forall l :: l in lines ==> LF !in l
    requires LF !in tail
    ensures Lines(Join(lines) + tail) == lines
  {
    var file := Join(lines) + tail;
    if lines == [] {
      assert file == tail;
    } else {
      var rest := Join(lines[1..]) + tail;
      assert file == lines[0] + [LF] + rest;
      assert file[|lines[0]|] == LF;
      var r := GetLine(file);
      assert r.good;
      assert r.line == lines[0] by {
        assert lines[0] in lines;
        assert file[..r.consumed] == r.line + [LF];
        assert file[..|r.line|] == r.line && file[|r.line|] == LF;
        assert file[..|lines[0]|] == lines[0];
      }
      assert file[r.consumed..] == rest;
      LinesOfJoin(lines[1..], tail);
    }
  }

  /** The outcome of protobuf's ParseFromString: success, and the message as left behind (filled in or not). */
  datatype Parsed<T> = Parsed(ok: bool, message: T)

  /** What sample holds after the loop: the message of the last line parsed, or the default one. */
  function LastParsed<T>(lines: seq<seq<bv8>>, parse: seq<bv8> -> Parsed<T>, blank: T): T
  {
    if lines == [] then blank else parse(lines[|lines| - 1]).message
  }

  /** Whether any line fails to parse: then exactly one warning is logged. */
  predicate AnyParseFails<T>(lines: seq<seq<bv8>>, parse: seq<bv8> -> Parsed<T>)
  {
    exists i :: 0 <= i < |lines| && !parse(lines[i]).ok
  }

  /** One more line fails to parse exactly when it or an earlier one does. */
  lemma AnyParseFailsSnoc<T>(lines: seq<seq<bv8>>, line: seq<bv8>, parse: seq<bv8> -> Parsed<T>)
    ensures AnyParseFails(lines + [line], parse) <==> AnyParseFails(lines, parse) || !parse(line).ok
  {
    var all := lines + [line];
    if !parse(line).ok {
      assert all[|lines|] == line;
    }
    if AnyParseFails(lines, parse) {
      var i :| 0 <= i < |lines| && !parse(lines[i]).ok;
      assert all[i] == lines[i];
    }
    if AnyParseFails(all, parse) {
      var i :| 0 <= i < |all| && !parse(all[i]).ok;
      if i < |lines| {
        assert all[i] == lines[i];
      }
    }
  }

  /** The two exceptions getLastSample throws. */
  datatype SearchError =
    | CannotDecodeHeader                                  // std::runtime_error, pbeApp/pbsearch.h:55-59
    | IncompatibleDataType(found: int, expected: int)     // std::invalid_argument, pbeApp/pbsearch.h:67-75

  /**
   * The result of searcher<dbr, array>::getLastSample on a file: the header
   * line must be readable and carry the table's code; the returned sample is
   * then the last data line's parse.
   */
  function LastSample<T>(kind: DbrKind, isarray: bool, file: seq<bv8>,
                         headerType: seq<bv8> -> int, parse: seq<bv8> -> Parsed<T>, blank: T): (r: Result<T, SearchError>)
    ensures r == Failure(CannotDecodeHeader) <==> LF !in file
    ensures r.Failure? && r.error.IncompatibleDataType? ==> r.error.found != r.error.expected == DbrStruct(kind, isarray).pbcode
  {
    var g := GetLine(file);
    assert g.good ==> file[..g.consumed][|g.line|] == LF;
    var lines := Lines(file);
    if lines == [] then Failure(CannotDecodeHeader)
    else if headerType(lines[0]) != DbrStruct(kind, isarray).pbcode then
      Failure(IncompatibleDataType(headerType(lines[0]), DbrStruct(kind, isarray).pbcode))
    else Success(LastParsed(lines[1..], parse, blank))
  }

  /**
   * getLastSample (pbeApp/pbsearch.h:43-127). `headerType` is the type code
   * the header line decodes to, `parse` the decoding of one data line, and
   * `blank` a default-constructed message. Besides the result it returns the
   * data lines handed to the parser, in order, and the warning counter.
   */
  method GetLastSample<T>(kind: DbrKind, isarray: bool, file: seq<bv8>,
                          headerType: seq<bv8> -> int, parse: seq<bv8> -> Parsed<T>, blank: T)
    returns (r: Result<T, SearchError>, scanned: seq<seq<bv8>>, logged: nat)
    ensures r == LastSample(kind, isarray, file, headerType, parse, blank)
    ensures scanned == if r.Success? then Lines(file)[1..] else []
    ensures logged == if r.Success? && AnyParseFails(scanned, parse) then 1 else 0
  {
    var header := GetLine(file);
    if !header.good {
      return Failure(CannotDecodeHeader), [], 0;
    }
    var at := header.consumed;
    assert Lines(file) == [header.line] + Lines(file[at..]);
    var code := headerType(header.line);
    if code != DbrStruct(kind, isarray).pbcode {
      return Failure(IncompatibleDataType(code, DbrStruct(kind, isarray).pbcode)), [], 0;
    }
    var sample;
    sample, scanned, logged := ScanDataLines(file[at..], parse, blank);
    r := Success(sample);
  }

  /**
   * The data-line loop of getLastSample (pbeApp/pbsearch.h:113-124): every
   * further line is parsed into the same message, and the first failure
   * logs the one warning.
   */
  method ScanDataLines<T>(rest: seq<bv8>, parse: seq<bv8> -> Parsed<T>, blank: T)
    returns (sample: T, scanned: seq<seq<bv8>>, logged: nat)
    ensures scanned == Lines(rest)
    ensures sample == LastParsed(scanned, parse, blank)
    ensures logged == if AnyParseFails(scanned, parse) then 1 else 0
  {
    var unread := rest;
    sample := blank;
    scanned, logged := [], 0;
    while true
      invariant scanned + Lines(unread) == Lines(rest)
      invariant sample == LastParsed(scanned, parse, blank)
      invariant logged == if AnyParseFails(scanned, parse) then 1 else 0
      decreases |unread|
    {
      var line := GetLine(unread);
      if !line.good {
        break;
      }
      ghost var after := Lines(unread[line.consumed..]);
      assert scanned + Lines(unread) == scanned + [line.line] + after;
      unread := unread[line.consumed..];
      var parsed := parse(line.line);
      AnyParseFailsSnoc(scanned, line.line, parse);
      sample := parsed.message;
      if !parsed.ok && logged == 0 {
        logged := logged + 1;
      }
      scanned := scanned + [line.line];
    }
    assert scanned + [] == scanned;
  }

  /**
   * A file written as header, records and a partial last line: the type
   * check looks at the header only, and the result is the parse of the last
   * complete record; the partial line is never read.
   */
  lemma LastSampleOfRecords<T>(kind: DbrKind, isarray: bool, header: seq<bv8>, records: seq<seq<bv8>>, tail: seq<bv8>,
                               headerType: seq<bv8> -> int, parse: seq<bv8> -> Parsed<T>, blank: T)
    requires LF !in header && LF !in tail
    requires forall l :: l in records ==> LF !in l
    ensures var file := header + [LF] + Join(records) + tail;
      LastSample(kind, isarray, file, headerType, parse, blank)
        == if headerType(header) != DbrStruct(kind, isarray).pbcode
           then Failure(IncompatibleDataType(headerType(header), DbrStruct(kind, isarray).pbcode))
           else if records == [] then Success(blank)
           else Success(parse(records[|records| - 1]).message)
  {
    var lines := [header] + records;
    assert lines[1..] == records;
    assert Join(lines) == header + [LF] + Join(records);
    assert header + [LF] + Join(records) + tail == Join(lines) + tail;
    LinesOfJoin(lines, tail);
  }

  /** Appending bytes without an LF to a file that ends its last line changes nothing. */
  lemma LastSampleIgnoresUnterminatedTail<T>(kind: DbrKind, isarray: bool, file: seq<bv8>, tail: seq<bv8>,
                                             headerType: seq<bv8> -> int, parse: seq<bv8> -> Parsed<T>, blank: T)
    requires file == [] || file[|file| - 1] == LF
    requires LF !in tail
    ensures LastSample(kind, isarray, file + tail, headerType, parse, blank)
         == LastSample(kind, isarray, file, headerType, parse, blank)
  {
    LinesDecompose(file);
    var lines := Lines(file);
    var n := |Join(lines)|;
    if n < |file| {
      assert file[|file| - 1] == file[n..][|file| - 1 - n];
    }
    assert file == Join(lines);
    LinesOfJoin(lines, tail);
    LinesOfJoin(lines, []);
    assert file + [] == file;
  }
}
