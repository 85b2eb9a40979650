// The host tools' Intel HEX (Intel Hexadecimal Object File Format) reader
// and writer, limited to data and end-of-file records: the reader fills a
// flash image that starts erased (all 0xFF), the writer emits one data
// record per chunk and skips erased chunks.
module IntelHex {
  import opened Bytes

  const MemSize: nat := 0x8000
  const DefaultLineSize: nat := 32
  const EofRecord: string := ":00000001FF"

  const DataType: byte := 0
  const EofType: byte := 1

  /** Why a line is refused. Python raises `ValueError` for each. */
  datatype Reason = NoStartCode | BadNumber | ExtraBytes | BadChecksum | UnknownType(recordType: byte)

  datatype HexError = LineError(line: nat, reason: Reason) | NoEndOfFile

  datatype Record = DataRecord(address: nat, data: seq<byte>) | EndOfFile

  // ---------------------------------------------------------------------
  // Text helpers

  /** The characters `str.rstrip()` removes. */
  predicate IsSpace(c: char)
  {
    c == ' ' || '\t' <= c <= '\r'
  }

  function RStrip(s: string): (r: string)
    ensures |r| <= |s| && r == s[..|r|]
  {
    if s != [] && IsSpace(s[|s| - 1]) then RStrip(s[..|s| - 1]) else s
  }

  /** Index of the first newline of `t`, or its length. */
  function LineEnd(t: string): (i: nat)
    ensures i <= |t| && (i < |t| ==> t[i] == '\n')
    ensures forall k :: 0 <= k < i ==> t[k] != '\n'
  {
    if t == [] || t[0] == '\n' then 0 else 1 + LineEnd(t[1..])
  }

  /** `str.splitlines()` for text whose only line break is a newline. */
  function SplitLines(t: string): seq<string>
    decreases |t|
  {
    if t == [] then []
    else
      var i := LineEnd(t);
      if i == |t| then [t] else [t[..i]] + SplitLines(t[i + 1..])
  }

  /** `"\n".join(lines)`. */
  function Join(lines: seq<string>): string
  {
    if lines == [] then []
    else if |lines| == 1 then lines[0]
    else lines[0] + "\n" + Join(lines[1..])
  }

  predicate NoNewline(l: string)
  {
    forall k :: 0 <= k < |l| ==> l[k] != '\n'
  }

  /** Splitting joined lines gives them back, provided none holds a newline
      and the last is not empty. */
  lemma {:induction false} SplitJoin(lines: seq<string>)
    requires lines != [] && lines[|lines| - 1] != [] && NoLineBreaks(lines)
    ensures SplitLines(Join(lines)) == lines
  {
    if |lines| == 1 {
      assert LineEnd(lines[0]) == |lines[0]|;
    } else {
      var tail := lines[1..];
      assert NoLineBreaks(tail) by {
        assert forall i :: 0 <= i < |tail| ==> tail[i] == lines[i + 1];
      }
      SplitJoin(tail);
      JoinEndsWithLast(tail);
      assert NoNewline(lines[0]);
      assert [lines[0]] + tail == lines;
      SplitJoinCons(lines[0], tail);
    }
  }

  /** One more line in front of lines that split back. */
  lemma SplitJoinCons(l0: string, tail: seq<string>)
    requires NoNewline(l0) && tail != [] && Join(tail) != [] && SplitLines(Join(tail)) == tail
    ensures SplitLines(Join([l0] + tail)) == [l0] + tail
  {
    var t := Join([l0] + tail);
    var rest := Join(tail);
    assert ([l0] + tail)[1..] == tail;
    assert t == l0 + "\n" + rest;
    LineEndAt(l0, rest);
    assert t[..|l0|] == l0;
    assert t[|l0| + 1..] == rest;
  }

  /** The first line break after a line without one is the one that
      follows it. */
  lemma {:induction false} LineEndAt(l: string, rest: string)
    requires NoNewline(l)
    ensures LineEnd(l + "\n" + rest) == |l|
  {
    if l != [] {
      assert (l + "\n" + rest)[1..] == l[1..] + "\n" + rest;
      LineEndAt(l[1..], rest);
    }
  }

  lemma {:induction false} JoinEndsWithLast(lines: seq<string>)
    requires lines != []
    ensures |Join(lines)| >= |lines[|lines| - 1]|
  {
    if |lines| > 1 {
      JoinEndsWithLast(lines[1..]);
    }
  }

  /** The joined text ends with the last line. */
  lemma {:induction false} JoinLast(lines: seq<string>)
    requires lines != []
    ensures var j, l := Join(lines), lines[|lines| - 1]; |j| >= |l| && j[|j| - |l|..] == l
  {
    if |lines| > 1 {
      JoinLast(lines[1..]);
      var rest := Join(lines[1..]);
      var l := lines[|lines| - 1];
      assert lines[1..][|lines| - 2] == l;
      var j := lines[0] + "\n" + rest;
      assert j[|j| - |l|..] == rest[|rest| - |l|..];
    }
  }

  // ---------------------------------------------------------------------
  // Reading

  /** `n` bytes written as hex digit pairs from `t[at]` on. */
  function HexBytes(t: string, at: nat, n: nat): (r: Option<seq<byte>>)
    ensures r.Some? ==> |r.value| == n
    decreases n
  {
    if n == 0 then Some([])
    else match HexByteAt(t, at)
      case None => None
      case Some(b) =>
        match HexBytes(t, at + 2, n - 1)
        case None => None
        case Some(rest) => Some([b] + rest)
  }

  /** A data record's checksum makes the sum of all its bytes 0 modulo 256
      (`~c + 1` is `-c`). */
  predicate ChecksumMatches(count: byte, hi: byte, lo: byte, recordType: byte, data: seq<byte>, checksum: byte)
  {
    (count + hi + lo + recordType + Sum(data)) % 0x100 == (0 - checksum) % 0x100
  }

  /** One line of the file. The byte count, address, record type and the
      checksum are hex digit pairs. An end-of-file record is taken without
      looking at the rest of its line. */
  function ParseRecord(line: string): (r: Result<Record, Reason>)
    ensures r.Ok? ==> |line| >= 9 && line[0] == ':' && Writable(r.value)
    ensures |line| == 0 || line[0] != ':' ==> r == Raise(NoStartCode)
  {
    if |line| == 0 || line[0] != ':' then Raise(NoStartCode)
    else match (HexByteAt(line, 1), HexByteAt(line, 3), HexByteAt(line, 5), HexByteAt(line, 7))
      case (Some(count), Some(hi), Some(lo), Some(recordType)) =>
        if recordType == DataType then ParseData(line, count, hi, lo)
        else if recordType == EofType then Ok(EndOfFile)
        else Raise(UnknownType(recordType))
      case _ => Raise(BadNumber)
  }

  /** The rest of a data record after its header: the data, the checksum,
      and nothing after them but white space. */
  function ParseData(line: string, count: byte, hi: byte, lo: byte): Result<Record, Reason>
  {
    match (HexBytes(line, 9, count), HexByteAt(line, 9 + 2 * count))
    case (Some(data), Some(checksum)) =>
      if |RStrip(line)| > 9 + 2 * count + 2 then Raise(ExtraBytes)
      else if !ChecksumMatches(count, hi, lo, DataType, data, checksum) then Raise(BadChecksum)
      else Ok(DataRecord(0x100 * hi + lo, data))
    case _ => Raise(BadNumber)
  }

  /** Applies the lines from number `lineNo` on to the image `buf`: each data
      record replaces its slice (Python slice assignment, which lengthens the
      image when a record runs past its end), the end-of-file record returns
      the image, and running out of lines raises. */
  function ParseLines(lines: seq<string>, buf: seq<byte>, lineNo: nat): (r: Result<seq<byte>, HexError>)
    ensures r.Ok? ==> |r.value| >= |buf|
    ensures r.Raise? && r.error.LineError? ==> lineNo <= r.error.line < lineNo + |lines|
    decreases |lines|
  {
    if lines == [] then Raise(NoEndOfFile)
    else match ParseRecord(lines[0])
      case Raise(r) => Raise(LineError(lineNo, r))
      case Ok(EndOfFile) => Ok(buf)
      case Ok(DataRecord(a, data)) => ParseLines(lines[1..], PySliceAssign(buf, a, a + |data|, data), lineNo + 1)
  }

  function Erased(n: nat): (r: seq<byte>)
    ensures |r| == n && forall k :: 0 <= k < n ==> r[k] == 0xFF
  {
    seq(n, _ => 0xFF)
  }

  /** `parse_hex_file` on values. */
  function ParseHex(text: string, memSize: nat): (r: Result<seq<byte>, HexError>)
    ensures r.Ok? ==> |r.value| >= memSize
    ensures r.Raise? && r.error.LineError? ==> 1 <= r.error.line <= |SplitLines(text)|
  {
    ParseLines(SplitLines(text), Erased(memSize), 1)
  }

  /** `parse_hex_file`: the image starts erased and each line is applied in
      turn. */
  method ParseHexFile(hexData: string, memSize: nat) returns (r: Result<seq<byte>, HexError>)
    ensures r == ParseHex(hexData, memSize)
  {
    var outbuff := Erased(memSize);
    var lines := SplitLines(hexData);
    var lineCount := 0;
    assert lines[0..] == lines;
    while lineCount < |lines|
      invariant 0 <= lineCount <= |lines|
      invariant ParseHex(hexData, memSize) == ParseLines(lines[lineCount..], outbuff, lineCount + 1)
    {
      ghost var rest := lines[lineCount..];
      assert rest[0] == lines[lineCount] && rest[1..] == lines[lineCount + 1..];
      var record := ParseRecord(lines[lineCount]);
      match record {
        case Raise(reason) =>
          return Raise(LineError(lineCount + 1, reason));
        case Ok(EndOfFile) =>
          return Ok(outbuff);
        case Ok(DataRecord(address, data)) =>
          outbuff := PySliceAssign(outbuff, address, address + |data|, data);
      }
      lineCount := lineCount + 1;
    }
    assert lines[lineCount..] == [];
    return Raise(NoEndOfFile);
  }

  /** A record reaching past the end of the image lengthens it instead of
      being refused. */
  lemma RecordPastEndGrowsImage(buf: seq<byte>, address: nat, data: seq<byte>)
    requires address <= |buf| < address + |data|
    ensures var r := PySliceAssign(buf, address, address + |data|, data);
            |r| == address + |data| && r[address..] == data && r[..address] == buf[..address]
  {
  }

  // ---------------------------------------------------------------------
  // Writing

  predicate AllErased(s: seq<byte>)
  {
    forall k :: 0 <= k < |s| ==> s[k] == 0xFF
  }

  /** `all(c == 255 for c in s)`, one byte at a time. */
  predicate IsErased(s: seq<byte>)
  {
    s == [] || (s[0] == 0xFF && IsErased(s[1..]))
  }

  lemma {:induction false} IsErasedAll(s: seq<byte>)
    ensures IsErased(s) <==> AllErased(s)
  {
    if s != [] {
      IsErasedAll(s[1..]);
      assert forall k :: 1 <= k < |s| ==> s[k] == s[1..][k - 1];
    }
  }

  /** `rstrip('\xff')`: the chunk without its trailing erased bytes. */
  function RStripErased(s: seq<byte>): (r: seq<byte>)
    ensures |r| <= |s|
  {
    if s != [] && s[|s| - 1] == 0xFF then RStripErased(s[..|s| - 1]) else s
  }

  /** Stripping keeps a prefix, removes only erased bytes and leaves no
      erased byte at the end. */
  lemma {:induction false} RStripErasedShape(s: seq<byte>)
    ensures var r := RStripErased(s); r == s[..|r|] && AllErased(s[|r|..]) && (r != [] ==> r[|r| - 1] != 0xFF)
  {
    if s != [] && s[|s| - 1] == 0xFF {
      RStripErasedShape(s[..|s| - 1]);
      var r := RStripErased(s);
      assert s[..|s| - 1][..|r|] == s[..|r|];
      assert forall k :: |r| <= k < |s| - 1 ==> s[k] == s[..|s| - 1][k];
    }
  }

  /** The checksum byte of a data record: the two's complement of the low
      byte of the sum of its bytes. */
  function LineChecksum(address: nat, data: seq<byte>): byte
  {
    (0x100 - (|data| + address / 0x100 + address % 0x100 + DataType + Sum(data)) % 0x100) % 0x100
  }

  /** The bytes of a data record: the count, the address high byte first,
      the type, the data and the checksum. */
  function RecordBytes(address: u16, data: seq<byte>): (bs: seq<byte>)
    requires |data| < 0x100
    ensures |bs| == |data| + 5
  {
    [|data|, address / 0x100, address % 0x100, DataType] + data + [LineChecksum(address, data)]
  }

  /** A data record as written by `dump_hex_file`: a colon and the record's
      bytes in upper-case hex. */
  function RecordLine(address: u16, data: seq<byte>): (l: string)
    requires |data| < 0x100
  {
    ":" + HexlifyUpper(RecordBytes(address, data))
  }

  /** The line is the writer's fields in order: two digits of count, four
      of address, two of type, the data and two of checksum. */
  lemma RecordLineFields(address: u16, data: seq<byte>)
    requires |data| < 0x100
    ensures RecordLine(address, data)
            == ":" + Hex2(|data|) + Hex4(address) + Hex2(DataType) + HexlifyUpper(data) + Hex2(LineChecksum(address, data))
  {
    var n: byte, hi: byte, lo: byte, cs: byte := |data|, address / 0x100, address % 0x100, LineChecksum(address, data);
    HexRecordLayout(n, hi, lo, data, cs);
    assert RecordBytes(address, data) == [n, hi, lo, DataType] + data + [cs];
    assert Hex4(address) == Hex2(hi) + Hex2(lo);
  }

  lemma HexRecordLayout(n: byte, hi: byte, lo: byte, data: seq<byte>, cs: byte)
    ensures ":" + HexlifyUpper([n, hi, lo, DataType] + data + [cs])
            == ":" + Hex2(n) + (Hex2(hi) + Hex2(lo)) + Hex2(DataType) + HexlifyUpper(data) + Hex2(cs)
  {
    var head: seq<byte> := [n, hi, lo, DataType];
    var A, B, C, D, E, F := Hex2(n), Hex2(hi), Hex2(lo), Hex2(DataType), HexlifyUpper(data), Hex2(cs);
    assert HexlifyUpper(head + data + [cs]) == A + B + C + D + E + F by {
      HexlifyUpperFour(n, hi, lo, DataType);
      HexlifyUpperCons(cs, []);
      assert [cs] + [] == [cs];
      HexlifyUpperAppend(head + data, [cs]);
      HexlifyUpperAppend(head, data);
    }
    Regroup(A, B, C, D, E, F);
  }

  lemma HexlifyUpperFour(a: byte, b: byte, c: byte, d: byte)
    ensures HexlifyUpper([a, b, c, d]) == Hex2(a) + Hex2(b) + Hex2(c) + Hex2(d)
  {
    HexlifyUpperCons(a, [b, c, d]);
    HexlifyUpperCons(b, [c, d]);
    HexlifyUpperCons(c, [d]);
    HexlifyUpperCons(d, []);
    assert [a, b, c, d] == [a] + [b, c, d] && [b, c, d] == [b] + [c, d];
    assert [c, d] == [c] + [d] && [d] == [d] + [];
  }

  lemma Regroup(a: string, b: string, c: string, d: string, e: string, f: string)
    ensures ":" + (a + b + c + d + e + f) == ":" + a + (b + c) + d + e + f
  {
  }

  /** A record the writer can format: a 16-bit address and a byte count
      that fits in one byte. */
  predicate Writable(r: Record)
  {
    r.DataRecord? ==> r.address < 0x1_0000 && |r.data| < 0x100
  }

  predicate AllWritable(rs: seq<Record>)
  {
    forall i :: 0 <= i < |rs| ==> Writable(rs[i])
  }

  function FormatRecord(r: Record): (l: string)
    requires Writable(r)
    ensures |l| == 11 + 2 * (if r.DataRecord? then |r.data| else 0) && l[0] == ':'
  {
    match r
    case EndOfFile => EofRecord
    case DataRecord(address, data) => RecordLine(address, data)
  }

  function FormatAll(rs: seq<Record>): (ls: seq<string>)
    requires AllWritable(rs)
    ensures |ls| == |rs|
  {
    if rs == [] then [] else [FormatRecord(rs[0])] + FormatAll(rs[1..])
  }

  /** The chunk written at `address`. */
  function Chunk(d: seq<byte>, address: nat, lineSize: nat, truncate: bool): (c: seq<byte>)
    ensures |c| <= lineSize
  {
    var c := PySlice(d, address, address + lineSize);
    if truncate then RStripErased(c) else c
  }

  /** The records for the chunks from `address` on (erased chunks left out
      when skipping), then the end-of-file record. */
  function DumpRecords(d: seq<byte>, address: nat, lineSize: nat, skip: bool, truncate: bool): (rs: seq<Record>)
    requires 0 < lineSize
    ensures rs != []
    decreases |d| - address
  {
    if address >= |d| then [EndOfFile]
    else
      var data := Chunk(d, address, lineSize, truncate);
      var rest := DumpRecords(d, address + lineSize, lineSize, skip, truncate);
      if skip && IsErased(data) then rest else [DataRecord(address, data)] + rest
  }

  /** One step of `DumpRecords` on a chunk inside the data. */
  lemma DumpRecordsStep(d: seq<byte>, address: nat, lineSize: nat, skip: bool, truncate: bool)
    requires 0 < lineSize && address < |d|
    ensures var data := Chunk(d, address, lineSize, truncate);
            var rest := DumpRecords(d, address + lineSize, lineSize, skip, truncate);
            DumpRecords(d, address, lineSize, skip, truncate)
              == if skip && IsErased(data) then rest else [DataRecord(address, data)] + rest
  {
  }

  /** A writable record in front of writable records, ending as they do. */
  lemma AllWritableCons(r: Record, rs: seq<Record>)
    requires Writable(r) && AllWritable(rs)
    ensures AllWritable([r] + rs)
    ensures EndsWithEndOfFile(rs) ==> EndsWithEndOfFile([r] + rs)
  {
    forall i | 0 <= i < |[r] + rs|
      ensures Writable(([r] + rs)[i])
    {
      if i > 0 {
        assert ([r] + rs)[i] == rs[i - 1];
      }
    }
    if rs != [] {
      assert ([r] + rs)[|rs|] == rs[|rs| - 1];
    }
  }

  /** `emitted` followed by the records from `address` on is `all`. */
  predicate DumpedUpTo(emitted: seq<Record>, d: seq<byte>, address: nat, lineSize: nat, skip: bool, truncate: bool,
                       all: seq<Record>)
    requires 0 < lineSize
  {
    emitted + DumpRecords(d, address, lineSize, skip, truncate) == all
  }

  /** A chunk the writer skips contributes no record. */
  lemma SkippedChunk(d: seq<byte>, address: nat, lineSize: nat, skip: bool, truncate: bool, emitted: seq<Record>, all: seq<Record>)
    requires 0 < lineSize && address < |d| && skip && IsErased(Chunk(d, address, lineSize, truncate))
    requires DumpedUpTo(emitted, d, address, lineSize, skip, truncate, all)
    ensures DumpedUpTo(emitted, d, address + lineSize, lineSize, skip, truncate, all)
  {
    DumpRecordsStep(d, address, lineSize, skip, truncate);
  }

  /** A chunk the writer keeps contributes its data record. */
  lemma KeptChunk(d: seq<byte>, address: nat, lineSize: nat, skip: bool, truncate: bool, emitted: seq<Record>, all: seq<Record>)
    requires 0 < lineSize && address < |d| && !(skip && IsErased(Chunk(d, address, lineSize, truncate)))
    requires DumpedUpTo(emitted, d, address, lineSize, skip, truncate, all)
    ensures DumpedUpTo(emitted + [DataRecord(address, Chunk(d, address, lineSize, truncate))],
                       d, address + lineSize, lineSize, skip, truncate, all)
  {
    DumpRecordsStep(d, address, lineSize, skip, truncate);
    AppendStep(emitted, DataRecord(address, Chunk(d, address, lineSize, truncate)),
               DumpRecords(d, address + lineSize, lineSize, skip, truncate), all);
  }

  lemma {:induction false} DumpRecordsWritable(d: seq<byte>, address: nat, lineSize: nat, skip: bool, truncate: bool)
    requires 0 < lineSize < 0x100 && |d| <= 0x1_0000
    ensures AllWritable(DumpRecords(d, address, lineSize, skip, truncate))
    ensures EndsWithEndOfFile(DumpRecords(d, address, lineSize, skip, truncate))
    decreases |d| - address
  {
    if address < |d| {
      DumpRecordsWritable(d, address + lineSize, lineSize, skip, truncate);
      var rest := DumpRecords(d, address + lineSize, lineSize, skip, truncate);
      var r := DataRecord(address, Chunk(d, address, lineSize, truncate));
      AllWritableCons(r, rest);
    }
  }

  predicate EndsWithEndOfFile(rs: seq<Record>)
  {
    rs != [] && rs[|rs| - 1] == EndOfFile
  }

  /** `dump_hex_file` on values. */
  function DumpHex(d: seq<byte>, lineSize: nat, skip: bool, truncate: bool): (t: string)
    requires 0 < lineSize < 0x100 && |d| <= 0x1_0000
    ensures |t| >= |EofRecord| && t[|t| - |EofRecord|..] == EofRecord
  {
    DumpRecordsWritable(d, 0, lineSize, skip, truncate);
    var rs := DumpRecords(d, 0, lineSize, skip, truncate);
    FormattedWellFormed(rs);
    JoinLast(FormatAll(rs));
    Join(FormatAll(rs))
  }

  lemma FormatCons(r: Record, rs: seq<Record>)
    requires Writable(r) && AllWritable(rs)
    ensures AllWritable([r] + rs) && FormatAll([r] + rs) == [FormatRecord(r)] + FormatAll(rs)
  {
    assert ([r] + rs)[1..] == rs;
  }

  lemma {:induction false} FormatSnoc(rs: seq<Record>, r: Record)
    requires AllWritable(rs) && Writable(r)
    ensures AllWritable(rs + [r]) && FormatAll(rs + [r]) == FormatAll(rs) + [FormatRecord(r)]
  {
    if rs != [] {
      assert (rs + [r])[1..] == rs[1..] + [r];
      FormatSnoc(rs[1..], r);
    }
  }

  lemma AppendStep<T>(done: seq<T>, x: T, rest: seq<T>, all: seq<T>)
    requires done + ([x] + rest) == all
    ensures (done + [x]) + rest == all
  {
    assert (done + [x]) + rest == done + ([x] + rest);
  }

  /** Appending a record's line to the lines of the records before it
      gives the lines of all of them. */
  lemma EmitRecord(emitted: seq<Record>, r: Record, lines: seq<string>, line: string)
    requires AllWritable(emitted) && lines == FormatAll(emitted)
    requires Writable(r) && line == FormatRecord(r)
    ensures AllWritable(emitted + [r]) && lines + [line] == FormatAll(emitted + [r])
  {
    FormatSnoc(emitted, r);
  }

  /** The lines written so far are the formatted records emitted so far. */
  predicate Formatted(emitted: seq<Record>, lines: seq<string>)
  {
    AllWritable(emitted) && lines == FormatAll(emitted)
  }

  /** `dump_hex_file`: one record per chunk, each with its checksum summed
      byte by byte, then the end-of-file record. */
  method DumpHexFile(data: seq<byte>, lineSize: nat, skipLines: bool, truncateLines: bool) returns (text: string)
    requires 0 < lineSize < 0x100 && |data| <= 0x1_0000
    ensures text == DumpHex(data, lineSize, skipLines, truncateLines)
  {
    ghost var all := DumpRecords(data, 0, lineSize, skipLines, truncateLines);
    ghost var emitted: seq<Record> := [];
    var lines: seq<string> := [];
    var addr: nat := 0;
    while addr < |data|
      invariant DumpedUpTo(emitted, data, addr, lineSize, skipLines, truncateLines, all)
      invariant Formatted(emitted, lines)
      decreases |data| - addr
    {
      lines, emitted := DumpChunk(data, addr, lineSize, skipLines, truncateLines, lines, emitted, all);
      addr := addr + lineSize;
    }
    DumpFinished(data, addr, lineSize, skipLines, truncateLines, emitted, lines);
    lines := lines + [EofRecord];
    text := Join(lines);
  }

  /** Once every chunk is done, the end-of-file line completes the text. */
  lemma DumpFinished(data: seq<byte>, addr: nat, lineSize: nat, skip: bool, truncate: bool,
                     emitted: seq<Record>, lines: seq<string>)
    requires 0 < lineSize < 0x100 && |data| <= 0x1_0000 && addr >= |data|
    requires DumpedUpTo(emitted, data, addr, lineSize, skip, truncate, DumpRecords(data, 0, lineSize, skip, truncate))
    requires Formatted(emitted, lines)
    ensures Join(lines + [EofRecord]) == DumpHex(data, lineSize, skip, truncate)
  {
    assert emitted + [EndOfFile] == DumpRecords(data, 0, lineSize, skip, truncate);
    FormatSnoc(emitted, EndOfFile);
  }

  /** One pass of `dump_hex_file`'s loop: the chunk at `addr`, stripped of
      trailing 0xFF bytes when truncating, is skipped when erased and
      skipping, and written as a record line otherwise. */
  method DumpChunk(data: seq<byte>, addr: nat, lineSize: nat, skipLines: bool, truncateLines: bool,
                   lines: seq<string>, ghost emitted: seq<Record>, ghost all: seq<Record>)
    returns (lines': seq<string>, ghost emitted': seq<Record>)
    requires 0 < lineSize < 0x100 && addr < |data| <= 0x1_0000
    requires DumpedUpTo(emitted, data, addr, lineSize, skipLines, truncateLines, all)
    requires Formatted(emitted, lines)
    ensures DumpedUpTo(emitted', data, addr + lineSize, lineSize, skipLines, truncateLines, all)
    ensures Formatted(emitted', lines')
  {
    var lineData := PySlice(data, addr, addr + lineSize);
    if truncateLines {
      lineData := RStripErased(lineData);
    }
    assert lineData == Chunk(data, addr, lineSize, truncateLines);
    if skipLines && IsErased(lineData) {
      SkippedChunk(data, addr, lineSize, skipLines, truncateLines, emitted, all);
      lines', emitted' := lines, emitted;
    } else {
      ghost var r := DataRecord(addr, lineData);
      KeptChunk(data, addr, lineSize, skipLines, truncateLines, emitted, all);
      var line := RecordText(addr, lineData);
      EmitRecord(emitted, r, lines, line);
      lines', emitted' := lines + [line], emitted + [r];
    }
  }

  /** The body of `dump_hex_file`'s loop for a chunk it keeps: the
      record's bytes summed one by one, the two's complement of the low byte
      of the sum as checksum, and the formatted line. */
  method RecordText(addr: u16, lineData: seq<byte>) returns (line: string)
    requires |lineData| < 0x100
    ensures line == RecordLine(addr, lineData)
  {
    var length := |lineData|;
    var checksum := length;
    checksum := checksum + addr / 0x100;
    checksum := checksum + addr % 0x100;
    checksum := checksum + DataType;
    var k := 0;
    while k < |lineData|
      invariant 0 <= k <= |lineData|
      invariant checksum == length + addr / 0x100 + addr % 0x100 + DataType + Sum(lineData[..k])
    {
      assert lineData[..k + 1][..k] == lineData[..k];
      checksum := checksum + lineData[k];
      k := k + 1;
    }
    assert lineData[..k] == lineData;
    Xor8AllOnes(checksum % 0x100);
    checksum := (Xor8(checksum % 0x100, 0xFF) + 1) % 0x100;
    assert checksum == LineChecksum(addr, lineData);
    line := ":" + Hex2(length) + Hex4(addr) + Hex2(DataType) + HexlifyUpper(lineData) + Hex2(checksum);
    RecordLineFields(addr, lineData);
  }

  // ---------------------------------------------------------------------
  // Round trip

  lemma HexByteAtHex2(t: string, i: nat, b: byte)
    requires i + 2 <= |t| && t[i..i + 2] == Hex2(b)
    ensures HexByteAt(t, i) == Some(b)
  {
    Hex2ReadsBack(b);
    assert t[i] == Hex2(b)[0] && t[i + 1] == Hex2(b)[1];
  }

  lemma {:induction false} HexBytesOfHexlify(t: string, at: nat, data: seq<byte>)
    requires at + 2 * |data| <= |t| && t[at..at + 2 * |data|] == HexlifyUpper(data)
    ensures HexBytes(t, at, |data|) == Some(data)
    decreases |data|
  {
    if data != [] {
      assert HexlifyUpper(data) == Hex2(data[0]) + HexlifyUpper(data[1..]);
      assert t[at..at + 2] == t[at..at + 2 * |data|][..2] == Hex2(data[0]);
      HexByteAtHex2(t, at, data[0]);
      assert t[at + 2..at + 2 + 2 * |data[1..]|] == HexlifyUpper(data[1..]);
      HexBytesOfHexlify(t, at + 2, data[1..]);
      assert [data[0]] + data[1..] == data;
    }
  }

  /** Pairs `j` to `j + m` of a run of `n` hex pairs read back as the
      matching slice of the bytes the run reads as. */
  lemma {:induction false} HexBytesSlice(t: string, at: nat, n: nat, bs: seq<byte>, j: nat, m: nat)
    requires HexBytes(t, at, n) == Some(bs) && j + m <= n
    ensures HexBytes(t, at + 2 * j, m) == Some(bs[j..j + m])
    decreases n
  {
    if n > 0 && (j > 0 || m > 0) {
      var b := HexByteAt(t, at).value;
      var rest := HexBytes(t, at + 2, n - 1).value;
      assert bs == [b] + rest;
      if j > 0 {
        HexBytesSlice(t, at + 2, n - 1, rest, j - 1, m);
        assert rest[j - 1..j - 1 + m] == bs[j..j + m];
      } else {
        HexBytesSlice(t, at + 2, n - 1, rest, 0, m - 1);
        assert bs[..m] == [b] + rest[..m - 1];
      }
    }
  }

  /** The same, with the position of the first pair given as `p` (so that
      callers name it the way the reader does). */
  lemma HexBytesSliceAt(t: string, at: nat, n: nat, bs: seq<byte>, j: nat, m: nat, p: nat)
    requires HexBytes(t, at, n) == Some(bs) && j + m <= n && p == at + 2 * j
    ensures HexBytes(t, p, m) == Some(bs[j..j + m])
  {
    HexBytesSlice(t, at, n, bs, j, m);
  }

  /** Pair `k` of a run of hex pairs reads back as byte `k`. */
  lemma HexBytesIndex(t: string, at: nat, n: nat, bs: seq<byte>, k: nat, p: nat)
    requires HexBytes(t, at, n) == Some(bs) && k < n && p == at + 2 * k
    ensures HexByteAt(t, p) == Some(bs[k])
  {
    HexBytesSlice(t, at, n, bs, k, 1);
  }

  /** A colon followed by the hex of some bytes reads back as those bytes. */
  lemma HexLineReadsBack(l: string, bs: seq<byte>)
    requires l == ":" + HexlifyUpper(bs)
    ensures |l| == 1 + 2 * |bs| && l[0] == ':' && HexBytes(l, 1, |bs|) == Some(bs)
  {
    assert l[1..1 + 2 * |bs|] == HexlifyUpper(bs);
    HexBytesOfHexlify(l, 1, bs);
  }

  /** A line that is a colon and at least five hex pairs reads back field
      by field: first the four header bytes, ... */
  lemma HexHeaderReadsBack(l: string, bs: seq<byte>)
    requires |bs| >= 5 && HexBytes(l, 1, |bs|) == Some(bs)
    ensures HexByteAt(l, 1) == Some(bs[0]) && HexByteAt(l, 3) == Some(bs[1])
    ensures HexByteAt(l, 5) == Some(bs[2]) && HexByteAt(l, 7) == Some(bs[3])
  {
    HexBytesIndex(l, 1, |bs|, bs, 0, 1);
    HexBytesIndex(l, 1, |bs|, bs, 1, 3);
    HexBytesIndex(l, 1, |bs|, bs, 2, 5);
    HexBytesIndex(l, 1, |bs|, bs, 3, 7);
  }

  /** ... then `m` data bytes, and a last byte after which nothing
      follows. */
  lemma HexBodyReadsBack(l: string, bs: seq<byte>, m: nat)
    requires |bs| == m + 5 && |l| == 1 + 2 * |bs| && HexBytes(l, 1, |bs|) == Some(bs)
    ensures HexBytes(l, 9, m) == Some(bs[4..4 + m])
    ensures HexByteAt(l, 9 + 2 * m) == Some(bs[4 + m])
    ensures RStrip(l) == l
  {
    HexBytesSliceAt(l, 1, |bs|, bs, 4, m, 9);
    HexBytesIndex(l, 1, |bs|, bs, 4 + m, 9 + 2 * m);
    LastPairEndsLine(l, 9 + 2 * m);
  }

  /** A line that ends in a hex pair has no trailing white space. */
  lemma LastPairEndsLine(l: string, i: nat)
    requires HexByteAt(l, i).Some? && |l| == i + 2
    ensures RStrip(l) == l
  {
    assert IsHexDigit(l[i + 1]);
  }

  /** The reader's data branch on a line whose fields hold and whose
      checksum cancels. */
  lemma ParseDataLine(l: string, n: byte, hi: byte, lo: byte, data: seq<byte>, cs: byte)
    requires |l| > 0 && l[0] == ':' && |data| == n
    requires HexByteAt(l, 1) == Some(n) && HexByteAt(l, 3) == Some(hi)
    requires HexByteAt(l, 5) == Some(lo) && HexByteAt(l, 7) == Some(DataType)
    requires HexBytes(l, 9, n) == Some(data) && HexByteAt(l, 9 + 2 * n) == Some(cs)
    requires |RStrip(l)| <= 9 + 2 * n + 2
    requires ChecksumMatches(n, hi, lo, DataType, data, cs)
    ensures ParseRecord(l) == Ok(DataRecord(0x100 * hi + lo, data))
  {
    assert ParseRecord(l) == ParseData(l, n, hi, lo);
  }

  /** The checksum the writer computes makes the byte sum of the record 0
      modulo 256, which is what the reader demands. */
  lemma ChecksumCancels(address: u16, data: seq<byte>)
    requires |data| < 0x100
    ensures ChecksumMatches(|data|, address / 0x100, address % 0x100, DataType, data, LineChecksum(address, data))
  {
    NegatedLowByte(|data| + address / 0x100 + address % 0x100 + DataType + Sum(data));
  }

  /** The low byte of 0x100 minus a sum's low byte is its negation. */
  lemma NegatedLowByte(total: nat)
    ensures (0 - (0x100 - total % 0x100) % 0x100) % 0x100 == total % 0x100
  {
    var r := total % 0x100;
    if r == 0 {
      assert (0x100 - r) % 0x100 == 0;
    } else {
      assert (0x100 - r) % 0x100 == 0x100 - r;
      assert (r - 0x100) % 0x100 == r;
    }
  }

  /** Every data record the writer emits reads back as the same address and
      bytes. */
  lemma RecordLineParses(address: u16, data: seq<byte>)
    requires |data| < 0x100
    ensures ParseRecord(RecordLine(address, data)) == Ok(DataRecord(address, data))
  {
    var n: byte, hi: byte, lo: byte, cs: byte := |data|, address / 0x100, address % 0x100, LineChecksum(address, data);
    var bs := RecordBytes(address, data);
    var l := RecordLine(address, data);
    HexLineReadsBack(l, bs);
    HexHeaderReadsBack(l, bs);
    HexBodyReadsBack(l, bs, n);
    assert bs[0] == n && bs[1] == hi && bs[2] == lo && bs[3] == DataType;
    assert bs[4..4 + n] == data && bs[4 + n] == cs;
    ChecksumCancels(address, data);
    ParseDataLine(l, n, hi, lo, data, cs);
  }

  lemma EofRecordParses()
    ensures ParseRecord(EofRecord) == Ok(EndOfFile)
  {
    var l := EofRecord;
    assert l[1..3] == Hex2(0) && l[3..5] == Hex2(0) && l[5..7] == Hex2(0) && l[7..9] == Hex2(1);
    HexByteAtHex2(l, 1, 0);
    HexByteAtHex2(l, 3, 0);
    HexByteAtHex2(l, 5, 0);
    HexByteAtHex2(l, 7, 1);
  }

  /** Every record the writer formats reads back as itself. */
  lemma FormatRecordParses(r: Record)
    requires Writable(r)
    ensures ParseRecord(FormatRecord(r)) == Ok(r)
  {
    match r
    case EndOfFile => EofRecordParses();
    case DataRecord(address, data) => RecordLineParses(address, data);
  }

  /** The image-filling half of `parse_hex_file`, on records already read. */
  function ApplyRecords(rs: seq<Record>, buf: seq<byte>): Result<seq<byte>, HexError>
  {
    if rs == [] then Raise(NoEndOfFile)
    else match rs[0]
      case EndOfFile => Ok(buf)
      case DataRecord(a, data) => ApplyRecords(rs[1..], PySliceAssign(buf, a, a + |data|, data))
  }

  lemma {:induction false} ParseFormatted(rs: seq<Record>, buf: seq<byte>, lineNo: nat)
    requires AllWritable(rs)
    ensures ParseLines(FormatAll(rs), buf, lineNo) == ApplyRecords(rs, buf)
  {
    if rs != [] {
      FormatRecordParses(rs[0]);
      assert FormatAll(rs)[1..] == FormatAll(rs[1..]);
      if rs[0].DataRecord? {
        var a, data := rs[0].address, rs[0].data;
        ParseFormatted(rs[1..], PySliceAssign(buf, a, a + |data|, data), lineNo + 1);
      }
    }
  }

  lemma RecordLineHasNoNewline(address: u16, data: seq<byte>)
    requires |data| < 0x100
    ensures NoNewline(RecordLine(address, data))
  {
    HexLineHasNoNewline(RecordBytes(address, data));
  }

  lemma HexLineHasNoNewline(bs: seq<byte>)
    ensures NoNewline(":" + HexlifyUpper(bs))
  {
    var h := HexlifyUpper(bs);
    HexlifyUpperDigits(bs);
    forall k | 0 <= k < |":" + h|
      ensures (":" + h)[k] != '\n'
    {
      if k > 0 {
        assert (":" + h)[k] == h[k - 1];
      }
    }
  }

  predicate EndsWithEof(ls: seq<string>)
  {
    ls != [] && ls[|ls| - 1] == EofRecord
  }

  predicate NoLineBreaks(ls: seq<string>)
  {
    forall i :: 0 <= i < |ls| ==> NoNewline(ls[i])
  }

  /** Formatted records hold no newline, and a run of records that ends
      with the end-of-file record formats to lines that end with it. */
  lemma {:induction false} FormattedWellFormed(rs: seq<Record>)
    requires AllWritable(rs)
    ensures NoLineBreaks(FormatAll(rs))
    ensures EndsWithEndOfFile(rs) ==> EndsWithEof(FormatAll(rs))
  {
    if rs != [] {
      FormattedWellFormed(rs[1..]);
      var ls := FormatAll(rs);
      assert forall i :: 1 <= i < |ls| ==> ls[i] == FormatAll(rs[1..])[i - 1];
      match rs[0]
      case EndOfFile => assert NoNewline(EofRecord);
      case DataRecord(address, data) => RecordLineHasNoNewline(address, data);
      if EndsWithEndOfFile(rs) && |rs| > 1 {
        assert rs[1..][|rs| - 2] == EndOfFile;
      }
    }
  }

  function Min(a: nat, b: nat): nat
  {
    if a < b then a else b
  }

  /** `buf` holds `d` below `n` and is erased from `n` on. */
  predicate Agrees(buf: seq<byte>, d: seq<byte>, n: nat)
  {
    n <= |d| == |buf| && forall k :: 0 <= k < |buf| ==> buf[k] == if k < n then d[k] else 0xFF
  }

  /** The records from `address` on, applied to `buf`, give `d`. */
  predicate ReadsBack(d: seq<byte>, address: nat, lineSize: nat, skip: bool, truncate: bool, buf: seq<byte>)
    requires 0 < lineSize
  {
    ApplyRecords(DumpRecords(d, address, lineSize, skip, truncate), buf) == Ok(d)
  }

  /** Applying the first record from `address` on (or skipping its erased
      chunk) extends the agreement with `d` to the next chunk boundary. */
  lemma ReadBackStep(d: seq<byte>, address: nat, lineSize: nat, skip: bool, truncate: bool,
                     buf: seq<byte>) returns (buf': seq<byte>)
    requires 0 < lineSize && address < |d| && Agrees(buf, d, address)
    ensures Agrees(buf', d, Min(address + lineSize, |d|))
    ensures ReadsBack(d, address, lineSize, skip, truncate, buf) <==> ReadsBack(d, address + lineSize, lineSize, skip, truncate, buf')
  {
    var data := Chunk(d, address, lineSize, truncate);
    var e := Min(address + lineSize, |d|);
    ChunkShape(d, address, lineSize, truncate, data, e);
    var rest := DumpRecords(d, address + lineSize, lineSize, skip, truncate);
    if skip && IsErased(data) {
      IsErasedAll(data);
      SkipChunk(d, address, e, data, buf);
      buf' := buf;
    } else {
      assert ([DataRecord(address, data)] + rest)[1..] == rest;
      buf' := PySliceAssign(buf, address, address + |data|, data);
      WriteChunk(d, address, e, data, buf);
    }
  }

  /** A chunk is the start of its slice of `d`, and what truncation drops
      from the slice is erased. */
  lemma ChunkShape(d: seq<byte>, address: nat, lineSize: nat, truncate: bool, data: seq<byte>, e: nat)
    requires address < |d| && data == Chunk(d, address, lineSize, truncate) && e == Min(address + lineSize, |d|)
    ensures address + |data| <= e <= |d|
    ensures data == d[address..address + |data|] && AllErased(d[address + |data|..e])
  {
    var c := d[address..e];
    assert PySlice(d, address, address + lineSize) == c;
    if truncate {
      RStripErasedShape(c);
    }
    assert data == c[..|data|] && AllErased(c[|data|..]);
    assert d[address + |data|..e] == c[|data|..];
  }

  /** Applying the records from `address` on to an image that already
      agrees with `d` below `address` and is erased from there gives `d`. */
  lemma {:induction false} ReadBackFrom(d: seq<byte>, address: nat, lineSize: nat, skip: bool, truncate: bool,
                                        buf: seq<byte>)
    requires 0 < lineSize && Agrees(buf, d, Min(address, |d|))
    ensures ReadsBack(d, address, lineSize, skip, truncate, buf)
    decreases |d| - address
  {
    if address >= |d| {
      assert Min(address, |d|) == |d|;
      ReadBackEnd(d, address, lineSize, skip, truncate, buf);
    } else {
      assert Min(address, |d|) == address;
      var buf' := ReadBackStep(d, address, lineSize, skip, truncate, buf);
      ReadBackFrom(d, address + lineSize, lineSize, skip, truncate, buf');
    }
  }

  /** Past the end of `d` only the end-of-file record is left, and it
      returns the image. */
  lemma ReadBackEnd(d: seq<byte>, address: nat, lineSize: nat, skip: bool, truncate: bool, buf: seq<byte>)
    requires 0 < lineSize && address >= |d| && Agrees(buf, d, |d|)
    ensures ReadsBack(d, address, lineSize, skip, truncate, buf)
  {
    assert DumpRecords(d, address, lineSize, skip, truncate) == [EndOfFile];
    assert buf == d;
  }

  /** Skipping an erased chunk over an erased region keeps the agreement
      with `d` up to the chunk's end. */
  lemma SkipChunk(d: seq<byte>, address: nat, e: nat, data: seq<byte>, buf: seq<byte>)
    requires address < e <= |d| == |buf| && address + |data| <= e
    requires data == d[address..address + |data|] && AllErased(d[address + |data|..e]) && AllErased(data)
    requires Agrees(buf, d, address)
    ensures Agrees(buf, d, e)
  {
    forall k | address <= k < e
      ensures d[k] == 0xFF
    {
      if k < address + |data| {
        assert data[k - address] == d[k];
      } else {
        assert d[address + |data|..e][k - address - |data|] == d[k];
      }
    }
  }

  /** Writing a chunk whose dropped tail is erased over an erased region
      extends the agreement with `d` to the chunk's end. */
  lemma WriteChunk(d: seq<byte>, address: nat, e: nat, data: seq<byte>, buf: seq<byte>)
    requires address < e <= |d| == |buf| && address + |data| <= e
    requires data == d[address..address + |data|] && AllErased(d[address + |data|..e])
    requires Agrees(buf, d, address)
    ensures Agrees(PySliceAssign(buf, address, address + |data|, data), d, e)
  {
    var b := PySliceAssign(buf, address, address + |data|, data);
    forall k | 0 <= k < |b|
      ensures b[k] == if k < e then d[k] else 0xFF
    {
      if address <= k < address + |data| {
        assert b[k] == data[k - address];
      } else if address + |data| <= k < e {
        assert d[address + |data|..e][k - address - |data|] == d[k];
      }
    }
  }

  /** Reading back what the writer wrote gives the original image, for any
      chunk size and either skipping or truncating option. */
  lemma DumpThenParse(d: seq<byte>, lineSize: nat, skip: bool, truncate: bool)
    requires |d| == MemSize && 0 < lineSize < 0x100
    ensures ParseHex(DumpHex(d, lineSize, skip, truncate), MemSize) == Ok(d)
  {
    var rs := DumpRecords(d, 0, lineSize, skip, truncate);
    DumpRecordsWritable(d, 0, lineSize, skip, truncate);
    var lines := FormatAll(rs);
    FormattedWellFormed(rs);
    SplitJoin(lines);
    ParseFormatted(rs, Erased(MemSize), 1);
    ReadBackFrom(d, 0, lineSize, skip, truncate, Erased(MemSize));
  }
}
