/**
 The "mappings" field of a Source Map Revision 3 document: semicolons separate generated lines, commas
 separate segments, and every field is a delta. The generated column restarts on each line; the other
 four accumulators run through the whole string.
*/
module Mappings {
  import opened Basics
  import opened Text
  import opened Vlq

  const COMMA: byte := 44
  const SEMICOLON: byte := 59

  datatype Segment = Segment(
    genCol: int,
    hasSource: bool, srcIdx: int, srcLine: int, srcCol: int,
    hasName: bool, nameIdx: int)

  /** The accumulators that are never reset. */
  datatype Acc = Acc(srcIdx: int, srcLine: int, srcCol: int, nameIdx: int)

  const START := Acc(0, 0, 0, 0)

  datatype MapError =
    | BadVlq(segment: bytes, cause: VlqError)
    | FieldCount(segment: bytes, n: nat)

  type Line = seq<Segment>

  // ---- Decoding, as a function

  /** All VLQ values of one segment. */
  function Fields(s: bytes): Result<seq<int>, VlqError>
    decreases |s|
  {
    if s == [] then Ok([])
    else
      match Decode(s)
      case Err(e) => Err(e)
      case Ok((v, rest)) =>
        DecodeConsumes(s);
        Prepend([v], Fields(rest))
  }

  function Prepend<T, E>(done: seq<T>, r: Result<seq<T>, E>): Result<seq<T>, E> {
    match r
    case Err(e) => Err(e)
    case Ok(more) => Ok(done + more)
  }

  function SegmentFields(s: bytes): (r: Result<seq<int>, MapError>)
    ensures r.Ok? ==> |r.value| in {1, 4, 5}
  {
    match Fields(s)
    case Err(e) => Err(BadVlq(s, e))
    case Ok(fs) => if |fs| in {1, 4, 5} then Ok(fs) else Err(FieldCount(s, |fs|))
  }

  /** Adds one segment's deltas to the running column and accumulators. */
  function Apply(fs: seq<int>, genCol: int, acc: Acc): (Segment, Acc)
    requires |fs| in {1, 4, 5}
  {
    var col := Wrap64(genCol + fs[0]);
    if |fs| == 1 then (Segment(col, false, 0, 0, 0, false, 0), acc)
    else
      var idx, line, srcCol := Wrap64(acc.srcIdx + fs[1]), Wrap64(acc.srcLine + fs[2]), Wrap64(acc.srcCol + fs[3]);
      if |fs| == 4 then (Segment(col, true, idx, line, srcCol, false, 0), Acc(idx, line, srcCol, acc.nameIdx))
      else
        var name := Wrap64(acc.nameIdx + fs[4]);
        (Segment(col, true, idx, line, srcCol, true, name), Acc(idx, line, srcCol, name))
  }

  type Decoded<T> = Result<(seq<T>, Acc), MapError>

  function Chain<T>(done: seq<T>, r: Decoded<T>): Decoded<T> {
    match r
    case Err(e) => Err(e)
    case Ok((more, acc)) => Ok((done + more, acc))
  }

  function DecodeSegments(strs: seq<bytes>, genCol: int, acc: Acc): Decoded<Segment> {
    if strs == [] then Ok(([], acc))
    else if strs[0] == [] then DecodeSegments(strs[1..], genCol, acc)
    else
      match SegmentFields(strs[0])
      case Err(e) => Err(e)
      case Ok(fs) =>
        var (seg, acc') := Apply(fs, genCol, acc);
        Chain([seg], DecodeSegments(strs[1..], seg.genCol, acc'))
  }

  function DecodeLine(line: bytes, acc: Acc): Decoded<Segment> {
    if line == [] then Ok(([], acc)) else DecodeSegments(Split(line, COMMA), 0, acc)
  }

  function DecodeLines(lines: seq<bytes>, acc: Acc): Decoded<Line> {
    if lines == [] then Ok(([], acc))
    else
      match DecodeLine(lines[0], acc)
      case Err(e) => Err(e)
      case Ok((segs, acc')) => Chain([segs], DecodeLines(lines[1..], acc'))
  }

  /** Decodes a mappings string from a given accumulator state and also returns the final state. */
  function DecodeFromState(mappings: bytes, acc: Acc): Decoded<Line> {
    DecodeLines(Split(mappings, SEMICOLON), acc)
  }

  function DecodeMappings(mappings: bytes): Result<seq<Line>, MapError> {
    match DecodeFromState(mappings, START)
    case Err(e) => Err(e)
    case Ok((lines, _)) => Ok(lines)
  }

  // ---- Decoding, as the source's loops

  predicate IsBase64Table(table: array<int>)
    reads table
  {
    table.Length == 256 && forall b: byte :: table[b] == DigitValue(b)
  }

  /** Reads every value of a segment, storing the first five and counting all. */
  method ReadFields(table: array<int>, segStr: bytes, vals: array<int>) returns (n: nat, err: Option<VlqError>)
    requires IsBase64Table(table) && vals.Length == 5 && vals != table
    requires forall k :: 0 <= k < 5 ==> vals[k] == 0
    modifies vals
    ensures err.Some? <==> Fields(segStr).Err?
    ensures err.Some? ==> Fields(segStr) == Err(err.value)
    ensures err.None? ==> n == |Fields(segStr).value|
    ensures err.None? ==> forall k :: 0 <= k < 5 ==> vals[k] == if k < n then Fields(segStr).value[k] else 0
  {
    n := 0;
    var rest := segStr;
    ghost var done: seq<int> := [];
    assert Fields(segStr).Ok? ==> [] + Fields(segStr).value == Fields(segStr).value;
    while rest != []
      invariant |done| == n
      invariant Fields(segStr) == Prepend(done, Fields(rest))
      invariant forall k :: 0 <= k < 5 ==> vals[k] == if k < n then done[k] else 0
      decreases |rest|
    {
      var r := DecodeVLQ(table, rest);
      if r.Err? {
        return n, Some(r.error);
      }
      DecodeConsumes(rest);
      if n < 5 {
        vals[n] := r.value.0;
      }
      ghost var tail := Fields(r.value.1);
      assert tail.Ok? ==> done + ([r.value.0] + tail.value) == done + [r.value.0] + tail.value;
      n, rest, done := n + 1, r.value.1, done + [r.value.0];
    }
    assert done + [] == done;
    err := None;
  }

  /** Decodes one segment and moves the running column and the accumulators. */
  method ReadSegment(table: array<int>, segStr: bytes, genCol: int, acc: Acc)
    returns (r: Result<(Segment, Acc), MapError>)
    requires IsBase64Table(table)
    ensures match SegmentFields(segStr) {
              case Err(e) => r == Err(e)
              case Ok(fs) => r == Ok(Apply(fs, genCol, acc))
            }
  {
    var vals := new int[5](_ => 0);
    var n, err := ReadFields(table, segStr, vals);
    if err.Some? {
      return Err(BadVlq(segStr, err.value));
    }
    if n != 1 && n != 4 && n != 5 {
      return Err(FieldCount(segStr, n));
    }
    var acc' := acc;
    var seg := Segment(Wrap64(genCol + vals[0]), false, 0, 0, 0, false, 0);
    if n >= 4 {
      acc' := acc'.(srcIdx := Wrap64(acc.srcIdx + vals[1]), srcLine := Wrap64(acc.srcLine + vals[2]),
                    srcCol := Wrap64(acc.srcCol + vals[3]));
      seg := seg.(hasSource := true, srcIdx := acc'.srcIdx, srcLine := acc'.srcLine, srcCol := acc'.srcCol);
    }
    if n == 5 {
      acc' := acc'.(nameIdx := Wrap64(acc.nameIdx + vals[4]));
      seg := seg.(hasName := true, nameIdx := acc'.nameIdx);
    }
    return Ok((seg, acc'));
  }

  /** The loop over the comma-separated segments of one line. */
  method ReadLine(table: array<int>, lineStr: bytes, acc: Acc) returns (r: Decoded<Segment>)
    requires IsBase64Table(table)
    ensures r == DecodeLine(lineStr, acc)
  {
    if lineStr == [] {
      return Ok(([], acc));
    }
    var strs := Split(lineStr, COMMA);
    r := ReadSegments(table, strs, acc);
  }

  method ReadSegments(table: array<int>, strs: seq<bytes>, acc: Acc) returns (r: Decoded<Segment>)
    requires IsBase64Table(table)
    ensures r == DecodeSegments(strs, 0, acc)
  {
    var acc', genCol, segs: Line := acc, 0, [];
    assert strs[0..] == strs;
    ChainNil(DecodeSegments(strs, 0, acc));
    for i := 0 to |strs|
      invariant DecodeSegments(strs, 0, acc) == Chain(segs, DecodeSegments(strs[i..], genCol, acc'))
    {
      assert strs[i..][1..] == strs[i + 1..];
      if strs[i] == [] {
        continue;
      }
      var seg := ReadSegment(table, strs[i], genCol, acc');
      if seg.Err? {
        return Err(seg.error);
      }
      genCol, acc' := seg.value.0.genCol, seg.value.1;
      ChainChain(segs, [seg.value.0], DecodeSegments(strs[i + 1..], genCol, acc'));
      segs := segs + [seg.value.0];
    }
    assert segs + [] == segs;
    return Ok((segs, acc'));
  }

  lemma ChainNil<T>(r: Decoded<T>)
    ensures Chain([], r) == r
  {
    if r.Ok? {
      assert [] + r.value.0 == r.value.0;
    }
  }

  lemma ChainChain<T>(a: seq<T>, b: seq<T>, r: Decoded<T>)
    ensures Chain(a, Chain(b, r)) == Chain(a + b, r)
  {
    if r.Ok? {
      assert a + (b + r.value.0) == a + b + r.value.0;
    }
  }

  /** The loop over the semicolon-separated generated lines. */
  method Read(table: array<int>, mappings: bytes) returns (r: Result<seq<Line>, MapError>)
    requires IsBase64Table(table)
    ensures r == DecodeMappings(mappings)
  {
    var lines: seq<Line>, acc := [], START;
    var strs := Split(mappings, SEMICOLON);
    assert strs[0..] == strs;
    ChainNil(DecodeLines(strs, START));
    for i := 0 to |strs|
      invariant DecodeFromState(mappings, START) == Chain(lines, DecodeLines(strs[i..], acc))
    {
      assert strs[i..][1..] == strs[i + 1..];
      var segs := ReadLine(table, strs[i], acc);
      if segs.Err? {
        return Err(segs.error);
      }
      ChainChain(lines, [segs.value.0], DecodeLines(strs[i + 1..], segs.value.1));
      lines, acc := lines + [segs.value.0], segs.value.1;
    }
    assert lines + [] == lines;
    return Ok(lines);
  }

  // ---- Decoding composes

  lemma {:induction false} DecodeLinesAppend(a: seq<bytes>, b: seq<bytes>, acc: Acc)
    ensures DecodeLines(a + b, acc) ==
            match DecodeLines(a, acc) {
              case Err(e) => Err(e)
              case Ok((lines, acc')) => Chain(lines, DecodeLines(b, acc'))
            }
  {
    if a == [] {
      assert a + b == b;
      ChainNil(DecodeLines(b, acc));
    } else {
      assert (a + b)[1..] == a[1..] + b;
      var first := DecodeLine(a[0], acc);
      if first.Ok? {
        DecodeLinesAppend(a[1..], b, first.value.1);
        var mid := DecodeLines(a[1..], first.value.1);
        if mid.Ok? {
          ChainChain([first.value.0], mid.value.0, DecodeLines(b, mid.value.1));
        }
      }
    }
  }

  /** Decoding a ";" b decodes a, then decodes b from the state a ends in: nothing but the column is reset. */
  lemma DecodingComposes(a: bytes, b: bytes, acc: Acc)
    ensures DecodeFromState(a + [SEMICOLON] + b, acc) ==
            match DecodeFromState(a, acc) {
              case Err(e) => Err(e)
              case Ok((lines, acc')) => Chain(lines, DecodeFromState(b, acc'))
            }
  {
    SplitAtSeparator(a, b, SEMICOLON);
    DecodeLinesAppend(Split(a, SEMICOLON), Split(b, SEMICOLON), acc);
  }

  lemma {:induction false} DecodeLinesLength(lines: seq<bytes>, acc: Acc)
    requires DecodeLines(lines, acc).Ok?
    ensures |DecodeLines(lines, acc).value.0| == |lines|
  {
    if lines != [] {
      DecodeLinesLength(lines[1..], DecodeLine(lines[0], acc).value.1);
    }
  }

  /** A decoded string has one generated line per semicolon, and one more. */
  lemma LineCount(mappings: bytes)
    requires DecodeMappings(mappings).Ok?
    ensures |DecodeMappings(mappings).value| == Count(mappings, SEMICOLON) + 1
  {
    SplitLength(mappings, SEMICOLON);
    DecodeLinesLength(Split(mappings, SEMICOLON), START);
  }

  // ---- Which strings are accepted

  function Concat(vs: seq<bytes>): bytes {
    if vs == [] then [] else vs[0] + Concat(vs[1..])
  }

  /** One, four or five complete VLQ values. */
  ghost predicate IsSegment(s: bytes) {
    exists vs: seq<bytes> :: |vs| in {1, 4, 5} && (forall v :: v in vs ==> IsVlq(v)) && Concat(vs) == s
  }

  lemma {:induction false} FieldsOfValues(vs: seq<bytes>)
    requires forall v :: v in vs ==> IsVlq(v)
    ensures Fields(Concat(vs)).Ok? && |Fields(Concat(vs)).value| == |vs|
  {
    if vs != [] {
      assert vs[0] in vs;
      DecodeDenotes(vs[0], Concat(vs[1..]));
      FieldsOfValues(vs[1..]);
    }
  }

  lemma {:induction false} ValuesOfFields(s: bytes) returns (vs: seq<bytes>)
    requires Fields(s).Ok?
    ensures (forall v :: v in vs ==> IsVlq(v)) && Concat(vs) == s && |vs| == |Fields(s).value|
    decreases |s|
  {
    vs := [];
    if s != [] {
      var rest := Decode(s).value.1;
      DecodeConsumes(s);
      var ds :| IsVlq(ds) && s == ds + rest;
      var more := ValuesOfFields(rest);
      vs := [ds] + more;
      assert vs[1..] == more;
    }
  }

  lemma SegmentAcceptedIff(s: bytes)
    ensures SegmentFields(s).Ok? <==> IsSegment(s)
  {
    if SegmentFields(s).Ok? {
      var vs := ValuesOfFields(s);
      assert |vs| in {1, 4, 5};
    }
    if IsSegment(s) {
      var vs: seq<bytes> :| |vs| in {1, 4, 5} && (forall v :: v in vs ==> IsVlq(v)) && Concat(vs) == s;
      FieldsOfValues(vs);
    }
  }

  lemma {:induction false} SegmentsAcceptedIff(strs: seq<bytes>, genCol: int, acc: Acc)
    ensures DecodeSegments(strs, genCol, acc).Ok? <==> forall s :: s in strs ==> s == [] || IsSegment(s)
  {
    if strs != [] {
      var s, rest := strs[0], strs[1..];
      assert strs == [s] + rest;
      SegmentAcceptedIff(s);
      if s == [] {
        SegmentsAcceptedIff(rest, genCol, acc);
      } else if SegmentFields(s).Ok? {
        var (seg, acc') := Apply(SegmentFields(s).value, genCol, acc);
        SegmentsAcceptedIff(rest, seg.genCol, acc');
      }
    }
  }

  /** Every segment of the line is empty or well formed. */
  ghost predicate AcceptedLine(line: bytes) {
    forall s :: s in Split(line, COMMA) ==> s == [] || IsSegment(s)
  }

  lemma LineAcceptedIff(line: bytes, acc: Acc)
    ensures DecodeLine(line, acc).Ok? <==> AcceptedLine(line)
  {
    if line == [] {
      assert Split(line, COMMA) == [line];
    } else {
      SegmentsAcceptedIff(Split(line, COMMA), 0, acc);
    }
  }

  lemma {:induction false} LinesAcceptedIff(lines: seq<bytes>, acc: Acc)
    ensures DecodeLines(lines, acc).Ok? <==> forall line :: line in lines ==> AcceptedLine(line)
  {
    if lines != [] {
      var line, rest := lines[0], lines[1..];
      assert lines == [line] + rest;
      LineAcceptedIff(line, acc);
      if DecodeLine(line, acc).Ok? {
        LinesAcceptedIff(rest, DecodeLine(line, acc).value.1);
      }
    }
  }

  /** A mappings string is accepted exactly if each segment is empty or one, four or five complete VLQ values. */
  lemma AcceptedIff(mappings: bytes)
    ensures DecodeMappings(mappings).Ok? <==> forall line :: line in Split(mappings, SEMICOLON) ==> AcceptedLine(line)
  {
    LinesAcceptedIff(Split(mappings, SEMICOLON), START);
  }

  lemma {:induction false} EmptySegmentIsSkipped(a: seq<bytes>, b: seq<bytes>, genCol: int, acc: Acc)
    ensures DecodeSegments(a + [[]] + b, genCol, acc) == DecodeSegments(a + b, genCol, acc)
  {
    if a == [] {
      assert (a + [[]] + b)[1..] == b && a + b == b;
    } else {
      assert (a + [[]] + b)[1..] == a[1..] + [[]] + b && (a + b)[1..] == a[1..] + b;
      if a[0] == [] {
        EmptySegmentIsSkipped(a[1..], b, genCol, acc);
      } else if SegmentFields(a[0]).Ok? {
        var (seg, acc') := Apply(SegmentFields(a[0]).value, genCol, acc);
        EmptySegmentIsSkipped(a[1..], b, seg.genCol, acc');
      }
    }
  }

  /** Doubling a comma changes nothing. */
  lemma StrayCommaIsIgnored(x: bytes, y: bytes, acc: Acc)
    ensures DecodeLine(x + [COMMA] + ([COMMA] + y), acc) == DecodeLine(x + [COMMA] + y, acc)
  {
    SplitAtSeparator(x, [COMMA] + y, COMMA);
    SplitAtSeparator(x, y, COMMA);
    SplitAtSeparator([], y, COMMA);
    assert [] + [COMMA] + y == [COMMA] + y;
    var none: bytes := [];
    assert Split(none, COMMA) == [none];
    assert Split(x, COMMA) + ([none] + Split(y, COMMA)) == Split(x, COMMA) + [none] + Split(y, COMMA);
    EmptySegmentIsSkipped(Split(x, COMMA), Split(y, COMMA), 0, acc);
  }

  // ---- Encoding, and the round trip

  /** A segment the wire format can express: a name needs a source, and absent fields are zero. */
  predicate WellFormed(seg: Segment) {
    && IsInt64(seg.genCol) && IsInt64(seg.srcIdx) && IsInt64(seg.srcLine) && IsInt64(seg.srcCol) && IsInt64(seg.nameIdx)
    && (seg.hasName ==> seg.hasSource)
    && (!seg.hasSource ==> seg.srcIdx == seg.srcLine == seg.srcCol == 0)
    && (!seg.hasName ==> seg.nameIdx == 0)
  }

  predicate Fits(delta: int) {
    -TWO_62 < delta < TWO_62
  }

  function After(seg: Segment, acc: Acc): Acc {
    var acc' := if seg.hasSource then Acc(seg.srcIdx, seg.srcLine, seg.srcCol, acc.nameIdx) else acc;
    if seg.hasName then acc'.(nameIdx := seg.nameIdx) else acc'
  }

  function Deltas(seg: Segment, genCol: int, acc: Acc): seq<int> {
    [seg.genCol - genCol]
    + (if seg.hasSource then [seg.srcIdx - acc.srcIdx, seg.srcLine - acc.srcLine, seg.srcCol - acc.srcCol] else [])
    + (if seg.hasName then [seg.nameIdx - acc.nameIdx] else [])
  }

  /** Every delta on the way through a line is one a VLQ value can carry. */
  predicate EncodableLine(line: Line, genCol: int, acc: Acc) {
    line == [] ||
    (&& WellFormed(line[0])
     && (forall d :: d in Deltas(line[0], genCol, acc) ==> Fits(d))
     && EncodableLine(line[1..], line[0].genCol, After(line[0], acc)))
  }

  function AfterLine(line: Line, acc: Acc): Acc {
    if line == [] then acc else AfterLine(line[1..], After(line[0], acc))
  }

  predicate Encodable(lines: seq<Line>, acc: Acc) {
    lines == [] || (EncodableLine(lines[0], 0, acc) && Encodable(lines[1..], AfterLine(lines[0], acc)))
  }

  function EncodeFields(fs: seq<int>): bytes {
    if fs == [] then [] else Encode(fs[0]) + EncodeFields(fs[1..])
  }

  function EncodeSegments(line: Line, genCol: int, acc: Acc): (strs: seq<bytes>)
    ensures |strs| == |line|
  {
    if line == [] then []
    else [EncodeFields(Deltas(line[0], genCol, acc))]
         + EncodeSegments(line[1..], line[0].genCol, After(line[0], acc))
  }

  function EncodeLine(line: Line, acc: Acc): bytes {
    if line == [] then [] else Join(EncodeSegments(line, 0, acc), COMMA)
  }

  function EncodeLines(lines: seq<Line>, acc: Acc): (strs: seq<bytes>)
    ensures |strs| == |lines|
  {
    if lines == [] then []
    else [EncodeLine(lines[0], acc)] + EncodeLines(lines[1..], AfterLine(lines[0], acc))
  }

  function EncodeMappings(lines: seq<Line>): bytes
    requires lines != []
  {
    Join(EncodeLines(lines, START), SEMICOLON)
  }

  predicate Digits(s: bytes) {
    forall b :: b in s ==> DigitValue(b) >= 0
  }

  lemma {:induction false} VlqIsDigits(ds: bytes)
    requires IsVlq(ds)
    ensures Digits(ds)
  {
    if |ds| > 1 {
      VlqIsDigits(ds[1..]);
      assert ds == [ds[0]] + ds[1..];
    }
  }

  lemma {:induction false} EncodeFieldsIsDigits(fs: seq<int>)
    ensures Digits(EncodeFields(fs))
    ensures fs != [] ==> EncodeFields(fs) != []
  {
    if fs != [] {
      VlqIsDigits(Encode(fs[0]));
      EncodeFieldsIsDigits(fs[1..]);
    }
  }

  // ---- What the decoder makes of each delta

  /** A 64-bit sum with the delta comes out right: either VLQ carries it, or it is off by a multiple of 2^64. */
  predicate Recoverable(delta: int) {
    Fits(delta) || delta <= -3 * TWO_62 || delta >= 3 * TWO_62
  }

  predicate RecoverableLine(line: Line, genCol: int, acc: Acc) {
    line == [] ||
    (&& (forall d :: d in Deltas(line[0], genCol, acc) ==> Recoverable(d))
     && RecoverableLine(line[1..], line[0].genCol, After(line[0], acc)))
  }

  predicate AllRecoverable(lines: seq<Line>, acc: Acc) {
    lines == [] || (RecoverableLine(lines[0], 0, acc) && AllRecoverable(lines[1..], AfterLine(lines[0], acc)))
  }

  predicate WellFormedLine(line: Line) {
    forall seg :: seg in line ==> WellFormed(seg)
  }

  predicate WellFormedLines(lines: seq<Line>) {
    forall line :: line in lines ==> WellFormedLine(line)
  }

  predicate AccIsInt64(acc: Acc) {
    IsInt64(acc.srcIdx) && IsInt64(acc.srcLine) && IsInt64(acc.srcCol) && IsInt64(acc.nameIdx)
  }

  /** The decoder is off by a multiple of 2^63: none, an odd one, or 2^64. */
  lemma MachineValueIs(d: int)
    requires -TWO_64 < d < TWO_64
    ensures MachineValue(d) ==
            if Fits(d) then d
            else if Recoverable(d) then (if d > 0 then d - TWO_64 else d + TWO_64)
            else if d > 0 then d - TWO_63 else d + TWO_63
  {
    var u := SignLowest(d);
    assert Wrap64(u) == if u < TWO_63 then u else if u < TWO_63 + TWO_64 then u - TWO_64 else u - 2 * TWO_64;
  }

  lemma FieldRecovered(from: int, to: int)
    requires IsInt64(from) && IsInt64(to)
    ensures Wrap64(from + MachineValue(to - from)) == to <==> Recoverable(to - from)
  {
    MachineValueIs(to - from);
  }

  function MachineValues(fs: seq<int>): (ms: seq<int>)
    ensures |ms| == |fs|
  {
    seq(|fs|, i requires 0 <= i < |fs| => MachineValue(fs[i]))
  }

  lemma {:induction false} EncodedFields(fs: seq<int>)
    ensures Fields(EncodeFields(fs)) == Ok(MachineValues(fs))
  {
    if fs != [] {
      DecodeDenotes(Encode(fs[0]), EncodeFields(fs[1..]));
      EncodedFields(fs[1..]);
      assert [MachineValue(fs[0])] + MachineValues(fs[1..]) == MachineValues(fs);
    }
  }

  /** What each field of a segment is added to, and what the sum should be. */
  function Sums(seg: Segment, genCol: int, acc: Acc): (r: seq<(int, int)>)
    ensures |r| == |Deltas(seg, genCol, acc)|
    ensures forall k :: 0 <= k < |r| ==> Deltas(seg, genCol, acc)[k] == r[k].1 - r[k].0
  {
    [(genCol, seg.genCol)]
    + (if seg.hasSource
       then [(acc.srcIdx, seg.srcIdx), (acc.srcLine, seg.srcLine), (acc.srcCol, seg.srcCol)] else [])
    + (if seg.hasName then [(acc.nameIdx, seg.nameIdx)] else [])
  }

  predicate Meets(sum: (int, int), value: int) {
    Wrap64(sum.0 + value) == sum.1
  }

  predicate AllMeet(sums: seq<(int, int)>, values: seq<int>) {
    |values| == |sums| && forall k :: 0 <= k < |sums| ==> Meets(sums[k], values[k])
  }

  /** Applying values to the state a segment follows gives that segment exactly if every sum comes out right. */
  lemma ApplyGives(seg: Segment, genCol: int, acc: Acc, values: seq<int>)
    requires WellFormed(seg) && |values| == |Deltas(seg, genCol, acc)|
    ensures |values| in {1, 4, 5}
    ensures Apply(values, genCol, acc).0 == seg <==> AllMeet(Sums(seg, genCol, acc), values)
    ensures Apply(values, genCol, acc).0 == seg ==> Apply(values, genCol, acc).1 == After(seg, acc)
  {
  }

  lemma SumsRecovered(sums: seq<(int, int)>, fs: seq<int>)
    requires |sums| == |fs| && forall k :: 0 <= k < |fs| ==> IsInt64(sums[k].0) && IsInt64(sums[k].1)
    requires forall k :: 0 <= k < |fs| ==> fs[k] == sums[k].1 - sums[k].0
    ensures AllMeet(sums, MachineValues(fs)) <==> forall d :: d in fs ==> Recoverable(d)
  {
    forall k | 0 <= k < |fs| ensures Meets(sums[k], MachineValues(fs)[k]) <==> Recoverable(fs[k]) {
      FieldRecovered(sums[k].0, sums[k].1);
    }
  }

  /** The decoded segment is the encoded one exactly if all its deltas are recoverable. */
  lemma AppliedDeltas(seg: Segment, genCol: int, acc: Acc)
    requires WellFormed(seg) && IsInt64(genCol) && AccIsInt64(acc)
    ensures |Deltas(seg, genCol, acc)| in {1, 4, 5}
    ensures var fs := Deltas(seg, genCol, acc);
            Apply(MachineValues(fs), genCol, acc).0 == seg <==> forall d :: d in fs ==> Recoverable(d)
    ensures var r := Apply(MachineValues(Deltas(seg, genCol, acc)), genCol, acc);
            r.0 == seg ==> r.1 == After(seg, acc)
  {
    var fs, sums := Deltas(seg, genCol, acc), Sums(seg, genCol, acc);
    ApplyGives(seg, genCol, acc, MachineValues(fs));
    SumsAreInt64(seg, genCol, acc);
    SumsRecovered(sums, fs);
  }

  lemma SumsAreInt64(seg: Segment, genCol: int, acc: Acc)
    requires WellFormed(seg) && IsInt64(genCol) && AccIsInt64(acc)
    ensures forall sum :: sum in Sums(seg, genCol, acc) ==> IsInt64(sum.0) && IsInt64(sum.1)
  {
  }

  lemma {:induction false} SegmentsRoundTripIff(line: Line, genCol: int, acc: Acc)
    requires WellFormedLine(line) && IsInt64(genCol) && AccIsInt64(acc)
    ensures var r := DecodeSegments(EncodeSegments(line, genCol, acc), genCol, acc);
            if RecoverableLine(line, genCol, acc) then r == Ok((line, AfterLine(line, acc)))
            else r.Ok? ==> r.value.0 != line
    ensures forall s :: s in EncodeSegments(line, genCol, acc) ==> Digits(s)
    ensures AccIsInt64(AfterLine(line, acc))
  {
    if line != [] {
      var seg, fs := line[0], Deltas(line[0], genCol, acc);
      var strs := EncodeSegments(line, genCol, acc);
      var rest := EncodeSegments(line[1..], line[0].genCol, After(line[0], acc));
      assert seg in line;
      EncodeFieldsIsDigits(fs);
      EncodedFields(fs);
      AppliedDeltas(seg, genCol, acc);
      SegmentsRoundTripIff(line[1..], seg.genCol, After(seg, acc));
      assert strs[0] == EncodeFields(fs) && strs[1..] == rest;
      assert [seg] + line[1..] == line;
    }
  }

  lemma {:induction false} JoinDigits(parts: seq<bytes>, sep: byte)
    requires |parts| >= 1 && forall p :: p in parts ==> Digits(p)
    ensures forall b :: b in Join(parts, sep) ==> b == sep || DigitValue(b) >= 0
    ensures parts[0] != [] ==> Join(parts, sep) != []
  {
    assert parts[0] in parts;
    if |parts| > 1 {
      JoinDigits(parts[1..], sep);
    }
  }

  lemma EncodedLineSplits(line: Line, acc: Acc)
    requires line != [] && forall s :: s in EncodeSegments(line, 0, acc) ==> Digits(s)
    ensures EncodeLine(line, acc) != [] && SEMICOLON !in EncodeLine(line, acc)
    ensures Split(EncodeLine(line, acc), COMMA) == EncodeSegments(line, 0, acc)
  {
    var strs := EncodeSegments(line, 0, acc);
    EncodeFieldsIsDigits(Deltas(line[0], 0, acc));
    JoinDigits(strs, COMMA);
    SplitJoin(strs, COMMA);
  }

  lemma LineRoundTripIff(line: Line, acc: Acc)
    requires WellFormedLine(line) && AccIsInt64(acc)
    ensures var r := DecodeLine(EncodeLine(line, acc), acc);
            if RecoverableLine(line, 0, acc) then r == Ok((line, AfterLine(line, acc)))
            else r.Ok? ==> r.value.0 != line
    ensures SEMICOLON !in EncodeLine(line, acc)
    ensures AccIsInt64(AfterLine(line, acc))
  {
    if line != [] {
      SegmentsRoundTripIff(line, 0, acc);
      EncodedLineSplits(line, acc);
    }
  }

  lemma {:induction false} LinesRoundTripIff(lines: seq<Line>, acc: Acc)
    requires WellFormedLines(lines) && AccIsInt64(acc)
    ensures var r := DecodeLines(EncodeLines(lines, acc), acc);
            r.Ok? && r.value.0 == lines <==> AllRecoverable(lines, acc)
    ensures forall s :: s in EncodeLines(lines, acc) ==> SEMICOLON !in s
  {
    if lines != [] {
      var line, more, acc' := lines[0], lines[1..], AfterLine(lines[0], acc);
      var str, strs := EncodeLine(line, acc), EncodeLines(more, acc');
      assert line in lines && lines == [line] + more;
      LineRoundTripIff(line, acc);
      LinesRoundTripIff(more, acc');
      assert EncodeLines(lines, acc) == [str] + strs;
      FirstLineDecides(str, strs, acc, line, more);
    }
  }

  /** Whether a list of lines is decoded depends on its first line and, if that is, on the others from where it ends. */
  lemma FirstLineDecides(str: bytes, strs: seq<bytes>, acc: Acc, line: Line, more: seq<Line>)
    ensures var first, all := DecodeLine(str, acc), DecodeLines([str] + strs, acc);
            (all.Ok? && all.value.0 == [line] + more) <==>
              (first.Ok? && first.value.0 == line
               && var rest := DecodeLines(strs, first.value.1); rest.Ok? && rest.value.0 == more)
  {
    assert ([str] + strs)[1..] == strs;
    var all := DecodeLines([str] + strs, acc);
    if all.Ok? {
      var rest := DecodeLines(strs, DecodeLine(str, acc).value.1);
      assert all.value.0[0] == DecodeLine(str, acc).value.0 && all.value.0[1..] == rest.value.0;
      assert ([line] + more)[1..] == more;
    }
  }

  /** Exactly when decoding the delta encoding of well-formed lines gives them back. */
  lemma MappingsRoundTripIff(lines: seq<Line>)
    requires lines != [] && WellFormedLines(lines)
    ensures DecodeMappings(EncodeMappings(lines)) == Ok(lines) <==> AllRecoverable(lines, START)
  {
    LinesRoundTripIff(lines, START);
    SplitJoin(EncodeLines(lines, START), SEMICOLON);
  }

  lemma {:induction false} EncodableLineIsRecoverable(line: Line, genCol: int, acc: Acc)
    requires EncodableLine(line, genCol, acc)
    ensures WellFormedLine(line) && RecoverableLine(line, genCol, acc)
  {
    if line != [] {
      EncodableLineIsRecoverable(line[1..], line[0].genCol, After(line[0], acc));
      assert line == [line[0]] + line[1..];
    }
  }

  lemma {:induction false} EncodableIsRecoverable(lines: seq<Line>, acc: Acc)
    requires Encodable(lines, acc)
    ensures WellFormedLines(lines) && AllRecoverable(lines, acc)
  {
    if lines != [] {
      EncodableLineIsRecoverable(lines[0], 0, acc);
      EncodableIsRecoverable(lines[1..], AfterLine(lines[0], acc));
      assert lines == [lines[0]] + lines[1..];
    }
  }

  /** Decoding the delta encoding of any non-empty list of encodable lines gives back exactly those lines. */
  lemma MappingsRoundTrip(lines: seq<Line>)
    requires lines != [] && Encodable(lines, START)
    ensures DecodeMappings(EncodeMappings(lines)) == Ok(lines)
  {
    EncodableIsRecoverable(lines, START);
    MappingsRoundTripIff(lines);
  }

  // ---- Fields in the range of real source maps are always encodable

  predicate InRange(seg: Segment) {
    && 0 <= seg.genCol < TWO_62 && 0 <= seg.srcIdx < TWO_62 && 0 <= seg.srcLine < TWO_62
    && 0 <= seg.srcCol < TWO_62 && 0 <= seg.nameIdx < TWO_62
  }

  predicate AccInRange(acc: Acc) {
    0 <= acc.srcIdx < TWO_62 && 0 <= acc.srcLine < TWO_62 && 0 <= acc.srcCol < TWO_62 && 0 <= acc.nameIdx < TWO_62
  }

  lemma {:induction false} LineInRangeIsEncodable(line: Line, genCol: int, acc: Acc)
    requires 0 <= genCol < TWO_62 && AccInRange(acc)
    requires forall seg :: seg in line ==> WellFormed(seg) && InRange(seg)
    ensures EncodableLine(line, genCol, acc) && AccInRange(AfterLine(line, acc))
  {
    if line != [] {
      assert line[0] in line;
      LineInRangeIsEncodable(line[1..], line[0].genCol, After(line[0], acc));
    }
  }

  lemma {:induction false} InRangeIsEncodable(lines: seq<Line>, acc: Acc)
    requires AccInRange(acc)
    requires forall line, seg :: line in lines && seg in line ==> WellFormed(seg) && InRange(seg)
    ensures Encodable(lines, acc)
  {
    if lines != [] {
      assert lines[0] in lines;
      LineInRangeIsEncodable(lines[0], 0, acc);
      InRangeIsEncodable(lines[1..], AfterLine(lines[0], acc));
    }
  }
}
