/** Looking up an original position in a decoded source map. */
module Resolver {
  import opened Basics
  import opened Text
  import opened Mappings
  import Vlq

  /** The JSON document, as far as it is read. */
  datatype Document = Document(version: int, sources: seq<string>, names: seq<string>, mappings: bytes)

  datatype SourceMap = SourceMap(sources: seq<string>, names: seq<string>, lines: seq<Line>)

  datatype Position = Position(source: string, line: int, column: int, name: string, hasName: bool)

  /** `Parse`, with JSON decoding left to the caller: wrong versions and bad mappings are rejected. */
  function Parse(content: bytes, json: bytes -> Option<Document>): Option<SourceMap> {
    match json(content)
    case None => None
    case Some(doc) =>
      if doc.version != 3 then None
      else
        match DecodeMappings(doc.mappings)
        case Err(_) => None
        case Ok(lines) => Some(SourceMap(doc.sources, doc.names, lines))
  }

  /** A document is accepted exactly if it is of version 3 and its mappings decode, and keeps its sources and names. */
  lemma ParseIff(content: bytes, json: bytes -> Option<Document>, sm: SourceMap)
    ensures Parse(content, json) == Some(sm) <==>
            exists doc :: json(content) == Some(doc) && doc.version == 3 && DecodeMappings(doc.mappings) == Ok(sm.lines)
                          && doc.sources == sm.sources && doc.names == sm.names
  {
  }

  /** `sort.Search` for the first segment in [i, j) whose column is beyond the query. */
  function Search(segs: Line, query: int, i: nat, j: nat): (k: nat)
    requires i <= j <= |segs|
    ensures i <= k <= j
    decreases j - i
  {
    if i < j then
      var h := (i + j) / 2;
      if segs[h].genCol > query then Search(segs, query, i, h) else Search(segs, query, h + 1, j)
    else i
  }

  function PositionOf(sm: SourceMap, seg: Segment): Option<Position> {
    if !seg.hasSource then None
    else
      var named := seg.hasName && 0 <= seg.nameIdx < |sm.names|;
      Some(Position(
        if 0 <= seg.srcIdx < |sm.sources| then sm.sources[seg.srcIdx] else "",
        seg.srcLine, seg.srcCol,
        if named then sm.names[seg.nameIdx] else "", named))
  }

  function Resolve(sm: SourceMap, genLine: int, genCol: int): Option<Position> {
    if genLine < 0 || genLine >= |sm.lines| then None
    else
      var segs := sm.lines[genLine];
      if |segs| == 0 then None
      else
        var idx := Search(segs, genCol, 0, |segs|) - 1;
        if idx < 0 then None else PositionOf(sm, segs[idx])
  }

  // ---- The specification: scan the line for the last segment at or before the query

  predicate Sorted(segs: Line) {
    forall i, j :: 0 <= i < j < |segs| ==> segs[i].genCol <= segs[j].genCol
  }

  /** One past the last segment whose column is at or before the query; 0 if there is none. */
  function Target(segs: Line, query: int): (t: nat)
    ensures t <= |segs|
    ensures t > 0 ==> segs[t - 1].genCol <= query
    ensures forall j :: t <= j < |segs| ==> segs[j].genCol > query
  {
    if segs == [] then 0
    else
      var n := |segs| - 1;
      if segs[n].genCol <= query then n + 1 else Target(segs[..n], query)
  }

  /** The last segment of the line whose column is at or before the query. */
  function LastAtOrBefore(segs: Line, query: int): Option<Segment> {
    var t := Target(segs, query);
    if t == 0 then None else Some(segs[t - 1])
  }

  function ScanResolve(sm: SourceMap, genLine: int, genCol: int): Option<Position> {
    if genLine < 0 || genLine >= |sm.lines| then None
    else
      match LastAtOrBefore(sm.lines[genLine], genCol)
      case None => None
      case Some(seg) => PositionOf(sm, seg)
  }

  /** Whatever the order of the segments, the search stops between a column at or before the query and one beyond it. */
  lemma {:induction false} SearchBoundary(segs: Line, query: int, i: nat, j: nat)
    requires i <= j <= |segs|
    requires i > 0 ==> segs[i - 1].genCol <= query
    requires j < |segs| ==> segs[j].genCol > query
    ensures var k := Search(segs, query, i, j);
            && (k > 0 ==> segs[k - 1].genCol <= query)
            && (k < |segs| ==> segs[k].genCol > query)
    decreases j - i
  {
    if i < j {
      var h := (i + j) / 2;
      if segs[h].genCol > query {
        assert Search(segs, query, i, j) == Search(segs, query, i, h);
        SearchBoundary(segs, query, i, h);
      } else {
        assert Search(segs, query, i, j) == Search(segs, query, h + 1, j);
        SearchBoundary(segs, query, h + 1, j);
      }
    }
  }

  /** Every segment that the bisection of [i, j) probes on its way to t lies beyond t or at or before the query. */
  predicate PathClear(segs: Line, query: int, i: nat, j: nat, t: nat)
    requires i <= t <= j <= |segs|
    decreases j - i
  {
    i < j ==>
      var h := (i + j) / 2;
      if h < t then segs[h].genCol <= query && PathClear(segs, query, h + 1, j, t)
      else PathClear(segs, query, i, h, t)
  }

  lemma {:induction false} SearchFollowsPath(segs: Line, query: int, i: nat, j: nat)
    requires i <= Target(segs, query) <= j <= |segs|
    ensures Search(segs, query, i, j) == Target(segs, query) <==> PathClear(segs, query, i, j, Target(segs, query))
    decreases j - i
  {
    if i < j {
      var h, t := (i + j) / 2, Target(segs, query);
      if h < t && segs[h].genCol <= query {
        SearchFollowsPath(segs, query, h + 1, j);
      } else if h >= t {
        SearchFollowsPath(segs, query, i, h);
      }
    }
  }

  /** The search finds the last segment at or before the query. */
  predicate SearchExact(segs: Line, query: int) {
    Search(segs, query, 0, |segs|) == Target(segs, query)
  }

  /** On any line the search is exact for a query exactly if no probe on the way to its segment misleads it. */
  lemma SearchExactIffPathClear(segs: Line, query: int)
    ensures SearchExact(segs, query) <==> PathClear(segs, query, 0, |segs|, Target(segs, query))
  {
    SearchFollowsPath(segs, query, 0, |segs|);
  }

  // ---- The same as a condition on the line alone

  /** All columns from t on lie beyond the one before t, so some queries end at t. */
  predicate Exposed(segs: Line, t: nat) {
    0 < t <= |segs| && forall j :: t <= j < |segs| ==> segs[j].genCol > segs[t - 1].genCol
  }

  /** The bisection that ends after segment t - 1 probes nothing to its left that has a larger column. */
  predicate Reachable(segs: Line, t: nat)
    requires 0 < t <= |segs|
  {
    PathClear(segs, segs[t - 1].genCol, 0, |segs|, t)
  }

  lemma ExposedIsTarget(segs: Line, query: int, t: nat)
    requires t <= |segs| && (t > 0 ==> segs[t - 1].genCol <= query)
    requires forall j :: t <= j < |segs| ==> segs[j].genCol > query
    ensures Target(segs, query) == t
  {
  }

  /** A larger query makes no probe worse, and a path to the very start has no probe to mislead. */
  lemma {:induction false} PathClearMonotone(segs: Line, low: int, high: int, i: nat, j: nat, t: nat)
    requires i <= t <= j <= |segs| && low <= high
    requires t > i ==> PathClear(segs, low, i, j, t)
    ensures PathClear(segs, high, i, j, t)
    decreases j - i
  {
    if i < j {
      var h := (i + j) / 2;
      if h < t {
        PathClearMonotone(segs, low, high, h + 1, j, t);
      } else {
        PathClearMonotone(segs, low, high, i, h, t);
      }
    }
  }

  lemma ExactIsReachable(segs: Line, t: nat)
    requires Exposed(segs, t) && SearchExact(segs, segs[t - 1].genCol)
    ensures Reachable(segs, t)
  {
    ExposedIsTarget(segs, segs[t - 1].genCol, t);
    SearchExactIffPathClear(segs, segs[t - 1].genCol);
  }

  lemma ReachableIsExact(segs: Line, query: int)
    requires var t := Target(segs, query); t > 0 ==> Reachable(segs, t)
    ensures SearchExact(segs, query)
  {
    var t := Target(segs, query);
    var low := if t > 0 then segs[t - 1].genCol else query;
    PathClearMonotone(segs, low, query, 0, |segs|, t);
    SearchExactIffPathClear(segs, query);
  }

  /** The search is exact for every query of a line exactly if every exposed segment is reachable in the bisection. */
  lemma LineExactIff(segs: Line)
    ensures (forall query :: SearchExact(segs, query)) <==> (forall t :: Exposed(segs, t) ==> Reachable(segs, t))
  {
    if forall query :: SearchExact(segs, query) {
      forall t | Exposed(segs, t) ensures Reachable(segs, t) {
        ExactIsReachable(segs, t);
      }
    }
    if forall t :: Exposed(segs, t) ==> Reachable(segs, t) {
      forall query ensures SearchExact(segs, query) {
        var t := Target(segs, query);
        assert t > 0 ==> Exposed(segs, t);
        ReachableIsExact(segs, query);
      }
    }
  }

  // ---- Positions

  /** Whenever the probes are clear, the answer is the linear scan's. */
  lemma ResolveExactIfPathClear(sm: SourceMap, genLine: int, genCol: int)
    requires 0 <= genLine < |sm.lines| ==>
      var segs := sm.lines[genLine]; PathClear(segs, genCol, 0, |segs|, Target(segs, genCol))
    ensures Resolve(sm, genLine, genCol) == ScanResolve(sm, genLine, genCol)
  {
    if 0 <= genLine < |sm.lines| {
      SearchExactIffPathClear(sm.lines[genLine], genCol);
    }
  }

  /** Every segment resolves, and no two of them to the same position. */
  predicate Distinguishable(sm: SourceMap, segs: Line) {
    && (forall k :: 0 <= k < |segs| ==> PositionOf(sm, segs[k]).Some?)
    && forall i, j :: 0 <= i < j < |segs| ==> PositionOf(sm, segs[i]) != PositionOf(sm, segs[j])
  }

  /** The answer when the lookup ends after t segments. */
  function EndingAt(sm: SourceMap, segs: Line, t: nat): Option<Position>
    requires t <= |segs|
  {
    if t == 0 then None else PositionOf(sm, segs[t - 1])
  }

  lemma EndsDiffer(sm: SourceMap, segs: Line, t: nat, u: nat)
    requires Distinguishable(sm, segs) && t <= |segs| && u <= |segs| && t != u
    ensures EndingAt(sm, segs, t) != EndingAt(sm, segs, u)
  {
    if t > 0 && u > 0 {
      assert PositionOf(sm, segs[t - 1]) != PositionOf(sm, segs[u - 1]);
    }
  }

  lemma AnswersEnd(sm: SourceMap, genLine: nat, genCol: int)
    requires genLine < |sm.lines|
    ensures var segs := sm.lines[genLine];
            && Resolve(sm, genLine, genCol) == EndingAt(sm, segs, Search(segs, genCol, 0, |segs|))
            && ScanResolve(sm, genLine, genCol) == EndingAt(sm, segs, Target(segs, genCol))
  {
  }

  /** On a line whose segments resolve differently, clear probes are also necessary for the scan's answer. */
  lemma ResolveExactIffPathClear(sm: SourceMap, genLine: nat, genCol: int)
    requires genLine < |sm.lines| && Distinguishable(sm, sm.lines[genLine])
    ensures var segs := sm.lines[genLine];
            Resolve(sm, genLine, genCol) == ScanResolve(sm, genLine, genCol)
            <==> PathClear(segs, genCol, 0, |segs|, Target(segs, genCol))
  {
    var segs := sm.lines[genLine];
    SearchExactIffPathClear(segs, genCol);
    AnswersEnd(sm, genLine, genCol);
    if !SearchExact(segs, genCol) {
      EndsDiffer(sm, segs, Search(segs, genCol, 0, |segs|), Target(segs, genCol));
    }
  }

  lemma {:induction false} SortedIsPathClear(segs: Line, query: int, i: nat, j: nat)
    requires Sorted(segs) && i <= Target(segs, query) <= j <= |segs|
    ensures PathClear(segs, query, i, j, Target(segs, query))
    decreases j - i
  {
    if i < j {
      var h, t := (i + j) / 2, Target(segs, query);
      if h < t {
        assert h < t - 1 ==> segs[h].genCol <= segs[t - 1].genCol;
        SortedIsPathClear(segs, query, h + 1, j);
      } else {
        SortedIsPathClear(segs, query, i, h);
      }
    }
  }

  /** On a sorted line the binary search answers every query exactly as the linear scan does. */
  lemma ResolveRefinesScan(sm: SourceMap, genLine: int, genCol: int)
    requires 0 <= genLine < |sm.lines| ==> Sorted(sm.lines[genLine])
    ensures Resolve(sm, genLine, genCol) == ScanResolve(sm, genLine, genCol)
  {
    if 0 <= genLine < |sm.lines| {
      SortedIsPathClear(sm.lines[genLine], genCol, 0, |sm.lines[genLine]|);
    }
    ResolveExactIfPathClear(sm, genLine, genCol);
  }

  /** A segment covers the columns from its own up to the next one's. */
  lemma SegmentCovers(sm: SourceMap, genLine: nat, k: nat, genCol: int)
    requires genLine < |sm.lines| && k < |sm.lines[genLine]| && Sorted(sm.lines[genLine])
    requires sm.lines[genLine][k].genCol <= genCol
    requires k + 1 < |sm.lines[genLine]| ==> genCol < sm.lines[genLine][k + 1].genCol
    ensures Resolve(sm, genLine, genCol) == PositionOf(sm, sm.lines[genLine][k])
  {
    SearchBoundary(sm.lines[genLine], genCol, 0, |sm.lines[genLine]|);
  }

  // ---- When are decoded lines sorted?

  /** The generated-column deltas of the non-empty segments, in order. */
  function ColumnDeltas(strs: seq<bytes>): seq<int> {
    if strs == [] then []
    else if strs[0] == [] || SegmentFields(strs[0]).Err? then ColumnDeltas(strs[1..])
    else [SegmentFields(strs[0]).value[0]] + ColumnDeltas(strs[1..])
  }

  function Sum(ds: seq<int>): int {
    if ds == [] then 0 else ds[0] + Sum(ds[1..])
  }

  lemma {:induction false} SumSnoc(ds: seq<int>, i: nat)
    requires i < |ds|
    ensures Sum(ds[..i + 1]) == Sum(ds[..i]) + ds[i]
  {
    assert ds[..i + 1][1..] == ds[1..][..i];
    if i > 0 {
      assert ds[..i][1..] == ds[1..][..i - 1];
      SumSnoc(ds[1..], i - 1);
    }
  }

  predicate ColumnsMatch(genCol: int, segs: Line, ds: seq<int>) {
    |segs| == |ds| && forall i :: 0 <= i < |ds| ==> segs[i].genCol == Wrap64(genCol + Sum(ds[..i + 1]))
  }

  lemma FirstSegment(strs: seq<bytes>, genCol: int, acc: Acc) returns (seg: Segment, d: int, acc': Acc)
    requires strs != [] && strs[0] != [] && DecodeSegments(strs, genCol, acc).Ok?
    ensures seg.genCol == Wrap64(genCol + d) && ColumnDeltas(strs) == [d] + ColumnDeltas(strs[1..])
    ensures DecodeSegments(strs[1..], seg.genCol, acc').Ok?
    ensures DecodeSegments(strs, genCol, acc).value.0 == [seg] + DecodeSegments(strs[1..], seg.genCol, acc').value.0
  {
    var fs := SegmentFields(strs[0]).value;
    d := fs[0];
    seg, acc' := Apply(fs, genCol, acc).0, Apply(fs, genCol, acc).1;
  }

  /** Every column is the running sum of the deltas before it, modulo 2^64. */
  lemma {:induction false} ColumnsAreSums(strs: seq<bytes>, genCol: int, acc: Acc)
    requires IsInt64(genCol) && DecodeSegments(strs, genCol, acc).Ok?
    ensures ColumnsMatch(genCol, DecodeSegments(strs, genCol, acc).value.0, ColumnDeltas(strs))
  {
    if strs != [] {
      if strs[0] == [] {
        ColumnsAreSums(strs[1..], genCol, acc);
      } else {
        var seg, d, acc' := FirstSegment(strs, genCol, acc);
        ColumnsAreSums(strs[1..], seg.genCol, acc');
        ColumnsCons(genCol, seg, d, DecodeSegments(strs[1..], seg.genCol, acc').value.0, ColumnDeltas(strs[1..]));
      }
    }
  }

  lemma ColumnsCons(genCol: int, seg: Segment, d: int, segs: Line, ds: seq<int>)
    requires seg.genCol == Wrap64(genCol + d) && ColumnsMatch(seg.genCol, segs, ds)
    ensures ColumnsMatch(genCol, [seg] + segs, [d] + ds)
  {
    forall i | 0 <= i < |ds| + 1 ensures ([seg] + segs)[i].genCol == Wrap64(genCol + Sum(([d] + ds)[..i + 1])) {
      assert ([d] + ds)[..i + 1][1..] == ds[..i];
      if i > 0 {
        assert i - 1 + 1 == i;
        WrapAdd(genCol + d, Sum(ds[..i]));
      }
    }
  }

  /** All running column sums of a line stay representable. */
  predicate ColumnsFit(ds: seq<int>) {
    forall i :: 0 < i <= |ds| ==> IsInt64(Sum(ds[..i]))
  }

  lemma SortedIffAdjacent(segs: Line)
    ensures Sorted(segs) <==> forall i :: 1 <= i < |segs| ==> segs[i - 1].genCol <= segs[i].genCol
  {
    if forall i :: 1 <= i < |segs| ==> segs[i - 1].genCol <= segs[i].genCol {
      forall i, j | 0 <= i < j < |segs| ensures segs[i].genCol <= segs[j].genCol {
        AdjacentChain(segs, i, j);
      }
    }
  }

  lemma {:induction false} AdjacentChain(segs: Line, i: nat, j: nat)
    requires i <= j < |segs|
    requires forall k :: 1 <= k < |segs| ==> segs[k - 1].genCol <= segs[k].genCol
    ensures segs[i].genCol <= segs[j].genCol
    decreases j - i
  {
    if i < j {
      AdjacentChain(segs, i, j - 1);
    }
  }

  /** The i-th column is the exact sum of its deltas when that sum fits. */
  lemma ColumnAt(line: bytes, acc: Acc, i: nat)
    requires line != [] && DecodeLine(line, acc).Ok?
    ensures var segs, ds := DecodeLine(line, acc).value.0, ColumnDeltas(Split(line, COMMA));
            && |segs| == |ds|
            && (i < |ds| ==> segs[i].genCol == Wrap64(Sum(ds[..i + 1])) && Sum(ds[..i + 1]) == Sum(ds[..i]) + ds[i])
  {
    ColumnsAreSums(Split(line, COMMA), 0, acc);
    var ds := ColumnDeltas(Split(line, COMMA));
    if i < |ds| {
      SumSnoc(ds, i);
    }
  }

  /** While the sums fit in 64 bits, a decoded line is sorted exactly if no delta after its first is negative. */
  lemma SortedIffDeltasNonNegative(line: bytes, acc: Acc)
    requires line != [] && DecodeLine(line, acc).Ok?
    requires ColumnsFit(ColumnDeltas(Split(line, COMMA)))
    ensures Sorted(DecodeLine(line, acc).value.0) <==> NonNegativeAfterFirst(ColumnDeltas(Split(line, COMMA)))
  {
    var segs, ds := DecodeLine(line, acc).value.0, ColumnDeltas(Split(line, COMMA));
    ColumnAt(line, acc, 0);
    forall i | 1 <= i < |ds| ensures segs[i].genCol - segs[i - 1].genCol == ds[i] {
      ColumnAt(line, acc, i - 1);
      ColumnAt(line, acc, i);
      assert i - 1 + 1 == i;
    }
    SortedIffAdjacent(segs);
    if Sorted(segs) {
      forall i | 1 <= i < |ds| ensures ds[i] >= 0 {
        assert segs[i - 1].genCol <= segs[i].genCol;
      }
    } else {
      var i :| 1 <= i < |segs| && segs[i - 1].genCol > segs[i].genCol;
      assert ds[i] < 0;
    }
  }

  predicate NonNegativeAfterFirst(ds: seq<int>) {
    forall i :: 1 <= i < |ds| ==> ds[i] >= 0
  }

  /** With non-negative deltas after the first, a line can only fail to be sorted by overflowing 64 bits. */
  lemma SortedIffNoOverflow(line: bytes, acc: Acc)
    requires line != [] && DecodeLine(line, acc).Ok?
    requires NonNegativeAfterFirst(ColumnDeltas(Split(line, COMMA)))
    ensures Sorted(DecodeLine(line, acc).value.0) <==> ColumnsFit(ColumnDeltas(Split(line, COMMA)))
  {
    var segs, ds := DecodeLine(line, acc).value.0, ColumnDeltas(Split(line, COMMA));
    if ColumnsFit(ds) {
      SortedIffDeltasNonNegative(line, acc);
    } else {
      DeltasAreShort(Split(line, COMMA));
      var n := FirstMisfit(ds);
      ColumnAt(line, acc, n - 1);
      assert ds[n - 1] in ds;
      if n > 1 {
        OverflowDescends(line, acc, n);
      }
    }
  }

  /** The first column sum beyond 64 bits wraps to a column below its predecessor. */
  lemma OverflowDescends(line: bytes, acc: Acc, n: nat)
    requires line != [] && DecodeLine(line, acc).Ok?
    requires var ds := ColumnDeltas(Split(line, COMMA));
             1 < n <= |ds| && IsInt64(Sum(ds[..n - 1])) && !IsInt64(Sum(ds[..n])) && 0 <= ds[n - 1] <= TWO_62
    ensures !Sorted(DecodeLine(line, acc).value.0)
  {
    var segs, ds := DecodeLine(line, acc).value.0, ColumnDeltas(Split(line, COMMA));
    ColumnAt(line, acc, n - 2);
    ColumnAt(line, acc, n - 1);
    assert n - 2 + 1 == n - 1 && n - 1 + 1 == n;
    assert segs[n - 2].genCol == Sum(ds[..n - 1]);
    assert segs[n - 1].genCol == Sum(ds[..n]) - TWO_64;
  }

  lemma FirstMisfit(ds: seq<int>) returns (n: nat)
    requires !ColumnsFit(ds)
    ensures 0 < n <= |ds| && !IsInt64(Sum(ds[..n]))
    ensures forall i :: 0 < i < n ==> IsInt64(Sum(ds[..i]))
  {
    n := 1;
    while IsInt64(Sum(ds[..n]))
      invariant 1 <= n <= |ds|
      invariant forall i :: 0 < i < n ==> IsInt64(Sum(ds[..i]))
      decreases |ds| - n
    {
      if n == |ds| {
        assert ColumnsFit(ds);
        assert false;
        return;
      }
      n := n + 1;
    }
  }

  lemma FieldBounds(s: bytes)
    requires Fields(s).Ok? && s != []
    ensures -TWO_62 <= Fields(s).value[0] <= TWO_62
  {
    Vlq.DecodeConsumes(s);
  }

  lemma {:induction false} DeltasAreShort(strs: seq<bytes>)
    ensures forall d :: d in ColumnDeltas(strs) ==> -TWO_62 <= d <= TWO_62
  {
    if strs != [] {
      DeltasAreShort(strs[1..]);
      if strs[0] != [] && SegmentFields(strs[0]).Ok? {
        FieldBounds(strs[0]);
      }
    }
  }

  /** No descending segment delta and no overflow on a line. */
  predicate LineOrdered(line: bytes) {
    var ds := ColumnDeltas(Split(line, COMMA));
    ColumnsFit(ds) && NonNegativeAfterFirst(ds)
  }

  predicate WellOrdered(mappings: bytes) {
    forall line :: line in Split(mappings, SEMICOLON) ==> LineOrdered(line)
  }

  lemma {:induction false} WellOrderedLinesAreSorted(lines: seq<bytes>, acc: Acc)
    requires DecodeLines(lines, acc).Ok?
    requires forall line :: line in lines ==> LineOrdered(line)
    ensures forall segs :: segs in DecodeLines(lines, acc).value.0 ==> Sorted(segs)
  {
    if lines != [] {
      assert lines[0] in lines;
      if lines[0] != [] {
        SortedIffDeltasNonNegative(lines[0], acc);
      }
      WellOrderedLinesAreSorted(lines[1..], DecodeLine(lines[0], acc).value.1);
    }
  }

  /** From mappings string to answer: on well-ordered input every query is answered as the linear scan would. */
  lemma ParsedMapResolvesAsScan(content: bytes, json: bytes -> Option<Document>, genLine: int, genCol: int)
    requires json(content).Some? && json(content).value.version == 3
    requires var mappings := json(content).value.mappings; DecodeMappings(mappings).Ok? && WellOrdered(mappings)
    ensures Parse(content, json).Some?
    ensures var doc := json(content).value;
            var sm := SourceMap(doc.sources, doc.names, DecodeMappings(doc.mappings).value);
            Resolve(Parse(content, json).value, genLine, genCol) == ScanResolve(sm, genLine, genCol)
  {
    var doc := json(content).value;
    var sm := SourceMap(doc.sources, doc.names, DecodeMappings(doc.mappings).value);
    ParseIff(content, json, sm);
    WellOrderedLinesAreSorted(Split(doc.mappings, SEMICOLON), START);
    ResolveRefinesScan(sm, genLine, genCol);
  }

  /** The decoder accepts descending columns, and then the search can miss the last segment at or before a query. */
  lemma UnsortedLineCanMislead() returns (mappings: bytes, sm: SourceMap)
    ensures DecodeMappings(mappings) == Ok(sm.lines)
    ensures Resolve(sm, 0, 4) != ScanResolve(sm, 0, 4)
  {
    var a := Segment(0, true, 0, 0, 0, false, 0);
    var b := Segment(9, true, 0, 1, 0, false, 0);
    var c := Segment(3, true, 0, 2, 0, false, 0);
    var line := [a, b, c];
    InRangeIsEncodable([line], START);
    MappingsRoundTrip([line]);
    mappings, sm := EncodeMappings([line]), SourceMap([], [], [line]);
    assert Search(line, 4, 0, 3) == 1;
    assert LastAtOrBefore(line, 4) == Some(c);
  }
}
