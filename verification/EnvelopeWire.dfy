/** Writing envelopes, and what parsing gives back: the round trip, and where payloads lie in the input. */
module EnvelopeWire {
  import opened Basics
  import opened Envelope
  import opened WhiteSpace

  const OPEN_BRACE: byte := 123
  const CLOSE_BRACE: byte := 125

  /** JSON printers for the two kinds of header. */
  datatype Printer = Printer(envelope: EnvelopeHeader -> bytes, item: ItemHeader -> bytes)

  /** A JSON object on one line. */
  predicate ObjectLine(line: bytes) {
    |line| >= 2 && line[0] == OPEN_BRACE && line[|line| - 1] == CLOSE_BRACE && LF !in line
  }

  /** Decoding undoes printing, and headers print as one-line objects. */
  ghost predicate Inverse(json: Json, printer: Printer) {
    && (forall h :: ObjectLine(printer.envelope(h)) && json.envelope(printer.envelope(h)) == Some(h))
    && (forall h :: ObjectLine(printer.item(h)) && json.item(printer.item(h)) == Some(h))
  }

  predicate LineEnd(eol: bytes) {
    eol == [LF] || eol == [CR, LF]
  }

  /** The payload has its declared length, or is a line that a carriage return at its end does not belong to. */
  predicate Framed(x: Item) {
    match x.header.length
    case Some(n) => n == |x.payload|
    case None => LF !in x.payload && StripCR(x.payload) == x.payload
  }

  /** After a payload of declared length a newline is optional; any other payload needs the end of its line. */
  predicate FramedBy(x: Item, gap: bytes) {
    match x.header.length
    case Some(n) => n == |x.payload| && (gap == [] || gap == [LF])
    case None => LF !in x.payload && (gap == [CR, LF] || (gap == [LF] && StripCR(x.payload) == x.payload))
  }

  /** A line the parser skips. */
  predicate SkippedLine(b: bytes) {
    LF !in b && Blank(StripCR(b))
  }

  /** An item: the blank lines before it, and the terminators of its header line and of its payload. */
  datatype Part = Part(blanks: seq<bytes>, item: Item, eol: bytes, gap: bytes)

  /** How the input ends: in blank lines, the last without a newline, or right after an item's payload. */
  datatype End =
    | BlankEnd(blanks: seq<bytes>, last: bytes)
    | ItemEnd(blanks: seq<bytes>, item: Item, eol: bytes)

  /** The envelope header, printed with white space around it or, if it is empty, left blank. */
  datatype Head = Printed(left: bytes, header: EnvelopeHeader, right: bytes) | LeftBlank(line: bytes)

  function BlankWire(blanks: seq<bytes>): bytes {
    if blanks == [] then [] else blanks[0] + [LF] + BlankWire(blanks[1..])
  }

  function PartWire(printer: Printer, p: Part): bytes {
    BlankWire(p.blanks) + (printer.item(p.item.header) + p.eol + (p.item.payload + p.gap))
  }

  function ItemsWire(printer: Printer, parts: seq<Part>): bytes {
    if parts == [] then [] else PartWire(printer, parts[0]) + ItemsWire(printer, parts[1..])
  }

  function EndWire(printer: Printer, end: End): bytes {
    match end
    case BlankEnd(blanks, last) => BlankWire(blanks) + last
    case ItemEnd(blanks, item, eol) => BlankWire(blanks) + (printer.item(item.header) + eol + item.payload)
  }

  function HeadLine(printer: Printer, head: Head): bytes {
    match head
    case Printed(left, header, right) => left + printer.envelope(header) + right
    case LeftBlank(line) => line
  }

  function HeaderIn(head: Head): EnvelopeHeader {
    match head
    case Printed(_, header, _) => header
    case LeftBlank(_) => EMPTY_HEADER
  }

  /** The serialised envelope. */
  function Wire(printer: Printer, head: Head, eol: bytes, parts: seq<Part>, end: End): bytes {
    HeadLine(printer, head) + eol + (ItemsWire(printer, parts) + EndWire(printer, end))
  }

  predicate Skipped(blanks: seq<bytes>) {
    forall b :: b in blanks ==> SkippedLine(b)
  }

  predicate Padding(s: bytes) {
    Spaces(s) && LF !in s
  }

  predicate WritableHead(head: Head) {
    match head
    case Printed(left, _, right) => Padding(left) && Padding(right) && StripCR(right) == right
    case LeftBlank(line) => SkippedLine(line)
  }

  predicate WritablePart(p: Part) {
    Skipped(p.blanks) && LineEnd(p.eol) && FramedBy(p.item, p.gap)
  }

  predicate Writable(parts: seq<Part>) {
    forall p :: p in parts ==> WritablePart(p)
  }

  /** A header line may end the input if the payload is empty. */
  predicate WritableEnd(end: End) {
    match end
    case BlankEnd(blanks, last) => Skipped(blanks) && SkippedLine(last)
    case ItemEnd(blanks, item, eol) =>
      Skipped(blanks) && Framed(item) && (LineEnd(eol) || (eol == [] && item.payload == []))
  }

  function Items(parts: seq<Part>): (r: seq<Item>)
    ensures |r| == |parts|
  {
    seq(|parts|, i requires 0 <= i < |parts| => parts[i].item)
  }

  function EndItems(end: End): seq<Item> {
    if end.ItemEnd? then [end.item] else []
  }

  lemma {:induction false} LineLengthOf(line: bytes, rest: bytes)
    requires LF !in line
    ensures LineLength(line + [LF] + rest) == |line| && LineLength(line) == |line|
  {
    if line != [] {
      assert (line + [LF] + rest)[1..] == line[1..] + [LF] + rest;
      LineLengthOf(line[1..], rest);
    }
  }

  lemma TakeLineOf(line: bytes, rest: bytes)
    requires LF !in line
    ensures TakeLine(line + [LF] + rest) == (StripCR(line), rest, false)
    ensures TakeLine(line) == (StripCR(line), [], true)
  {
    LineLengthOf(line, rest);
    assert (line + [LF] + rest)[..|line|] == line;
  }

  /** An object line has nothing to trim and no carriage return to strip. */
  lemma ObjectLineIsTight(line: bytes)
    requires ObjectLine(line)
    ensures TrimSpace(line) == line && StripCR(line) == line
  {
    NoLeadingSpace(line);
    NoTrailingSpace(line);
  }

  lemma NoLeadingSpace(line: bytes)
    requires line != [] && line[0] == OPEN_BRACE
    ensures LeadingSpace(line) == 0
  {
  }

  lemma NoTrailingSpace(line: bytes)
    requires line != [] && line[|line| - 1] == CLOSE_BRACE
    ensures TrailingSpace(line) == 0
  {
  }

  /** Reading a line gives it without its terminator, of either kind. */
  lemma TakeEndedLine(line: bytes, eol: bytes, rest: bytes)
    requires LF !in line && (eol == [CR, LF] || (eol == [LF] && StripCR(line) == line))
    ensures TakeLine(line + eol + rest) == (line, rest, false)
  {
    if eol == [LF] {
      TakeLineOf(line, rest);
    } else {
      TakeLineOf(line + [CR], rest);
      assert line + eol + rest == line + [CR] + [LF] + rest;
      assert (line + [CR])[..|line|] == line;
    }
  }

  /** Blank lines in front of more input are skipped. */
  lemma {:induction false} SkipBlanks(json: Json, blanks: seq<bytes>, rest: bytes)
    requires Skipped(blanks)
    ensures ParseItems(json, BlankWire(blanks) + rest) == ParseItems(json, rest)
  {
    if blanks == [] {
      assert BlankWire(blanks) + rest == rest;
    } else {
      var b, more := blanks[0], BlankWire(blanks[1..]) + rest;
      assert b in blanks;
      assert BlankWire(blanks) + rest == b + [LF] + more;
      TakeLineOf(b, more);
      SkipBlanks(json, blanks[1..], rest);
    }
  }

  /** A newline at the start of an item is a blank line, so it does not matter whether it is consumed before. */
  lemma NewlineIsBlank(json: Json, rest: bytes)
    ensures ParseItems(json, SkipNewline(rest)) == ParseItems(json, rest)
  {
    if rest != [] && rest[0] == LF {
      assert rest == [] + [LF] + rest[1..];
      TakeLineOf([], rest[1..]);
      assert Blank([]);
    }
  }

  /** The first item of an input whose header line and payload are complete. */
  lemma ParseOneItem(json: Json, printer: Printer, x: Item, eol: bytes, gap: bytes, rest: bytes)
    requires Inverse(json, printer) && LineEnd(eol) && FramedBy(x, gap)
    ensures ParseItems(json, printer.item(x.header) + eol + (x.payload + gap + rest)) ==
            Prepend([x], ParseItems(json, rest))
  {
    var line, body := printer.item(x.header), x.payload + gap + rest;
    ObjectLineIsTight(line);
    TakeEndedLine(line, eol, body);
    assert ParseItems(json, line + eol + body) ==
           match TakePayload(x.header, body, false) {
             case Err(e) => Err(e)
             case Ok((payload, rest', atEOF)) =>
               if atEOF then Ok([Item(x.header, payload)])
               else Prepend([Item(x.header, payload)], ParseItems(json, rest'))
           };
    if x.header.length.Some? {
      assert body[..|x.payload|] == x.payload && body[|x.payload|..] == gap + rest;
      if gap == [] {
        assert gap + rest == rest;
        NewlineIsBlank(json, rest);
      } else {
        assert SkipNewline(gap + rest) == rest;
      }
    } else {
      TakeEndedLine(x.payload, gap, rest);
    }
  }

  /** The last item, with nothing after its payload. */
  lemma ParseLastItem(json: Json, printer: Printer, x: Item, eol: bytes)
    requires Inverse(json, printer) && Framed(x) && (LineEnd(eol) || (eol == [] && x.payload == []))
    ensures ParseItems(json, printer.item(x.header) + eol + x.payload) == Ok([x])
  {
    var line := printer.item(x.header);
    ObjectLineIsTight(line);
    var none: seq<Item> := [];
    assert [x] + none == [x];
    if eol == [] {
      assert line + eol + x.payload == line;
      TakeLineOf(line, []);
    } else {
      TakeEndedLine(line, eol, x.payload);
    }
    if x.header.length.Some? {
      assert x.payload[..|x.payload|] == x.payload && x.payload[|x.payload|..] == [];
    } else {
      TakeLineOf(x.payload, []);
    }
  }

  lemma PartInFront(json: Json, printer: Printer, p: Part, rest: bytes)
    requires Inverse(json, printer) && WritablePart(p)
    ensures ParseItems(json, PartWire(printer, p) + rest) == Prepend([p.item], ParseItems(json, rest))
  {
    var blanks, x := BlankWire(p.blanks), p.item;
    var body := printer.item(x.header) + p.eol + (x.payload + p.gap + rest);
    assert PartWire(printer, p) + rest == blanks + body;
    SkipBlanks(json, p.blanks, body);
    ParseOneItem(json, printer, x, p.eol, p.gap, rest);
  }

  lemma ItemsCons(parts: seq<Part>)
    requires parts != []
    ensures Items(parts) == [parts[0].item] + Items(parts[1..])
  {
  }

  lemma PrependCons(x: Item, items: seq<Item>, r: Result<seq<Item>, ParseError>)
    ensures Prepend([x], Prepend(items, r)) == Prepend([x] + items, r)
  {
    if r.Ok? {
      assert [x] + (items + r.value) == [x] + items + r.value;
    }
  }

  /** Written items in front of any input, well-formed or not, are read first, and then the input is. */
  lemma {:induction false} ItemsInFront(json: Json, printer: Printer, parts: seq<Part>, rest: bytes)
    requires Inverse(json, printer) && Writable(parts)
    ensures ParseItems(json, ItemsWire(printer, parts) + rest) == Prepend(Items(parts), ParseItems(json, rest))
  {
    var all := ParseItems(json, rest);
    if parts == [] {
      assert ItemsWire(printer, parts) + rest == rest;
      assert all.Ok? ==> [] + all.value == all.value;
    } else {
      var p, more := parts[0], ItemsWire(printer, parts[1..]);
      assert p in parts && forall q :: q in parts[1..] ==> q in parts;
      assert ItemsWire(printer, parts) + rest == PartWire(printer, p) + (more + rest);
      PartInFront(json, printer, p, more + rest);
      ItemsInFront(json, printer, parts[1..], rest);
      ItemsCons(parts);
      PrependCons(p.item, Items(parts[1..]), all);
    }
  }

  lemma EndIsParsed(json: Json, printer: Printer, end: End)
    requires Inverse(json, printer) && WritableEnd(end)
    ensures ParseItems(json, EndWire(printer, end)) == Ok(EndItems(end))
  {
    match end
    case BlankEnd(blanks, last) =>
      SkipBlanks(json, blanks, last);
      if last != [] {
        TakeLineOf(last, []);
      }
    case ItemEnd(blanks, item, eol) =>
      SkipBlanks(json, blanks, printer.item(item.header) + eol + item.payload);
      ParseLastItem(json, printer, item, eol);
  }

  lemma StripCRKeeps(x: bytes, y: bytes)
    requires StripCR(y) == y && x != [] && x[|x| - 1] != CR
    ensures StripCR(x + y) == x + y
  {
  }

  lemma TakeAnyLine(line: bytes, eol: bytes, rest: bytes)
    requires LF !in line && (LineEnd(eol) || (eol == [] && rest == []))
    ensures TakeLine(line + eol + rest).1 == rest
    ensures TakeLine(line + eol + rest).0 in {line, StripCR(line)}
  {
    if eol == [] {
      assert line + eol + rest == line;
      TakeLineOf(line, []);
    } else if eol == [LF] {
      TakeLineOf(line, rest);
    } else {
      TakeEndedLine(line, eol, rest);
    }
  }

  lemma HeadLineIsRead(json: Json, printer: Printer, head: Head)
    requires Inverse(json, printer) && WritableHead(head)
    ensures var line := HeadLine(printer, head);
            && LF !in line
            && HeaderOf(json, line) == HeaderOf(json, StripCR(line)) == Some(HeaderIn(head))
            && (head.Printed? ==> StripCR(line) == line)
  {
    match head
    case Printed(left, header, right) =>
      var obj := printer.envelope(header);
      assert ObjectLine(obj);
      NoLeadingSpace(obj + right);
      NoTrailingSpace(obj);
      TrimSpaceOfPadded(left, obj, right);
      StripCRKeeps(left + obj, right);
    case LeftBlank(line) => BlankWithCR(line);
  }

  lemma HeadIsRead(json: Json, printer: Printer, head: Head, eol: bytes, rest: bytes)
    requires Inverse(json, printer) && WritableHead(head) && (LineEnd(eol) || (eol == [] && rest == []))
    ensures var (line, rest', _) := TakeLine(HeadLine(printer, head) + eol + rest);
            HeaderOf(json, line) == Some(HeaderIn(head)) && rest' == rest
  {
    var line := HeadLine(printer, head);
    HeadLineIsRead(json, printer, head);
    TakeAnyLine(HeadLine(printer, head), eol, rest);
  }

  /**
   The round trip: parsing the serialised form of any header and any framed items gives them back. Lines may end in LF
   or CRLF, a payload of declared length may be followed by the next header at once, blank lines may stand between
   items and at the end, an empty header may be blank, and the last newline may be missing.
  */
  lemma EnvelopeRoundTrip(json: Json, printer: Printer, head: Head, eol: bytes, parts: seq<Part>, end: End)
    requires Inverse(json, printer) && WritableHead(head) && Writable(parts) && WritableEnd(end)
    requires LineEnd(eol) || (eol == [] && parts == [] && EndWire(printer, end) == [])
    ensures Parse(json, Wire(printer, head, eol, parts, end)) ==
            Ok(Envelope(HeaderIn(head), Items(parts) + EndItems(end)))
  {
    HeadIsRead(json, printer, head, eol, ItemsWire(printer, parts) + EndWire(printer, end));
    ItemsInFront(json, printer, parts, EndWire(printer, end));
    EndIsParsed(json, printer, end);
  }

  // ---- Broken headers and items

  /** An envelope header that is neither blank nor decodable rejects the envelope, whatever follows it. */
  lemma BrokenHeaderRejects(json: Json, line: bytes, eol: bytes, rest: bytes)
    requires LF !in line && LineEnd(eol) && StripCR(line) == line
    requires !Blank(line) && json.envelope(TrimSpace(line)) == None
    ensures Parse(json, line + eol + rest) == Err(BadEnvelopeHeader)
  {
    TakeEndedLine(line, eol, rest);
  }

  /** An input item that cannot be read: its header does not decode, or its payload is cut short. */
  predicate Broken(json: Json, rest: bytes, e: ParseError) {
    var (line, body, _) := TakeLine(rest);
    && rest != [] && !Blank(line)
    && match json.item(line)
       case None => e == BadItemHeader
       case Some(h) => h.length.Some? && h.length.value > |body| && e == ShortPayload(h.typ)
  }

  /** A broken item rejects the envelope with its own error, whatever complete items come before it. */
  lemma BrokenItemRejects(json: Json, printer: Printer, head: Head, eol: bytes, parts: seq<Part>, rest: bytes,
                          e: ParseError)
    requires Inverse(json, printer) && WritableHead(head) && Writable(parts) && LineEnd(eol)
    requires Broken(json, rest, e)
    ensures Parse(json, HeadLine(printer, head) + eol + (ItemsWire(printer, parts) + rest)) == Err(e)
  {
    HeadIsRead(json, printer, head, eol, ItemsWire(printer, parts) + rest);
    ItemsInFront(json, printer, parts, rest);
    assert ParseItems(json, rest) == Err(e);
  }

  // ---- Payloads are slices of the input

  /** The input read as gap, payload, gap, payload, ..., gap. */
  function Interleave(gaps: seq<bytes>, items: seq<Item>): bytes
    requires |gaps| == |items| + 1
  {
    if items == [] then gaps[0] else gaps[0] + (items[0].payload + Interleave(gaps[1..], items[1..]))
  }

  lemma TakeLineSplits(s: bytes) returns (gap: bytes)
    ensures s == TakeLine(s).0 + gap + TakeLine(s).1
  {
    var n := LineLength(s);
    var line, rest := TakeLine(s).0, TakeLine(s).1;
    var k, m := |line|, |s| - |rest|;
    assert line == StripCR(s[..n]);
    assert line == s[..k] && rest == s[m..];
    gap := s[k..m];
  }

  lemma TakePayloadSplits(h: ItemHeader, s: bytes, atEOF: bool) returns (gap: bytes)
    requires TakePayload(h, s, atEOF).Ok?
    ensures s == TakePayload(h, s, atEOF).value.0 + gap + TakePayload(h, s, atEOF).value.1
    ensures h.length.Some? ==> |TakePayload(h, s, atEOF).value.0| == h.length.value
  {
    if h.length.None? {
      gap := TakeLineSplits(s);
    } else {
      var n := h.length.value;
      gap := s[n..|s| - |SkipNewline(s[n..])|];
    }
  }

  lemma WidenFirstGap(g: bytes, gaps: seq<bytes>, items: seq<Item>)
    requires |gaps| == |items| + 1
    ensures Interleave([g + gaps[0]] + gaps[1..], items) == g + Interleave(gaps, items)
  {
  }

  lemma InterleaveCons(g: bytes, x: Item, gap: bytes, more: seq<bytes>, items: seq<Item>) returns (gaps: seq<bytes>)
    requires |more| == |items| + 1
    ensures |gaps| == |items| + 2
    ensures Interleave(gaps, [x] + items) == g + (x.payload + gap + Interleave(more, items))
  {
    WidenFirstGap(gap, more, items);
    var tail := [gap + more[0]] + more[1..];
    gaps := [g] + tail;
    assert gaps[1..] == tail && ([x] + items)[1..] == items;
    Associative(x.payload, gap, Interleave(more, items));
  }

  predicate LengthsKept(items: seq<Item>) {
    forall x :: x in items && x.header.length.Some? ==> |x.payload| == x.header.length.value
  }

  /** The shape of one successful step of the item loop. */
  lemma ParseItemsStep(json: Json, s: bytes) returns (skip: bool, h: ItemHeader, atEOF: bool)
    requires s != [] && ParseItems(json, s).Ok?
    ensures skip ==> ParseItems(json, s) == if TakeLine(s).2 then Ok([]) else ParseItems(json, TakeLine(s).1)
    ensures !skip ==> TakePayload(h, TakeLine(s).1, atEOF).Ok?
    ensures !skip ==>
      var (payload, rest, eof) := TakePayload(h, TakeLine(s).1, atEOF).value;
      ParseItems(json, s) == if eof then Ok([Item(h, payload)]) else Prepend([Item(h, payload)], ParseItems(json, rest))
  {
    skip, h, atEOF := Blank(TakeLine(s).0), ItemHeader("", None, "", ""), TakeLine(s).2;
    if !skip {
      h := json.item(TakeLine(s).0).value;
    }
  }

  lemma {:induction false} PayloadsAreSlices(json: Json, s: bytes) returns (gaps: seq<bytes>)
    requires ParseItems(json, s).Ok?
    ensures |gaps| == |ParseItems(json, s).value| + 1
    ensures s == Interleave(gaps, ParseItems(json, s).value)
    ensures LengthsKept(ParseItems(json, s).value)
    decreases |s|
  {
    gaps := [s];
    if s != [] {
      var skip, h, atEOF := ParseItemsStep(json, s);
      var gap := TakeLineSplits(s);
      var g, rest := TakeLine(s).0 + gap, TakeLine(s).1;
      if skip {
        if !TakeLine(s).2 {
          var more := PayloadsAreSlices(json, rest);
          WidenFirstGap(g, more, ParseItems(json, s).value);
          gaps := [g + more[0]] + more[1..];
        }
      } else {
        var gap' := TakePayloadSplits(h, rest, atEOF);
        var (payload, rest', eof) := TakePayload(h, rest, atEOF).value;
        var more, items: seq<Item> := [rest'], [];
        if !eof {
          more := PayloadsAreSlices(json, rest');
          items := ParseItems(json, rest').value;
        }
        gaps := InterleaveCons(g, Item(h, payload), gap', more, items);
      }
    }
  }

  /**
   On success the input, after its header line, is an interleaving of gaps and the items' payloads in order: the
   payloads are disjoint slices of the input, each exactly as long as declared where a length is given.
  */
  lemma EnvelopePayloads(json: Json, data: bytes) returns (gaps: seq<bytes>)
    requires Parse(json, data).Ok?
    ensures |gaps| == |Parse(json, data).value.items| + 1
    ensures TakeLine(data).1 == Interleave(gaps, Parse(json, data).value.items)
    ensures LengthsKept(Parse(json, data).value.items)
  {
    gaps := PayloadsAreSlices(json, TakeLine(data).1);
  }
}
