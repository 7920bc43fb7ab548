/**
 The envelope wire format: a header line, then items of a header line and a payload that is either as long
 as its header declares or runs to the end of its line. JSON itself is a parameter.
*/
module Envelope {
  import opened Basics

  const LF: byte := 10
  const CR: byte := 13

  datatype EnvelopeHeader = EnvelopeHeader(eventId: string, sentAt: string, dsn: string, sdk: Option<(string, string)>)

  const EMPTY_HEADER := EnvelopeHeader("", "", "", None)

  datatype ItemHeader = ItemHeader(typ: string, length: Option<int>, contentType: string, filename: string)

  datatype Item = Item(header: ItemHeader, payload: bytes)

  datatype Envelope = Envelope(header: EnvelopeHeader, items: seq<Item>)

  /** The JSON decoders for the two kinds of header line. */
  datatype Json = Json(envelope: bytes -> Option<EnvelopeHeader>, item: bytes -> Option<ItemHeader>)

  /** NegativeLength stands for the run-time panic of allocating a buffer of negative size. */
  datatype ParseError = BadEnvelopeHeader | BadItemHeader | NegativeLength | ShortPayload(typ: string)

  // ---- White space, as bytes.TrimSpace sees it: Unicode white space in UTF-8

  predicate IsSpaceRune(s: bytes) {
    if |s| == 1 then 9 <= s[0] <= 13 || s[0] == 32
    else if |s| == 2 then s[0] == 0xC2 && s[1] in {0x85, 0xA0}
    else if |s| == 3 then
      || (s[0] == 0xE1 && s[1] == 0x9A && s[2] == 0x80)
      || (s[0] == 0xE2 && s[1] == 0x80 && (0x80 <= s[2] <= 0x8A || s[2] in {0xA8, 0xA9, 0xAF}))
      || (s[0] == 0xE2 && s[1] == 0x81 && s[2] == 0x9F)
      || (s[0] == 0xE3 && s[1] == 0x80 && s[2] == 0x80)
    else false
  }

  function TrimLeft(s: bytes): bytes {
    if LeadingSpace(s) == 0 then s else TrimLeft(s[LeadingSpace(s)..])
  }

  function LeadingSpace(s: bytes): (w: nat)
    ensures w <= |s|
  {
    if |s| >= 1 && IsSpaceRune(s[..1]) then 1
    else if |s| >= 2 && IsSpaceRune(s[..2]) then 2
    else if |s| >= 3 && IsSpaceRune(s[..3]) then 3
    else 0
  }

  function TrimRight(s: bytes): bytes {
    if TrailingSpace(s) == 0 then s else TrimRight(s[..|s| - TrailingSpace(s)])
  }

  function TrailingSpace(s: bytes): (w: nat)
    ensures w <= |s|
  {
    var n := |s|;
    if n >= 1 && IsSpaceRune(s[n - 1..]) then 1
    else if n >= 2 && IsSpaceRune(s[n - 2..]) then 2
    else if n >= 3 && IsSpaceRune(s[n - 3..]) then 3
    else 0
  }

  function TrimSpace(s: bytes): bytes {
    TrimRight(TrimLeft(s))
  }

  predicate Blank(line: bytes) {
    TrimSpace(line) == []
  }

  // ---- Reading, on what is left of the input

  function LineLength(s: bytes): (n: nat)
    ensures n <= |s| && LF !in s[..n] && (n < |s| ==> s[n] == LF)
  {
    if s == [] || s[0] == LF then 0 else 1 + LineLength(s[1..])
  }

  function StripCR(line: bytes): bytes {
    if line != [] && line[|line| - 1] == CR then line[..|line| - 1] else line
  }

  /** The next line without its terminator, what follows it, and whether the input ran out. */
  function TakeLine(s: bytes): (r: (bytes, bytes, bool))
    ensures |r.1| <= |s| && (s != [] ==> |r.1| < |s|)
  {
    var n := LineLength(s);
    if n < |s| then (StripCR(s[..n]), s[n + 1..], false) else (StripCR(s), [], true)
  }

  function SkipNewline(s: bytes): (r: bytes)
    ensures |r| <= |s|
  {
    if s != [] && s[0] == LF then s[1..] else s
  }

  /** An item's payload, what follows it, and whether the input ran out. */
  function TakePayload(h: ItemHeader, s: bytes, atEOF: bool): (r: Result<(bytes, bytes, bool), ParseError>)
    ensures r.Ok? ==> |r.value.1| <= |s|
  {
    match h.length
    case None => Ok(TakeLine(s))
    case Some(n) =>
      if n < 0 then Err(NegativeLength)
      else if n > |s| then Err(ShortPayload(h.typ))
      else Ok((s[..n], SkipNewline(s[n..]), atEOF))
  }

  function Prepend(done: seq<Item>, r: Result<seq<Item>, ParseError>): Result<seq<Item>, ParseError> {
    match r
    case Err(e) => Err(e)
    case Ok(items) => Ok(done + items)
  }

  function ParseItems(json: Json, s: bytes): Result<seq<Item>, ParseError>
    decreases |s|
  {
    if s == [] then Ok([])
    else
      var (line, rest, atEOF) := TakeLine(s);
      if Blank(line) then
        if atEOF then Ok([]) else ParseItems(json, rest)
      else
        match json.item(line)
        case None => Err(BadItemHeader)
        case Some(h) =>
          match TakePayload(h, rest, atEOF)
          case Err(e) => Err(e)
          case Ok((payload, rest', atEOF')) =>
            if atEOF' then Ok([Item(h, payload)]) else Prepend([Item(h, payload)], ParseItems(json, rest'))
  }

  /** The envelope header on a line; a blank one stands for an empty header. */
  function HeaderOf(json: Json, line: bytes): Option<EnvelopeHeader> {
    var trimmed := TrimSpace(line);
    if trimmed == [] then Some(EMPTY_HEADER) else json.envelope(trimmed)
  }

  function Parse(json: Json, data: bytes): Result<Envelope, ParseError> {
    var (line, rest, _) := TakeLine(data);
    match HeaderOf(json, line)
    case None => Err(BadEnvelopeHeader)
    case Some(h) =>
      match ParseItems(json, rest)
      case Err(e) => Err(e)
      case Ok(items) => Ok(Envelope(h, items))
  }

  // ---- Where parsing goes other ways than documented

  /** The item headers that are decoded, in order, until the input ends or an item cannot be read. */
  function HeadersRead(json: Json, s: bytes): seq<ItemHeader>
    decreases |s|
  {
    if s == [] then []
    else
      var (line, rest, atEOF) := TakeLine(s);
      if Blank(line) then
        if atEOF then [] else HeadersRead(json, rest)
      else
        match json.item(line)
        case None => []
        case Some(h) =>
          match TakePayload(h, rest, atEOF)
          case Err(_) => [h]
          case Ok((_, rest', atEOF')) => [h] + if atEOF' then [] else HeadersRead(json, rest')
  }

  predicate Negative(h: ItemHeader) {
    h.length.Some? && h.length.value < 0
  }

  /** Parsing panics exactly if the envelope header is accepted and an item header read then has a negative length. */
  lemma PanicsIffNegativeLength(json: Json, data: bytes)
    ensures var (line, rest, _) := TakeLine(data);
            Parse(json, data) == Err(NegativeLength)
            <==> HeaderOf(json, line).Some? && exists h :: h in HeadersRead(json, rest) && Negative(h)
  {
    ItemsPanicIff(json, TakeLine(data).1);
  }

  /** The items panic exactly if one of the headers read declares a negative length. */
  lemma {:induction false} ItemsPanicIff(json: Json, s: bytes)
    ensures ParseItems(json, s) == Err(NegativeLength) <==> exists h :: h in HeadersRead(json, s) && Negative(h)
    decreases |s|
  {
    if s != [] {
      var (line, rest, atEOF) := TakeLine(s);
      if Blank(line) {
        if !atEOF {
          ItemsPanicIff(json, rest);
        }
      } else if json.item(line).Some? {
        var h := json.item(line).value;
        var taken := TakePayload(h, rest, atEOF);
        if taken.Err? {
          assert HeadersRead(json, s) == [h] && h in [h];
        } else if !taken.value.2 {
          var more := HeadersRead(json, taken.value.1);
          ItemsPanicIff(json, taken.value.1);
          assert HeadersRead(json, s) == [h] + more && !Negative(h);
          assert forall x :: x in [h] + more <==> x == h || x in more;
        }
      }
    }
  }

  /** A length of -1 on the first item makes the whole envelope panic. */
  lemma NegativeLengthPanics() returns (json: Json, data: bytes)
    ensures |data| > 0 && json.item(data[1..]) == Some(ItemHeader("event", Some(-1), "", ""))
    ensures Parse(json, data) == Err(NegativeLength)
  {
    json := Json(_ => None, _ => Some(ItemHeader("event", Some(-1), "", "")));
    data := [LF, 123];
    var line := [123];
    assert TakeLine(data) == ([], line, false) by {
      assert LineLength(data) == 0 && data[..0] == [] && data[1..] == line;
    }
    assert TakeLine(line) == (line, [], true) by {
      assert LineLength(line) == 1 + LineLength(line[1..]);
    }
    assert !Blank(line);
  }

  /** A line read reports the end exactly if it exhausts the input, unless the line's terminator is the last byte. */
  lemma EndReportedIff(s: bytes)
    ensures (TakeLine(s).2 <==> TakeLine(s).1 == []) <==> LineLength(s) + 1 != |s|
  {
  }

  /** The input "a\n" is exhausted by its first line, and this is not reported. */
  lemma FinalNewlineHidesEnd()
    ensures TakeLine(['a' as int, LF]) == (['a' as int], [], false)
  {
    var s := ['a' as int, LF];
    assert LineLength(s) == 1 + LineLength(s[1..]);
    assert s[..1] == ['a' as int] && s[2..] == [];
  }

  // ---- The same, with a reader that moves

  class Reader {
    const data: bytes
    var pos: nat

    ghost predicate Valid()
      reads this
    {
      pos <= |data|
    }

    ghost function Rest(): bytes
      reads this
      requires Valid()
    {
      data[pos..]
    }

    constructor (data: bytes)
      ensures Valid() && this.data == data && Rest() == data
    {
      this.data, pos := data, 0;
    }

    method ReadLine() returns (line: bytes, atEOF: bool)
      requires Valid()
      modifies this
      ensures Valid() && pos >= old(pos) && (old(pos) < |data| ==> pos > old(pos))
      ensures (line, Rest(), atEOF) == TakeLine(old(Rest()))
    {
      var start, end := pos, pos;
      while end < |data| && data[end] != LF
        invariant start <= end <= |data|
        invariant LineLength(data[start..]) == end - start + LineLength(data[end..])
      {
        assert data[end..][1..] == data[end + 1..];
        end := end + 1;
      }
      ghost var s, n := data[start..], end - start;
      assert LineLength(s) == n && s[..n] == data[start..end];
      assert n < |s| ==> s[n + 1..] == data[end + 1..];
      line := data[start..end];
      atEOF := end == |data|;
      pos := if atEOF then end else end + 1;
      if line != [] && line[|line| - 1] == CR {
        line := line[..|line| - 1];
      }
      assert s[..|s|] == s;
      assert Rest() == TakeLine(s).1;
    }

    method ConsumeNewline()
      requires Valid()
      modifies this
      ensures Valid() && pos >= old(pos) && Rest() == SkipNewline(old(Rest()))
    {
      if pos < |data| && data[pos] == LF {
        pos := pos + 1;
      }
    }

    method ReadFull(n: nat) returns (payload: Option<bytes>)
      requires Valid()
      modifies this
      ensures Valid() && pos >= old(pos)
      ensures payload.Some? <==> n <= |old(Rest())|
      ensures payload.Some? ==> payload.value == old(Rest())[..n] && Rest() == old(Rest())[n..]
    {
      if n > |data| - pos {
        pos := |data|;
        return None;
      }
      payload := Some(data[pos..pos + n]);
      pos := pos + n;
    }
  }

  /** Reads the payload an item header announces. */
  method ReadPayload(br: Reader, h: ItemHeader, atEOF: bool) returns (r: Result<(bytes, bool), ParseError>)
    requires br.Valid()
    modifies br
    ensures br.Valid() && br.pos >= old(br.pos)
    ensures match TakePayload(h, old(br.Rest()), atEOF) {
              case Err(e) => r == Err(e)
              case Ok((payload, rest, atEOF')) => r == Ok((payload, atEOF')) && br.Rest() == rest
            }
  {
    if h.length.Some? {
      if h.length.value < 0 {
        return Err(NegativeLength);
      }
      var full := br.ReadFull(h.length.value);
      if full.None? {
        return Err(ShortPayload(h.typ));
      }
      br.ConsumeNewline();
      return Ok((full.value, atEOF));
    }
    var payload, eof := br.ReadLine();
    return Ok((payload, eof));
  }

  lemma PrependPrepend(items: seq<Item>, item: Item, r: Result<seq<Item>, ParseError>)
    ensures Prepend(items, Prepend([item], r)) == Prepend(items + [item], r)
    ensures Prepend(items, Ok([item])) == Ok(items + [item])
  {
    if r.Ok? {
      assert items + ([item] + r.value) == items + [item] + r.value;
    }
  }

  /** The loop over the items. */
  method ReadItems(json: Json, br: Reader) returns (r: Result<seq<Item>, ParseError>)
    requires br.Valid()
    modifies br
    ensures r == ParseItems(json, old(br.Rest()))
  {
    var items: seq<Item> := [];
    ghost var all := ParseItems(json, br.Rest());
    assert all == Prepend(items, all) by {
      assert all.Ok? ==> [] + all.value == all.value;
    }
    while br.pos < |br.data|
      invariant br.Valid()
      invariant all == Prepend(items, ParseItems(json, br.Rest()))
      decreases |br.data| - br.pos
    {
      var line, atEOF := br.ReadLine();
      if Blank(line) {
        if atEOF {
          break;
        }
        continue;
      }
      var h := json.item(line);
      if h.None? {
        return Err(BadItemHeader);
      }
      var payload := ReadPayload(br, h.value, atEOF);
      if payload.Err? {
        return Err(payload.error);
      }
      var item := Item(h.value, payload.value.0);
      PrependPrepend(items, item, ParseItems(json, br.Rest()));
      items := items + [item];
      if payload.value.1 {
        return Ok(items);
      }
    }
    assert items + [] == items;
    return Ok(items);
  }

  method ParseEnvelope(json: Json, data: bytes) returns (r: Result<Envelope, ParseError>)
    ensures r == Parse(json, data)
  {
    var br := new Reader(data);
    var headerLine, _ := br.ReadLine();
    var header := EMPTY_HEADER;
    var trimmed := TrimSpace(headerLine);
    if |trimmed| > 0 {
      var parsed := json.envelope(trimmed);
      if parsed.None? {
        return Err(BadEnvelopeHeader);
      }
      header := parsed.value;
    }
    assert HeaderOf(json, headerLine) == Some(header) && br.Rest() == TakeLine(data).1;
    var items := ReadItems(json, br);
    if items.Err? {
      return Err(items.error);
    }
    return Ok(Envelope(header, items.value));
  }
}
