/** Which lines count as blank: those made of Unicode white space in UTF-8, as bytes.TrimSpace has it. */
module WhiteSpace {
  import opened Basics
  import opened Envelope

  /** Code points with the property White_Space; all lie in the basic plane. */
  predicate IsWhiteSpace(c: int) {
    || 0x09 <= c <= 0x0D || c == 0x20 || c == 0x85 || c == 0xA0 || c == 0x1680
    || 0x2000 <= c <= 0x200A || c == 0x2028 || c == 0x2029 || c == 0x202F || c == 0x205F || c == 0x3000
  }

  /** The UTF-8 encoding of a code point of the basic plane. */
  function Utf8(c: int): bytes
    requires 0 <= c < 0x1_0000
  {
    if c < 0x80 then [c]
    else if c < 0x800 then [0xC0 + c / 64, 0x80 + c % 64]
    else [0xE0 + c / 4096, 0x80 + c / 64 % 64, 0x80 + c % 64]
  }

  lemma SpaceRuneIff(c: int)
    requires 0 <= c < 0x1_0000
    ensures IsSpaceRune(Utf8(c)) <==> IsWhiteSpace(c)
  {
    assert c == 4096 * (c / 4096) + 64 * (c / 64 % 64) + c % 64;
  }

  /** A run of white space code points. */
  predicate Spaces(s: bytes)
    decreases |s|
  {
    s == [] || exists w :: 1 <= w <= 3 && w <= |s| && IsSpaceRune(s[..w]) && Spaces(s[w..])
  }

  /** The first byte of a space tells how long it is. */
  lemma LeadingSpaceIs(s: bytes, w: nat)
    requires 1 <= w <= 3 && w <= |s| && IsSpaceRune(s[..w])
    ensures LeadingSpace(s) == w
  {
    var first := s[..w];
    assert first[0] == s[0];
    assert s[..1][0] == s[0];
    if |s| >= 2 {
      assert s[..2][0] == s[0];
    }
  }

  lemma {:induction false} SpacesAreTrimmed(s: bytes)
    requires Spaces(s)
    ensures TrimLeft(s) == []
    decreases |s|
  {
    if s != [] {
      var w :| 1 <= w <= 3 && w <= |s| && IsSpaceRune(s[..w]) && Spaces(s[w..]);
      LeadingSpaceIs(s, w);
      SpacesAreTrimmed(s[w..]);
    }
  }

  lemma SpacesCons(r: bytes, s: bytes)
    requires 1 <= |r| <= 3 && IsSpaceRune(r) && Spaces(s)
    ensures Spaces(r + s)
  {
    var w := |r|;
    assert (r + s)[..w] == r && (r + s)[w..] == s;
  }

  lemma {:induction false} SpacesSnoc(s: bytes, r: bytes)
    requires 1 <= |r| <= 3 && IsSpaceRune(r) && Spaces(s)
    ensures Spaces(s + r)
    decreases |s|
  {
    if s == [] {
      assert s + r == r + [];
      SpacesCons(r, []);
    } else {
      var w :| 1 <= w <= 3 && w <= |s| && IsSpaceRune(s[..w]) && Spaces(s[w..]);
      var a, b := s[..w], s[w..];
      assert s == a + b;
      SpacesSnoc(b, r);
      SpacesCons(a, b + r);
      Associative(a, b, r);
    }
  }

  lemma TrailingIsSpace(s: bytes)
    requires TrimRight(s) == [] && s != []
    ensures 1 <= TrailingSpace(s) <= 3 && IsSpaceRune(s[|s| - TrailingSpace(s)..])
  {
  }

  lemma LeadingIsSpace(s: bytes)
    requires LeadingSpace(s) > 0
    ensures LeadingSpace(s) <= 3 && IsSpaceRune(s[..LeadingSpace(s)])
  {
  }

  lemma {:induction false} TrimmedRightIsSpaces(s: bytes)
    requires TrimRight(s) == []
    ensures Spaces(s)
    decreases |s|
  {
    if s != [] {
      var n := |s| - TrailingSpace(s);
      var a, r := s[..n], s[n..];
      TrailingIsSpace(s);
      assert s == a + r;
      TrimmedRightIsSpaces(a);
      SpacesSnoc(a, r);
    }
  }

  lemma {:induction false} TrimmedLeftIsSpaces(s: bytes)
    requires Spaces(TrimLeft(s))
    ensures Spaces(s)
    decreases |s|
  {
    var w := LeadingSpace(s);
    if w > 0 {
      var r, b := s[..w], s[w..];
      LeadingIsSpace(s);
      assert s == r + b;
      TrimmedLeftIsSpaces(b);
      SpacesCons(r, b);
    }
  }

  /** A line is blank exactly if it is a run of white space code points. */
  lemma BlankIff(line: bytes)
    ensures Blank(line) <==> Spaces(line)
  {
    if Spaces(line) {
      SpacesAreTrimmed(line);
    }
    if Blank(line) {
      TrimmedRightIsSpaces(TrimLeft(line));
      TrimmedLeftIsSpaces(line);
    }
  }

  // ---- Trimming

  lemma {:induction false} LastSpace(s: bytes) returns (a: bytes, r: bytes)
    requires Spaces(s) && s != []
    ensures s == a + r && Spaces(a) && 1 <= |r| <= 3 && IsSpaceRune(r)
    decreases |s|
  {
    var w :| 1 <= w <= 3 && w <= |s| && IsSpaceRune(s[..w]) && Spaces(s[w..]);
    var first, rest := s[..w], s[w..];
    assert s == first + rest;
    if rest == [] {
      a, r := [], first;
    } else {
      var b;
      b, r := LastSpace(rest);
      a := first + b;
      SpacesCons(first, b);
      Associative(first, b, r);
    }
  }

  /** No space ends in a shorter one. */
  lemma NotShorter(r: bytes, k: nat)
    requires IsSpaceRune(r) && 1 <= k < |r| <= 3
    ensures !IsSpaceRune(r[|r| - k..])
  {
    var t := r[|r| - k..];
    assert t[0] == r[|r| - k] && |t| == k;
  }

  lemma NoShorterSuffix(s: bytes, w: nat, k: nat)
    requires 1 <= k < w <= 3 && w <= |s| && IsSpaceRune(s[|s| - w..])
    ensures !IsSpaceRune(s[|s| - k..])
  {
    var r := s[|s| - w..];
    NotShorter(r, k);
    assert r[w - k..] == s[|s| - k..];
  }

  lemma TrailingSpaceIs(s: bytes, w: nat)
    requires 1 <= w <= 3 && w <= |s| && IsSpaceRune(s[|s| - w..])
    ensures TrailingSpace(s) == w
  {
    if w >= 2 {
      NoShorterSuffix(s, w, 1);
    }
    if w == 3 {
      NoShorterSuffix(s, w, 2);
    }
  }

  lemma {:induction false} TrimRightDropsSpaces(x: bytes, b: bytes)
    requires Spaces(b)
    ensures TrimRight(x + b) == TrimRight(x)
    decreases |b|
  {
    if b == [] {
      assert x + b == x;
    } else {
      var a, r := LastSpace(b);
      Associative(x, a, r);
      var s := x + a + r;
      assert s[|s| - |r|..] == r && s[..|s| - |r|] == x + a;
      TrailingSpaceIs(s, |r|);
      TrimRightDropsSpaces(x, a);
    }
  }

  lemma {:induction false} TrimLeftDropsSpaces(a: bytes, x: bytes)
    requires Spaces(a)
    ensures TrimLeft(a + x) == TrimLeft(x)
    decreases |a|
  {
    if a == [] {
      assert a + x == x;
    } else {
      var w :| 1 <= w <= 3 && w <= |a| && IsSpaceRune(a[..w]) && Spaces(a[w..]);
      var r, b := a[..w], a[w..];
      assert a == r + b;
      Associative(r, b, x);
      assert (r + (b + x))[..w] == r && (r + (b + x))[w..] == b + x;
      LeadingSpaceIs(a + x, w);
      TrimLeftDropsSpaces(b, x);
    }
  }

  /** Trimming takes all white space off both ends, and nothing else. */
  lemma TrimSpaceOfPadded(a: bytes, x: bytes, b: bytes)
    requires Spaces(a) && Spaces(b) && LeadingSpace(x + b) == 0 && TrailingSpace(x) == 0
    ensures TrimSpace(a + x + b) == x
  {
    Associative(a, x, b);
    TrimLeftDropsSpaces(a, x + b);
    TrimRightDropsSpaces(x, b);
  }

  /** So is a line with a carriage return at its end, if it is blank without it. */
  lemma BlankWithCR(line: bytes)
    requires Blank(StripCR(line))
    ensures Blank(line)
  {
    BlankIff(StripCR(line));
    BlankIff(line);
    if StripCR(line) != line {
      SpacesSnoc(StripCR(line), [CR]);
      assert line == StripCR(line) + [CR];
    }
  }
}
