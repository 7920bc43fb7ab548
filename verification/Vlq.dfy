/**
 Base64 VLQ as read by `decodeVLQ`: five magnitude bits per digit, 0x20 as continuation bit, and the
 lowest bit of the assembled number as sign. All arithmetic is 64-bit, as in the source.
*/
module Vlq {
  import opened Basics

  const UPPER := "ABCDEFGHIJKLMNOPQRSTUVWXYZ"
  const LOWER := "abcdefghijklmnopqrstuvwxyz"
  const DECIMAL := "0123456789"
  const BASE64_CHARS := UPPER + LOWER + DECIMAL + "+/"

  datatype VlqError = InvalidCharacter(c: byte) | Truncated

  /** The value of a base64 character by the ranges of RFC 4648, section 4; -1 for any other byte. */
  function DigitValue(b: byte): (d: int)
    ensures -1 <= d < 64
  {
    if 'A' as int <= b <= 'Z' as int then b - 'A' as int
    else if 'a' as int <= b <= 'z' as int then b - 'a' as int + 26
    else if '0' as int <= b <= '9' as int then b - '0' as int + 52
    else if b == '+' as int then 62
    else if b == '/' as int then 63
    else -1
  }

  /** The character that stands for a base64 digit. */
  function DigitChar(d: int): (b: byte)
    requires 0 <= d < 64
    ensures DigitValue(b) == d
  {
    if d < 26 then d + 'A' as int
    else if d < 52 then d - 26 + 'a' as int
    else if d < 62 then d - 52 + '0' as int
    else if d == 62 then '+' as int
    else '/' as int
  }

  /** The literal alphabet lists exactly the digits of RFC 4648, in order. */
  lemma AlphabetIsRfc4648(i: int)
    requires 0 <= i < 64
    ensures |BASE64_CHARS| == 64
    ensures BASE64_CHARS[i] as int == DigitChar(i)
  {
    var upper, lower, decimal := UPPER, LOWER, DECIMAL;
    assert forall k :: 0 <= k < 26 ==> upper[k] as int == 'A' as int + k;
    assert forall k :: 0 <= k < 26 ==> lower[k] as int == 'a' as int + k;
    assert forall k :: 0 <= k < 10 ==> decimal[k] as int == '0' as int + k;
  }

  /** The table that package initialisation fills: every byte outside the alphabet maps to -1. */
  method BuildTable() returns (table: array<int>)
    ensures fresh(table) && table.Length == 256
    ensures forall b: byte :: table[b] == DigitValue(b)
  {
    table := new int[256];
    for i := 0 to 256
      invariant forall k :: 0 <= k < i ==> table[k] == -1
    {
      table[i] := -1;
    }
    for i := 0 to |BASE64_CHARS|
      invariant forall b: byte :: table[b] == if DigitValue(b) < i then DigitValue(b) else -1
    {
      AlphabetIsRfc4648(i);
      table[BASE64_CHARS[i] as int] := i;
    }
  }

  /** The sign bit is the lowest one; the rest is shifted down arithmetically. */
  function Finish(result: int): int {
    if result % 2 == 1 then -(result / 2) else result / 2
  }

  /** The digit loop from an accumulated result and shift. */
  function DecodeFrom(s: bytes, result: int, shift: nat): Result<(int, bytes), VlqError> {
    if s == [] then Err(Truncated)
    else
      var digit := DigitValue(s[0]);
      if digit < 0 then Err(InvalidCharacter(s[0]))
      else
        var result' := Wrap64(result + digit % 32 * Pow2(shift));
        if digit < 32 then Ok((Finish(result'), s[1..]))
        else DecodeFrom(s[1..], result', shift + 5)
  }

  function Decode(s: bytes): Result<(int, bytes), VlqError> {
    DecodeFrom(s, 0, 0)
  }

  /** The loop over the bytes of s; weight is 1 << shift. */
  method DecodeVLQ(table: array<int>, s: bytes) returns (r: Result<(int, bytes), VlqError>)
    requires table.Length == 256
    requires forall b: byte :: table[b] == DigitValue(b)
    ensures r == Decode(s)
  {
    var result, shift: nat, weight := 0, 0, 1;
    var i := 0;
    while i < |s|
      invariant 0 <= i <= |s|
      invariant weight == Pow2(shift)
      invariant Decode(s) == DecodeFrom(s[i..], result, shift)
    {
      var digit := table[s[i]];
      if digit < 0 {
        return Err(InvalidCharacter(s[i]));
      }
      result := Wrap64(result + digit % 32 * weight);
      assert s[i..][1..] == s[i + 1..];
      if digit / 32 == 0 {
        var negate := result % 2 == 1;
        result := result / 2;
        if negate {
          result := -result;
        }
        return Ok((result, s[i + 1..]));
      }
      Pow2Add5(shift);
      shift, weight := shift + 5, 32 * weight;
      i := i + 1;
    }
    return Err(Truncated);
  }

  // ---- Which inputs are rejected, and how

  /** The first n bytes are digits with a continuation bit. */
  predicate Continues(s: bytes, n: nat) {
    n <= |s| && forall i :: 0 <= i < n ==> DigitValue(s[i]) >= 32
  }

  /** What comes after the continuing digits decides: nothing, a byte that is no digit, or the last digit. */
  lemma DecodeOutcome(s: bytes, n: nat)
    requires Continues(s, n) && (n < |s| ==> DigitValue(s[n]) < 32)
    ensures if n == |s| then Decode(s) == Err(Truncated)
            else if DigitValue(s[n]) < 0 then Decode(s) == Err(InvalidCharacter(s[n]))
            else Decode(s).Ok? && Decode(s).value.1 == s[n + 1..]
  {
    DecodeFromOutcome(s, n, 0, 0);
  }

  lemma {:induction false} DecodeFromOutcome(s: bytes, n: nat, result: int, shift: nat)
    requires Continues(s, n) && (n < |s| ==> DigitValue(s[n]) < 32)
    ensures var r := DecodeFrom(s, result, shift);
            if n == |s| then r == Err(Truncated)
            else if DigitValue(s[n]) < 0 then r == Err(InvalidCharacter(s[n]))
            else r.Ok? && r.value.1 == s[n + 1..]
  {
    if n > 0 {
      DecodeFromOutcome(s[1..], n - 1, Wrap64(result + DigitValue(s[0]) % 32 * Pow2(shift)), shift + 5);
      assert n < |s| ==> s[1..][n..] == s[n + 1..];
    }
  }

  // ---- What a digit string denotes

  /** One complete VLQ value: continuation bits on all digits but the last. */
  predicate IsVlq(ds: bytes) {
    && ds != []
    && DigitValue(ds[0]) >= 0
    && if |ds| == 1 then DigitValue(ds[0]) < 32 else DigitValue(ds[0]) >= 32 && IsVlq(ds[1..])
  }

  /** The unbounded number a digit string stands for, least significant digit first. */
  function DigitSum(ds: bytes): int {
    if ds == [] then 0 else DigitValue(ds[0]) % 32 + 32 * DigitSum(ds[1..])
  }

  /** Success means: a complete VLQ value was stripped off the front, and at least one byte of it. */
  lemma {:induction false} DecodeSplits(s: bytes, result: int, shift: nat) returns (ds: bytes)
    requires DecodeFrom(s, result, shift).Ok?
    ensures IsVlq(ds) && s == ds + DecodeFrom(s, result, shift).value.1
  {
    var digit := DigitValue(s[0]);
    if digit < 32 {
      ds := s[..1];
    } else {
      var tail := DecodeSplits(s[1..], Wrap64(result + digit % 32 * Pow2(shift)), shift + 5);
      ds := [s[0]] + tail;
      assert ds[1..] == tail;
    }
  }

  lemma Distribute(d: int, t: int, p: int)
    ensures d * p + t * (32 * p) == (d + 32 * t) * p
  {
  }

  lemma {:induction false} DecodeFromDenotes(ds: bytes, rest: bytes, acc: int, shift: nat)
    requires IsVlq(ds)
    ensures DecodeFrom(ds + rest, Wrap64(acc), shift) ==
            Ok((Finish(Wrap64(acc + DigitSum(ds) * Pow2(shift))), rest))
  {
    var s := ds + rest;
    var d := DigitValue(ds[0]) % 32;
    WrapAdd(acc, d * Pow2(shift));
    assert s[0] == ds[0];
    if |ds| == 1 {
      assert s[1..] == rest;
      assert DigitSum(ds) == d;
    } else {
      assert s[1..] == ds[1..] + rest;
      DecodeFromDenotes(ds[1..], rest, acc + d * Pow2(shift), shift + 5);
      Pow2Add5(shift);
      Distribute(d, DigitSum(ds[1..]), Pow2(shift));
    }
  }

  /** Decoding any complete value yields its signed number, computed modulo 2^64, and leaves the rest untouched. */
  lemma DecodeDenotes(ds: bytes, rest: bytes)
    requires IsVlq(ds)
    ensures Decode(ds + rest) == Ok((Finish(Wrap64(DigitSum(ds))), rest))
  {
    DecodeFromDenotes(ds, rest, 0, 0);
  }

  /** A successful call returns the value of the digits it consumed, and consumes at least one. */
  lemma DecodeConsumes(s: bytes)
    requires Decode(s).Ok?
    ensures |Decode(s).value.1| < |s|
    ensures exists ds :: IsVlq(ds) && s == ds + Decode(s).value.1 && Decode(s).value.0 == Finish(Wrap64(DigitSum(ds)))
  {
    var ds := DecodeSplits(s, 0, 0);
    DecodeDenotes(ds, Decode(s).value.1);
  }

  /** Machine arithmetic gives the unbounded answer exactly for digit strings below 2^63. */
  lemma MachineAgreesIff(ds: bytes)
    requires IsVlq(ds)
    ensures Finish(Wrap64(DigitSum(ds))) == Finish(DigitSum(ds)) <==> DigitSum(ds) < TWO_63
  {
    DigitSumBound(ds);
  }

  lemma {:induction false} DigitSumBound(ds: bytes)
    ensures 0 <= DigitSum(ds) < Pow2(5 * |ds|)
  {
    if ds != [] {
      DigitSumBound(ds[1..]);
      Pow2Add5(5 * |ds[1..]|);
    }
  }

  lemma {:induction false} Pow2Monotone(a: nat, b: nat)
    requires a <= b
    ensures Pow2(a) <= Pow2(b)
  {
    if a < b {
      Pow2Monotone(a, b - 1);
    }
  }

  lemma Pow2Of60()
    ensures Pow2(60) == 0x1000_0000_0000_0000
  {
    Pow2Add5(0); Pow2Add5(5); Pow2Add5(10); Pow2Add5(15); Pow2Add5(20); Pow2Add5(25);
    Pow2Add5(30); Pow2Add5(35); Pow2Add5(40); Pow2Add5(45); Pow2Add5(50); Pow2Add5(55);
  }

  /** At most twelve digits never reach 2^60, at any point of the loop, so no addition overflows. */
  lemma TwelveDigitsNeverOverflow(ds: bytes, n: nat)
    requires n <= |ds| <= 12
    ensures 0 <= DigitSum(ds[..n]) < 0x1000_0000_0000_0000
    ensures IsVlq(ds) ==> forall rest :: Decode(ds + rest) == Ok((Finish(DigitSum(ds)), rest))
  {
    DigitSumBound(ds[..n]);
    Pow2Monotone(5 * n, 60);
    DigitSumBound(ds);
    Pow2Monotone(5 * |ds|, 60);
    Pow2Of60();
    if IsVlq(ds) {
      forall rest ensures Decode(ds + rest) == Ok((Finish(DigitSum(ds)), rest)) {
        DecodeDenotes(ds, rest);
      }
    }
  }

  // ---- The encoder the decoder inverts

  function EncodeDigits(u: nat): (ds: bytes)
    ensures IsVlq(ds) && DigitSum(ds) == u
  {
    if u < 32 then [DigitChar(u)]
    else
      var tail := EncodeDigits(u / 32);
      var ds := [DigitChar(u % 32 + 32)] + tail;
      assert ds[1..] == tail;
      ds
  }

  /** Magnitude and sign in one number, the sign lowest. */
  function SignLowest(v: int): (u: nat)
    ensures Finish(u) == v
  {
    if v < 0 then -2 * v + 1 else 2 * v
  }

  function Encode(v: int): (ds: bytes)
    ensures IsVlq(ds) && DigitSum(ds) == SignLowest(v) && Finish(DigitSum(ds)) == v
  {
    EncodeDigits(SignLowest(v))
  }

  /** What the decoder makes of the digits of v, whatever the size of v. */
  function MachineValue(v: int): int {
    Finish(Wrap64(SignLowest(v)))
  }

  /** decode(encode(v) + rest) == (v, rest) for exactly the integers strictly between -2^62 and 2^62. */
  lemma RoundTripIff(v: int, rest: bytes)
    ensures Decode(Encode(v) + rest) == Ok((v, rest)) <==> -TWO_62 < v < TWO_62
  {
    DecodeDenotes(Encode(v), rest);
    MachineAgreesIff(Encode(v));
  }
}
