/** Splitting and joining byte strings on a one-byte separator, as `strings.Split` and `strings.Join` do. */
module Text {
  import opened Basics

  /** Cuts s at every occurrence of sep; the empty string gives one empty part. */
  function Split(s: bytes, sep: byte): (parts: seq<bytes>)
    ensures |parts| >= 1
    ensures forall p :: p in parts ==> sep !in p
  {
    if s == [] then [[]]
    else
      var parts := Split(s[1..], sep);
      if s[0] == sep then [[]] + parts
      else [[s[0]] + parts[0]] + parts[1..]
  }

  function Join(parts: seq<bytes>, sep: byte): bytes
    requires |parts| >= 1
  {
    if |parts| == 1 then parts[0] else parts[0] + [sep] + Join(parts[1..], sep)
  }

  function Count(s: bytes, sep: byte): nat {
    if s == [] then 0 else (if s[0] == sep then 1 else 0) + Count(s[1..], sep)
  }

  lemma {:induction false} SplitAtSeparator(a: bytes, b: bytes, sep: byte)
    ensures Split(a + [sep] + b, sep) == Split(a, sep) + Split(b, sep)
  {
    var s := a + [sep] + b;
    if a == [] {
      assert s[1..] == b;
    } else {
      assert s[1..] == a[1..] + [sep] + b;
      SplitAtSeparator(a[1..], b, sep);
    }
  }

  lemma {:induction false} SplitWhole(p: bytes, sep: byte)
    requires sep !in p
    ensures Split(p, sep) == [p]
  {
    if p != [] {
      SplitWhole(p[1..], sep);
      assert [p[0]] + p[1..] == p;
    }
  }

  /** Splitting undoes joining for separator-free parts. */
  lemma {:induction false} SplitJoin(parts: seq<bytes>, sep: byte)
    requires |parts| >= 1 && forall p :: p in parts ==> sep !in p
    ensures Split(Join(parts, sep), sep) == parts
  {
    SplitWhole(parts[0], sep);
    if |parts| > 1 {
      SplitAtSeparator(parts[0], Join(parts[1..], sep), sep);
      SplitJoin(parts[1..], sep);
    }
  }

  lemma {:induction false} SplitLength(s: bytes, sep: byte)
    ensures |Split(s, sep)| == Count(s, sep) + 1
  {
    if s != [] {
      SplitLength(s[1..], sep);
    }
  }
}
