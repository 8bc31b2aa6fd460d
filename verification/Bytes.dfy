/** Byte strings: big-endian numbers, and the order an ordered tree keeps its keys in. */
module Bytes {

  type Byte = b: int | 0 <= b < 256

  type Text = seq<Byte>

  const LF: Byte := 10
  const CR: Byte := 13
  const COLON: Byte := 58
  const SPACE: Byte := 32

  const U64_MAX: nat := 0xFFFF_FFFF_FFFF_FFFF

  /** How many numbers fit in `width` bytes. */
  function Span(width: nat): (n: nat)
    ensures n > 0
  {
    if width == 0 then 1 else 256 * Span(width - 1)
  }

  lemma SpanOfEight()
    ensures Span(8) == U64_MAX + 1
  {
  }

  /** A number as `width` bytes, the most significant first. */
  function BigEndian(n: nat, width: nat): (s: seq<Byte>)
    requires n < Span(width)
    ensures |s| == width
    decreases width
  {
    if width == 0 then [] else BigEndian(n / 256, width - 1) + [n % 256]
  }

  /** The number a byte string spells, the most significant byte first. */
  function FromBigEndian(s: seq<Byte>): (n: nat)
    ensures n < Span(|s|)
  {
    if s == [] then 0 else FromBigEndian(s[..|s| - 1]) * 256 + s[|s| - 1]
  }

  /** Reading back what was written gives the number. */
  lemma {:induction false} BigEndianReadsBack(n: nat, width: nat)
    requires n < Span(width)
    ensures FromBigEndian(BigEndian(n, width)) == n
    decreases width
  {
    if width > 0 {
      var s := BigEndian(n, width);
      assert s[..|s| - 1] == BigEndian(n / 256, width - 1);
      BigEndianReadsBack(n / 256, width - 1);
    }
  }

  /** Writing what was read gives the bytes. */
  lemma {:induction false} BigEndianWritesBack(s: seq<Byte>)
    ensures BigEndian(FromBigEndian(s), |s|) == s
  {
    if s != [] {
      BigEndianWritesBack(s[..|s| - 1]);
      assert s == s[..|s| - 1] + [s[|s| - 1]];
    }
  }

  /** The order an ordered tree scans its keys in: byte by byte, a prefix before its extensions. */
  predicate Less(a: seq<Byte>, b: seq<Byte>) {
    if b == [] then false
    else if a == [] then true
    else a[0] < b[0] || (a[0] == b[0] && Less(a[1..], b[1..]))
  }

  lemma {:induction false} LessIsTotal(a: seq<Byte>, b: seq<Byte>)
    ensures Less(a, b) || Less(b, a) || a == b
  {
    if a != [] && b != [] && a[0] == b[0] {
      LessIsTotal(a[1..], b[1..]);
      assert a == [a[0]] + a[1..] && b == [b[0]] + b[1..];
    }
  }

  lemma {:induction false} LessIsTransitive(a: seq<Byte>, b: seq<Byte>, c: seq<Byte>)
    requires Less(a, b) && Less(b, c)
    ensures Less(a, c)
  {
    if a != [] && a[0] == b[0] == c[0] {
      LessIsTransitive(a[1..], b[1..], c[1..]);
    }
  }

  lemma {:induction false} LessIsIrreflexive(a: seq<Byte>)
    ensures !Less(a, a)
  {
    if a != [] {
      LessIsIrreflexive(a[1..]);
    }
  }

  /** Behind a shared prefix, only what follows it decides. */
  lemma {:induction false} LessBehindPrefix(p: seq<Byte>, a: seq<Byte>, b: seq<Byte>)
    ensures Less(p + a, p + b) <==> Less(a, b)
  {
    if p == [] {
      assert p + a == a && p + b == b;
    } else {
      assert (p + a)[1..] == p[1..] + a && (p + b)[1..] == p[1..] + b;
      LessBehindPrefix(p[1..], a, b);
    }
  }

  /** Prefixes of one length that differ decide by themselves. */
  lemma {:induction false} LessByPrefix(a: seq<Byte>, b: seq<Byte>, x: seq<Byte>, y: seq<Byte>)
    requires |a| == |b|
    requires Less(a, b)
    ensures Less(a + x, b + y)
  {
    assert a != [];
    assert (a + x)[1..] == a[1..] + x && (b + y)[1..] == b[1..] + y;
    if a[0] == b[0] {
      LessByPrefix(a[1..], b[1..], x, y);
    }
  }

  /** Big-endian numbers of one width sort as byte strings exactly as they sort as numbers. */
  lemma {:induction false} BigEndianSortsAsNumbers(m: nat, n: nat, width: nat)
    requires m < Span(width) && n < Span(width)
    ensures Less(BigEndian(m, width), BigEndian(n, width)) <==> m < n
    decreases width
  {
    if width > 0 {
      var a, b := BigEndian(m / 256, width - 1), BigEndian(n / 256, width - 1);
      BigEndianSortsAsNumbers(m / 256, n / 256, width - 1);
      BigEndianSortsAsNumbers(n / 256, m / 256, width - 1);
      if m / 256 < n / 256 {
        LessByPrefix(a, b, [m % 256], [n % 256]);
      } else if n / 256 < m / 256 {
        LessByPrefix(b, a, [n % 256], [m % 256]);
        LessIsAsymmetric(b + [n % 256], a + [m % 256]);
      } else {
        LessBehindPrefix(a, [m % 256], [n % 256]);
      }
    }
  }

  lemma LessIsAsymmetric(a: seq<Byte>, b: seq<Byte>)
    requires Less(a, b)
    ensures !Less(b, a)
  {
  }
}
