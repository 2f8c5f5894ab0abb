/**
 Bytes as the key-value store sees them: big-endian integers and the
 byte-lexicographic order in which keys are iterated.
 */
module Bytes {

  type Byte = b: int | 0 <= b < 256

  type Data = seq<Byte>

  function Pow256(n: nat): (p: nat)
    ensures p > 0
  {
    if n == 0 then 1 else 256 * Pow256(n - 1)
  }

  /** Reducing a negative number once wraps it to two's complement. */
  lemma Wrap(v: int, p: int)
    requires -p <= v < p
    ensures v % p == if v < 0 then v + p else v
  {
    var q := v / p;
    assert v == p * q + v % p;
    assert q >= 1 ==> p * q >= p;
    assert q <= -2 ==> p * q <= -2 * p;
  }

  /** The low `width` bytes of `v`, most significant first. */
  function BigEndian(width: nat, v: nat): (s: Data)
    ensures |s| == width
  {
    if width == 0 then [] else BigEndian(width - 1, v / 256) + [v % 256]
  }

  function FromBigEndian(s: Data): nat
  {
    if s == [] then 0 else 256 * FromBigEndian(s[..|s| - 1]) + s[|s| - 1]
  }

  lemma {:induction false} BigEndianRoundTrip(width: nat, v: nat)
    requires v < Pow256(width)
    ensures FromBigEndian(BigEndian(width, v)) == v
  {
    if width > 0 {
      BigEndianRoundTrip(width - 1, v / 256);
      var s := BigEndian(width, v);
      assert s[..|s| - 1] == BigEndian(width - 1, v / 256);
    }
  }

  /** Byte-lexicographic order; a proper prefix sorts first. */
  predicate LexLess(a: seq<int>, b: seq<int>)
    decreases |a|
  {
    b != [] && (a == [] || a[0] < b[0] || (a[0] == b[0] && LexLess(a[1..], b[1..])))
  }

  lemma {:induction false} LexTotal(a: seq<int>, b: seq<int>)
    ensures !LexLess(a, a)
    ensures a != b ==> LexLess(a, b) != LexLess(b, a)
    decreases |a|
  {
    if a != [] {
      LexTotal(a[1..], if b == [] then [] else b[1..]);
      if b != [] && a[0] == b[0] {
        assert a == [a[0]] + a[1..] && b == [b[0]] + b[1..];
      }
    }
  }

  lemma {:induction false} LexTransitive(a: seq<int>, b: seq<int>, c: seq<int>)
    requires LexLess(a, b) && LexLess(b, c)
    ensures LexLess(a, c)
    decreases |a|
  {
    if a != [] && a[0] == b[0] == c[0] {
      LexTransitive(a[1..], b[1..], c[1..]);
    }
  }

  lemma {:induction false} LexCommonPrefix(p: seq<int>, a: seq<int>, b: seq<int>)
    ensures LexLess(p + a, p + b) == LexLess(a, b)
  {
    if p == [] {
      assert p + a == a && p + b == b;
    } else {
      assert (p + a)[1..] == p[1..] + a && (p + b)[1..] == p[1..] + b;
      LexCommonPrefix(p[1..], a, b);
    }
  }

  /** Fixed-width big-endian integers sort as the numbers do, whatever follows them. */
  lemma {:induction false} BigEndianOrder(width: nat, v: nat, w: nat, x: Data, y: Data)
    requires v < w < Pow256(width)
    ensures LexLess(BigEndian(width, v) + x, BigEndian(width, w) + y)
  {
    var v', w' := v / 256, w / 256;
    var x', y' := [v % 256] + x, [w % 256] + y;
    assert BigEndian(width, v) + x == BigEndian(width - 1, v') + x';
    assert BigEndian(width, w) + y == BigEndian(width - 1, w') + y';
    if v' < w' {
      BigEndianOrder(width - 1, v', w', x', y');
    } else {
      LexCommonPrefix(BigEndian(width - 1, v'), x', y');
    }
  }

  lemma Split<T>(buf: seq<T>, pos: nat, a: seq<T>, b: seq<T>)
    requires pos <= |buf| && buf[pos..] == a + b
    ensures pos + |a| <= |buf|
    ensures buf[pos..pos + |a|] == a && buf[pos + |a|..] == b
  {
    assert buf[pos..pos + |a|] == buf[pos..][..|a|];
    assert buf[pos + |a|..] == buf[pos..][|a|..];
  }
}
