/**
 * Byte strings as the key-value store sees them: big-endian integers of a
 * fixed width and the lexicographic order in which the store keeps its keys.
 */
module Bytes {

  type Byte = b: int | 0 <= b < 256

  function Pow256(n: nat): (p: nat)
    ensures p > 0
  {
    if n == 0 then 1 else 256 * Pow256(n - 1)
  }

  /** The n-byte big-endian form of v modulo 256^n, most significant byte first (`to_be_bytes`). */
  function BigEndian(v: nat, n: nat): (r: seq<Byte>)
    ensures |r| == n
  {
    if n == 0 then [] else BigEndian(v / 256, n - 1) + [v % 256]
  }

  /** The number whose big-endian form is s (`from_be_bytes`). */
  function FromBigEndian(s: seq<Byte>): (v: nat)
    ensures v < Pow256(|s|)
  {
    if s == [] then 0 else FromBigEndian(s[..|s| - 1]) * 256 + s[|s| - 1]
  }

  /**
   * Byte-wise lexicographic order, a proper prefix ordered first: the order
   * in which the store iterates its keys.
   */
  predicate LexLess(a: seq<Byte>, b: seq<Byte>)
    decreases |a|
  {
    |b| > 0 && (|a| == 0 || a[0] < b[0] || (a[0] == b[0] && LexLess(a[1..], b[1..])))
  }

  lemma {:induction false} FromBigEndianOfBigEndian(v: nat, n: nat)
    requires v < Pow256(n)
    ensures FromBigEndian(BigEndian(v, n)) == v
  {
    if n > 0 {
      var s := BigEndian(v, n);
      assert s[..n - 1] == BigEndian(v / 256, n - 1);
      FromBigEndianOfBigEndian(v / 256, n - 1);
    }
  }

  lemma {:induction false} BigEndianOfFromBigEndian(s: seq<Byte>)
    ensures BigEndian(FromBigEndian(s), |s|) == s
  {
    if s != [] {
      var init := s[..|s| - 1];
      BigEndianOfFromBigEndian(init);
      var v := FromBigEndian(s);
      assert v / 256 == FromBigEndian(init);
      assert v % 256 == s[|s| - 1];
      assert s == init + [s[|s| - 1]];
    }
  }

  /** Big-endian decoding is injective on byte strings of one width. */
  lemma FromBigEndianInjective(a: seq<Byte>, b: seq<Byte>)
    requires |a| == |b| && FromBigEndian(a) == FromBigEndian(b)
    ensures a == b
  {
    BigEndianOfFromBigEndian(a);
    BigEndianOfFromBigEndian(b);
  }

  /** The value of a big-endian string split after its leading byte. */
  lemma {:induction false} FromBigEndianCons(b: Byte, t: seq<Byte>)
    ensures FromBigEndian([b] + t) == b * Pow256(|t|) + FromBigEndian(t)
  {
    if t == [] {
      assert ([b] + t)[..0] == [];
    } else {
      var t' := t[..|t| - 1];
      var s := [b] + t;
      assert s[..|s| - 1] == [b] + t';
      assert s[|s| - 1] == t[|t| - 1];
      FromBigEndianCons(b, t');
      var p, f, last := Pow256(|t'|), FromBigEndian(t'), t[|t| - 1];
      assert FromBigEndian(s) == (b * p + f) * 256 + last;
      assert Pow256(|t|) == 256 * p && FromBigEndian(t) == f * 256 + last;
      ShiftByte(b, p, f, last);
    }
  }

  lemma ShiftByte(b: nat, p: nat, f: nat, last: nat)
    ensures (b * p + f) * 256 + last == b * (256 * p) + (f * 256 + last)
  {
  }

  lemma LeadingByteDominates(x: nat, y: nat, p: nat, r: nat, r': nat)
    requires x < y && r < p
    ensures x * p + r < y * p + r'
  {
    assert (y - x) * p >= p by {
      assert y - x >= 1;
    }
    assert y * p - x * p == (y - x) * p;
  }

  /** On strings of one width, lexicographic order is the order of their big-endian values. */
  lemma {:induction false} LexLessIsNumericOrder(a: seq<Byte>, b: seq<Byte>)
    requires |a| == |b|
    ensures LexLess(a, b) <==> FromBigEndian(a) < FromBigEndian(b)
  {
    if a != [] {
      var n := |a| - 1;
      var p := Pow256(n);
      assert a == [a[0]] + a[1..];
      assert b == [b[0]] + b[1..];
      FromBigEndianCons(a[0], a[1..]);
      FromBigEndianCons(b[0], b[1..]);
      if a[0] < b[0] {
        LeadingByteDominates(a[0], b[0], p, FromBigEndian(a[1..]), FromBigEndian(b[1..]));
      } else if b[0] < a[0] {
        LeadingByteDominates(b[0], a[0], p, FromBigEndian(b[1..]), FromBigEndian(a[1..]));
      } else {
        LexLessIsNumericOrder(a[1..], b[1..]);
      }
    }
  }

  /** Comparing concatenations compares the heads first and the tails on a tie. */
  lemma {:induction false} LexLessConcat(a: seq<Byte>, a': seq<Byte>, b: seq<Byte>, b': seq<Byte>)
    requires |a| == |b|
    ensures LexLess(a + a', b + b') <==> LexLess(a, b) || (a == b && LexLess(a', b'))
  {
    if a == [] {
      assert a + a' == a' && b + b' == b';
    } else {
      assert (a + a')[0] == a[0] && (b + b')[0] == b[0];
      assert (a + a')[1..] == a[1..] + a';
      assert (b + b')[1..] == b[1..] + b';
      LexLessConcat(a[1..], a', b[1..], b');
      if a[0] == b[0] && a[1..] == b[1..] {
        assert a == [a[0]] + a[1..] && b == [b[0]] + b[1..];
      }
    }
  }

  /** On strings of one width the order is strict and total. */
  lemma LexLessTotal(a: seq<Byte>, b: seq<Byte>)
    requires |a| == |b|
    ensures !(LexLess(a, b) && LexLess(b, a))
    ensures a == b || LexLess(a, b) || LexLess(b, a)
  {
    LexLessIsNumericOrder(a, b);
    LexLessIsNumericOrder(b, a);
    if FromBigEndian(a) == FromBigEndian(b) {
      FromBigEndianInjective(a, b);
    }
  }

  lemma LexLessTransitive(a: seq<Byte>, b: seq<Byte>, c: seq<Byte>)
    requires |a| == |b| == |c| && LexLess(a, b) && LexLess(b, c)
    ensures LexLess(a, c)
  {
    LexLessIsNumericOrder(a, b);
    LexLessIsNumericOrder(b, c);
    LexLessIsNumericOrder(a, c);
  }
}
