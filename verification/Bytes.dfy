/** Byte strings: their lexicographic order, and big-endian numbers inside them. */
module Bytes {

  type Byte = b: int | 0 <= b < 256

  type ByteString = seq<Byte>

  const TWO_TO_THE_32: nat := 0x1_0000_0000
  const TWO_TO_THE_63: nat := 0x8000_0000_0000_0000
  const TWO_TO_THE_64: nat := 0x1_0000_0000_0000_0000

  // ---------- big-endian numbers ----------

  function Pow256(w: nat): (p: nat)
    ensures p > 0
  {
    if w == 0 then 1 else 256 * Pow256(w - 1)
  }

  /** The `width` low bytes of `n`, most significant first. */
  function BigEndian(n: nat, width: nat): (b: ByteString)
    ensures |b| == width
  {
    if width == 0 then [] else BigEndian(n / 256, width - 1) + [n % 256]
  }

  function FromBigEndian(b: ByteString): (n: nat)
  {
    if b == [] then 0 else FromBigEndian(b[..|b| - 1]) * 256 + b[|b| - 1]
  }

  lemma {:induction false} BigEndianRoundTrip(n: nat, width: nat)
    requires n < Pow256(width)
    ensures FromBigEndian(BigEndian(n, width)) == n
  {
    if width > 0 {
      BigEndianRoundTrip(n / 256, width - 1);
      assert BigEndian(n, width)[..width - 1] == BigEndian(n / 256, width - 1);
    }
  }

  lemma {:induction false} FromBigEndianBound(b: ByteString)
    ensures FromBigEndian(b) < Pow256(|b|)
  {
    if b != [] {
      FromBigEndianBound(b[..|b| - 1]);
    }
  }

  lemma PowersOf256()
    ensures Pow256(4) == TWO_TO_THE_32
    ensures Pow256(8) == TWO_TO_THE_64
  {
    assert Pow256(2) == 0x1_0000;
    assert Pow256(4) == TWO_TO_THE_32;
    assert Pow256(6) == 0x1_0000_0000_0000;
  }

  /** The first byte of a `width`-byte number stays below `top` when the number is below `top * 256^(width-1)`. */
  lemma {:induction false} LeadingByte(n: nat, width: nat, top: nat)
    requires width > 0
    requires n < top * Pow256(width - 1)
    requires top <= 256
    ensures BigEndian(n, width)[0] < top
  {
    if width > 1 {
      assert n / 256 < top * Pow256(width - 2) by {
        assert top * Pow256(width - 1) == 256 * (top * Pow256(width - 2));
      }
      LeadingByte(n / 256, width - 1, top);
      assert BigEndian(n, width)[0] == BigEndian(n / 256, width - 1)[0];
    }
  }

  // ---------- lexicographic order ----------

  predicate Less(a: ByteString, b: ByteString)
  {
    b != [] && (a == [] || a[0] < b[0] || (a[0] == b[0] && Less(a[1..], b[1..])))
  }

  lemma {:induction false} LessIrreflexive(a: ByteString)
    ensures !Less(a, a)
  {
    if a != [] {
      LessIrreflexive(a[1..]);
    }
  }

  lemma {:induction false} LessTransitive(a: ByteString, b: ByteString, c: ByteString)
    requires Less(a, b) && Less(b, c)
    ensures Less(a, c)
  {
    if a != [] && a[0] == b[0] == c[0] {
      LessTransitive(a[1..], b[1..], c[1..]);
    }
  }

  lemma {:induction false} LessTotal(a: ByteString, b: ByteString)
    ensures Less(a, b) || a == b || Less(b, a)
  {
    if a != [] && b != [] && a[0] == b[0] {
      LessTotal(a[1..], b[1..]);
      assert a == [a[0]] + a[1..] && b == [b[0]] + b[1..];
    }
  }

  lemma LessMeansDifferent(a: ByteString, b: ByteString)
    requires Less(a, b)
    ensures a != b
  {
    LessIrreflexive(a);
  }

  lemma LessAsymmetric(a: ByteString, b: ByteString)
    requires Less(a, b)
    ensures !Less(b, a)
  {
    if Less(b, a) {
      LessTransitive(a, b, a);
      LessIrreflexive(a);
    }
  }

  /** A common prefix plays no part in a comparison. */
  lemma {:induction false} LessSamePrefix(p: ByteString, a: ByteString, b: ByteString)
    ensures Less(p + a, p + b) == Less(a, b)
  {
    if p == [] {
      assert p + a == a && p + b == b;
    } else {
      LessSamePrefix(p[1..], a, b);
      assert (p + a)[1..] == p[1..] + a && (p + b)[1..] == p[1..] + b;
    }
  }

  /** Two different strings of one length decide a comparison, whatever follows them. */
  lemma {:induction false} LessDecided(a: ByteString, x: ByteString, b: ByteString, y: ByteString)
    requires |a| == |b| && a != b
    ensures Less(a + x, b + y) == Less(a, b)
  {
    assert (a + x)[0] == a[0] && (b + y)[0] == b[0];
    if a[0] == b[0] {
      assert a == [a[0]] + a[1..] && b == [b[0]] + b[1..];
      LessDecided(a[1..], x, b[1..], y);
      assert (a + x)[1..] == a[1..] + x && (b + y)[1..] == b[1..] + y;
    }
  }

  lemma {:induction false} BigEndianLess(m: nat, n: nat, width: nat)
    requires m < n < Pow256(width)
    ensures Less(BigEndian(m, width), BigEndian(n, width))
  {
    if width > 0 {
      var a, b := BigEndian(m / 256, width - 1), BigEndian(n / 256, width - 1);
      if m / 256 < n / 256 {
        BigEndianLess(m / 256, n / 256, width - 1);
        LessIrreflexive(a);
        LessDecided(a, [m % 256], b, [n % 256]);
      } else {
        LessSamePrefix(a, [m % 256], [n % 256]);
      }
    }
  }

  /** Byte order of equally wide big-endian numbers is their numeric order. */
  lemma BigEndianOrder(m: nat, n: nat, width: nat)
    requires m < Pow256(width) && n < Pow256(width)
    ensures Less(BigEndian(m, width), BigEndian(n, width)) <==> m < n
    ensures BigEndian(m, width) == BigEndian(n, width) <==> m == n
  {
    BigEndianRoundTrip(m, width);
    BigEndianRoundTrip(n, width);
    if m < n {
      BigEndianLess(m, n, width);
    } else if n < m {
      BigEndianLess(n, m, width);
      LessAsymmetric(BigEndian(n, width), BigEndian(m, width));
    } else {
      LessIrreflexive(BigEndian(m, width));
    }
  }
}
