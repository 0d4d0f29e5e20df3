/** Binary encoding of node indices (createExpr, and the `format(n, 'b').rjust(5, '0')`
    idiom that findNode and findEdge share).

    A node index is written in binary, most-significant digit first, padded on the left
    with '0' up to five characters, and the first five characters are read as the values
    of the five variables of one namespace. */
module Encoding {

  /** Number of characters read per node. */
  const Width: nat := 5

  /** Size of the node domain [0, Domain). */
  const Domain: nat := 32

  /** The three variable namespaces: `xx0..xx4` (source), `yy0..yy4` (target) and
      `zz0..zz4` (temporary). Being distinct constructors, they never share a variable. */
  datatype Namespace = X | Y | Z

  /** The literal `xx2` (positive) or `~xx2` (negative) for variable `bit` of `ns`. */
  datatype Literal = Literal(ns: Namespace, bit: nat, positive: bool)

  /** Values of the variables of one namespace, variable 0 (most significant) first. */
  type Bits = seq<bool>

  function Pow2(k: nat): (r: nat)
    ensures r >= 1
  {
    if k == 0 then 1 else 2 * Pow2(k - 1)
  }

  function DigitChar(d: nat): char
    requires d < 2
  {
    if d == 0 then '0' else '1'
  }

  /** `format(n, 'b')`: the binary digits of n, most-significant first, no leading zeros. */
  function BinaryDigits(n: nat): (s: string)
    ensures 1 <= |s|
    decreases n
  {
    if n < 2 then [DigitChar(n)] else BinaryDigits(n / 2) + [DigitChar(n % 2)]
  }

  /** `s.rjust(width, fill)`: pads on the left up to `width`; a longer `s` is kept whole. */
  function RJust(s: string, width: nat, fill: char): (r: string)
    ensures |r| == if |s| < width then width else |s|
  {
    if |s| < width then seq(width - |s|, _ => fill) + s else s
  }

  /** `nodeBinary` in createExpr, findNode and findEdge. */
  function NodeBinary(n: nat): (s: string)
    ensures |s| >= Width
  {
    RJust(BinaryDigits(n), Width, '0')
  }

  /** Reads every character as a bit, `int(c) == 1`. */
  function BitsOf(s: string): Bits
  {
    seq(|s|, i requires 0 <= i < |s| => s[i] == '1')
  }

  /** The variable values read from the first Width characters of `nodeBinary`. */
  function Encode(n: nat): (b: Bits)
    ensures |b| == Width
  {
    BitsOf(NodeBinary(n)[..Width])
  }

  /** The number whose binary digits, most-significant first, are `b`. */
  function Decode(b: Bits): nat
  {
    if |b| == 0 then 0 else 2 * Decode(b[..|b| - 1]) + (if b[|b| - 1] then 1 else 0)
  }

  /** createExpr(n, ns): the literals joined by `&`, one per variable, in order. */
  function CreateExpr(n: nat, ns: Namespace): seq<Literal>
  {
    seq(Width, i requires 0 <= i < Width => Literal(ns, i, Encode(n)[i]))
  }

  lemma {:induction false} DecodeBound(b: Bits)
    ensures Decode(b) < Pow2(|b|)
    decreases |b|
  {
    if |b| > 0 {
      DecodeBound(b[..|b| - 1]);
    }
  }

  /** Decoding is injective on bit strings of one length. */
  lemma {:induction false} DecodeInjective(b1: Bits, b2: Bits)
    requires |b1| == |b2| && Decode(b1) == Decode(b2)
    ensures b1 == b2
    decreases |b1|
  {
    if |b1| > 0 {
      var k := |b1| - 1;
      assert b1[k] == b2[k];
      DecodeInjective(b1[..k], b2[..k]);
      assert b1 == b1[..k] + [b1[k]];
      assert b2 == b2[..k] + [b2[k]];
    }
  }

  /** Leading false bits (the '0' padding of rjust) do not change the value. */
  lemma {:induction false} DecodeLeadingZeros(z: Bits, b: Bits)
    requires forall i :: 0 <= i < |z| ==> !z[i]
    ensures Decode(z + b) == Decode(b)
    decreases |z| + |b|
  {
    if |b| == 0 {
      assert z + b == z;
      if |z| > 0 {
        DecodeLeadingZeros(z[..|z| - 1], []);
        assert z[..|z| - 1] + [] == z[..|z| - 1];
      }
    } else {
      var k := |b| - 1;
      assert (z + b)[..|z + b| - 1] == z + b[..k];
      DecodeLeadingZeros(z, b[..k]);
    }
  }

  lemma {:induction false} DecodeBinaryDigits(n: nat)
    ensures Decode(BitsOf(BinaryDigits(n))) == n
    decreases n
  {
    if n >= 2 {
      var s := BinaryDigits(n / 2);
      var b := BitsOf(s + [DigitChar(n % 2)]);
      assert b[..|b| - 1] == BitsOf(s);
      DecodeBinaryDigits(n / 2);
    }
  }

  lemma {:induction false} BinaryDigitsAtMost(n: nat, k: nat)
    requires 1 <= k && n < Pow2(k)
    ensures |BinaryDigits(n)| <= k
    decreases n
  {
    if n >= 2 {
      assert Pow2(k) == 2 * Pow2(k - 1);
      BinaryDigitsAtMost(n / 2, k - 1);
    }
  }

  lemma {:induction false} BinaryDigitsAtLeast(n: nat, k: nat)
    requires 1 <= k && Pow2(k - 1) <= n
    ensures k <= |BinaryDigits(n)|
    decreases k
  {
    if k >= 2 {
      assert Pow2(k - 1) == 2 * Pow2(k - 2);
      BinaryDigitsAtLeast(n / 2, k - 1);
    }
  }

  /** Below Domain, `nodeBinary` is exactly five characters: padding plus the digits. */
  lemma NodeBinaryInDomain(n: nat)
    requires n < Domain
    ensures |BinaryDigits(n)| <= Width && |NodeBinary(n)| == Width
    ensures NodeBinary(n) == seq(Width - |BinaryDigits(n)|, _ => '0') + BinaryDigits(n)
  {
    assert Pow2(5) == 32;
    BinaryDigitsAtMost(n, Width);
    var s := BinaryDigits(n);
    if |s| == Width {
      assert seq(Width - |s|, _ => '0') + s == s;
    }
  }

  /** Reading back the five variables createExpr sets gives the node index again. */
  lemma EncodeRoundTrip(n: nat)
    requires n < Domain
    ensures Decode(Encode(n)) == n
  {
    NodeBinaryInDomain(n);
    var s := BinaryDigits(n);
    var pad := seq(Width - |s|, _ => '0');
    var padded := NodeBinary(n);
    assert padded[..Width] == padded;
    assert BitsOf(padded) == BitsOf(pad) + BitsOf(s);
    DecodeLeadingZeros(BitsOf(pad), BitsOf(s));
    DecodeBinaryDigits(n);
  }

  /** Distinct nodes of the domain get distinct assignments. */
  lemma EncodeInjective(m: nat, n: nat)
    requires m < Domain && n < Domain
    ensures Encode(m) == Encode(n) <==> m == n
  {
    EncodeRoundTrip(m);
    EncodeRoundTrip(n);
  }

  /** Every assignment of five variables is the encoding of exactly one node of the domain. */
  lemma DecodeRoundTrip(b: Bits)
    requires |b| == Width
    ensures Decode(b) < Domain && Encode(Decode(b)) == b
  {
    DecodeBound(b);
    assert Pow2(5) == 32;
    EncodeRoundTrip(Decode(b));
    DecodeInjective(Encode(Decode(b)), b);
  }

  /** Above the domain rjust does not truncate and only the five leading digits are read,
      so the lowest digit is lost: node n and node n / 2 get the same assignment. */
  lemma EncodeAliasesAboveDomain(n: nat)
    requires Domain <= n < 2 * Domain
    ensures Encode(n) == Encode(n / 2)
    ensures n != n / 2
  {
    assert Pow2(5) == 32 && Pow2(4) == 16;
    BinaryDigitsAtMost(n / 2, Width);
    BinaryDigitsAtLeast(n / 2, Width);
    var s := BinaryDigits(n / 2);
    assert BinaryDigits(n) == s + [DigitChar(n % 2)];
    assert NodeBinary(n)[..Width] == s;
    assert NodeBinary(n / 2) == s;
  }
}
