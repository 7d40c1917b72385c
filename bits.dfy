/** Bit strings written most significant bit first, and the number conversions
    that the Base32 codec and the one-time-password truncation share.
    A JavaScript bit-string such as `byte.toString(2).padStart(8, '0')` is a
    `seq<bool>` here: `true` is the character '1', `false` the character '0'. */
module Bits {

  /** An unsigned 8-bit value, the element type of a Node.js `Buffer`. */
  type Byte = b: int | 0 <= b < 256

  function Pow(base: nat, n: nat): (r: nat)
    ensures base >= 1 ==> r >= 1
  {
    if n == 0 then 1 else base * Pow(base, n - 1)
  }

  lemma {:induction false} PowMonotone(base: nat, m: nat, n: nat)
    requires base >= 1 && m <= n
    ensures Pow(base, m) <= Pow(base, n)
  {
    if m < n {
      PowMonotone(base, m, n - 1);
      MulAtLeast(Pow(base, n - 1), base);
    }
  }

  lemma {:induction false} MulAtLeast(d: int, k: int)
    requires d > 0 && k >= 1
    ensures d * k >= d
  {
    if k > 1 {
      MulAtLeast(d, k - 1);
      assert d * k == d * (k - 1) + d;
    }
  }

  /** `a == d * q + r` with `0 <= r < d` determines the quotient and remainder. */
  lemma DivModUnique(a: int, d: int, q: int, r: int)
    requires d > 0 && 0 <= r < d && a == d * q + r
    ensures a / d == q && a % d == r
  {
    var q', r' := a / d, a % d;
    assert a == d * q' + r';
    if q > q' {
      assert d * (q - q') == d * q - d * q';
      MulAtLeast(d, q - q');
    } else if q < q' {
      assert d * (q' - q) == d * q' - d * q;
      MulAtLeast(d, q' - q);
    }
  }

  lemma DivDiv(a: nat, b: nat, c: nat)
    requires b > 0 && c > 0
    ensures a / b / c == a / (b * c)
  {
    var q, r := a / b, a % b;
    var q2, r2 := q / c, q % c;
    assert a == b * q + r;
    assert q == c * q2 + r2;
    assert b * q == b * (c * q2) + b * r2;
    assert b * (c * q2) == (b * c) * q2;
    assert b * r2 <= b * (c - 1) by {
      if r2 < c - 1 {
        MulAtLeast(b, c - 1 - r2);
        assert b * (c - 1) == b * r2 + b * (c - 1 - r2);
      }
    }
    assert b * (c - 1) == b * c - b;
    DivModUnique(a, b * c, q2, b * r2 + r);
  }

  /** A run of `n` zero bits. */
  function Zeros(n: nat): (r: seq<bool>)
    ensures |r| == n && forall i :: 0 <= i < n ==> !r[i]
  {
    seq(n, _ => false)
  }

  /** The `width`-bit binary form of `v`, most significant bit first; for
      `v < 2^width` this is `v.toString(2).padStart(width, '0')`. */
  function ToBits(v: nat, width: nat): (r: seq<bool>)
    ensures |r| == width
  {
    if width == 0 then [] else ToBits(v / 2, width - 1) + [v % 2 == 1]
  }

  /** The value of a bit string read as a binary number, most significant bit
      first: `parseInt(bits, 2)`. A string of `k` bits gives a value below 2^k. */
  function FromBits(bits: seq<bool>): (r: nat)
    ensures r < Pow(2, |bits|)
  {
    if bits == [] then 0
    else 2 * FromBits(bits[..|bits| - 1]) + (if bits[|bits| - 1] then 1 else 0)
  }

  lemma {:induction false} FromBitsOfToBits(v: nat, width: nat)
    requires v < Pow(2, width)
    ensures FromBits(ToBits(v, width)) == v
  {
    if width > 0 {
      var front := ToBits(v / 2, width - 1);
      var bits := ToBits(v, width);
      assert bits[..width - 1] == front;
      FromBitsOfToBits(v / 2, width - 1);
    }
  }

  lemma {:induction false} ToBitsOfFromBits(bits: seq<bool>)
    ensures ToBits(FromBits(bits), |bits|) == bits
  {
    if bits != [] {
      var front, last := bits[..|bits| - 1], bits[|bits| - 1];
      assert bits == front + [last];
      DivModUnique(FromBits(bits), 2, FromBits(front), if last then 1 else 0);
      ToBitsOfFromBits(front);
    }
  }

  lemma {:induction false} FromBitsOfZeros(n: nat)
    ensures FromBits(Zeros(n)) == 0
  {
    if n > 0 {
      assert Zeros(n)[..n - 1] == Zeros(n - 1);
      FromBitsOfZeros(n - 1);
    }
  }

  /** The binary digit of weight 2^k of `v`. */
  function BitOf(v: nat, k: nat): bool
  {
    if k == 0 then v % 2 == 1 else BitOf(v / 2, k - 1)
  }

  lemma {:induction false} BitOfValue(v: nat, k: nat)
    ensures BitOf(v, k) == ((v / Pow(2, k)) % 2 == 1)
  {
    if k > 0 {
      BitOfValue(v / 2, k - 1);
      DivDiv(v, 2, Pow(2, k - 1));
    }
  }

  /** Bit `k`, counted from the left, of the `width`-bit form of `v` is its
      binary digit of weight 2^(width-1-k). */
  lemma {:induction false} ToBitsAt(v: nat, width: nat, k: nat)
    requires k < width
    ensures ToBits(v, width)[k] == BitOf(v, width - 1 - k)
  {
    if k < width - 1 {
      ToBitsAt(v / 2, width - 1, k);
    }
  }

  /** The concatenation, in order, of the `width`-bit forms of `values`. */
  function Pack(values: seq<nat>, width: nat): (r: seq<bool>)
    ensures |r| == width * |values|
  {
    if values == [] then []
    else Pack(values[..|values| - 1], width) + ToBits(values[|values| - 1], width)
  }

  /** Bits `width*i .. width*i + width` of the packed string are value `i`. */
  lemma {:induction false} PackSlice(values: seq<nat>, width: nat, i: nat)
    requires i < |values|
    ensures width * i + width <= width * |values|
    ensures Pack(values, width)[width * i .. width * i + width] == ToBits(values[i], width)
  {
    var n := |values|;
    var front, last := values[..n - 1], ToBits(values[n - 1], width);
    var p := Pack(front, width);
    assert Pack(values, width) == p + last;
    assert width * n == width * (n - 1) + width;
    if i < n - 1 {
      PackSlice(front, width, i);
      assert values[i] == front[i];
      assert width * i + width <= |p|;
      assert (p + last)[width * i .. width * i + width] == p[width * i .. width * i + width];
    } else {
      assert width * i == |p|;
      assert (p + last)[|p| .. |p| + width] == last;
    }
  }

  lemma {:induction false} PackPrefix(values: seq<nat>, width: nat, k: nat)
    requires k < |values|
    ensures Pack(values[..k + 1], width) == Pack(values[..k], width) + ToBits(values[k], width)
  {
    assert values[..k + 1][..k] == values[..k];
  }

  /** Packing a value in front of others puts its bits in front. */
  lemma {:induction false} PackCons(v: nat, values: seq<nat>, width: nat)
    ensures Pack([v] + values, width) == ToBits(v, width) + Pack(values, width)
  {
    if values == [] {
      assert ([v] + values)[..0] == [];
    } else {
      var n := |values|;
      var front, w := values[..n - 1], [v] + values;
      assert w[..n] == [v] + front && w[n] == values[n - 1];
      assert Pack(w, width) == Pack([v] + front, width) + ToBits(values[n - 1], width);
      PackCons(v, front, width);
      assert Pack(values, width) == Pack(front, width) + ToBits(values[n - 1], width);
    }
  }

  /** The smaller of two numbers; `substring(i, j)` stops at `Min(j, length)`. */
  function Min(a: int, b: int): int
  {
    if a <= b then a else b
  }
}
