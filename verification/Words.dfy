/**
 Bytes, words and bits as the wire format uses them: a word is a bounded natural number, sent
 most significant byte first, and a shift by whole bytes is a product or quotient with a power
 of 256.
 */
module Words {

  type byte = b: int | 0 <= b < 256

  /** 256 to the power n: one more than the largest value n bytes hold. */
  function Pow256(n: nat): (r: nat)
    ensures r >= 1
  {
    if n == 0 then 1 else 256 * Pow256(n - 1)
  }

  function Pow2(n: nat): (r: nat)
    ensures r >= 1
  {
    if n == 0 then 1 else 2 * Pow2(n - 1)
  }

  /** The low n bytes of v, most significant first. */
  function ToBytes(v: nat, n: nat): (s: seq<byte>)
    ensures |s| == n
  {
    if n == 0 then [] else ToBytes(v / 256, n - 1) + [v % 256]
  }

  /** The number a byte string spells, most significant byte first. */
  function FromBytes(s: seq<byte>): (v: nat)
  {
    if |s| == 0 then 0 else 256 * FromBytes(s[..|s| - 1]) + s[|s| - 1]
  }

  lemma {:induction false} FromBytesBound(s: seq<byte>)
    ensures FromBytes(s) < Pow256(|s|)
  {
    if |s| != 0 {
      FromBytesBound(s[..|s| - 1]);
    }
  }

  /** The first byte is the most significant one. */
  lemma {:induction false} MostSignificantFirst(s: seq<byte>)
    requires |s| > 0
    ensures FromBytes(s) == s[0] * Pow256(|s| - 1) + FromBytes(s[1..])
  {
    if |s| > 1 {
      var n := |s| - 1;
      MostSignificantFirst(s[..n]);
      assert s[..n][1..] == s[1..][..n - 1];
      assert Pow256(n) == 256 * Pow256(n - 1);
      assert 256 * (s[0] * Pow256(n - 1)) == s[0] * Pow256(n);
    }
  }

  lemma {:induction false} WordRoundTrip(v: nat, n: nat)
    requires v < Pow256(n)
    ensures FromBytes(ToBytes(v, n)) == v
  {
    if n != 0 {
      hide *;
      LowByte(v, n);
      WordRoundTrip(v / 256, n - 1);
      LastByte(v, n);
      LastDigit(ToBytes(v, n));
    } else {
      assert Pow256(0) == 1;
    }
  }

  lemma LastByte(v: nat, n: nat)
    requires n > 0
    ensures ToBytes(v, n)[..n - 1] == ToBytes(v / 256, n - 1) && ToBytes(v, n)[n - 1] as nat == v % 256
  {
  }

  lemma LastDigit(s: seq<byte>)
    requires |s| > 0
    ensures FromBytes(s) == 256 * FromBytes(s[..|s| - 1]) + s[|s| - 1]
  {
  }

  /** What is left of a word without its lowest byte fits one byte less. */
  lemma LowByte(v: nat, n: nat)
    requires n > 0 && v < Pow256(n)
    ensures v / 256 < Pow256(n - 1) && v == 256 * (v / 256) + v % 256
  {
    assert Pow256(n) == 256 * Pow256(n - 1);
  }

  lemma {:induction false} BytesRoundTrip(s: seq<byte>)
    ensures ToBytes(FromBytes(s), |s|) == s
  {
    if |s| != 0 {
      var n := |s| - 1;
      BytesRoundTrip(s[..n]);
      var v := FromBytes(s);
      assert v / 256 == FromBytes(s[..n]) && v % 256 == s[n];
      assert s == s[..n] + [s[n]];
    }
  }

  /** The big-endian word in the last n bytes of m is the number modulo 256^n. */
  lemma {:induction false} TailBytes(v: nat, m: nat, n: nat)
    requires n <= m
    ensures FromBytes(ToBytes(v, m)[m - n..]) == v % Pow256(n)
  {
    var t := ToBytes(v, m)[m - n..];
    if n != 0 {
      TailBytes(v / 256, m - 1, n - 1);
      assert t[..n - 1] == ToBytes(v / 256, m - 1)[m - n..];
      assert t[n - 1] == v % 256;
      ModSplit(v, 256, Pow256(n - 1));
    }
  }

  /** Reducing v modulo a*b keeps the digit modulo a and reduces the quotient modulo b. */
  lemma ModSplit(v: nat, a: nat, b: nat)
    requires a > 0 && b > 0
    ensures a * b > 0
    ensures v % (a * b) == a * ((v / a) % b) + v % a
  {
    var q := v / a;
    var hi := q / b;
    var r := a * (q % b) + v % a;
    assert v == a * q + v % a;
    assert q == b * hi + q % b;
    assert v == (a * b) * hi + r by {
      assert a * (b * hi) == (a * b) * hi;
      assert a * (b * hi + q % b) == a * (b * hi) + a * (q % b);
    }
    assert 0 <= r < a * b by {
      assert a * (q % b) <= a * (b - 1);
      assert a * (b - 1) == a * b - a;
    }
    DivModUnique(v, a * b, hi, r);
  }

  lemma DivModUnique(v: int, d: int, q: int, r: int)
    requires d > 0 && 0 <= r < d && v == d * q + r
    ensures v / d == q && v % d == r
  {
    var k := v / d - q;
    assert (k >= 1 ==> d * k >= d) && (k <= -1 ==> d * k <= -d);
    assert d * k == d * (v / d) - d * q;
    assert d * (v / d) + v % d == v;
  }

  lemma {:induction false} Pow256Add(m: nat, n: nat)
    ensures Pow256(m + n) == Pow256(m) * Pow256(n)
  {
    if m != 0 {
      Pow256Add(m - 1, n);
      assert 256 * (Pow256(m - 1) * Pow256(n)) == (256 * Pow256(m - 1)) * Pow256(n);
    }
  }

  lemma {:induction false} Pow256Monotone(m: nat, n: nat)
    requires m <= n
    ensures Pow256(m) <= Pow256(n)
  {
    if m < n {
      Pow256Monotone(m, n - 1);
    }
  }

  lemma Pow256Values()
    ensures Pow256(1) == 0x100
    ensures Pow256(2) == 0x1_0000
    ensures Pow256(4) == 0x1_0000_0000
    ensures Pow256(8) == 0x1_0000_0000_0000_0000
  {}

  lemma MulMonotone(d: nat, p: int, q: int)
    requires p <= q
    ensures d * p <= d * q
  {
  }

  lemma MulStrict(a: nat, b: nat, p: nat)
    requires a < b && p > 0
    ensures a * p < b * p
  {}

  /** `v << 8n`, for values that do not overflow the machine word. */
  function ShiftUp(v: nat, n: nat): (w: nat)
    ensures w == v * Pow256(n)
  {
    v * Pow256(n)
  }

  lemma ModTwice(v: nat, d: nat)
    requires d > 0
    ensures v % d % d == v % d
  {
    DivModUnique(v % d, d, 0, v % d);
  }

  /** A value shifted left onto its byte lanes and back is unchanged, and it still fits. */
  lemma LaneShift(v: nat, size: nat, shift: nat)
    requires v < Pow256(size)
    ensures ShiftUp(v, shift) / Pow256(shift) == v
    ensures v % Pow256(size) == v
    ensures ShiftUp(v, shift) < Pow256(size + shift)
  {
    var p := Pow256(shift);
    DivModUnique(v * p, p, v, 0);
    DivModUnique(v, Pow256(size), 0, v);
    Pow256Add(size, shift);
    MulStrict(v, Pow256(size), p);
  }

  /** Bit i of v, as `(v >> i) & 1` computes it. */
  function Bit(v: nat, i: nat): (b: bool)
  {
    if i == 0 then v % 2 == 1 else Bit(v / 2, i - 1)
  }

  lemma BitDown(v: nat, i: nat)
    requires i >= 3
    ensures Bit(v, i) == Bit(v / 8, i - 3)
  {
    assert Bit(v / 2 / 2, i - 2) == Bit(v / 2 / 2 / 2, i - 3);
  }

  lemma BitOne(v: nat)
    ensures Bit(v, 1) <==> v / 2 % 2 == 1
  {
  }

  lemma BitTwo(v: nat)
    ensures Bit(v, 2) <==> v / 4 % 2 == 1
  {
    assert Bit(v, 2) == Bit(v / 2, 1);
    BitOne(v / 2);
    hide Bit;
    assert v / 2 / 2 == v / 4;
  }

  lemma {:induction false} BitOfMod(v: nat, n: nat, i: nat)
    requires i < n
    ensures Bit(v % Pow2(n), i) == Bit(v, i)
  {
    ModSplit(v, 2, Pow2(n - 1));
    var m := v % Pow2(n);
    assert m / 2 == (v / 2) % Pow2(n - 1) && m % 2 == v % 2;
    if i != 0 {
      BitOfMod(v / 2, n - 1, i - 1);
    }
  }

  lemma {:induction false} Pow2IsPow256(n: nat)
    ensures Pow2(8 * n) == Pow256(n)
  {
    if n != 0 {
      Pow2IsPow256(n - 1);
      var k := 8 * (n - 1);
      assert Pow2(k + 2) == 4 * Pow2(k);
      assert Pow2(k + 4) == 4 * Pow2(k + 2);
      assert Pow2(k + 6) == 4 * Pow2(k + 4);
      assert Pow2(k + 8) == 4 * Pow2(k + 6);
    }
  }

  /** Concatenation is associative, which the verifier has to be told. */
  lemma Regroup<T>(a: seq<T>, b: seq<T>, c: seq<T>)
    ensures a + (b + c) == (a + b) + c
  {
  }

  function Reverse<T>(s: seq<T>): (r: seq<T>)
    ensures |r| == |s|
  {
    if |s| == 0 then [] else Reverse(s[1..]) + [s[0]]
  }

  lemma {:induction false} ReverseAppend<T>(s: seq<T>, t: seq<T>)
    ensures Reverse(s + t) == Reverse(t) + Reverse(s)
  {
    if |s| == 0 {
      assert s + t == t;
    } else {
      ReverseAppend(s[1..], t);
      assert (s + t)[1..] == s[1..] + t;
    }
  }

  lemma {:induction false} ReverseTwice<T>(s: seq<T>)
    ensures Reverse(Reverse(s)) == s
  {
    if |s| != 0 {
      ReverseTwice(s[1..]);
      ReverseAppend(Reverse(s[1..]), [s[0]]);
      assert Reverse([s[0]]) == [s[0]];
    }
  }
}
