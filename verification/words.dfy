/** 32-bit words as bit sequences, least significant bit first, with the
    GF(2) operations a CRC register needs. Kept apart from integer
    arithmetic so that every bit fact is a fact about sequence positions. */
module Words {

  const Width: nat := 32

  type Word = s: seq<bool> | |s| == Width witness Repeat(false, Width)

  function Zero(): Word { seq(Width, i => false) }
  function Ones(): Word { seq(Width, i => true) }

  function Repeat(b: bool, n: nat): (r: seq<bool>)
    ensures |r| == n
    ensures forall i | 0 <= i < n :: r[i] == b
  {
    if n == 0 then [] else [b] + Repeat(b, n - 1)
  }

  function Pow2(k: nat): (r: nat)
    ensures r > 0
  {
    if k == 0 then 1 else 2 * Pow2(k - 1)
  }

  /** The low `k` bits of `n`, least significant first. */
  function Bits(n: nat, k: nat): (r: seq<bool>)
    ensures |r| == k
  {
    if k == 0 then [] else [n % 2 == 1] + Bits(n / 2, k - 1)
  }

  /** Bit `i` of `n`. */
  function Bit(n: nat, i: nat): bool {
    if i == 0 then n % 2 == 1 else Bit(n / 2, i - 1)
  }

  /** The number a bit sequence denotes (least significant first). */
  function ToNat(s: seq<bool>): nat {
    if s == [] then 0 else (if s[0] then 1 else 0) + 2 * ToNat(s[1..])
  }

  function Xor(a: Word, b: Word): Word {
    seq(Width, i requires 0 <= i < Width => a[i] != b[i])
  }

  /** Words that agree at every position are equal. */
  lemma Extensional(a: Word, b: Word)
    requires forall i | 0 <= i < Width :: a[i] == b[i]
    ensures a == b
  {
  }

  /** Bit `i` of `Xor(a, b)` is the exclusive or of bit `i` of each. */
  lemma XorAt(a: Word, b: Word)
    ensures forall i | 0 <= i < Width :: Xor(a, b)[i] == (a[i] != b[i])
  {
  }

  /** Logical shift towards the least significant end by one position. */
  function Half(c: Word): Word {
    c[1..] + [false]
  }

  lemma {:induction false} Pow2Add(a: nat, b: nat)
    ensures Pow2(a + b) == Pow2(a) * Pow2(b)
    decreases a
  {
    if a > 0 {
      Pow2Add(a - 1, b);
      assert Pow2(a + b) == 2 * Pow2(a - 1 + b);
    }
  }

  lemma {:induction false} Pow2Double(k: nat)
    ensures Pow2(2 * k) == Pow2(k) * Pow2(k)
  {
    Pow2Add(k, k);
  }

  lemma Pow2Width()
    ensures Pow2(Width) == 0x1_0000_0000
    ensures Pow2(Width - 1) == 0x8000_0000
  {
    assert Pow2(2) == 4;
    Pow2Double(2);
    Pow2Double(4);
    Pow2Double(8);
    Pow2Double(16);
  }

  /** `k` bits denote a number below 2^k. */
  lemma {:induction false} ToNatBound(s: seq<bool>)
    ensures ToNat(s) < Pow2(|s|)
    decreases |s|
  {
    if s != [] {
      ToNatBound(s[1..]);
    }
  }

  /** Every word denotes a 32-bit number. */
  lemma WordBound(w: Word)
    ensures ToNat(w) < 0x1_0000_0000
  {
    ToNatBound(w);
    Pow2Width();
  }

  /** The most significant of `k` bits is set exactly for the upper half. */
  lemma {:induction false} BitsTop(n: nat, k: nat)
    requires 0 < k && n < Pow2(k)
    ensures Bits(n, k)[k - 1] <==> n >= Pow2(k - 1)
    decreases k
  {
    if k > 1 {
      BitsTop(n / 2, k - 1);
      assert Bits(n, k)[k - 1] == Bits(n / 2, k - 1)[k - 2];
    }
  }

  /** `Bits` and `ToNat` are inverse on numbers that fit. */
  lemma {:induction false} ToNatBits(n: nat, k: nat)
    requires n < Pow2(k)
    ensures ToNat(Bits(n, k)) == n
    decreases k
  {
    if k > 0 {
      ToNatBits(n / 2, k - 1);
      assert Bits(n, k)[1..] == Bits(n / 2, k - 1);
    }
  }

  /** Position `i` of the `k`-bit form of `n` is bit `i` of `n`. */
  lemma {:induction false} BitsAt(n: nat, k: nat, i: nat)
    requires i < k
    ensures Bits(n, k)[i] == Bit(n, i)
    decreases i
  {
    if i > 0 {
      BitsAt(n / 2, k - 1, i - 1);
    }
  }

  /** The low `k` of `m` bits of a number are its `k`-bit form. */
  lemma {:induction false} BitsPrefix(n: nat, k: nat, m: nat)
    requires k <= m
    ensures Bits(n, m)[..k] == Bits(n, k)
    decreases k
  {
    if k > 0 {
      BitsPrefix(n / 2, k - 1, m - 1);
      assert Bits(n, m)[..k] == [n % 2 == 1] + Bits(n / 2, m - 1)[..k - 1];
    }
  }

  /** Bits at or above position `j` of a number below 2^j are clear. */
  lemma {:induction false} BitsHigh(n: nat, k: nat, j: nat)
    requires n < Pow2(j)
    ensures forall i | j <= i < k :: !Bits(n, k)[i]
    decreases k
  {
    if k > 0 {
      BitsHigh(n / 2, k - 1, if j == 0 then 0 else j - 1);
      assert forall i | 1 <= i < k :: Bits(n, k)[i] == Bits(n / 2, k - 1)[i - 1];
    }
  }

  /** `ToNat` and `Bits` are inverse on bit sequences. */
  lemma {:induction false} BitsToNat(s: seq<bool>)
    ensures Bits(ToNat(s), |s|) == s
    decreases |s|
  {
    if s != [] {
      BitsToNat(s[1..]);
      var n := ToNat(s);
      assert n % 2 == 1 <==> s[0];
      assert n / 2 == ToNat(s[1..]);
      assert s == [s[0]] + s[1..];
    }
  }

  /** Equal-length bit sequences denoting the same number are equal. */
  lemma {:induction false} ToNatInjective(a: seq<bool>, b: seq<bool>)
    requires |a| == |b|
    ensures ToNat(a) == ToNat(b) <==> a == b
    decreases |a|
  {
    if |a| > 0 && ToNat(a) == ToNat(b) {
      ToNatInjective(a[1..], b[1..]);
      assert a == [a[0]] + a[1..];
      assert b == [b[0]] + b[1..];
    }
  }

  lemma XorSelf(a: Word, b: Word)
    ensures Xor(a, b) == Zero() <==> a == b
  {
    XorAt(a, b);
    if Xor(a, b) == Zero() {
      assert forall i | 0 <= i < Width :: a[i] == b[i] by {
        forall i | 0 <= i < Width ensures a[i] == b[i] {
          assert Xor(a, b)[i] == Zero()[i];
        }
      }
    }
  }

  /** Xor-ing both sides with a common word neither creates nor loses
      a difference. */
  lemma XorCancel(a: Word, b: Word, c: Word)
    ensures Xor(Xor(a, c), Xor(b, c)) == Xor(a, b)
    ensures Xor(a, c) == Xor(b, c) <==> a == b
  {
    XorAt(a, c);
    XorAt(b, c);
    XorAt(Xor(a, c), Xor(b, c));
    XorAt(a, b);
    if Xor(a, c) == Xor(b, c) {
      assert forall i | 0 <= i < Width :: a[i] == b[i] by {
        forall i | 0 <= i < Width ensures a[i] == b[i] {
          assert Xor(a, c)[i] == Xor(b, c)[i];
        }
      }
    }
  }

  lemma XorAssociates(a: Word, b: Word, c: Word)
    ensures Xor(Xor(a, b), c) == Xor(a, Xor(b, c))
  {
    XorAt(a, b);
    XorAt(Xor(a, b), c);
    XorAt(b, c);
    XorAt(a, Xor(b, c));
  }

  /** The all-zero word is the identity of `Xor`. */
  lemma XorZero(w: Word)
    ensures Xor(Zero(), w) == w
  {
    XorAt(Zero(), w);
  }

  lemma XorCommutes(a: Word, b: Word)
    ensures Xor(a, b) == Xor(b, a)
  {
    XorAt(a, b);
    XorAt(b, a);
  }

  lemma HalfLinear(a: Word, b: Word)
    ensures Half(Xor(a, b)) == Xor(Half(a), Half(b))
  {
    XorAt(a, b);
    XorAt(Half(a), Half(b));
  }
}
