/** Bytes, 16-bit little-endian words and the bitwise AND that NOR programming performs. */
module Bytes {

  type byte = x: int | 0 <= x < 256

  const ERASED: byte := 0xFF

  datatype Option<+T> = None | Some(value: T)

  /** Bitwise AND of two naturals. */
  function And(a: nat, b: nat): (r: nat)
    ensures r <= b
  {
    if a == 0 || b == 0 then 0
    else 2 * And(a / 2, b / 2) + (if a % 2 == 1 && b % 2 == 1 then 1 else 0)
  }

  function Pow2(k: nat): (r: nat)
    ensures r > 0
  {
    if k == 0 then 1 else 2 * Pow2(k - 1)
  }

  /** Programming bits that are all set writes exactly the data. */
  lemma {:induction false} AndOnes(k: nat, b: nat)
    requires b < Pow2(k)
    ensures And(Pow2(k) - 1, b) == b
  {
    if k > 0 && b > 0 {
      AndOnes(k - 1, b / 2);
      assert (Pow2(k) - 1) / 2 == Pow2(k - 1) - 1;
    }
  }

  /** An erased byte takes any data; a programmed zero stays zero. */
  lemma AndByte(b: byte)
    ensures And(ERASED, b) == b
    ensures And(b, 0) == 0
  {
    assert Pow2(8) == 2 * 2 * 2 * 2 * 2 * 2 * 2 * 2 * Pow2(0);
    AndOnes(8, b);
  }

  /** Bit `k` of a number. */
  function Bit(n: nat, k: nat): bool { n / Pow2(k) % 2 == 1 }

  lemma BitNext(n: nat, k: nat)
    ensures Bit(n, 0) <==> n % 2 == 1
    ensures Bit(n, k + 1) == Bit(n / 2, k)
  {
    DivTwice(n, Pow2(k));
  }

  lemma DivTwice(n: nat, p: nat)
    requires p > 0
    ensures n / (2 * p) == n / 2 / p
  {
    var q := n / 2 / p;
    var r := n / 2 % p;
    assert n / 2 == q * p + r;
    assert n == 2 * (q * p + r) + n % 2 == q * (2 * p) + (2 * r + n % 2);
    DivIs(n, 2 * p, q, 2 * r + n % 2);
  }

  lemma {:induction false} Apart(a: nat, b: nat, p: nat)
    requires a > b
    ensures a * p >= b * p + p
  {
    if a > b + 1 {
      Apart(a - 1, b, p);
      assert a * p == (a - 1) * p + p;
    }
  }

  lemma DivIs(n: nat, p: nat, q: nat, r: nat)
    requires n == q * p + r && r < p
    ensures n / p == q
  {
    var d := n / p;
    assert n == d * p + n % p;
    if d > q { Apart(d, q, p); }
    if d < q { Apart(q, d, p); }
  }

  /** `And` is the bitwise conjunction. */
  lemma {:induction false} AndBits(a: nat, b: nat, k: nat)
    ensures Bit(And(a, b), k) <==> Bit(a, k) && Bit(b, k)
    decreases k
  {
    AndHalf(a, b);
    if k == 0 {
      BitNext(a, 0);
      BitNext(b, 0);
      BitNext(And(a, b), 0);
    } else {
      BitNext(a, k - 1);
      BitNext(b, k - 1);
      BitNext(And(a, b), k - 1);
      AndBits(a / 2, b / 2, k - 1);
    }
  }

  lemma AndHalf(a: nat, b: nat)
    ensures And(a, b) / 2 == And(a / 2, b / 2) && (And(a, b) % 2 == 1 <==> a % 2 == 1 && b % 2 == 1)
  {
  }

  /** A number is decided by its bits. */
  lemma {:induction false} BitsDecide(a: nat, b: nat, k: nat)
    requires a < Pow2(k) && b < Pow2(k) && forall j: nat :: j < k ==> Bit(a, j) == Bit(b, j)
    ensures a == b
    decreases k
  {
    if k > 0 {
      forall j: nat | j < k - 1 ensures Bit(a / 2, j) == Bit(b / 2, j) {
        BitNext(a, j);
        BitNext(b, j);
        assert Bit(a, j + 1) == Bit(b, j + 1);
      }
      BitsDecide(a / 2, b / 2, k - 1);
      BitNext(a, 0);
      BitNext(b, 0);
      assert Bit(a, 0) == Bit(b, 0);
    }
  }

  /** Every bit that is set in `a` is set in `b`. */
  ghost predicate Subset(a: nat, b: nat) {
    forall k: nat :: Bit(a, k) ==> Bit(b, k)
  }

  lemma SubsetTrans(a: nat, b: nat, c: nat)
    requires Subset(a, b) && Subset(b, c)
    ensures Subset(a, c)
  {
  }

  /** For bytes, `And` is the one byte whose set bits are those set in both. */
  lemma AndExactly(a: byte, b: byte, r: byte)
    ensures r == And(a, b) <==> forall k: nat :: Bit(r, k) <==> Bit(a, k) && Bit(b, k)
  {
    forall k: nat ensures Bit(And(a, b), k) <==> Bit(a, k) && Bit(b, k) {
      AndBits(a, b, k);
    }
    if forall k: nat :: Bit(r, k) <==> Bit(a, k) && Bit(b, k) {
      assert Pow2(8) == 2 * 2 * 2 * 2 * 2 * 2 * 2 * 2 * Pow2(0);
      BitsDecide(r, And(a, b), 8);
    }
  }

  /** Programming clears bits only. */
  lemma AndClears(a: nat, b: nat)
    ensures Subset(And(a, b), a) && Subset(And(a, b), b)
  {
    forall k: nat ensures Bit(And(a, b), k) ==> Bit(a, k) && Bit(b, k) {
      AndBits(a, b, k);
    }
  }

  /** A byte can be programmed to `b` exactly if no bit has to be set. */
  lemma AndTakes(a: byte, b: byte)
    ensures And(a, b) == b <==> Subset(b, a)
  {
    AndExactly(a, b, b);
  }

  function Zeros(n: nat): (r: seq<byte>)
    ensures |r| == n && forall i :: 0 <= i < n ==> r[i] == 0
  {
    seq(n, _ => 0)
  }

  function Min(a: nat, b: nat): nat { if a <= b then a else b }

  /** The 16-bit little-endian word stored at `o`. */
  function U16(m: seq<byte>, o: nat): (r: nat)
    requires o + 1 < |m|
    ensures r <= 0xFFFF
  {
    (m[o] as int) + 256 * (m[o + 1] as int)
  }

  /** The low byte comes first. */
  lemma WordDigits(m: seq<byte>, o: nat)
    requires o + 1 < |m|
    ensures U16(m, o) % 256 == m[o] as int && U16(m, o) / 256 == m[o + 1] as int
  {
  }

  function Low(n: nat): byte { n % 256 }

  function High(n: nat): byte { n / 256 % 256 }

  lemma WordBytes(n: nat)
    requires n <= 0xFFFF
    ensures Low(n) as int + 256 * (High(n) as int) == n
  {
  }
}
