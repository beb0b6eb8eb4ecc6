/** The bits of machine words. A byte or a 64-bit word is its numeric value; `Bit`, `SetBit`,
    `ClearBit` and `Not` are the C operators `v >> k & 1`, `v | 1 << k`, `v & ~(1 << k)` and `~v`. */
module Bitmap {

  type Byte = b: int | 0 <= b < 256

  function Pow2(n: nat): (p: nat)
    ensures 1 <= p
  {
    if n == 0 then 1 else 2 * Pow2(n - 1)
  }

  predicate Bit(v: nat, k: nat) {
    if k == 0 then v % 2 == 1 else Bit(v / 2, k - 1)
  }

  function SetBit(v: nat, k: nat): nat {
    if k == 0 then v - v % 2 + 1 else 2 * SetBit(v / 2, k - 1) + v % 2
  }

  function ClearBit(v: nat, k: nat): nat {
    if k == 0 then v - v % 2 else 2 * ClearBit(v / 2, k - 1) + v % 2
  }

  /** Complement of a word of `n` bits. */
  function Not(v: nat, n: nat): nat
    requires v < Pow2(n)
  {
    Pow2(n) - 1 - v
  }

  /** The count of trailing zeros of a non-zero word. */
  function TrailingZeros(x: nat): nat
    requires 0 < x
  {
    if x % 2 == 1 then 0 else 1 + TrailingZeros(x / 2)
  }

  /** The value that a little-endian load reads from `bytes`. */
  function Word(bytes: seq<Byte>): nat {
    if bytes == [] then 0 else bytes[0] + 256 * Word(bytes[1..])
  }

  lemma {:induction false} SetBitView(v: nat, k: nat, j: nat)
    ensures Bit(SetBit(v, k), j) == (j == k || Bit(v, j))
  {
    if k > 0 && j > 0 { SetBitView(v / 2, k - 1, j - 1); }
  }

  lemma {:induction false} ClearBitView(v: nat, k: nat, j: nat)
    ensures Bit(ClearBit(v, k), j) == (j != k && Bit(v, j))
  {
    if k > 0 && j > 0 { ClearBitView(v / 2, k - 1, j - 1); }
  }

  /** Setting or clearing one of its `n` bits keeps a word inside `n` bits. */
  lemma {:induction false} BitOpRange(v: nat, k: nat, n: nat)
    requires v < Pow2(n) && k < n
    ensures SetBit(v, k) < Pow2(n) && ClearBit(v, k) < Pow2(n)
  {
    if k > 0 { BitOpRange(v / 2, k - 1, n - 1); }
  }

  lemma {:induction false} NotView(v: nat, n: nat, k: nat)
    requires v < Pow2(n) && k < n
    ensures Bit(Not(v, n), k) == !Bit(v, k)
  {
    if k > 0 {
      NotView(v / 2, n - 1, k - 1);
      assert Not(v, n) / 2 == Not(v / 2, n - 1);
    }
  }

  /** `TrailingZeros` is the index of the lowest set bit. */
  lemma {:induction false} TrailingZerosView(x: nat, n: nat)
    requires 0 < x < Pow2(n)
    ensures TrailingZeros(x) < n && Bit(x, TrailingZeros(x))
    ensures forall j: nat :: j < TrailingZeros(x) ==> !Bit(x, j)
  {
    if x % 2 == 0 { TrailingZerosView(x / 2, n - 1); }
  }

  /** A word whose low part `lo` has `n` bits: its bits are those of `lo`, then those of `hi`. */
  lemma {:induction false} JoinView(lo: nat, hi: nat, n: nat, k: nat)
    requires lo < Pow2(n)
    ensures Bit(lo + Pow2(n) * hi, k) == if k < n then Bit(lo, k) else Bit(hi, k - n)
  {
    if n > 0 {
      assert Pow2(n) * hi == 2 * (Pow2(n - 1) * hi);
      if k > 0 {
        JoinView(lo / 2, hi, n - 1, k - 1);
        assert (lo + Pow2(n) * hi) / 2 == lo / 2 + Pow2(n - 1) * hi;
      }
    }
  }

  /** The byte-wise and the word-wise view of a bitmap agree bit by bit. */
  lemma {:induction false} WordView(bytes: seq<Byte>, k: nat)
    requires k < 8 * |bytes|
    ensures Bit(Word(bytes), k) == Bit(bytes[k / 8], k % 8)
  {
    Pow2At8();
    JoinView(bytes[0], Word(bytes[1..]), 8, k);
    if k >= 8 { WordView(bytes[1..], k - 8); }
  }

  lemma Pow2At8()
    ensures Pow2(8) == 256
  {
    assert Pow2(4) == 16;
  }

  lemma {:induction false} WordRange(bytes: seq<Byte>)
    ensures Word(bytes) < Pow2(8 * |bytes|)
  {
    if bytes != [] {
      WordRange(bytes[1..]);
      Pow2Add8(8 * (|bytes| - 1));
    }
  }

  lemma Pow2Add8(n: nat)
    ensures Pow2(n + 8) == 256 * Pow2(n)
  {
    assert Pow2(n + 2) == 4 * Pow2(n);
    assert Pow2(n + 4) == 4 * Pow2(n + 2);
    assert Pow2(n + 6) == 4 * Pow2(n + 4);
    assert Pow2(n + 8) == 4 * Pow2(n + 6);
  }

  lemma {:induction false} ZeroBits(k: nat)
    ensures !Bit(0, k)
  {
    if k > 0 { ZeroBits(k - 1); }
  }

  /** A load of all-ones bytes has no clear bit; any other load has a lowest clear bit,
      found by counting the trailing zeros of its complement. */
  lemma LowestClearBit(bytes: seq<Byte>)
    ensures Word(bytes) < Pow2(8 * |bytes|)
    ensures var n, w := 8 * |bytes|, Word(bytes);
            if w == Pow2(n) - 1 then forall k: nat :: k < n ==> Bit(w, k)
            else var r := TrailingZeros(Not(w, n));
                 r < n && !Bit(w, r) && forall j: nat :: j < r ==> Bit(w, j)
  {
    var n, w := 8 * |bytes|, Word(bytes);
    WordRange(bytes);
    if w == Pow2(n) - 1 {
      forall k: nat | k < n ensures Bit(w, k) {
        NotView(w, n, k);
        ZeroBits(k);
      }
    } else {
      TrailingZerosView(Not(w, n), n);
      forall j: nat | j < n ensures Bit(Not(w, n), j) == !Bit(w, j) { NotView(w, n, j); }
    }
  }

  // ----- masks and shifts -----

  /** `v` cut after its lowest `n` bits. */
  predicate Cut(v: nat, n: nat, high: nat, low: nat) {
    v == high * Pow2(n) + low && low < Pow2(n)
  }

  lemma CutHalf(v: nat, n: nat, high: nat, low: nat)
    requires Cut(v, n, high, low) && n > 0
    ensures Cut(v / 2, n - 1, high, low / 2) && v % 2 == low % 2
  {
    var w := high * Pow2(n - 1);
    assert high * Pow2(n) == 2 * w;
  }

  /** The high part holds the bits from `n` on, the low part the others. */
  lemma {:induction false} CutBits(v: nat, n: nat, high: nat, low: nat, k: nat)
    requires Cut(v, n, high, low)
    ensures Bit(high, k) == Bit(v, n + k)
    ensures Bit(low, k) <==> k < n && Bit(v, k)
    decreases n
  {
    if n == 0 {
      ZeroBits(k);
    } else {
      CutHalf(v, n, high, low);
      CutBits(v / 2, n - 1, high, low / 2, k);
      if k > 0 { CutBits(v / 2, n - 1, high, low / 2, k - 1); }
    }
  }

  lemma {:induction false} ShiftLeftBits(v: nat, n: nat, k: nat)
    ensures Bit(v * Pow2(n), k) <==> k >= n && Bit(v, k - n)
  {
    if n > 0 {
      var w := v * Pow2(n - 1);
      assert v * Pow2(n) == 2 * w;
      if k > 0 { ShiftLeftBits(v, n - 1, k - 1); }
    }
  }
}
