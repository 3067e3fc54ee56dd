/** emit_bits and its neighbours in jchuff.c: the 24-bit accumulator, byte
    stuffing and a destination that may ask to suspend. */
module BitWriter {
  import opened Arith
  import opened Bits
  import opened Stuffing

  const WORD := 0x1_0000_0000

  // ----- Bit operations on unsigned words -----

  /** Bitwise or. */
  function BitOr(a: nat, b: nat): nat
  {
    if a == 0 then b
    else if b == 0 then a
    else (if a % 2 == 1 || b % 2 == 1 then 1 else 0) + 2 * BitOr(a / 2, b / 2)
  }

  lemma OrHalf(a: nat, b: nat)
    ensures BitOr(a, b) / 2 == BitOr(a / 2, b / 2)
    ensures BitOr(a, b) % 2 == 1 <==> (a % 2 == 1 || b % 2 == 1)
  {
  }

  lemma {:induction false} OrShift(a: nat, b: nat, m: nat)
    ensures Shr(BitOr(a, b), m) == BitOr(Shr(a, m), Shr(b, m))
  {
    if m > 0 {
      OrHalf(a, b);
      assert Pow2(1) == 2;
      ShrShr(BitOr(a, b), 1, m - 1);
      ShrShr(a, 1, m - 1);
      ShrShr(b, 1, m - 1);
      OrShift(a / 2, b / 2, m - 1);
    }
  }

  function OrBits(s: seq<bool>, t: seq<bool>): (r: seq<bool>)
    requires |s| == |t|
    ensures |r| == |s|
  {
    seq(|s|, i requires 0 <= i < |s| => s[i] || t[i])
  }

  /** Or works bit by bit. */
  lemma {:induction false} OrToBits(a: nat, b: nat, n: nat)
    ensures ToBits(BitOr(a, b), n) == OrBits(ToBits(a, n), ToBits(b, n))
  {
    if n > 0 {
      OrToBits(a, b, n - 1);
      OrShift(a, b, n - 1);
      OrHalf(Shr(a, n - 1), Shr(b, n - 1));
    }
  }

  function Zeros(n: nat): (r: seq<bool>)
    ensures |r| == n
  {
    seq(n, _ => false)
  }

  lemma {:induction false} ZeroBits(n: nat)
    ensures ToBits(0, n) == Zeros(n)
  {
    if n > 0 {
      ZeroBits(n - 1);
      assert Zeros(n) == [false] + Zeros(n - 1);
    }
  }

  lemma {:induction false} DropBits(v: nat, n: nat, k: nat)
    requires k <= n
    ensures ToBits(v, n)[k..] == ToBits(v, n - k)
  {
    if k > 0 {
      DropBits(v, n - 1, k - 1);
    }
  }

  lemma {:induction false} TakeBits(v: nat, n: nat, m: nat)
    ensures ToBits(v, n + m)[..n] == ToBits(Shr(v, m), n)
  {
    if n > 0 {
      TakeBits(v, n - 1, m);
      ShrShr(v, m, n - 1);
    }
  }

  /** A left shift in an n-bit window. */
  lemma ShiftBits(v: nat, n: nat, k: nat)
    requires k <= n
    ensures ToBits(v * Pow2(k), n) == ToBits(v, n)[k..] + Zeros(k)
  {
    ToBitsSplit(v, 0, n - k, k);
    ZeroBits(k);
    DropBits(v, n, k);
  }

  /** A number below 2^k shows zeros further up. */
  lemma {:induction false} SmallBits(v: nat, n: nat, k: nat)
    requires k <= n && v < Pow2(k)
    ensures ToBits(v, n) == Zeros(n - k) + ToBits(v, k)
    decreases n
  {
    if n > k {
      SmallBits(v, n - 1, k);
      Pow2Mono(k, n - 1);
      UniqueQuotient(v, Pow2(n - 1), 0, v);
      assert Zeros(n - k) == [false] + Zeros(n - 1 - k);
    }
  }

  /** Cutting off high bits does not show in a narrower window. */
  lemma CutBits(v: nat, n: nat, k: nat)
    requires n <= k
    ensures ToBits(v % Pow2(k), n) == ToBits(v, n)
  {
    var p, d := Pow2(n), Pow2(k - n);
    Pow2Add(n, k - n);
    DivMod(v, p * d);
    DivMod(v % (p * d), p);
    Regroup(v / (p * d), p, d, (v % (p * d)) / p, (v % (p * d)) % p, v);
    ToBitsMod(v % Pow2(k), v, n);
  }

  lemma Regroup(h: int, p: int, d: int, q: int, r: int, v: int)
    requires p > 0 && v == (p * d) * h + (p * q + r) && 0 <= r < p
    ensures v % p == r
  {
    assert (p * d) * h + p * q == p * (d * h + q);
    UniqueQuotient(v, p, d * h + q, r);
  }

  // ----- The accumulator -----

  /** The accumulator shows the pending bits at the left of its right 24 bits,
      zeros after them; what lies further left does not matter. */
  ghost predicate Holds(buf: nat, pending: seq<bool>)
  {
    |pending| <= 24 && ToBits(buf, 24) == pending + Zeros(24 - |pending|)
  }

  /** Masking, aligning and merging `size` bits of a code. */
  function Merge(buf: nat, n: nat, code: nat, size: nat): nat
    requires n + size <= 24
  {
    BitOr((code % Pow2(size)) * Pow2(24 - (n + size)), buf)
  }

  lemma MergeHolds(buf: nat, pending: seq<bool>, code: nat, size: nat)
    requires Holds(buf, pending) && |pending| + size <= 24
    ensures Holds(Merge(buf, |pending|, code, size), pending + ToBits(code, size))
  {
    var n := |pending|;
    var k := 24 - (n + size);
    AlignedCode(code, size, n, k);
    OrToBits((code % Pow2(size)) * Pow2(k), buf, 24);
    MergeWindow(pending, ToBits(code, size), k);
  }

  lemma MergeWindow(a: seq<bool>, b: seq<bool>, k: nat)
    ensures OrBits(Zeros(|a|) + b + Zeros(k), a + Zeros(|b| + k)) == (a + b) + Zeros(k)
  {
  }

  lemma AlignedCode(code: nat, size: nat, n: nat, k: nat)
    requires n + size + k == 24
    ensures ToBits((code % Pow2(size)) * Pow2(k), 24) == Zeros(n) + ToBits(code, size) + Zeros(k)
  {
    var v: nat := code % Pow2(size);
    CutBits(code, size, size);
    SmallBits(v, 24, size);
    ShiftBits(v, 24, k);
    assert (Zeros(24 - size) + ToBits(v, size))[k..] == Zeros(n) + ToBits(v, size);
  }

  /** The byte at the top of the accumulator. */
  function TopByte(buf: nat): (c: nat)
    ensures c < 256
  {
    Shr(buf, 16) % 256
  }

  lemma TopByteHolds(buf: nat, pending: seq<bool>)
    requires Holds(buf, pending) && |pending| >= 8
    ensures TopByte(buf) == Value(pending[..8])
  {
    TakeBits(buf, 8, 16);
    assert Pow2(8) == 256;
    CutBits(Shr(buf, 16), 8, 8);
    assert ToBits(TopByte(buf), 8) == pending[..8];
    ValueToBits(TopByte(buf), 8);
  }

  lemma ShiftHolds(buf: nat, pending: seq<bool>)
    requires Holds(buf, pending) && |pending| >= 8
    ensures Holds((buf * 256) % WORD, pending[8..])
  {
    assert Pow2(8) == 256;
    Pow2Add(16, 16);
    assert Pow2(16) == 65536 && Pow2(32) == WORD;
    ShiftBits(buf, 24, 8);
    CutBits(buf * 256, 24, 32);
    var s := pending[8..];
    assert (pending + Zeros(24 - |pending|))[8..] + Zeros(8) == s + Zeros(24 - |s|);
  }
}
