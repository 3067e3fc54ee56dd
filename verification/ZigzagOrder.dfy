/** Zigzag order: the order in which a scan visits the coefficients of a block. */
module ZigzagOrder {

  const DCTSIZE2 := 64

  type Block = b: seq<int> | |b| == DCTSIZE2 witness seq(DCTSIZE2, _ => 0)

  /** Natural-order position of the k-th coefficient in zigzag order. */
  function Natural(k: nat): (i: nat)
    requires k < 64
    ensures i < 64
  {
    match k
    case 0 => 0 case 1 => 1 case 2 => 8 case 3 => 16 case 4 => 9 case 5 => 2 case 6 => 3 case 7 => 10
    case 8 => 17 case 9 => 24 case 10 => 32 case 11 => 25 case 12 => 18 case 13 => 11 case 14 => 4 case 15 => 5
    case 16 => 12 case 17 => 19 case 18 => 26 case 19 => 33 case 20 => 40 case 21 => 48 case 22 => 41 case 23 => 34
    case 24 => 27 case 25 => 20 case 26 => 13 case 27 => 6 case 28 => 7 case 29 => 14 case 30 => 21 case 31 => 28
    case 32 => 35 case 33 => 42 case 34 => 49 case 35 => 56 case 36 => 57 case 37 => 50 case 38 => 43 case 39 => 36
    case 40 => 29 case 41 => 22 case 42 => 15 case 43 => 23 case 44 => 30 case 45 => 37 case 46 => 44 case 47 => 51
    case 48 => 58 case 49 => 59 case 50 => 52 case 51 => 45 case 52 => 38 case 53 => 31 case 54 => 39 case 55 => 46
    case 56 => 53 case 57 => 60 case 58 => 61 case 59 => 54 case 60 => 47 case 61 => 55 case 62 => 62
    case _ => 63
  }

  /** Where in zigzag order a natural-order position comes. */
  function ZigzagIndex(k: nat): (i: nat)
    requires k < 64
    ensures i < 64
  {
    match k
    case 0 => 0 case 1 => 1 case 2 => 5 case 3 => 6 case 4 => 14 case 5 => 15 case 6 => 27 case 7 => 28
    case 8 => 2 case 9 => 4 case 10 => 7 case 11 => 13 case 12 => 16 case 13 => 26 case 14 => 29 case 15 => 42
    case 16 => 3 case 17 => 8 case 18 => 12 case 19 => 17 case 20 => 25 case 21 => 30 case 22 => 41 case 23 => 43
    case 24 => 9 case 25 => 11 case 26 => 18 case 27 => 24 case 28 => 31 case 29 => 40 case 30 => 44 case 31 => 53
    case 32 => 10 case 33 => 19 case 34 => 23 case 35 => 32 case 36 => 39 case 37 => 45 case 38 => 52 case 39 => 54
    case 40 => 20 case 41 => 22 case 42 => 33 case 43 => 38 case 44 => 46 case 45 => 51 case 46 => 55 case 47 => 60
    case 48 => 21 case 49 => 34 case 50 => 37 case 51 => 47 case 52 => 50 case 53 => 56 case 54 => 59 case 55 => 61
    case 56 => 35 case 57 => 36 case 58 => 48 case 59 => 49 case 60 => 57 case 61 => 58 case 62 => 62
    case _ => 63
  }

  lemma NaturalOfZigzag(i: nat)
    requires i < DCTSIZE2
    ensures Natural(ZigzagIndex(i)) == i
  {
  }

  /** The coefficients in zigzag order. */
  function Zigzag(b: Block): (z: Block)
    ensures forall k :: 0 <= k < DCTSIZE2 ==> z[k] == b[Natural(k)]
  {
    seq(DCTSIZE2, k requires 0 <= k < DCTSIZE2 => b[Natural(k)])
  }

  /** A decoder puts the coefficients back in their natural order. */
  function FromZigzag(z: Block): (b: Block)
  {
    seq(DCTSIZE2, i requires 0 <= i < DCTSIZE2 => z[ZigzagIndex(i)])
  }

  lemma ZigzagRoundTrip(b: Block)
    ensures FromZigzag(Zigzag(b)) == b
  {
    forall i | 0 <= i < DCTSIZE2
      ensures FromZigzag(Zigzag(b))[i] == b[i]
    {
      NaturalOfZigzag(i);
    }
  }

  // ----- The walk along the diagonals -----

  /** The next position on the way, from row i / 8 and column i % 8: up to the right on
      even diagonals and down to the left on odd ones, turning at the edges. */
  function NextOnWay(i: nat): nat
    requires i < 63
  {
    var row, col := i / 8, i % 8;
    if (row + col) % 2 == 0 then
      if col == 7 then i + 8 else if row == 0 then i + 1 else i - 7
    else
      if row == 7 then i + 1 else if col == 0 then i + 8 else i + 7
  }

  lemma Walk0(k: nat)
    requires 0 <= k < 16
    ensures Natural(k) < 63 && Natural(k + 1) == NextOnWay(Natural(k))
  {
  }

  lemma Walk16(k: nat)
    requires 16 <= k < 32
    ensures Natural(k) < 63 && Natural(k + 1) == NextOnWay(Natural(k))
  {
  }

  lemma Walk32(k: nat)
    requires 32 <= k < 48
    ensures Natural(k) < 63 && Natural(k + 1) == NextOnWay(Natural(k))
  {
  }

  lemma Walk48(k: nat)
    requires 48 <= k < 63
    ensures Natural(k) < 63 && Natural(k + 1) == NextOnWay(Natural(k))
  {
  }

  /** The table is that walk, from the first coefficient to the last. */
  lemma WalksDiagonals(k: nat)
    requires k < 63
    ensures Natural(0) == 0 && Natural(63) == 63 && Natural(k) < 63 && Natural(k + 1) == NextOnWay(Natural(k))
  {
    hide NextOnWay;
    if k < 16 {
      Walk0(k);
    } else if k < 32 {
      Walk16(k);
    } else if k < 48 {
      Walk32(k);
    } else {
      Walk48(k);
    }
  }
}
