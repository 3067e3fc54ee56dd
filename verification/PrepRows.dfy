/** The rows of an image as the preprocessor of jcprepct.c should deliver them,
    and the ring of three row groups that delivers them with context. */
module PrepRows {

  /** One row of samples of a component. */
  type Row = seq<nat>

  /** One row group of downsampled data: what the downsampler makes of the rows it
      saw, or copies of the last row that it made of them. */
  datatype Group = Down(seen: seq<Row>) | Bottom(seen: seq<Row>)

  // ----- The row sequence -----

  /** Row j of the image continued upwards and downwards by its edge rows. */
  function Extended(img: seq<Row>, j: int): Row
    requires img != []
  {
    if j < 0 then img[0] else if j >= |img| then img[|img| - 1] else img[j]
  }

  /** n rows of the continued image from row j on. */
  function Span(img: seq<Row>, j: int, n: nat): (w: seq<Row>)
    requires img != []
    ensures |w| == n
  {
    seq(n, i requires 0 <= i < n => Extended(img, j + i))
  }

  /** The first row of group k. */
  function Start(v: nat, k: nat): (b: nat)
  {
    if k == 0 then 0 else Start(v, k - 1) + v
  }

  /** Group k of the downsampled component: with context it is made from the group
      above, the group and the group below; without, from its own rows, and below
      the image the last output row is repeated. */
  function GroupOf(context: bool, img: seq<Row>, v: nat, k: nat): (g: Group)
    requires img != []
    ensures context || Start(v, k) < |img| ==> g.Down?
  {
    if context then Down(Span(img, Start(v, k) - v, 3 * v))
    else if k == 0 || Start(v, k) < |img| then Down(Span(img, Start(v, k), v))
    else Bottom(GroupOf(context, img, v, k - 1).seen)
  }

  // ----- Writing rows -----

  /** Rows written into a buffer from index next on. */
  ghost predicate Written(before: seq<Row>, after: seq<Row>, next: nat, rows: seq<Row>)
  {
    && |after| == |before| && next + |rows| <= |before|
    && (forall p :: 0 <= p < |before| ==> after[p] == if next <= p < next + |rows| then rows[p - next] else before[p])
  }

  /** These rows are those of the continued image from row j on. */
  ghost predicate Continues(rows: seq<Row>, img: seq<Row>, j: int)
    requires img != []
  {
    forall i :: 0 <= i < |rows| ==> rows[i] == Extended(img, j + i)
  }

  /** Rows written after rows that are there. */
  lemma AppendContinues(before: seq<Row>, after: seq<Row>, next: nat, rows: seq<Row>, img: seq<Row>, j: int)
    requires img != [] && Written(before, after, next, rows)
    requires Continues(before[..next], img, j) && Continues(rows, img, j + next)
    ensures Continues(after[..next + |rows|], img, j)
  {
    hide Extended;
    var all := after[..next + |rows|];
    forall i | 0 <= i < |all|
      ensures all[i] == Extended(img, j + i)
    {
      if i < next {
        assert before[..next][i] == Extended(img, j + i);
      } else {
        assert rows[i - next] == Extended(img, j + next + (i - next));
      }
    }
  }

  // ----- The ring -----

  /** The row of the ring buffer that a pointer index means: one group above and
      one below wrap around. */
  function Wrap(v: nat, i: int): int
  {
    if i < 0 then i + 3 * v else if i >= 3 * v then i - 3 * v else i
  }

  /** The first row of one of the three groups of the ring. */
  predicate IsGroup(v: nat, group: nat)
  {
    v > 0 && (group == 0 || group == v || group == 2 * v)
  }

  /** Where the next row goes when `filled` rows from the group on are there. */
  function NextRow(v: nat, group: nat, filled: nat): int
  {
    if group == 2 * v then filled - v else group + filled
  }

  /** The buffer shows row base + d where index group + d points. */
  ghost predicate Shows(buf: seq<Row>, v: nat, img: seq<Row>, group: nat, base: nat, d: int)
    requires img != []
  {
    0 <= Wrap(v, group + d) < |buf| && buf[Wrap(v, group + d)] == Extended(img, base + d)
  }

  /** The rows from base + lo to base + hi - 1 are stored. */
  ghost predicate Stored(buf: seq<Row>, v: nat, img: seq<Row>, group: nat, base: nat, lo: int, hi: int)
    requires img != []
  {
    |buf| == 3 * v && forall d :: lo <= d < hi ==> Shows(buf, v, img, group, base, d)
  }

  /** Rows written one after another where the next row belongs. */
  lemma AppendShows(before: seq<Row>, after: seq<Row>, v: nat, img: seq<Row>, group: nat, base: nat, filled: nat,
                    rows: seq<Row>, d: int)
    requires img != [] && |before| == 3 * v && IsGroup(v, group) && filled + |rows| <= 2 * v
    requires group == 2 * v ==> filled >= v
    requires 0 - v <= d < filled + |rows| && Written(before, after, NextRow(v, group, filled), rows)
    requires d < filled ==> Shows(before, v, img, group, base, d)
    requires d >= filled ==> rows[d - filled] == Extended(img, base + d)
    ensures Shows(after, v, img, group, base, d)
  {
    hide Extended, Start;
    var p := Wrap(v, group + d);
    var next := NextRow(v, group, filled);
    assert 0 <= p < 3 * v;
    if d >= filled {
      assert p == next + (d - filled);
    } else {
      assert !(next <= p < next + |rows|);
    }
  }

  lemma AppendStored(before: seq<Row>, after: seq<Row>, v: nat, img: seq<Row>, group: nat, base: nat, lo: int,
                     filled: nat, rows: seq<Row>)
    requires img != [] && IsGroup(v, group) && filled + |rows| <= 2 * v && (group == 2 * v ==> filled >= v)
    requires 0 - v <= lo
    requires Stored(before, v, img, group, base, lo, filled)
    requires Written(before, after, NextRow(v, group, filled), rows)
    requires Continues(rows, img, base + filled)
    ensures Stored(after, v, img, group, base, lo, filled + |rows|)
  {
    hide Shows, IsGroup, NextRow, Extended, Start;
    assert |before| == 3 * v && |after| == 3 * v;
    forall d | lo <= d < filled + |rows|
      ensures Shows(after, v, img, group, base, d)
    {
      if d >= filled {
        assert rows[d - filled] == Extended(img, base + filled + (d - filled));
      }
      AppendShows(before, after, v, img, group, base, filled, rows, d);
    }
  }

  /** Copies of the top row above the first group. */
  lemma PadTopStored(before: seq<Row>, after: seq<Row>, v: nat, img: seq<Row>, n: nat)
    requires img != [] && v > 0 && 0 < n <= 2 * v && Stored(before, v, img, 0, 0, 0, n) && |after| == 3 * v
    requires forall p :: 0 <= p < 2 * v ==> after[p] == before[p]
    requires forall p :: 2 * v <= p < 3 * v ==> after[p] == before[0]
    ensures Stored(after, v, img, 0, 0, 0 - v, n)
  {
    hide Start;
    assert Shows(before, v, img, 0, 0, 0);
    forall d | 0 - v <= d < n
      ensures Shows(after, v, img, 0, 0, d)
    {
      if d >= 0 {
        assert Shows(before, v, img, 0, 0, d);
      }
    }
  }

  /** The row that the bottom of the image is continued with, through the pointers
      even where it lies at the other end of the buffer. */
  lemma LastRowShown(buf: seq<Row>, v: nat, img: seq<Row>, group: nat, base: nat, lo: int, filled: nat)
    requires img != [] && IsGroup(v, group) && 0 < filled < 2 * v && (group == 2 * v ==> filled >= v) && lo < filled
    requires Stored(buf, v, img, group, base, lo, filled) && base + filled >= |img|
    ensures 0 <= Wrap(v, NextRow(v, group, filled) - 1) < |buf|
    ensures buf[Wrap(v, NextRow(v, group, filled) - 1)] == img[|img| - 1]
  {
    hide Start;
    assert Shows(buf, v, img, group, base, filled - 1);
    assert Wrap(v, NextRow(v, group, filled) - 1) == Wrap(v, group + (filled - 1));
  }

  /** The ring turned by one group. */
  function NextGroup(v: nat, group: nat): nat
  {
    if group + v >= 3 * v then 0 else group + v
  }

  lemma TurnStored(buf: seq<Row>, v: nat, img: seq<Row>, group: nat, base: nat)
    requires img != [] && IsGroup(v, group) && Stored(buf, v, img, group, base, 0 - v, 2 * v)
    ensures Stored(buf, v, img, NextGroup(v, group), base + v, 0 - v, v)
  {
    hide Start, Extended;
    var next, above := NextGroup(v, group), base + v;
    forall d | 0 - v <= d < v
      ensures Shows(buf, v, img, next, above, d)
    {
      assert Shows(buf, v, img, group, base, d + v);
      assert Wrap(v, next + d) == Wrap(v, group + (d + v));
    }
  }

  /** The pointer reaches this row. */
  ghost predicate Reaches(buf: seq<Row>, v: nat, i: int, row: Row)
  {
    0 <= Wrap(v, i) < |buf| && row == buf[Wrap(v, i)]
  }

  /** These are the rows that the pointers from one group above on reach. */
  ghost predicate Around(buf: seq<Row>, seen: seq<Row>, v: nat, group: nat)
  {
    forall i :: 0 <= i < |seen| ==> Reaches(buf, v, group - v + i, seen[i])
  }

  /** What the downsampler sees through the pointers around the full group. */
  lemma SeenIsSpan(buf: seq<Row>, seen: seq<Row>, v: nat, img: seq<Row>, group: nat, base: nat)
    requires img != [] && IsGroup(v, group) && Stored(buf, v, img, group, base, 0 - v, 2 * v) && |seen| == 3 * v
    requires Around(buf, seen, v, group)
    ensures seen == Span(img, base - v, 3 * v)
  {
    hide Start, Extended, Wrap;
    forall i | 0 <= i < 3 * v
      ensures seen[i] == Extended(img, base - v + i)
    {
      assert Shows(buf, v, img, group, base, i - v) && Reaches(buf, v, group - v + i, seen[i]);
      assert group + (i - v) == group - v + i;
    }
  }
}
