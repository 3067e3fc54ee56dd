/** The preprocessing controller of jcprepct.c, with and without context rows. */
module PrepControl {
  import opened PrepRows

  /** create_context_buffer: the pointers of five row groups over three. */
  method CreateContextBuffer(v: nat) returns (fake: seq<nat>)
    ensures |fake| == 5 * v && forall i :: 0 <= i < 5 * v ==> fake[i] == Wrap(v, i - v)
  {
    var pointers := new nat[5 * v];
    for i := 0 to 3 * v
      invariant forall k :: v <= k < v + i ==> pointers[k] == k - v
    {
      pointers[v + i] := i;
    }
    for i := 0 to v
      invariant forall k :: v <= k < 4 * v ==> pointers[k] == k - v
      invariant forall k :: 0 <= k < i ==> pointers[k] == 2 * v + k
      invariant forall k :: 4 * v <= k < 4 * v + i ==> pointers[k] == k - 4 * v
    {
      pointers[i] := 2 * v + i;
      pointers[4 * v + i] := i;
    }
    fake := pointers[..];
  }

  /** The rows offered from index ctr to avail are the next ones of the image. */
  predicate Offers(input: seq<Row>, ctr: nat, avail: nat, img: seq<Row>, rowsToGo: nat)
  {
    avail <= |input| && rowsToGo <= |img| &&
    (ctr < avail ==> avail - ctr <= rowsToGo && input[ctr..avail] == img[|img| - rowsToGo..][..avail - ctr])
  }

  /** Element i of an output buffer is row group first + i of the component. */
  ghost predicate Delivered(out: seq<Group>, i: nat, context: bool, img: seq<Row>, v: nat, first: int)
    requires img != []
  {
    i < |out| && first + i >= 0 && out[i] == GroupOf(context, img, v, first + i)
  }

  /** All of the elements lo to hi - 1 are. */
  ghost predicate Delivers(out: seq<Group>, lo: nat, hi: nat, context: bool, img: seq<Row>, v: nat, first: int)
    requires img != []
  {
    forall i :: lo <= i < hi ==> Delivered(out, i, context, img, v, first)
  }

  class Prep {
    const context: bool             // need_context_rows
    const v: nat                    // max_v_samp_factor
    const img: seq<Row>             // the image, as color_convert yields it
    const colorBuf: array<Row>      // three row groups, or one
    const pointers: seq<nat>
    var rowsToGo: nat
    var nextBufRow: nat
    var thisRowGroup: nat
    var nextBufStop: nat
    ghost var produced: nat         // row groups downsampled so far
    ghost var filled: nat           // rows stored from the group in hand on

    /** The pointers reach the rows of the buffer. */
    ghost predicate Shape()
      ensures Shape() ==> v > 0 && img != []
    {
      && v > 0 && img != [] && colorBuf.Length == (if context then 3 * v else v)
      && (context ==> |pointers| == 5 * v && forall i :: 0 <= i < 5 * v ==> pointers[i] == Wrap(v, i - v))
    }

    /** The counters of the ring. */
    ghost predicate Counters()
      reads this
    {
      && IsGroup(v, thisRowGroup) && rowsToGo <= |img| && filled <= 2 * v
      && (produced > 0 ==> filled >= v) && (filled == 0 <==> rowsToGo == |img|) && (produced == 0 ==> thisRowGroup == 0)
      && nextBufRow == NextRow(v, thisRowGroup, filled) && nextBufStop == nextBufRow + (2 * v - filled)
      && (rowsToGo > 0 ==> Start(v, produced) + filled == |img| - rowsToGo)
      && (rowsToGo == 0 ==> Start(v, produced) + filled >= |img|)
    }

    /** How far the ring is filled: the group above, the group, and part or all of
        the group below. */
    ghost predicate Ring()
      reads this, colorBuf
      requires img != []
    {
      && Counters()
      && Stored(colorBuf[..], v, img, thisRowGroup, Start(v, produced), if filled > 0 then 0 - v else 0, filled)
    }

    /** How far the one row group is filled. */
    ghost predicate Strip()
      reads this, colorBuf
      requires img != []
    {
      && rowsToGo <= |img| && nextBufRow <= colorBuf.Length
      && (rowsToGo > 0 ==> Start(v, produced) + nextBufRow == |img| - rowsToGo)
      && (rowsToGo == 0 ==> Start(v, produced) + nextBufRow >= |img|)
      && Continues(colorBuf[..nextBufRow], img, Start(v, produced))
    }

    ghost predicate Valid()
      reads this, colorBuf
      ensures Valid() ==> v > 0 && img != []
    {
      && Shape()
      && (context ==> Ring() && filled < 2 * v)
      && (!context ==> Strip() && nextBufRow < v && (rowsToGo == 0 ==> nextBufRow == 0))
    }

    /** The test whether there is enough data for a row group. */
    ghost predicate Stage()
      reads this
    {
      v > 0 && img != [] && filled <= 2 * v && (nextBufRow == nextBufStop <==> filled == 2 * v)
    }

    /** start_pass_prep, with the buffers of jinit_c_prep_controller. */
    constructor (context: bool, v: nat, img: seq<Row>)
      requires v > 0 && img != []
      ensures Valid() && this.context == context && this.v == v && this.img == img && rowsToGo == |img| && produced == 0
      ensures fresh(colorBuf)
    {
      this.context, this.v, this.img := context, v, img;
      colorBuf := new Row[if context then 3 * v else v](_ => []);
      var fake := CreateContextBuffer(v);
      pointers := fake;
      rowsToGo := |img|;
      nextBufRow, thisRowGroup, nextBufStop := 0, 0, 2 * v;
      produced, filled := 0, 0;
    }

    /** The row of the buffer that an index of the component's row array means. */
    function Slot(i: int): (s: nat)
      reads colorBuf
      requires Shape() && (if context then 0 - v <= i < 4 * v else 0 <= i < v)
      ensures s < colorBuf.Length && s == if context then Wrap(v, i) else i
    {
      if context then pointers[v + i] else i
    }

    /** color_convert: rows of the input into the buffer. */
    method ColorConvert(input: seq<Row>, inRowCtr: nat, numrows: nat)
      requires Shape() && inRowCtr + numrows <= |input| && nextBufRow + numrows <= colorBuf.Length
      modifies colorBuf
      ensures Written(old(colorBuf[..]), colorBuf[..], nextBufRow, input[inRowCtr..inRowCtr + numrows])
    {
      for i := 0 to numrows
        invariant forall p :: 0 <= p < colorBuf.Length ==>
          colorBuf[p] == if nextBufRow <= p < nextBufRow + i then input[inRowCtr + p - nextBufRow] else old(colorBuf[p])
      {
        colorBuf[Slot(nextBufRow + i)] := input[inRowCtr + i];
      }
    }

    /** expand_bottom_edge: the row before inputRows, through the pointers, copied
        downwards. */
    method ExpandBottomEdge(inputRows: nat, outputRows: nat)
      requires Shape() && inputRows <= outputRows <= colorBuf.Length && outputRows < inputRows + colorBuf.Length
      requires !context ==> inputRows > 0
      modifies colorBuf
      ensures Written(old(colorBuf[..]), colorBuf[..], inputRows,
                      seq(outputRows - inputRows, _ => old(colorBuf[Slot(inputRows - 1)])))
    {
      for row := inputRows to outputRows
        invariant forall p :: 0 <= p < colorBuf.Length ==>
          colorBuf[p] == if inputRows <= p < row then old(colorBuf[Slot(inputRows - 1)]) else old(colorBuf[p])
      {
        colorBuf[Slot(row)] := colorBuf[Slot(inputRows - 1)];
      }
    }

    /** The top row copied to the rows above it. */
    method PadTop()
      requires Shape() && context
      modifies colorBuf
      ensures forall p :: 0 <= p < 2 * v ==> colorBuf[p] == old(colorBuf[p])
      ensures forall p :: 2 * v <= p < 3 * v ==> colorBuf[p] == old(colorBuf[0])
    {
      for row := 1 to v + 1
        invariant forall p :: 0 <= p < 3 * v ==>
          colorBuf[p] == if 3 * v - row < p then old(colorBuf[0]) else old(colorBuf[p])
      {
        colorBuf[Slot(0 - row)] := colorBuf[Slot(0)];
      }
    }

    /** Input rows into the ring, with copies of the top row above the first. */
    method StoreRows(input: seq<Row>, inRowCtr: nat, inRowsAvail: nat, numrows: nat)
      requires Shape() && context && Ring() && 0 < numrows <= nextBufStop - nextBufRow
      requires numrows <= inRowsAvail - inRowCtr
      requires inRowCtr < inRowsAvail && Offers(input, inRowCtr, inRowsAvail, img, rowsToGo)
      modifies colorBuf
      ensures Stored(colorBuf[..], v, img, thisRowGroup, Start(v, produced), 0 - v, filled + numrows)
      ensures Offers(input, inRowCtr + numrows, inRowsAvail, img, rowsToGo - numrows)
    {
      hide Start, Stored, Extended, Written, Continues, Wrap, Shows;
      StartsAtZero(v);
      ghost var before := colorBuf[..];
      ColorConvert(input, inRowCtr, numrows);
      NextOfImage(input, inRowCtr, inRowsAvail, img, rowsToGo, numrows);
      AppendStored(before, colorBuf[..], v, img, thisRowGroup,
        Start(v, produced), if filled > 0 then 0 - v else 0, filled,
                   input[inRowCtr..inRowCtr + numrows]);
      if rowsToGo == |img| {
        ghost var below := colorBuf[..];
        PadTop();
        PadTopStored(below, colorBuf[..], v, img, numrows);
      }
    }

    /** The rows that fit, stored and counted. */
    method TakeRows(input: seq<Row>, inRowCtr: nat, inRowsAvail: nat) returns (ctr: nat)
      requires Shape() && context && Ring() && filled < 2 * v
      requires inRowCtr < inRowsAvail && Offers(input, inRowCtr, inRowsAvail, img, rowsToGo)
      modifies this, colorBuf
      ensures Shape() && Ring() && produced == old(produced) && inRowCtr < ctr <= inRowsAvail && Stage()
      ensures rowsToGo == old(rowsToGo) - (ctr - inRowCtr) && Offers(input, ctr, inRowsAvail, img, rowsToGo)
    {
      hide Start, Stored, Shape;
      var inrows := inRowsAvail - inRowCtr;
      var numrows: nat := nextBufStop - nextBufRow;
      if inrows < numrows {
        numrows := inrows;
      }
      StoreRows(input, inRowCtr, inRowsAvail, numrows);
      ctr := inRowCtr + numrows;
      nextBufRow := nextBufRow + numrows;
      rowsToGo := rowsToGo - numrows;
      filled := filled + numrows;
    }

    /** The bottom row copied until the group below is full. */
    method PadBottom()
      requires Shape() && context && Ring() && filled < 2 * v && rowsToGo == 0
      modifies this, colorBuf
      ensures Shape() && Ring() && filled == 2 * v && produced == old(produced) && rowsToGo == 0 && Stage()
    {
      hide Start, Stored, Wrap, Continues, Shows, Extended;
      ghost var before := colorBuf[..];
      ghost var rows := seq(nextBufStop - nextBufRow, _ => img[|img| - 1]);
      LastRowShown(before, v, img, thisRowGroup, Start(v, produced), 0 - v, filled);
      ExpandBottomEdge(nextBufRow, nextBufStop);
      assert Written(before, colorBuf[..], nextBufRow, rows);
      LastContinues(rows, img, Start(v, produced) + filled);
      AppendStored(before, colorBuf[..], v, img, thisRowGroup, Start(v, produced), 0 - v, filled, rows);
      nextBufRow := nextBufStop;
      filled := 2 * v;
    }

    /** The rows around a row group that the downsampler may read. */
    method LookAround(group: nat) returns (seen: seq<Row>)
      requires Shape() && context && group <= 2 * v
      ensures |seen| == 3 * v && Around(colorBuf[..], seen, v, group)
    {
      hide Wrap;
      seen := [];
      for i := 0 to 3 * v
        invariant |seen| == i && Around(colorBuf[..], seen, v, group)
      {
        var s := Slot(group - v + i);
        seen := seen + [colorBuf[s]];
      }
    }

    /** The downsampler's call on the full group, and the ring turned. */
    method EmitFromRing(outputBuf: array<Group>, outCtr: nat)
      requires Shape() && context && Ring() && filled == 2 * v && outCtr < outputBuf.Length
      modifies this, outputBuf
      ensures Valid() && produced == old(produced) + 1 && rowsToGo == old(rowsToGo)
      ensures outputBuf[..] == old(outputBuf[..])[outCtr := GroupOf(true, img, v, old(produced))]
    {
      hide Start, Stored, Wrap, Span, Around;
      var seen := LookAround(thisRowGroup);
      outputBuf[outCtr] := Down(seen);
      SeenIsSpan(colorBuf[..], seen, v, img, thisRowGroup, Start(v, produced));
      ContextGroup(img, v, produced);
      TurnStored(colorBuf[..], v, img, thisRowGroup, Start(v, produced));
      NextStart(v, produced);
      thisRowGroup := thisRowGroup + v;
      if thisRowGroup >= 3 * v {
        thisRowGroup := 0;
      }
      if nextBufRow >= 3 * v {
        nextBufRow := 0;
      }
      nextBufStop := nextBufRow + v;
      produced := produced + 1;
      filled := v;
    }

    /** pre_process_context. */
    method PreProcessContext(input: seq<Row>, inRowCtr: nat, inRowsAvail: nat, outputBuf: array<Group>, outCtr: nat)
      returns (inCtr: nat, out: nat)
      requires Valid() && context && Offers(input, inRowCtr, inRowsAvail, img, rowsToGo) && outCtr <= outputBuf.Length
      modifies this, outputBuf, colorBuf
      ensures Valid() && outCtr <= out <= outputBuf.Length && produced == old(produced) + (out - outCtr)
      ensures Offers(input, inCtr, inRowsAvail, img, rowsToGo) && inRowCtr <= inCtr
      ensures rowsToGo == old(rowsToGo) - (inCtr - inRowCtr)
      ensures out == outputBuf.Length || (inCtr >= inRowsAvail && rowsToGo > 0)
      ensures inCtr == inRowCtr && old(rowsToGo) > 0 ==> out == outCtr
      ensures outputBuf[..outCtr] == old(outputBuf[..outCtr])
      ensures Delivers(outputBuf[..], outCtr, out, context, img, v, old(produced) - outCtr)
    {
      hide Start, Stored, Wrap, Span, GroupOf, IsGroup, NextRow, Shape, Ring, Offers, Delivers;
      inCtr, out := inRowCtr, outCtr;
      NothingYet(outputBuf[..], outCtr, context, img, v, produced - outCtr);
      while out < outputBuf.Length
        invariant Valid() && outCtr <= out <= outputBuf.Length && produced == old(produced) + (out - outCtr)
        invariant Offers(input, inCtr, inRowsAvail, img, rowsToGo) && inRowCtr <= inCtr
        invariant rowsToGo == old(rowsToGo) - (inCtr - inRowCtr)
        invariant img != []
        invariant inCtr == inRowCtr && old(rowsToGo) > 0 ==> out == outCtr
        invariant outputBuf[..outCtr] == old(outputBuf[..outCtr])
        invariant Delivers(outputBuf[..], outCtr, out, context, img, v, old(produced) - outCtr)
        decreases outputBuf.Length - out, rowsToGo
      {
        if inCtr < inRowsAvail {
          inCtr := TakeRows(input, inCtr, inRowsAvail);
        } else {
          if rowsToGo != 0 {
            break;
          }
          PadBottom();
        }
        if nextBufRow == nextBufStop {
          ghost var before := outputBuf[..];
          EmitFromRing(outputBuf, out);
          OneMore(before, outputBuf[..], outCtr, out, context, img, v, old(produced) - outCtr);
          out := out + 1;
        }
      }
    }

    /** Input rows into the strip. */
    method FillStrip(input: seq<Row>, inRowCtr: nat, inRowsAvail: nat) returns (ctr: nat)
      requires Shape() && !context && Strip() && nextBufRow < v
      requires inRowCtr < inRowsAvail && Offers(input, inRowCtr, inRowsAvail, img, rowsToGo)
      modifies this, colorBuf
      ensures Strip() && produced == old(produced) && inRowCtr < ctr <= inRowsAvail && 0 < nextBufRow <= v
      ensures rowsToGo == old(rowsToGo) - (ctr - inRowCtr) && Offers(input, ctr, inRowsAvail, img, rowsToGo)
      ensures Start(v, produced) < |img|
    {
      hide Start, Continues, Written;
      var inrows := inRowsAvail - inRowCtr;
      var numrows: nat := v - nextBufRow;
      if inrows < numrows {
        numrows := inrows;
      }
      ghost var before := colorBuf[..];
      ColorConvert(input, inRowCtr, numrows);
      NextOfImage(input, inRowCtr, inRowsAvail, img, rowsToGo, numrows);
      assert before[..nextBufRow] == old(colorBuf[..nextBufRow]);
      AppendContinues(before, colorBuf[..], nextBufRow, input[inRowCtr..inRowCtr + numrows], img, Start(v, produced));
      ctr := inRowCtr + numrows;
      nextBufRow := nextBufRow + numrows;
      rowsToGo := rowsToGo - numrows;
      assert colorBuf[..][..nextBufRow] == colorBuf[..nextBufRow];
    }

    /** Copies of the bottom row below the image. */
    method PadStrip()
      requires Shape() && !context && Strip() && 0 < nextBufRow < v && rowsToGo == 0
      modifies this`nextBufRow, colorBuf
      ensures Strip() && nextBufRow == v
    {
      hide Start, Continues;
      ghost var before := colorBuf[..];
      ghost var last := before[nextBufRow - 1];
      ghost var rows := seq(v - nextBufRow, _ => last);
      LastOf(before[..nextBufRow], img, Start(v, produced));
      ExpandBottomEdge(nextBufRow, v);
      LastContinues(rows, img, Start(v, produced) + nextBufRow);
      assert before[..nextBufRow] == old(colorBuf[..nextBufRow]);
      AppendContinues(before, colorBuf[..], nextBufRow, rows, img, Start(v, produced));
      nextBufRow := v;
      assert colorBuf[..][..nextBufRow] == colorBuf[..nextBufRow];
    }

    /** The downsampler's call on the full strip. */
    method EmitFromStrip(outputBuf: array<Group>, outCtr: nat)
      requires Shape() && !context && Strip() && nextBufRow == v && outCtr < outputBuf.Length
      requires Start(v, produced) < |img|
      modifies this, outputBuf
      ensures Valid() && produced == old(produced) + 1 && rowsToGo == old(rowsToGo) && nextBufRow == 0
      ensures outputBuf[..] == old(outputBuf[..])[outCtr := GroupOf(false, img, v, old(produced))]
    {
      hide Start;
      outputBuf[outCtr] := Down(colorBuf[..]);
      assert colorBuf[..] == colorBuf[..nextBufRow] == Span(img, Start(v, produced), v);
      NextStart(v, produced);
      nextBufRow := 0;
      produced := produced + 1;
    }

    /** expand_bottom_edge on the output: the last output row goes on. */
    method PadOutput(outputBuf: array<Group>, outCtr: nat)
      requires Valid() && !context && rowsToGo == 0 && 0 < outCtr <= outputBuf.Length && produced > 0
      requires outputBuf[outCtr - 1] == GroupOf(false, img, v, produced - 1)
      modifies this`produced, outputBuf
      ensures Valid() && produced == old(produced) + (outputBuf.Length - outCtr)
      ensures outputBuf[..outCtr] == old(outputBuf[..outCtr])
      ensures Delivers(outputBuf[..], outCtr, outputBuf.Length, false, img, v, old(produced) - outCtr)
    {
      hide Start, Span;
      for g := outCtr to outputBuf.Length
        invariant Valid() && produced == old(produced) + (g - outCtr)
        invariant outputBuf[..outCtr] == old(outputBuf[..outCtr])
        invariant outputBuf[outCtr - 1].seen == GroupOf(false, img, v, produced - 1).seen
        invariant Delivers(outputBuf[..], outCtr, g, false, img, v, old(produced) - outCtr)
      {
        ghost var before := outputBuf[..];
        outputBuf[g] := Bottom(outputBuf[outCtr - 1].seen);
        BelowImage(img, v, produced);
        OneMore(before, outputBuf[..], outCtr, g, false, img, v, old(produced) - outCtr);
        NextStart(v, produced);
        produced := produced + 1;
      }
    }

    /** pre_process_data. */
    method PreProcessData(input: seq<Row>, inRowCtr: nat, inRowsAvail: nat, outputBuf: array<Group>, outCtr: nat)
      returns (inCtr: nat, out: nat)
      requires Valid() && !context && Offers(input, inRowCtr, inRowsAvail, img, rowsToGo) && outCtr <= outputBuf.Length
      modifies this, outputBuf, colorBuf
      ensures Valid() && outCtr <= out <= outputBuf.Length && produced == old(produced) + (out - outCtr)
      ensures Offers(input, inCtr, inRowsAvail, img, rowsToGo) && inRowCtr <= inCtr
      ensures rowsToGo == old(rowsToGo) - (inCtr - inRowCtr)
      ensures out == outputBuf.Length || (inCtr >= inRowsAvail && (rowsToGo > 0 || old(rowsToGo) == 0))
      ensures inCtr == inRowCtr && old(rowsToGo) > 0 ==> out == outCtr
      ensures outputBuf[..outCtr] == old(outputBuf[..outCtr])
      ensures Delivers(outputBuf[..], outCtr, out, context, img, v, old(produced) - outCtr)
    {
      hide Start, Span, GroupOf, Offers, Continues, Shape, Delivers;
      inCtr, out := inRowCtr, outCtr;
      NothingYet(outputBuf[..], outCtr, context, img, v, produced - outCtr);
      while inCtr < inRowsAvail && out < outputBuf.Length
        invariant Valid() && outCtr <= out <= outputBuf.Length && produced == old(produced) + (out - outCtr)
        invariant Offers(input, inCtr, inRowsAvail, img, rowsToGo) && inRowCtr <= inCtr
        invariant rowsToGo == old(rowsToGo) - (inCtr - inRowCtr)
        invariant out == outputBuf.Length || rowsToGo > 0 || old(rowsToGo) == 0
        invariant inCtr == inRowCtr && old(rowsToGo) > 0 ==> out == outCtr
        invariant outputBuf[..outCtr] == old(outputBuf[..outCtr])
        invariant Delivers(outputBuf[..], outCtr, out, context, img, v, old(produced) - outCtr)
        decreases inRowsAvail - inCtr
      {
        inCtr := FillStrip(input, inCtr, inRowsAvail);
        if rowsToGo == 0 && nextBufRow < v {
          PadStrip();
        }
        if nextBufRow == v {
          ghost var before := outputBuf[..];
          EmitFromStrip(outputBuf, out);
          OneMore(before, outputBuf[..], outCtr, out, context, img, v, old(produced) - outCtr);
          out := out + 1;
        }
        if rowsToGo == 0 && out < outputBuf.Length {
          ghost var before := outputBuf[..];
          LastDelivered(before, outCtr, out, context, img, v, old(produced) - outCtr);
          PadOutput(outputBuf, out);
          ManyMore(before, outputBuf[..], outCtr, out, outputBuf.Length, context, img, v, old(produced) - outCtr);
          out := outputBuf.Length;
          break;
        }
      }
    }

    /** The pre_process_data method that was set up. */
    method PreProcess(input: seq<Row>, inRowCtr: nat, inRowsAvail: nat, outputBuf: array<Group>, outCtr: nat)
      returns (inCtr: nat, out: nat)
      requires Valid() && Offers(input, inRowCtr, inRowsAvail, img, rowsToGo) && outCtr <= outputBuf.Length
      modifies this, outputBuf, colorBuf
      ensures Valid() && outCtr <= out <= outputBuf.Length && produced == old(produced) + (out - outCtr)
      ensures Offers(input, inCtr, inRowsAvail, img, rowsToGo) && inRowCtr <= inCtr
      ensures rowsToGo == old(rowsToGo) - (inCtr - inRowCtr)
      ensures out == outputBuf.Length || (inCtr >= inRowsAvail && (rowsToGo > 0 || (!context && old(rowsToGo) == 0)))
      ensures inCtr == inRowCtr && old(rowsToGo) > 0 ==> out == outCtr
      ensures outputBuf[..outCtr] == old(outputBuf[..outCtr])
      ensures Delivers(outputBuf[..], outCtr, out, context, img, v, old(produced) - outCtr)
    {
      hide Ring, Strip, Shape, Offers, Delivers;
      if context {
        inCtr, out := PreProcessContext(input, inRowCtr, inRowsAvail, outputBuf, outCtr);
      } else {
        inCtr, out := PreProcessData(input, inRowCtr, inRowsAvail, outputBuf, outCtr);
      }
    }

    /** How many row groups there are after so many rows: while rows are to come, a
        group is out exactly when its rows, and with context also those of the group
        below, are in; without context no group is held back at the bottom. */
    lemma Progress()
      requires Valid()
      ensures rowsToGo <= |img| && (rowsToGo > 0 ==> Start(v, produced) < |img|)
      ensures rowsToGo > 0 && context && produced > 0 ==>
        Start(v, produced) + v <= |img| - rowsToGo < Start(v, produced) + 2 * v
      ensures rowsToGo > 0 && context && produced == 0 ==> |img| - rowsToGo < 2 * v
      ensures rowsToGo > 0 && !context ==> Start(v, produced) <= |img| - rowsToGo < Start(v, produced) + v
      ensures rowsToGo == 0 && !context ==> Start(v, produced) >= |img|
    {
      hide Stored, Continues;
    }
  }

  /** One more row group in the output buffer. */
  lemma OneMore(before: seq<Group>, after: seq<Group>, lo: nat, out: nat, context: bool, img: seq<Row>, v: nat,
                first: int)
    requires img != [] && lo <= out < |before| && first + out >= 0 && Delivers(before, lo, out, context, img, v, first)
    requires after == before[out := GroupOf(context, img, v, first + out)]
    ensures Delivers(after, lo, out + 1, context, img, v, first) && after[..lo] == before[..lo]
  {
    hide GroupOf;
    forall i | lo <= i < out + 1
      ensures Delivered(after, i, context, img, v, first)
    {
      assert i < out ==> Delivered(before, i, context, img, v, first);
    }
  }

  /** No row group yet. */
  lemma NothingYet(out: seq<Group>, lo: nat, context: bool, img: seq<Row>, v: nat, first: int)
    requires img != []
    ensures Delivers(out, lo, lo, context, img, v, first)
  {
  }

  /** More row groups in the output buffer, none of the others changed. */
  lemma ManyMore(before: seq<Group>, after: seq<Group>, lo: nat, out: nat, hi: nat, context: bool, img: seq<Row>,
                 v: nat, first: int)
    requires img != [] && lo <= out <= hi <= |after| && out <= |before|
    requires Delivers(before, lo, out, context, img, v, first)
    requires after[..out] == before[..out] && Delivers(after, out, hi, context, img, v, first)
    ensures Delivers(after, lo, hi, context, img, v, first) && after[..lo] == before[..lo]
  {
    hide GroupOf;
    assert after[..lo] == after[..out][..lo] == before[..out][..lo];
    forall i | lo <= i < hi
      ensures Delivered(after, i, context, img, v, first)
    {
      if i < out {
        assert Delivered(before, i, context, img, v, first) && i < |before|;
        assert after[..out][i] == before[..out][i];
      }
    }
  }

  lemma LastDelivered(out: seq<Group>, lo: nat, hi: nat, context: bool, img: seq<Row>, v: nat, first: int)
    requires img != [] && lo < hi <= |out| && Delivers(out, lo, hi, context, img, v, first)
    ensures first + hi > 0 && out[hi - 1] == GroupOf(context, img, v, first + hi - 1)
  {
    hide GroupOf;
    assert Delivered(out, hi - 1, context, img, v, first);
  }

  lemma ContextGroup(img: seq<Row>, v: nat, k: nat)
    requires img != []
    ensures GroupOf(true, img, v, k) == Down(Span(img, Start(v, k) - v, 3 * v))
  {
  }

  lemma NextStart(v: nat, k: nat)
    ensures Start(v, k + 1) == Start(v, k) + v
  {
  }

  lemma StartsAtZero(v: nat)
    ensures Start(v, 0) == 0
  {
  }

  /** Below the image its last row goes on. */
  lemma LastContinues(rows: seq<Row>, img: seq<Row>, j: int)
    requires img != [] && j >= |img| && forall i :: 0 <= i < |rows| ==> rows[i] == img[|img| - 1]
    ensures Continues(rows, img, j)
  {
  }

  /** The next rows offered are the rows of the image at that place. */
  lemma NextOfImage(input: seq<Row>, ctr: nat, avail: nat, img: seq<Row>, rowsToGo: nat, n: nat)
    requires img != [] && ctr < avail && n <= avail - ctr && Offers(input, ctr, avail, img, rowsToGo)
    ensures Continues(input[ctr..ctr + n], img, |img| - rowsToGo)
    ensures Offers(input, ctr + n, avail, img, rowsToGo - n)
  {
    var offered := img[|img| - rowsToGo..][..avail - ctr];
    var rows := input[ctr..ctr + n];
    forall i | 0 <= i < n
      ensures rows[i] == Extended(img, |img| - rowsToGo + i)
    {
      assert input[ctr..avail][i] == offered[i];
    }
    if ctr + n < avail {
      assert input[ctr + n..avail] == input[ctr..avail][n..];
      assert offered[n..] == img[|img| - (rowsToGo - n)..][..avail - (ctr + n)];
    }
  }

  /** The last of the rows that reach the bottom is the bottom row. */
  lemma LastOf(rows: seq<Row>, img: seq<Row>, j: int)
    requires img != [] && rows != [] && Continues(rows, img, j) && j + |rows| >= |img|
    ensures rows[|rows| - 1] == img[|img| - 1]
  {
    assert rows[|rows| - 1] == Extended(img, j + (|rows| - 1));
  }

  /** Below the image every group repeats the same last row. */
  lemma BelowImage(img: seq<Row>, v: nat, k: nat)
    requires img != [] && k > 0 && Start(v, k) >= |img|
    ensures GroupOf(false, img, v, k) == Bottom(GroupOf(false, img, v, k - 1).seen)
  {
  }
}
