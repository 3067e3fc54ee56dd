/** The Huffman tables of one kind, by table number: the counts of a statistics
    pass, the headers generated from them, and the encoder's derived tables. */
module TableSets {
  import opened CodeLengths
  import opened DerivedTable
  import opened OptimalTable
  import opened GeneratedTables
  import opened SeqTokens
  import opened SeqEncoder

  /** How coding a scan with its own tables ends. */
  datatype Ending = Coded | OutOfRange | CodesTooLong | NoRoom

  predicate ByteValues(huffval: seq<nat>)
  {
    |huffval| == 256 && forall p :: 0 <= p < 256 ==> huffval[p] < 256
  }

  /** Distinct table objects, each with room for 256 symbols. */
  ghost predicate Pointers(ptrs: seq<HuffTable?>)
    reads ptrs
  {
    && (forall i, j :: 0 <= i < j < |ptrs| && ptrs[i] != null ==> ptrs[i] != ptrs[j])
    && (forall i :: 0 <= i < |ptrs| && ptrs[i] != null ==> ByteValues(ptrs[i].huffval))
  }

  /** Table number no has been generated from some counts. */
  ghost predicate Made(ptrs: seq<HuffTable?>, no: nat, counts: seq<nat>)
    reads ptrs
  {
    no < |ptrs| && ptrs[no] != null && Generated(counts, ptrs[no].bits, ptrs[no].huffval)
  }

  lemma MadeTabulated(ptrs: seq<HuffTable?>, no: nat, counts: seq<nat>)
    requires Made(ptrs, no, counts)
    ensures Tabulated(counts)
  {
  }

  /** The table pointers of the compressor, the counting tables of the entropy
      encoder and the marks of tables already made. */
  class TableSet {
    var ptrs: seq<HuffTable?>
    var counts: seq<seq<nat>>
    var did: seq<bool>
    ghost const gathered: seq<seq<nat>>

    /** Everything the set changes. */
    ghost function Objects(): set<object>
      reads `ptrs
    {
      {this} + set t: HuffTable | t in ptrs
    }

    ghost predicate Valid()
      reads Objects(), ptrs
    {
      && |ptrs| == |counts| == |did| == |gathered| && Pointers(ptrs)
      && (forall no :: 0 <= no < |did| ==> |counts[no]| == SYMBOLS)
      && (forall no :: 0 <= no < |did| && !did[no] ==> counts[no] == gathered[no])
      && (forall no :: 0 <= no < |did| && did[no] ==> Made(ptrs, no, gathered[no]))
    }

    constructor (ptrs: seq<HuffTable?>, counts: seq<seq<nat>>)
      requires |ptrs| == |counts| && Pointers(ptrs) && forall no :: 0 <= no < |counts| ==> |counts[no]| == SYMBOLS
      ensures Valid() && this.ptrs == ptrs && gathered == counts && did == seq(|ptrs|, _ => false)
    {
      this.ptrs, this.counts, gathered := ptrs, counts, counts;
      did := seq(|ptrs|, _ => false);
    }

    /** jpeg_alloc_huff_table where there is no table yet. */
    method Allocate(no: nat)
      requires Valid() && no < |ptrs| && !did[no]
      modifies `ptrs
      ensures Valid() && |ptrs| == old(|ptrs|) && ptrs[no] != null
      ensures fresh(Objects() - old(Objects()))
    {
      hide Generated, ByteValues;
      if ptrs[no] == null {
        var t := new HuffTable();
        ByteEntries(t);
        ptrs := ptrs[no := t];
      }
    }

    /** Make a table unless it has been made: generating a table clobbers its
        counts, so a second time would give a different one. */
    method MakeOnce(no: nat) returns (out: Outcome)
      requires Valid() && no < |ptrs| && (!did[no] ==> Countable(gathered[no]))
      modifies Objects()
      ensures out == Done <==> Tabulated(gathered[no])
      ensures out == Done ==> Valid() && did == old(did)[no := true]
      ensures fresh(Objects() - old(Objects()))
    {
      hide Generated, Tabulated, Countable, ByteValues;
      if did[no] {
        MadeTabulated(ptrs, no, gathered[no]);
        return Done;
      }
      Allocate(no);
      assert ptrs[no] in ptrs;
      var left;
      out, left := Generate(ptrs[no], counts[no]);
      counts := counts[no := left];
      if out == Done {
        did := did[no := true];
      }
    }
  }

  lemma ByteEntries(t: HuffTable)
    requires |t.huffval| == 256 && forall p :: 0 <= p < 256 ==> t.huffval[p] < 256
    ensures ByteValues(t.huffval)
  {
  }

  /** jpeg_gen_optimal_table, with what it leaves of the counts. */
  method Generate(tbl: HuffTable, counts: seq<nat>) returns (out: Outcome, left: seq<nat>)
    requires Countable(counts) && ByteValues(tbl.huffval)
    modifies tbl
    ensures |left| == SYMBOLS && ByteValues(tbl.huffval)
    ensures out == Done <==> Tabulated(counts)
    ensures out == Done ==> Generated(counts, tbl.bits, tbl.huffval)
  {
    var freq := new nat[SYMBOLS];
    forall i | 0 <= i < SYMBOLS {
      freq[i] := counts[i];
    }
    assert freq[..] == counts;
    ghost var before := tbl.huffval;
    out := GenOptimalTable(tbl, freq);
    left := freq[..];
    if out == Done {
      GeneratedHere(counts, before, tbl.bits, tbl.huffval);
    }
  }

  /** What jpeg_gen_optimal_table leaves is the table of its counts. */
  lemma GeneratedHere(freq: seq<nat>, before: seq<nat>, bits: seq<nat>, huffval: seq<nat>)
    requires Tabulated(freq) && ByteValues(before) && bits == TableBits(SizesOf(freq))
    requires |Listing(SizesOf(freq)[..256], MAX_CLEN)| <= 255
    requires var list := Listing(SizesOf(freq)[..256], MAX_CLEN); huffval == list + before[|list|..]
    ensures Generated(freq, bits, huffval) && ByteValues(huffval)
  {
    var list := Listing(SizesOf(freq)[..256], MAX_CLEN);
    ListingOrdered(SizesOf(freq)[..256], MAX_CLEN);
    forall p | 0 <= p < 256
      ensures huffval[p] < 256
    {
      if p < |list| {
        assert list[p] in list;
      }
    }
  }

  /** Sizes in a derived table fit the accumulator of the bit writer. */
  lemma DerivedSized(t: Codes, bits: seq<nat>, huffval: seq<nat>)
    requires Derived(t, bits, huffval)
    ensures TableSized(t)
  {
    forall s | 0 <= s < 256
      ensures t.si[s] <= 16
    {
      if t.si[s] > 0 {
        var p :| 0 <= p < Total(bits) && huffval[p] == s;
        assert 1 <= LengthAt(bits, p) <= MAX_LEN;
      }
    }
  }

  /** A header, the encoder's table derived from it, and the reader of the
      header. */
  ghost predicate Headed(t: Table, bits: seq<nat>, huffval: seq<nat>)
  {
    |bits| == MAX_LEN + 1 && Derived(t.codes, bits, huffval) && t == HeaderTable(t.codes, bits, huffval)
  }

  /** A table of the encoder and the header it belongs to. */
  ghost predicate HeadedBy(t: Table, tbl: HuffTable?)
    reads tbl
  {
    tbl != null && Headed(t, tbl.bits, tbl.huffval)
  }

  lemma HeadedOk(t: Table, bits: seq<nat>, huffval: seq<nat>)
    requires Headed(t, bits, huffval)
    ensures TableOk(t) && TableSized(t.codes)
  {
    DerivedTableOk(t.codes, bits, huffval);
    DerivedSized(t.codes, bits, huffval);
  }

  /** The table was generated from the counts of its symbols, and both sides
      derive their view of it from the header. */
  ghost predicate MadeFrom(t: Table, counts: seq<nat>)
  {
    exists bits: seq<nat>, huffval: seq<nat> :: Generated(counts, bits, huffval) && Headed(t, bits, huffval)
  }

  /** jpeg_make_c_derived_tbl for a table just generated: it always accepts. */
  method DeriveMade(isDC: bool, tbl: HuffTable, ghost counts: seq<nat>) returns (t: Table)
    requires Generated(counts, tbl.bits, tbl.huffval) && ByteValues(tbl.huffval)
    requires forall s :: 0 <= s < 256 && counts[s] > 0 ==> s <= MaxSymbol(isDC)
    ensures Headed(t, tbl.bits, tbl.huffval)
  {
    hide Derived, Generated, Acceptable;
    GeneratedAcceptable(isDC, counts, tbl.bits, tbl.huffval);
    var co, si := new nat[256], new nat[256];
    var ok := MakeDerivedTable(isDC, tbl.bits, tbl.huffval, co, si);
    t := HeaderTable(Codes(co[..], si[..]), tbl.bits, tbl.huffval);
  }
}
