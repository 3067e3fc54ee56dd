/** The entries of a directory (rdcf2.c): where they are on the disk, and what names
    they hold. */
module FatEntries {
  import opened FatName

  const ENTRY_SIZE := 32
  const ENTRIES_PER_SECTOR := 16
  const NO_DIRECTORY_INDEX := 0xFFFF
  const NAME_EXTENSION := 11
  const READ_ONLY := 0x01
  const HIDDEN := 0x02
  const SYSTEM := 0x04
  const VOLUME := 0x08
  const DIRECTORY := 0x10
  const ARCHIVE := 0x20

  /** The bytes of an entry. */
  type Raw = r: seq<nat> | |r| == ENTRY_SIZE && forall i :: 0 <= i < ENTRY_SIZE ==> r[i] < 256
    witness seq(ENTRY_SIZE, _ => 0)

  /** What an entry says about a file; the stamp is its time and date words. */
  datatype Info = Info(attribute: nat, time: nat, date: nat, first: nat, size: nat)

  predicate InfoOk(x: Info)
  {
    x.attribute < 256 && x.time < 0x10000 && x.date < 0x10000 && x.first < 0x10000 && x.size < 0x1_0000_0000
  }

  function Le16(x: nat): (s: seq<nat>)
    ensures |s| == 2 && s[0] < 256 && s[1] < 256
  {
    [x % 256, (x / 256) % 256]
  }

  function Read16(s: seq<nat>, at: nat): nat
    requires at + 2 <= |s|
  {
    s[at] + 256 * s[at + 1]
  }

  lemma ReadLe16(x: nat)
    requires x < 0x10000
    ensures Read16(Le16(x), 0) == x
  {
  }

  /** The entry for a file, its reserved bytes cleared. */
  function Pack(name: seq<nat>, x: Info): (r: Raw)
    requires |name| == NAME_EXTENSION && (forall i :: 0 <= i < NAME_EXTENSION ==> name[i] < 256) && InfoOk(x)
    ensures r[..NAME_EXTENSION] == name && r[NAME_EXTENSION] == x.attribute
  {
    name + [x.attribute] + seq(10, _ => 0) + Le16(x.time) + Le16(x.date) + Le16(x.first)
    + Le16(x.size % 0x10000) + Le16(x.size / 0x10000)
  }

  /** read_directory_entry. */
  function Unpack(r: Raw): (x: Info)
    ensures InfoOk(x)
  {
    Info(r[11], Read16(r, 22), Read16(r, 24), Read16(r, 26), Read16(r, 28) + 0x10000 * Read16(r, 30))
  }

  lemma PackUnpack(name: seq<nat>, x: Info)
    requires |name| == NAME_EXTENSION && (forall i :: 0 <= i < NAME_EXTENSION ==> name[i] < 256) && InfoOk(x)
    ensures Unpack(Pack(name, x)) == x
  {
    var r := Pack(name, x);
    ReadLe16(x.time);
    ReadLe16(x.date);
    ReadLe16(x.first);
    ReadLe16(x.size % 0x10000);
    ReadLe16(x.size / 0x10000);
    assert r[22..24] == Le16(x.time) && r[24..26] == Le16(x.date) && r[26..28] == Le16(x.first);
    assert r[28..30] == Le16(x.size % 0x10000) && r[30..32] == Le16(x.size / 0x10000);
  }

  /** In numbers: where the fields of an entry are, the low byte of each first. */
  lemma FieldsInEntry(r: Raw)
    ensures Unpack(r) == Info(r[11], r[22] + 256 * r[23], r[24] + 256 * r[25], r[26] + 256 * r[27],
                              r[28] + 256 * r[29] + 65536 * (r[30] + 256 * r[31]))
  {
  }

  /** What is written into them: the name first, and zeros into the reserved bytes. */
  lemma PackedEntry(name: seq<nat>, x: Info)
    requires |name| == 11 && (forall i :: 0 <= i < 11 ==> name[i] < 256) && InfoOk(x)
    ensures Pack(name, x)[..11] == name && Unpack(Pack(name, x)) == x
    ensures forall i :: 12 <= i < 22 ==> Pack(name, x)[i] == 0
  {
    PackUnpack(name, x);
  }

  // ----- Names -----

  predicate Free(r: Raw)
  {
    r[0] == DELETED_FILE || r[0] == END_DIRECTORY
  }

  predicate IsLabel(r: Raw)
  {
    r[0] != DELETED_FILE && (r[NAME_EXTENSION] / VOLUME) % 2 == 1
  }

  /** The entry has this name and is no volume label; no name at all looks for the
      volume label. */
  predicate Matches(r: Raw, name: seq<nat>)
  {
    if name == [] then IsLabel(r) else r[..NAME_EXTENSION] == name && (r[NAME_EXTENSION] / VOLUME) % 2 == 0
  }

  /** In numbers: 0xE5 marks a deleted entry and 0 the end; bit 3 of the attribute is a
      volume label. */
  lemma EntryMarks(r: Raw, name: seq<nat>)
    requires |name| == 11
    ensures Free(r) <==> r[0] == 0xE5 || r[0] == 0
    ensures Matches(r, name) <==> r[..11] == name && (r[11] / 8) % 2 == 0
    ensures Matches(r, []) <==> r[0] != 0xE5 && (r[11] / 8) % 2 == 1
  {
  }

  /** Entry i comes before the end mark. */
  ghost predicate Reached(es: seq<Raw>, i: nat)
  {
    i < |es| && forall k :: 0 <= k <= i ==> es[k][0] != END_DIRECTORY
  }

  /** Entry i is the one of this name. */
  ghost predicate At(es: seq<Raw>, name: seq<nat>, i: nat)
  {
    Reached(es, i) && Matches(es[i], name)
  }

  /** The directory has this name, for this file. */
  ghost predicate Named(es: seq<Raw>, name: seq<nat>, x: Info)
  {
    exists i :: 0 <= i < |es| && At(es, name, i) && Unpack(es[i]) == x
  }

  ghost predicate HasName(es: seq<Raw>, name: seq<nat>)
  {
    exists i :: 0 <= i < |es| && At(es, name, i)
  }

  /** A name that can be looked up. */
  predicate ProperName(name: seq<nat>)
  {
    |name| == NAME_EXTENSION && (forall i :: 0 <= i < NAME_EXTENSION ==> name[i] < 256)
    && name[0] != DELETED_FILE && name[0] != END_DIRECTORY
  }

  ghost predicate NoNameTwice(es: seq<Raw>)
  {
    forall n, i, j :: ProperName(n) && 0 <= i < |es| && 0 <= j < |es| && At(es, n, i) && At(es, n, j) ==> i == j
  }

  /** A directory in order: no proper name twice, and nothing but end marks behind
      the first end mark. */
  ghost predicate EntriesOk(es: seq<Raw>)
  {
    && NoNameTwice(es)
    && (forall i, j :: 0 <= i < j < |es| && es[i][0] == END_DIRECTORY ==> es[j][0] == END_DIRECTORY)
  }

  /** No entry up to p is free, or the first free one is f. */
  ghost predicate FirstFree(es: seq<Raw>, p: nat, f: nat)
  {
    f <= p <= |es| && (forall i :: 0 <= i < f ==> !Free(es[i])) && (f < p ==> Free(es[f]))
  }

  /** A name stays where it is while its entry and those before it stay reached. */
  lemma AtElsewhere(es: seq<Raw>, i: nat, r: Raw, name: seq<nat>, j: nat)
    requires EntriesOk(es) && i < |es| && j < |es| && i != j && r[0] != END_DIRECTORY
    requires es[i][0] == END_DIRECTORY ==> forall k :: 0 <= k < i ==> es[k][0] != END_DIRECTORY
    requires ProperName(name)
    ensures At(es[i := r], name, j) <==> At(es, name, j)
  {
    var after := es[i := r];
    if At(after, name, j) {
      if i < j {
        assert after[j][0] != END_DIRECTORY;
        assert es[j] == after[j];
        assert es[i][0] != END_DIRECTORY;
      }
      forall k | 0 <= k <= j
        ensures es[k][0] != END_DIRECTORY
      {
        assert after[k][0] != END_DIRECTORY;
      }
    }
    if At(es, name, j) {
      forall k | 0 <= k <= j
        ensures after[k][0] != END_DIRECTORY
      {
        assert es[k][0] != END_DIRECTORY;
      }
    }
  }

  /** The place where an entry is written: all before it are reached, and if it is
      not free it held the name that is written. */
  ghost predicate Writable(es: seq<Raw>, i: nat, name: seq<nat>)
  {
    i < |es| && (forall k :: 0 <= k < i ==> es[k][0] != END_DIRECTORY) && (Free(es[i]) || At(es, name, i))
  }

  /** Names are elsewhere where they were before. */
  ghost predicate SameElsewhere(es: seq<Raw>, after: seq<Raw>, i: nat)
  {
    |after| == |es| &&
    forall m, j {:trigger At(after, m, j)} {:trigger At(es, m, j)} :: ProperName(m) && 0 <= j < |es| && j != i ==>
      (At(after, m, j) <==> At(es, m, j)) && after[j] == es[j]
  }

  lemma Elsewhere(es: seq<Raw>, i: nat, r: Raw)
    requires EntriesOk(es) && i < |es| && r[0] != END_DIRECTORY
    requires forall k :: 0 <= k < i ==> es[k][0] != END_DIRECTORY
    ensures SameElsewhere(es, es[i := r], i)
  {
    hide At;
    forall m, j | ProperName(m) && 0 <= j < |es| && j != i
      ensures At(es[i := r], m, j) <==> At(es, m, j)
    {
      AtElsewhere(es, i, r, m, j);
    }
  }

  /** A directory stays in order if the entry does not repeat a name. */
  lemma OnceAfter(es: seq<Raw>, i: nat, r: Raw)
    requires EntriesOk(es) && i < |es| && r[0] != END_DIRECTORY && SameElsewhere(es, es[i := r], i)
    requires forall k :: 0 <= k < i ==> es[k][0] != END_DIRECTORY
    requires forall m, j :: ProperName(m) && 0 <= j < |es| && j != i && At(es[i := r], m, i) ==> !At(es, m, j)
    ensures EntriesOk(es[i := r])
  {
    hide At;
    var after := es[i := r];
    forall a, b | 0 <= a < b < |after| && after[a][0] == END_DIRECTORY
      ensures after[b][0] == END_DIRECTORY
    {
      assert es[a][0] == END_DIRECTORY;
    }
  }

  /** An entry is written: just this name changes. */
  lemma NameWritten(es: seq<Raw>, i: nat, r: Raw, name: seq<nat>)
    requires EntriesOk(es) && ProperName(name) && Writable(es, i, name) && Matches(r, name)
    requires forall j :: 0 <= j < |es| && j != i ==> !At(es, name, j)
    ensures EntriesOk(es[i := r])
    ensures forall m, x :: ProperName(m) ==>
      (Named(es[i := r], m, x) <==> if m == name then x == Unpack(r) else Named(es, m, x))
  {
    hide Unpack;
    var after := es[i := r];
    assert r[0] == name[0];
    Elsewhere(es, i, r);
    assert At(after, name, i);
    OnceAfter(es, i, r);
    forall m, x | ProperName(m)
      ensures Named(after, m, x) <==> if m == name then x == Unpack(r) else Named(es, m, x)
    {
      if m == name {
        OnlyHere(after, i, name, x);
      } else {
        assert !At(after, m, i) && !At(es, m, i);
        NamedElsewhere(es, after, i, m, x);
      }
    }
  }

  lemma OnlyHere(es: seq<Raw>, i: nat, name: seq<nat>, x: Info)
    requires EntriesOk(es) && i < |es| && ProperName(name) && At(es, name, i)
    ensures Named(es, name, x) <==> x == Unpack(es[i])
  {
    hide Unpack, At;
  }

  lemma NamedElsewhere(es: seq<Raw>, after: seq<Raw>, i: nat, m: seq<nat>, x: Info)
    requires SameElsewhere(es, after, i) && ProperName(m) && i < |es| && !At(es, m, i) && !At(after, m, i)
    ensures Named(after, m, x) <==> Named(es, m, x)
  {
    hide Unpack, At;
    if Named(after, m, x) {
      var j :| 0 <= j < |after| && At(after, m, j) && Unpack(after[j]) == x;
      assert At(es, m, j);
    }
    if Named(es, m, x) {
      var j :| 0 <= j < |es| && At(es, m, j) && Unpack(es[j]) == x;
      assert At(after, m, j);
    }
  }

  /** An entry is marked as deleted: just this name goes. */
  lemma NameErased(es: seq<Raw>, i: nat, r: Raw, name: seq<nat>)
    requires EntriesOk(es) && ProperName(name) && At(es, name, i) && r[0] == DELETED_FILE
    ensures EntriesOk(es[i := r])
    ensures forall m, x :: ProperName(m) ==> (Named(es[i := r], m, x) <==> m != name && Named(es, m, x))
  {
    hide Unpack;
    var after := es[i := r];
    Elsewhere(es, i, r);
    OnceAfter(es, i, r);
    forall m, x | ProperName(m)
      ensures Named(after, m, x) <==> m != name && Named(es, m, x)
    {
      assert !At(after, m, i);
      if m == name {
        NothingElsewhere(es, after, i, name, x);
      } else {
        assert !At(es, m, i);
        NamedElsewhere(es, after, i, m, x);
      }
    }
  }

  lemma NothingElsewhere(es: seq<Raw>, after: seq<Raw>, i: nat, name: seq<nat>, x: Info)
    requires EntriesOk(es) && SameElsewhere(es, after, i) && i < |es| && ProperName(name) && At(es, name, i)
    requires !At(after, name, i)
    ensures !Named(after, name, x)
  {
    hide Unpack, At;
  }

  /** A full directory, lengthened by cleared entries. */
  lemma NamesKeptGrown(es: seq<Raw>, more: seq<Raw>)
    requires EntriesOk(es) && (forall i :: 0 <= i < |es| ==> !Free(es[i]))
    requires forall i :: 0 <= i < |more| ==> more[i][0] == END_DIRECTORY
    ensures EntriesOk(es + more)
    ensures forall m, x :: Named(es + more, m, x) <==> Named(es, m, x)
    ensures forall m :: HasName(es + more, m) <==> HasName(es, m)
  {
    hide Unpack;
    var after := es + more;
    forall m, j | 0 <= j < |after|
      ensures At(after, m, j) <==> j < |es| && At(es, m, j)
    {
      if j < |es| {
        assert forall k :: 0 <= k <= j ==> after[k] == es[k];
      } else {
        assert after[j] == more[j - |es|];
      }
    }
    forall m, x
      ensures Named(after, m, x) <==> Named(es, m, x)
    {
      if Named(after, m, x) {
        var j :| 0 <= j < |after| && At(after, m, j) && Unpack(after[j]) == x;
        assert At(es, m, j) && es[j] == after[j];
      }
      if Named(es, m, x) {
        var j :| 0 <= j < |es| && At(es, m, j) && Unpack(es[j]) == x;
        assert At(after, m, j) && es[j] == after[j];
      }
    }
  }

  /** A volume label is marked as deleted: no name changes. */
  lemma LabelErased(es: seq<Raw>, i: nat, r: Raw)
    requires EntriesOk(es) && i < |es| && At(es, [], i) && r[0] == DELETED_FILE
    ensures EntriesOk(es[i := r]) && !IsLabel(es[i := r][i])
    ensures forall m, x :: ProperName(m) ==> (Named(es[i := r], m, x) <==> Named(es, m, x))
  {
    hide Unpack;
    var after := es[i := r];
    Elsewhere(es, i, r);
    forall m | ProperName(m)
      ensures !At(after, m, i) && !At(es, m, i)
    {
      LabelHasNoName(es[i], r, m);
    }
    OnceAfter(es, i, r);
    forall m, x | ProperName(m)
      ensures Named(after, m, x) <==> Named(es, m, x)
    {
      NamedElsewhere(es, after, i, m, x);
    }
  }

  lemma LabelHasNoName(a: Raw, r: Raw, m: seq<nat>)
    requires ProperName(m) && IsLabel(a) && r[0] == DELETED_FILE
    ensures !Matches(a, m) && !Matches(r, m)
  {
    assert r[..NAME_EXTENSION][0] == r[0];
  }
}
