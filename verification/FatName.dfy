/** The 8.3 name codec of rdcf2.c. */
module FatName {

  const NAME_SIZE := 8
  const EXTENSION_SIZE := 3
  const END_DIRECTORY := 0x00
  const DELETED_FILE := 0xE5
  const SPACE := 0x20
  const DOT := 0x2E
  const SLASH := 0x2F

  /** check_file_character's table: control characters, the characters
      space " * + , . / : ; < = > ? [ \ ] | DEL, and everything from 0x80 on are
      refused. */
  function TableByte(i: nat): (b: nat)
  {
    match i
    case 4 => 0x05
    case 5 => 0xDC
    case 6 => 0x00
    case 7 => 0xFC
    case 8 => 0x00
    case 9 => 0x00
    case 10 => 0x00
    case 11 => 0x38
    case 12 => 0x00
    case 13 => 0x00
    case 14 => 0x00
    case 15 => 0x90
    case _ => 0xFF
  }

  function BitWeight(i: nat): (w: nat)
    requires i < 8
    ensures w > 0
  {
    match i
    case 0 => 1
    case 1 => 2
    case 2 => 4
    case 3 => 8
    case 4 => 16
    case 5 => 32
    case 6 => 64
    case 7 => 128
  }

  predicate Allowed(c: nat)
  {
    (TableByte(c / 8) / BitWeight(c % 8)) % 2 == 0
  }

  function ToUpper(c: nat): nat
  {
    if 0x61 <= c <= 0x7A then c - 0x20 else c
  }

  /** Capitals stay allowed, and no allowed character is a separator, a space or
      a mark. */
  lemma AllowedUpper(c: nat)
    requires c < 256 && Allowed(c)
    ensures Allowed(ToUpper(c)) && ToUpper(ToUpper(c)) == ToUpper(c)
    ensures ToUpper(c) != SPACE && ToUpper(c) != DOT && ToUpper(c) != SLASH && 0 < ToUpper(c) < 0x80
  {
    assert c == 8 * (c / 8) + c % 8;
  }

  /** Which characters are allowed: the printable ones but for the space and
      " * + , . / : ; < = > ? [ \ ] | */
  lemma AllowedCharacters(c: nat)
    requires c < 256
    ensures Allowed(c) <==>
      && 0x21 <= c <= 0x7E && c != 0x22 && !(0x2A <= c <= 0x2C) && c != 0x2E && c != 0x2F
      && !(0x3A <= c <= 0x3F) && !(0x5B <= c <= 0x5D) && c != 0x7C
  {
    assert c == 8 * (c / 8) + c % 8;
  }

  /** Only the letters a to z change. */
  lemma Capitals(c: nat)
    ensures ToUpper(c) == if 97 <= c <= 122 then c - 32 else c
  {
  }

  predicate AllAllowed(s: seq<nat>)
  {
    forall i :: 0 <= i < |s| ==> s[i] < 256 && Allowed(s[i])
  }

  // ----- What a component means -----

  /** The first index from i on of a slash, or of a dot where that ends a part,
      or the end. */
  function PartEnd(s: seq<nat>, i: nat, dotEnds: bool): (e: nat)
    requires i <= |s|
    ensures i <= e <= |s|
    ensures forall k :: i <= k < e ==> s[k] != SLASH && (dotEnds ==> s[k] != DOT)
    ensures e < |s| ==> s[e] == SLASH || (dotEnds && s[e] == DOT)
    decreases |s| - i
  {
    if i == |s| || s[i] == SLASH || (dotEnds && s[i] == DOT) then i else PartEnd(s, i + 1, dotEnds)
  }

  lemma PartEndIs(s: seq<nat>, i: nat, dotEnds: bool, e: nat)
    requires i <= e <= |s|
    requires forall k :: i <= k < e ==> s[k] != SLASH && (dotEnds ==> s[k] != DOT)
    requires e < |s| ==> s[e] == SLASH || (dotEnds && s[e] == DOT)
    ensures PartEnd(s, i, dotEnds) == e
  {
    var f := PartEnd(s, i, dotEnds);
    assert !(f < e) && !(e < f);
  }

  function NameEnd(s: seq<nat>, i: nat): (e: nat)
    requires i <= |s|
    ensures i <= e <= |s|
  {
    PartEnd(s, i, true)
  }

  predicate HasExtension(s: seq<nat>, i: nat)
    requires i <= |s|
  {
    NameEnd(s, i) < |s| && s[NameEnd(s, i)] == DOT
  }

  /** Where the component ends. */
  function ComponentEnd(s: seq<nat>, i: nat): (e: nat)
    requires i <= |s|
    ensures i <= e <= |s|
  {
    if HasExtension(s, i) then PartEnd(s, NameEnd(s, i) + 1, false) else NameEnd(s, i)
  }

  function NamePart(s: seq<nat>, i: nat): seq<nat>
    requires i <= |s|
  {
    s[i..NameEnd(s, i)]
  }

  function ExtensionPart(s: seq<nat>, i: nat): seq<nat>
    requires i <= |s|
  {
    if HasExtension(s, i) then s[NameEnd(s, i) + 1..ComponentEnd(s, i)] else []
  }

  /** A component is accepted when its name is not empty and every character of
      both parts is allowed. */
  predicate Accepted(s: seq<nat>, i: nat)
    requires i <= |s|
  {
    NamePart(s, i) != [] && AllAllowed(NamePart(s, i)) && AllAllowed(ExtensionPart(s, i))
  }

  function Upper(s: seq<nat>): (u: seq<nat>)
    ensures |u| == |s|
  {
    seq(|s|, i requires 0 <= i < |s| => ToUpper(s[i]))
  }

  /** A part in its field: capitals, cut off or padded with spaces. */
  function Field(s: seq<nat>, width: nat): (f: seq<nat>)
    ensures |f| == width
  {
    if |s| >= width then Upper(s[..width]) else Upper(s) + seq(width - |s|, _ => SPACE)
  }

  function NameExtension(s: seq<nat>, i: nat): (ne: seq<nat>)
    requires i <= |s|
    ensures |ne| == NAME_SIZE + EXTENSION_SIZE
  {
    Field(NamePart(s, i), NAME_SIZE) + Field(ExtensionPart(s, i), EXTENSION_SIZE)
  }

  /** In numbers: eight bytes of the name and three of the extension, each in capitals
      and filled up with spaces. */
  lemma NameBytes(s: seq<nat>, i: nat, k: nat)
    requires i <= |s| && k < 11
    ensures |NameExtension(s, i)| == 11
    ensures var part, at := if k < 8 then NamePart(s, i) else ExtensionPart(s, i), if k < 8 then k else k - 8;
      NameExtension(s, i)[k] == if at < |part| then ToUpper(part[at]) else 0x20
  {
    hide ToUpper, NamePart, ExtensionPart;
  }

  /** The parts end at a slash, and the name at a dot. */
  lemma PartsEnd(s: seq<nat>, i: nat)
    requires i <= |s|
    ensures forall k :: 0 <= k < |NamePart(s, i)| ==> NamePart(s, i)[k] != 0x2E && NamePart(s, i)[k] != 0x2F
    ensures var e := i + |NamePart(s, i)|;
      && e <= |s| && NamePart(s, i) == s[i..e] && (e < |s| ==> s[e] == 0x2E || s[e] == 0x2F)
      && if e < |s| && s[e] == 0x2E then
           && e + 1 + |ExtensionPart(s, i)| == ComponentEnd(s, i)
           && ExtensionPart(s, i) == s[e + 1..ComponentEnd(s, i)]
           && (ComponentEnd(s, i) < |s| ==> s[ComponentEnd(s, i)] == 0x2F)
         else ExtensionPart(s, i) == [] && ComponentEnd(s, i) == e
  {
  }

  // ----- spec_to_name_extension -----

  lemma UpperSnoc(s: seq<nat>, i: nat, j: nat)
    requires i <= j < |s|
    ensures Upper(s[i..j + 1]) == Upper(s[i..j]) + [ToUpper(s[j])]
  {
    assert s[i..j + 1] == s[i..j] + [s[j]];
  }

  lemma AllowedPrefix(s: seq<nat>, i: nat, j: nat, e: nat)
    requires i <= j < e <= |s| && s[j] < 256
    ensures AllAllowed(s[i..e]) ==> Allowed(s[j])
    ensures AllAllowed(s[i..j]) && Allowed(s[j]) ==> AllAllowed(s[i..j + 1])
  {
    hide Allowed;
    assert s[i..e][j - i] == s[j];
    assert s[i..j + 1] == s[i..j] + [s[j]];
  }

  /** One part: its characters checked, the first ones stored. */
  method ScanPart(ne: array<nat>, at: nat, limit: nat, spec: seq<nat>, from: nat, dotEnds: bool)
    returns (ok: bool, next: nat, i: nat)
    requires at <= limit <= ne.Length && from <= |spec| && forall k :: 0 <= k < |spec| ==> spec[k] < 256
    modifies ne
    ensures ok <==> AllAllowed(spec[from..PartEnd(spec, from, dotEnds)])
    ensures ok ==> next == PartEnd(spec, from, dotEnds)
    ensures ok ==> at <= i <= limit && i - at <= next - from && (i == limit || i - at == next - from)
    ensures ok ==> ne[..at] == old(ne[..at]) && ne[at..i] == Upper(spec[from..from + (i - at)])
  {
    hide Allowed, Upper, AllAllowed;
    next, i := from, at;
    ghost var e := PartEnd(spec, from, dotEnds);
    NothingScanned(spec, from);
    while next < |spec| && spec[next] != SLASH && (dotEnds ==> spec[next] != DOT)
      invariant from <= next <= e && at <= i <= limit
      invariant i - at <= next - from && (i == limit || i - at == next - from)
      invariant AllAllowed(spec[from..next])
      invariant ne[..at] == old(ne[..at]) && ne[at..i] == Upper(spec[from..from + (i - at)])
      decreases |spec| - next
    {
      var c := spec[next];
      AllowedPrefix(spec, from, next, e);
      if !Allowed(c) {
        return false, next, i;
      }
      if i < limit {
        UpperSnoc(spec, from, next);
        ghost var stored := ne[at..i];
        ne[i] := ToUpper(c);
        assert ne[at..i + 1] == stored + [ToUpper(c)];
        i := i + 1;
      }
      next := next + 1;
    }
    ok := true;
  }

  lemma NothingScanned(s: seq<nat>, i: nat)
    requires i <= |s|
    ensures AllAllowed(s[i..i]) && Upper(s[i..i]) == []
  {
  }

  /** Pad a field with spaces. */
  method PadField(ne: array<nat>, from: nat, limit: nat)
    requires from <= limit <= ne.Length
    modifies ne
    ensures ne[..from] == old(ne[..from]) && ne[from..limit] == seq(limit - from, _ => SPACE)
  {
    var i := from;
    while i < limit
      invariant from <= i <= limit && ne[..from] == old(ne[..from])
      invariant forall k :: from <= k < i ==> ne[k] == SPACE
    {
      ne[i] := SPACE;
      i := i + 1;
    }
  }

  /** A part scanned into its field and padded. */
  method ScanField(ne: array<nat>, at: nat, limit: nat, spec: seq<nat>, from: nat, dotEnds: bool)
    returns (ok: bool, next: nat)
    requires at < limit <= ne.Length && from <= |spec| && forall k :: 0 <= k < |spec| ==> spec[k] < 256
    modifies ne
    ensures ok <==>
      AllAllowed(spec[from..PartEnd(spec, from, dotEnds)]) && (dotEnds ==> PartEnd(spec, from, dotEnds) > from)
    ensures ok ==> next == PartEnd(spec, from, dotEnds)
    ensures ok ==> ne[..at] == old(ne[..at]) && ne[at..limit] == Field(spec[from..next], limit - at)
  {
    hide Allowed, Upper, AllAllowed, Field;
    var i;
    ok, next, i := ScanPart(ne, at, limit, spec, from, dotEnds);
    if !ok || (dotEnds && i == at) {
      return false, next;
    }
    ghost var stored := ne[..i];
    PadField(ne, i, limit);
    ghost var part, f := spec[from..next], ne[at..limit];
    assert f[..i - at] == stored[at..] && f[i - at..] == ne[i..limit];
    assert part[..i - at] == spec[from..from + (i - at)];
    FieldFilled(f, part, i - at, limit - at);
  }

  /** spec_to_name_extension: false stands for its invalid-name error. */
  method SpecToNameExtension(ne: array<nat>, spec: seq<nat>, from: nat) returns (ok: bool, next: nat)
    requires ne.Length == NAME_SIZE + EXTENSION_SIZE && from <= |spec| && forall k :: 0 <= k < |spec| ==> spec[k] < 256
    modifies ne
    ensures ok <==> Accepted(spec, from)
    ensures ok ==> ne[..] == NameExtension(spec, from) && next == ComponentEnd(spec, from)
  {
    hide Allowed, Upper, AllAllowed, Field;
    NoField(EXTENSION_SIZE);
    ok, next := ScanField(ne, 0, NAME_SIZE, spec, from, true);
    if !ok {
      return;
    }
    ghost var name := ne[..NAME_SIZE];
    assert ne[0..NAME_SIZE] == name;
    if next < |spec| && spec[next] == DOT {
      ok, next := ScanField(ne, NAME_SIZE, NAME_SIZE + EXTENSION_SIZE, spec, next + 1, false);
      if !ok {
        return;
      }
    } else {
      PadField(ne, NAME_SIZE, NAME_SIZE + EXTENSION_SIZE);
    }
    assert ne[..] == ne[..NAME_SIZE] + ne[NAME_SIZE..NAME_SIZE + EXTENSION_SIZE];
  }

  lemma NoField(width: nat)
    ensures AllAllowed([]) && Field([], width) == seq(width, _ => SPACE)
  {
  }

  /** Characters and padding make a field. */
  lemma FieldFilled(f: seq<nat>, s: seq<nat>, i: nat, width: nat)
    requires |f| == width && i <= width && i <= |s| && (i == width || i == |s|)
    requires f[..i] == Upper(s[..i]) && f[i..] == seq(width - i, _ => SPACE)
    ensures f == Field(s, width)
  {
    assert f == f[..i] + f[i..];
    if i == |s| {
      assert s[..i] == s;
    }
  }

  // ----- name_extension_to_spec -----

  /** A field up to its first space. */
  function Trimmed(f: seq<nat>): (t: seq<nat>)
    ensures |t| <= |f|
  {
    if f == [] || f[0] == SPACE then [] else [f[0]] + Trimmed(f[1..])
  }

  function Printed(ne: seq<nat>): (s: seq<nat>)
    requires |ne| == NAME_SIZE + EXTENSION_SIZE
    ensures |s| <= 12
  {
    Trimmed(ne[..NAME_SIZE]) + if ne[NAME_SIZE] != SPACE then [DOT] + Trimmed(ne[NAME_SIZE..]) else []
  }

  lemma TrimStep(ne: seq<nat>, i: nat, limit: nat, copied: seq<nat>)
    requires i <= limit <= |ne|
    ensures i < limit && ne[i] != SPACE ==>
      copied + Trimmed(ne[i..limit]) == (copied + [ne[i]]) + Trimmed(ne[i + 1..limit])
    ensures i == limit || ne[i] == SPACE ==> copied + Trimmed(ne[i..limit]) == copied
  {
    if i < limit && ne[i] != SPACE {
      assert ne[i..limit][1..] == ne[i + 1..limit];
    }
  }

  /** The next byte of a field. */
  method PutNext(spec: array<nat>, at: nat, n: nat, c: nat)
    requires at <= n < spec.Length
    modifies spec
    ensures spec[..at] == old(spec[..at]) && spec[at..n + 1] == old(spec[at..n]) + [c]
  {
    spec[n] := c;
  }

  /** Copy a field up to its first space. */
  method CopyField(spec: array<nat>, at: nat, ne: seq<nat>, from: nat, limit: nat) returns (n: nat)
    requires from <= limit <= |ne| && at + (limit - from) <= spec.Length
    modifies spec
    ensures at <= n <= at + (limit - from) && spec[..at] == old(spec[..at]) && spec[at..n] == Trimmed(ne[from..limit])
  {
    hide Trimmed;
    n := at;
    var i := from;
    ghost var copied: seq<nat> := [];
    assert copied + Trimmed(ne[i..limit]) == Trimmed(ne[i..limit]);
    while i < limit && ne[i] != SPACE
      invariant from <= i <= limit && n == at + (i - from)
      invariant spec[..at] == old(spec[..at]) && spec[at..n] == copied
      invariant copied + Trimmed(ne[i..limit]) == Trimmed(ne[from..limit])
    {
      TrimStep(ne, i, limit, copied);
      PutNext(spec, at, n, ne[i]);
      copied := copied + [ne[i]];
      n := n + 1;
      i := i + 1;
    }
    TrimStep(ne, i, limit, copied);
  }

  /** name_extension_to_spec: at most 13 bytes with the terminating zero. */
  method NameExtensionToSpec(spec: array<nat>, ne: seq<nat>) returns (n: nat)
    requires |ne| == NAME_SIZE + EXTENSION_SIZE && spec.Length >= 13
    modifies spec
    ensures n + 1 <= 13 && spec[..n] == Printed(ne) && spec[n] == 0
  {
    hide Trimmed;
    n := CopyField(spec, 0, ne, 0, NAME_SIZE);
    assert spec[..n] == spec[0..n] && ne[0..NAME_SIZE] == ne[..NAME_SIZE];
    if ne[NAME_SIZE] != SPACE {
      n := PrintExtension(spec, n, ne);
    }
    ghost var all := spec[..n];
    spec[n] := 0;
    assert spec[..n] == all;
  }

  /** The dot and the extension, behind the name. */
  method PrintExtension(spec: array<nat>, at: nat, ne: seq<nat>) returns (n: nat)
    requires |ne| == NAME_SIZE + EXTENSION_SIZE && at <= NAME_SIZE && spec.Length >= 13
    modifies spec
    ensures n + 1 <= 13 && spec[..n] == old(spec[..at]) + [DOT] + Trimmed(ne[NAME_SIZE..])
  {
    hide Trimmed;
    PutNext(spec, 0, at, DOT);
    assert spec[0..at + 1] == spec[..at + 1];
    ghost var front := spec[..at + 1];
    n := CopyField(spec, at + 1, ne, NAME_SIZE, NAME_SIZE + EXTENSION_SIZE);
    assert ne[NAME_SIZE..NAME_SIZE + EXTENSION_SIZE] == ne[NAME_SIZE..];
    assert spec[..n] == front + spec[at + 1..n];
  }

  // ----- Round trip -----

  /** A capital or another character of a stored name. */
  predicate StoredCharacter(c: nat)
  {
    c < 256 && Allowed(c) && ToUpper(c) == c && c != SPACE && c != DOT && c != SLASH && 0 < c < 0x80
  }

  predicate Stored(u: seq<nat>)
  {
    forall i :: 0 <= i < |u| ==> StoredCharacter(u[i])
  }

  lemma UpperStored(s: seq<nat>)
    requires AllAllowed(s)
    ensures Stored(Upper(s))
  {
    hide Allowed, ToUpper;
    forall i | 0 <= i < |s|
      ensures StoredCharacter(Upper(s)[i])
    {
      AllowedUpper(s[i]);
    }
  }

  lemma StoredUpper(u: seq<nat>)
    requires Stored(u)
    ensures Upper(u) == u && AllAllowed(u)
  {
    hide Allowed, ToUpper;
  }

  /** A part as a field keeps it. */
  function Kept(s: seq<nat>, width: nat): seq<nat>
  {
    Upper(if |s| >= width then s[..width] else s)
  }

  lemma KeptField(s: seq<nat>, width: nat)
    requires AllAllowed(s)
    ensures Stored(Kept(s, width)) && |Kept(s, width)| <= width
    ensures Field(s, width) == Kept(s, width) + seq(width - |Kept(s, width)|, _ => SPACE)
    ensures Field(Kept(s, width), width) == Field(s, width)
  {
    hide Allowed, ToUpper;
    UpperStored(if |s| >= width then s[..width] else s);
    var u := Kept(s, width);
    StoredUpper(u);
    assert u[..|u|] == u;
  }

  lemma {:induction false} TrimPadded(u: seq<nat>, n: nat)
    requires Stored(u)
    ensures Trimmed(u + seq(n, _ => SPACE)) == u
  {
    hide Allowed, ToUpper;
    var f := u + seq(n, _ => SPACE);
    if u != [] {
      TrimPadded(u[1..], n);
      assert f[1..] == u[1..] + seq(n, _ => SPACE);
    }
  }

  /** What is printed for the parts of an accepted name. */
  lemma PrintedParts(s: seq<nat>, i: nat)
    requires i <= |s| && Accepted(s, i)
    ensures var u, x := Kept(NamePart(s, i), NAME_SIZE), Kept(ExtensionPart(s, i), EXTENSION_SIZE);
      && u != [] && Stored(u) && Stored(x)
      && Printed(NameExtension(s, i)) == u + if x != [] then [DOT] + x else []
  {
    hide Allowed, ToUpper, Upper, Field, Trimmed;
    var name, ext := NamePart(s, i), ExtensionPart(s, i);
    var u, x := Kept(name, NAME_SIZE), Kept(ext, EXTENSION_SIZE);
    KeptField(name, NAME_SIZE);
    KeptField(ext, EXTENSION_SIZE);
    TrimPadded(u, NAME_SIZE - |u|);
    TrimPadded(x, EXTENSION_SIZE - |x|);
    var ne := NameExtension(s, i);
    assert ne[..NAME_SIZE] == Field(name, NAME_SIZE) && ne[NAME_SIZE..] == Field(ext, EXTENSION_SIZE);
    assert ne[NAME_SIZE] == ne[NAME_SIZE..][0];
  }

  /** Parsing a printed name gives back its parts. */
  lemma PartsOfPrinted(u: seq<nat>, x: seq<nat>, p: seq<nat>)
    requires Stored(u) && Stored(x) && p == u + if x != [] then [DOT] + x else []
    ensures NamePart(p, 0) == u && ExtensionPart(p, 0) == x && ComponentEnd(p, 0) == |p|
  {
    hide Allowed, ToUpper;
    PartEndIs(p, 0, true, |u|);
    if x != [] {
      forall k | |u| + 1 <= k < |p|
        ensures p[k] != SLASH
      {
        assert p[k] == x[k - |u| - 1];
      }
      PartEndIs(p, |u| + 1, false, |p|);
    }
  }

  /** Every accepted component prints in at most 13 bytes, terminator included,
      and parses back to the same 11 bytes; they never begin with the deleted or
      the end-of-directory mark. */
  lemma NameRoundTrip(s: seq<nat>, i: nat)
    requires i <= |s| && Accepted(s, i)
    ensures var ne := NameExtension(s, i); var p := Printed(ne);
      && |p| + 1 <= 13 && Accepted(p, 0) && NameExtension(p, 0) == ne && ComponentEnd(p, 0) == |p|
      && ne[0] != DELETED_FILE && ne[0] != END_DIRECTORY
  {
    hide Allowed, ToUpper, Field, Upper, Printed, PartEnd, NamePart, ExtensionPart, ComponentEnd;
    var name, ext := NamePart(s, i), ExtensionPart(s, i);
    var u, x := Kept(name, NAME_SIZE), Kept(ext, EXTENSION_SIZE);
    PrintedParts(s, i);
    PartsOfPrinted(u, x, Printed(NameExtension(s, i)));
    StoredUpper(u);
    StoredUpper(x);
    KeptField(name, NAME_SIZE);
    KeptField(ext, EXTENSION_SIZE);
  }

  /** An accepted component's 11 bytes, and what is printed for them, are plain
      characters. */
  lemma PlainName(s: seq<nat>, i: nat)
    requires i <= |s| && Accepted(s, i)
    ensures forall k :: 0 <= k < |NameExtension(s, i)| ==> NameExtension(s, i)[k] < 256
    ensures forall k :: 0 <= k < |Printed(NameExtension(s, i))| ==> Printed(NameExtension(s, i))[k] < 256
    ensures Printed(NameExtension(s, i)) != [] && Printed(NameExtension(s, i))[0] != DOT
  {
    hide Allowed, ToUpper, Field, Upper, Printed, PartEnd, NamePart, ExtensionPart, Kept;
    PrintedParts(s, i);
    KeptField(NamePart(s, i), NAME_SIZE);
    KeptField(ExtensionPart(s, i), EXTENSION_SIZE);
  }
}
