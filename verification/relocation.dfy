/**
 Relocation of a loaded shared library: offsets of the file are translated to the addresses
 the segments were mapped at, and the words the relocation entries name are patched in place.
 The computed values are those of R_386_32 and R_386_PC32 in the System V ABI, Intel386
 Architecture Processor Supplement, chapter 4, section Relocation, with the addends 0 and -4.
 */
module Relocations {
  import opened Words

  /** Where `size` bytes of the file, from offset `start` on, were mapped. */
  datatype Segment = Segment(start: u32, size: u32, virtStart: u32)

  datatype Rel = Rel(offset: u32, info: u32) {
    function Kind(): nat { info % 256 }
    function Idx(): nat { info / 256 }
  }

  const R_386_32: nat := 1
  const R_386_PC32: nat := 2

  // ---------- Address translation ----------

  predicate Holds(s: Segment, offset: u32) {
    offset >= s.start && Wrap(s.start + s.size) > offset
  }

  /** The first segment that holds the offset decides; 0 when none does. */
  function RealAddress(segs: seq<Segment>, offset: u32): u32 {
    if segs == [] then 0
    else if Holds(segs[0], offset) then Wrap(segs[0].virtStart + offset - segs[0].start)
    else RealAddress(segs[1..], offset)
  }

  method FindRealAddress(segs: seq<Segment>, offset: u32) returns (address: u32)
    ensures address == RealAddress(segs, offset)
  {
    for i := 0 to |segs|
      invariant RealAddress(segs, offset) == RealAddress(segs[i..], offset)
    {
      var phdr := segs[i];
      if offset >= phdr.start && Wrap(phdr.start + phdr.size) > offset {
        return Wrap(phdr.virtStart + offset - phdr.start);
      }
    }
    return 0;
  }

  /** Segments that end before the address space does and overlap neither in the file nor in memory. */
  ghost predicate Layout(segs: seq<Segment>) {
    && (forall s | s in segs :: s.start + s.size < TWO32 && 0 < s.virtStart && s.virtStart + s.size < TWO32)
    && (forall i, j | 0 <= i < j < |segs| :: Apart(segs[i], segs[j]))
  }

  ghost predicate Apart(s: Segment, t: Segment) {
    && (s.start + s.size <= t.start || t.start + t.size <= s.start)
    && (s.virtStart + s.size <= t.virtStart || t.virtStart + t.size <= s.virtStart)
  }

  /** The four bytes at `offset` lie inside segment `k`. */
  ghost predicate WordIn(segs: seq<Segment>, k: nat, offset: u32) {
    k < |segs| && segs[k].start <= offset && offset + 4 <= segs[k].start + segs[k].size
  }

  /** With a proper layout, translation is a shift by the one segment that holds the offset. */
  lemma {:induction false} TranslatesBy(segs: seq<Segment>, k: nat, offset: u32)
    requires Layout(segs) && k < |segs| && segs[k].start <= offset < segs[k].start + segs[k].size
    ensures RealAddress(segs, offset) == segs[k].virtStart + offset - segs[k].start > 0
  {
    assert segs[k] in segs;
    if k > 0 {
      assert Apart(segs[0], segs[k]) && segs[0] in segs;
      LayoutTail(segs);
      TranslatesBy(segs[1..], k - 1, offset);
    }
  }

  lemma LayoutTail(segs: seq<Segment>)
    requires Layout(segs) && segs != []
    ensures Layout(segs[1..])
  {
    forall i, j | 0 <= i < j < |segs[1..]| ensures Apart(segs[1..][i], segs[1..][j]) {
      assert Apart(segs[i + 1], segs[j + 1]);
    }
  }

  /** An offset of no segment translates to the null address. */
  lemma {:induction false} TranslatesToNull(segs: seq<Segment>, offset: u32)
    requires forall s | s in segs :: !Holds(s, offset)
    ensures RealAddress(segs, offset) == 0
  {
    if segs != [] {
      assert segs[0] in segs;
      TranslatesToNull(segs[1..], offset);
    }
  }

  ghost predicate Disjoint4(a: int, b: int) { a + 4 <= b || b + 4 <= a }

  /** Words that do not overlap in the file do not overlap in memory. */
  lemma KeepsApart(segs: seq<Segment>, k: nat, o: u32, k': nat, o': u32)
    requires Layout(segs) && WordIn(segs, k, o) && WordIn(segs, k', o') && Disjoint4(o, o')
    ensures Disjoint4(RealAddress(segs, o), RealAddress(segs, o'))
  {
    TranslatesBy(segs, k, o);
    TranslatesBy(segs, k', o');
    if k < k' { assert Apart(segs[k], segs[k']); }
    if k' < k { assert Apart(segs[k'], segs[k]); }
  }

  // ---------- Little-endian words in memory ----------

  /** What every address holds. */
  type Memory = int -> byte

  function Load32(m: Memory, p: int): int {
    var b0: int, b1: int, b2: int, b3: int := m(p), m(p + 1), m(p + 2), m(p + 3);
    b0 + 0x100 * b1 + 0x1_0000 * b2 + 0x100_0000 * b3
  }

  function ByteOf(w: u32, i: int): byte {
    var a: int := w / 0x100;
    var b := a / 0x100;
    if i == 0 then w % 0x100 else if i == 1 then a % 0x100 else if i == 2 then b % 0x100 else b / 0x100
  }

  function Store32(m: Memory, p: int, w: u32): Memory {
    a => if p <= a < p + 4 then ByteOf(w, a - p) else m(a)
  }

  lemma LoadStored(m: Memory, p: int, w: u32)
    ensures Load32(Store32(m, p, w), p) == w
  {
    BytesOfWord(w);
  }

  lemma BytesOfWord(w: u32)
    ensures var b0: int, b1: int, b2: int, b3: int := ByteOf(w, 0), ByteOf(w, 1), ByteOf(w, 2), ByteOf(w, 3);
            b0 + 0x100 * b1 + 0x1_0000 * b2 + 0x100_0000 * b3 == w
  {
  }

  lemma LoadElsewhere(m: Memory, p: int, w: u32, q: int)
    requires Disjoint4(p, q)
    ensures Load32(Store32(m, p, w), q) == Load32(m, q)
  {
  }

  // ---------- Relocating ----------

  datatype Patch = Patch(address: u32, word: u32)

  /** The patch an entry asks for; none when its kind is unknown or its target is unmapped. */
  function PatchOf(segs: seq<Segment>, symtab: seq<u32>, r: Rel): Option<Patch>
    requires r.Idx() < |symtab|
  {
    var dest := RealAddress(segs, r.offset);
    var value := RealAddress(segs, symtab[r.Idx()]);
    if (r.Kind() != R_386_32 && r.Kind() != R_386_PC32) || dest == 0 then None
    else if r.Kind() == R_386_32 then Some(Patch(dest, value))
    else Some(Patch(dest, Wrap(value as int - dest - 4)))
  }

  ghost predicate Indexed(symtab: seq<u32>, rels: seq<Rel>) {
    forall i | 0 <= i < |rels| :: rels[i].Idx() < |symtab|
  }

  ghost function Patches(segs: seq<Segment>, symtab: seq<u32>, rels: seq<Rel>): (ps: seq<Option<Patch>>)
    requires Indexed(symtab, rels)
    ensures |ps| == |rels|
  {
    seq(|rels|, i requires 0 <= i < |rels| => PatchOf(segs, symtab, rels[i]))
  }

  /** The first `n` entries can all be applied. */
  ghost predicate AllGood(ps: seq<Option<Patch>>, n: nat)
    requires n <= |ps|
  {
    forall i | 0 <= i < n :: ps[i].Some?
  }

  /** Memory after `n` entries in order; the first that cannot be applied is the end of it. */
  ghost function Applied(m: Memory, ps: seq<Option<Patch>>, n: nat): Memory
    requires n <= |ps|
  {
    if n == 0 then m
    else if AllGood(ps, n) then Store32(Applied(m, ps, n - 1), ps[n - 1].value.address, ps[n - 1].value.word)
    else Applied(m, ps, n - 1)
  }

  /** Once an entry could not be applied, memory stays as it was then. */
  lemma {:induction false} AppliedStuck(m: Memory, ps: seq<Option<Patch>>, k: nat, n: nat)
    requires k <= n <= |ps| && !AllGood(ps, k)
    ensures Applied(m, ps, n) == Applied(m, ps, k)
  {
    if k < n { AppliedStuck(m, ps, k, n - 1); }
  }

  lemma {:induction false} AppliedElsewhere(m: Memory, ps: seq<Option<Patch>>, n: nat, a: int)
    requires n <= |ps|
    requires forall i | 0 <= i < n && ps[i].Some? :: !(ps[i].value.address <= a < ps[i].value.address + 4)
    ensures Applied(m, ps, n)(a) == m(a)
  {
    if n > 0 { AppliedElsewhere(m, ps, n - 1, a); }
  }

  /** Patches that do not overlap all survive. */
  lemma {:induction false} AppliedHolds(m: Memory, ps: seq<Option<Patch>>, n: nat, i: nat)
    requires i < n <= |ps| && AllGood(ps, n)
    requires forall j, k | 0 <= j < k < |ps| && ps[j].Some? && ps[k].Some? ::
               Disjoint4(ps[j].value.address, ps[k].value.address)
    ensures Load32(Applied(m, ps, n), ps[i].value.address) == ps[i].value.word
  {
    var m1, last := Applied(m, ps, n - 1), ps[n - 1].value;
    if i == n - 1 {
      LoadStored(m1, last.address, last.word);
    } else {
      AppliedHolds(m, ps, n - 1, i);
      assert Disjoint4(ps[i].value.address, last.address);
      LoadElsewhere(m1, last.address, last.word, ps[i].value.address);
    }
  }

  /** Memory after relocation. */
  ghost function Relocated(m: Memory, segs: seq<Segment>, symtab: seq<u32>, rels: seq<Rel>): Memory
    requires Indexed(symtab, rels)
  {
    Applied(m, Patches(segs, symtab, rels), |rels|)
  }

  /** The entries that can be applied: of a known kind, with a target in some segment. */
  ghost predicate Applicable(segs: seq<Segment>, r: Rel) {
    && (r.Kind() == R_386_32 || r.Kind() == R_386_PC32)
    && RealAddress(segs, r.offset) != 0
  }

  lemma GoodWhenApplicable(segs: seq<Segment>, symtab: seq<u32>, rels: seq<Rel>)
    requires Indexed(symtab, rels)
    ensures AllGood(Patches(segs, symtab, rels), |rels|) <==> forall i | 0 <= i < |rels| :: Applicable(segs, rels[i])
  {
    var ps := Patches(segs, symtab, rels);
    assert forall i | 0 <= i < |rels| :: ps[i].Some? <==> Applicable(segs, rels[i]);
  }

  /** Bytes outside all target words keep their values, whether relocation succeeds or not. */
  lemma OtherBytesKept(m: Memory, segs: seq<Segment>, symtab: seq<u32>, rels: seq<Rel>, a: int)
    requires Indexed(symtab, rels)
    requires forall i | 0 <= i < |rels| && Applicable(segs, rels[i]) ::
               !(RealAddress(segs, rels[i].offset) <= a < RealAddress(segs, rels[i].offset) + 4)
    ensures Relocated(m, segs, symtab, rels)(a) == m(a)
  {
    var ps := Patches(segs, symtab, rels);
    assert forall i | 0 <= i < |rels| && ps[i].Some? ::
        Applicable(segs, rels[i]) && ps[i].value.address == RealAddress(segs, rels[i].offset);
    AppliedElsewhere(m, ps, |rels|, a);
  }

  /** Every entry's word lies in a segment (`home` says which), and no two words overlap. */
  ghost predicate Targets(segs: seq<Segment>, rels: seq<Rel>, home: seq<nat>) {
    && |home| == |rels|
    && (forall i | 0 <= i < |rels| :: WordIn(segs, home[i], rels[i].offset))
    && (forall i, j | 0 <= i < j < |rels| :: Disjoint4(rels[i].offset, rels[j].offset))
  }

  lemma PatchesApart(segs: seq<Segment>, symtab: seq<u32>, rels: seq<Rel>, home: seq<nat>, j: nat, k: nat)
    requires Layout(segs) && Indexed(symtab, rels) && Targets(segs, rels, home) && j < k < |rels|
    requires PatchOf(segs, symtab, rels[j]).Some? && PatchOf(segs, symtab, rels[k]).Some?
    ensures Disjoint4(PatchOf(segs, symtab, rels[j]).value.address, PatchOf(segs, symtab, rels[k]).value.address)
  {
    KeepsApart(segs, home[j], rels[j].offset, home[k], rels[k].offset);
  }

  /** The word an entry computes leads where the ABI says. */
  ghost predicate Leads(kind: nat, p: int, word: int, s: int) {
    if kind == R_386_32 then word == s else kind == R_386_PC32 && Wrap(p + 4 + word) == s
  }

  lemma PcRelative(p: u32, s: u32)
    ensures Wrap(p as int + 4 + Wrap(s as int - p - 4)) == s
  {
  }

  lemma PatchFrom(kind: nat, p: u32, s: u32)
    requires kind == R_386_32 || kind == R_386_PC32
    ensures Leads(kind, p, if kind == R_386_32 then s else Wrap(s as int - p - 4), s)
  {
    PcRelative(p, s);
  }

  lemma PatchLeads(segs: seq<Segment>, symtab: seq<u32>, r: Rel)
    requires r.Idx() < |symtab| && PatchOf(segs, symtab, r).Some?
    ensures var patch := PatchOf(segs, symtab, r).value;
            patch.address == RealAddress(segs, r.offset)
            && Leads(r.Kind(), patch.address, patch.word, RealAddress(segs, symtab[r.Idx()]))
  {
    var p, s := RealAddress(segs, r.offset), RealAddress(segs, symtab[r.Idx()]);
    PatchFrom(r.Kind(), p, s);
  }

  /**
   After a successful relocation every R_386_32 word is its symbol's address, and every
   R_386_PC32 word leads from the end of the word to it.
   */
  lemma RelocationMeaning(m: Memory, segs: seq<Segment>, symtab: seq<u32>, rels: seq<Rel>, home: seq<nat>, i: nat)
    requires Layout(segs) && Indexed(symtab, rels) && Targets(segs, rels, home) && i < |rels|
    requires forall j | 0 <= j < |rels| :: Applicable(segs, rels[j])
    ensures var m' := Relocated(m, segs, symtab, rels);
            var p := RealAddress(segs, rels[i].offset);
            Leads(rels[i].Kind(), p, Load32(m', p), RealAddress(segs, symtab[rels[i].Idx()]))
  {
    var ps := Patches(segs, symtab, rels);
    GoodWhenApplicable(segs, symtab, rels);
    forall j, k | 0 <= j < k < |ps| && ps[j].Some? && ps[k].Some?
      ensures Disjoint4(ps[j].value.address, ps[k].value.address)
    {
      PatchesApart(segs, symtab, rels, home, j, k);
    }
    AppliedHolds(m, ps, |rels|, i);
    PatchLeads(segs, symtab, rels[i]);
  }

  // ---------- Entries as the linker writes them ----------

  /** The word of `info` takes the kind in its low byte and the symbol's index above it. */
  lemma FieldsOf(offset: u32, symbol: nat, kind: nat)
    requires kind < 256 && symbol < 0x100_0000
    ensures Rel(offset, 256 * symbol + kind).Kind() == kind && Rel(offset, 256 * symbol + kind).Idx() == symbol
  {
  }

  /** An entry for a symbol: its address (R_386_32), or the way to it from behind the word (R_386_PC32). */
  datatype Entry = Absolute(offset: u32, symbol: nat) | Relative(offset: u32, symbol: nat)

  ghost predicate Writes(e: Entry, r: Rel) {
    && e.symbol < 0x100_0000 && r.offset == e.offset
    && r.info == 256 * e.symbol + if e.Absolute? then 1 else 2
  }

  /** The entries name words of the mapped segments that do not overlap, and symbols of the table. */
  ghost predicate Linked(segs: seq<Segment>, symtab: seq<u32>, es: seq<Entry>, rels: seq<Rel>, home: seq<nat>) {
    && |home| == |es| == |rels|
    && (forall i | 0 <= i < |es| :: Writes(es[i], rels[i]) && es[i].symbol < |symtab| && WordIn(segs, home[i], es[i].offset))
    && (forall i, j | 0 <= i < j < |es| :: Disjoint4(es[i].offset, es[j].offset))
  }

  lemma LinkedIsApplicable(segs: seq<Segment>, symtab: seq<u32>, es: seq<Entry>, rels: seq<Rel>, home: seq<nat>, i: nat)
    requires Layout(segs) && Linked(segs, symtab, es, rels, home) && i < |es|
    ensures rels[i].Idx() == es[i].symbol && rels[i].Kind() == (if es[i].Absolute? then 1 else 2)
    ensures Applicable(segs, rels[i])
  {
    assert Writes(es[i], rels[i]);
    FieldsOf(es[i].offset, es[i].symbol, if es[i].Absolute? then 1 else 2);
    TranslatesBy(segs, home[i], es[i].offset);
  }

  /** Relocating what the linker wrote succeeds. */
  lemma LinkedSucceeds(segs: seq<Segment>, symtab: seq<u32>, es: seq<Entry>, rels: seq<Rel>, home: seq<nat>)
    requires Layout(segs) && Linked(segs, symtab, es, rels, home)
    ensures Indexed(symtab, rels) && Targets(segs, rels, home)
    ensures forall j | 0 <= j < |rels| :: Applicable(segs, rels[j])
  {
    forall j | 0 <= j < |rels|
      ensures Applicable(segs, rels[j]) && rels[j].Idx() < |symtab| && rels[j].offset == es[j].offset
    {
      LinkedIsApplicable(segs, symtab, es, rels, home, j);
      assert Writes(es[j], rels[j]);
    }
  }

  /** An absolute word then is the address of its own symbol, and a relative one is the way to it. */
  lemma LinkedMeaning(m: Memory, segs: seq<Segment>, symtab: seq<u32>, es: seq<Entry>, rels: seq<Rel>, home: seq<nat>, i: nat)
    requires Layout(segs) && Linked(segs, symtab, es, rels, home) && i < |es|
    ensures Indexed(symtab, rels)
    ensures var p := RealAddress(segs, es[i].offset);
            var word, target := Load32(Relocated(m, segs, symtab, rels), p), RealAddress(segs, symtab[es[i].symbol]);
            if es[i].Absolute? then word == target else Wrap(p + 4 + word) == target
  {
    LinkedSucceeds(segs, symtab, es, rels, home);
    LinkedIsApplicable(segs, symtab, es, rels, home, i);
    RelocationMeaning(m, segs, symtab, rels, home, i);
    assert Writes(es[i], rels[i]);
  }

  // ---------- Symbols that lie nowhere ----------

  /** The offset lies in a segment. */
  ghost predicate Mapped(segs: seq<Segment>, offset: u32) {
    exists k: nat :: k < |segs| && segs[k].start <= offset < segs[k].start + segs[k].size
  }

  lemma MappedIsNonNull(segs: seq<Segment>, offset: u32)
    requires Layout(segs)
    ensures RealAddress(segs, offset) != 0 <==> Mapped(segs, offset)
  {
    if Mapped(segs, offset) {
      var k: nat :| k < |segs| && segs[k].start <= offset < segs[k].start + segs[k].size;
      TranslatesBy(segs, k, offset);
    } else {
      forall s | s in segs ensures !Holds(s, offset) {
        var k: nat :| k < |segs| && segs[k] == s;
        assert s.start + s.size < TWO32;
      }
      TranslatesToNull(segs, offset);
    }
  }

  /** Success does not depend on the symbols: only targets and kinds decide. */
  lemma SymbolsDoNotDecide(segs: seq<Segment>, symtab: seq<u32>, other: seq<u32>, rels: seq<Rel>)
    requires Indexed(symtab, rels) && Indexed(other, rels)
    ensures AllGood(Patches(segs, symtab, rels), |rels|) <==> AllGood(Patches(segs, other, rels), |rels|)
  {
    GoodWhenApplicable(segs, symtab, rels);
    GoodWhenApplicable(segs, other, rels);
  }

  lemma LeadsToOne(kind: nat, p: int, word: int, s: int)
    requires Leads(kind, p, word, s)
    ensures Leads(kind, p, word, 0) <==> s == 0
  {
  }

  /** So a word that was relocated leads to a non-null address exactly when its symbol lies in a segment. */
  lemma NullSymbols(m: Memory, segs: seq<Segment>, symtab: seq<u32>, rels: seq<Rel>, home: seq<nat>, i: nat)
    requires Layout(segs) && Indexed(symtab, rels) && Targets(segs, rels, home) && i < |rels|
    requires forall j | 0 <= j < |rels| :: Applicable(segs, rels[j])
    ensures var p := RealAddress(segs, rels[i].offset);
            var word := Load32(Relocated(m, segs, symtab, rels), p);
            Leads(rels[i].Kind(), p, word, 0) <==> !Mapped(segs, symtab[rels[i].Idx()])
  {
    RelocationMeaning(m, segs, symtab, rels, home, i);
    var p, s := RealAddress(segs, rels[i].offset), RealAddress(segs, symtab[rels[i].Idx()]);
    LeadsToOne(rels[i].Kind(), p, Load32(Relocated(m, segs, symtab, rels), p), s);
    MappedIsNonNull(segs, symtab[rels[i].Idx()]);
  }

  /** A symbol at 0x5000 of a library that is mapped up to 0x1FFF: relocation succeeds and writes null. */
  lemma NullSymbolAccepted(m: Memory)
    ensures var segs, symtab, rels := [Segment(0x1000, 0x1000, 0x8000)], [0x5000], [Rel(0x1000, R_386_32)];
            && Layout(segs) && Indexed(symtab, rels) && !Mapped(segs, symtab[0])
            && AllGood(Patches(segs, symtab, rels), 1) && Load32(Relocated(m, segs, symtab, rels), 0x8000) == 0
  {
    var segs, symtab, rels := [Segment(0x1000, 0x1000, 0x8000)], [0x5000], [Rel(0x1000, R_386_32)];
    assert rels[0].Kind() == R_386_32 && rels[0].Idx() == 0;
    assert RealAddress(segs, 0x1000) == 0x8000;
    assert segs[1..] == [] && RealAddress(segs, 0x5000) == 0;
    var ps := Patches(segs, symtab, rels);
    assert ps[0] == Some(Patch(0x8000, 0));
    assert Applied(m, ps, 0) == m;
    LoadStored(m, 0x8000, 0);
  }

  class Process {
    var memory: Memory

    /** One entry, as `do_perform_relocation`; the symbol table is as long as the entries need. */
    method PerformRelocation(segs: seq<Segment>, symtab: seq<u32>, r: Rel) returns (ok: bool)
      requires r.Idx() < |symtab|
      modifies this
      ensures match PatchOf(segs, symtab, r)
              case None => !ok && memory == old(memory)
              case Some(p) => ok && memory == Store32(old(memory), p.address, p.word)
    {
      var symbol := symtab[r.Idx()];
      if r.Kind() == R_386_32 {
        var dest := FindRealAddress(segs, r.offset);
        var value := FindRealAddress(segs, symbol);
        if dest == 0 { return false; }
        memory := Store32(memory, dest, value);
      } else if r.Kind() == R_386_PC32 {
        var dest := FindRealAddress(segs, r.offset);
        var value := FindRealAddress(segs, symbol);
        if dest == 0 { return false; }
        memory := Store32(memory, dest, Wrap(value as int - dest - 4));
      } else {
        return false;
      }
      return true;
    }

    method PerformRelocations(segs: seq<Segment>, symtab: seq<u32>, rels: seq<Rel>) returns (ok: bool)
      requires Indexed(symtab, rels)
      modifies this
      ensures memory == Relocated(old(memory), segs, symtab, rels)
      ensures ok <==> forall i | 0 <= i < |rels| :: Applicable(segs, rels[i])
    {
      ghost var ps := Patches(segs, symtab, rels);
      GoodWhenApplicable(segs, symtab, rels);
      for i := 0 to |rels|
        invariant memory == Applied(old(memory), ps, i) && AllGood(ps, i)
      {
        ok := PerformRelocation(segs, symtab, rels[i]);
        if !ok {
          assert ps[i] == None;
          AppliedStuck(old(memory), ps, i + 1, |rels|);
          return false;
        }
      }
      return true;
    }
  }
}
