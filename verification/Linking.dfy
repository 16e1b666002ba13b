/** What so_relocate followed by so_resolve computes (src/main.c:100-101): one map from records to
    stored values, whatever their order and however often the passes run. */
module Linking {
  import opened Prelude
  import opened LinkTables
  import opened Relocation

  predicate IsDefined(r: Rec) { IsImportKind(r.kind) && r.sym.shndx != SHN_UNDEF }

  /** The number a record leaves in its target. */
  function Word(m: Module, env: Env, r: Rec): int {
    if r.kind == R_RELATIVE then m.base + r.addend
    else if IsDefined(r) then m.base + r.sym.value + r.addend
    else if IsImportKind(r.kind) then ImportWord(env, r)
    else if r.kind == R_DTPMOD64 then 1
    else if r.kind == R_DTPOFF64 then r.sym.value + r.addend
    else TpOff(m, r)
  }

  function FinalValue(m: Module, env: Env, r: Rec): (b: seq<byte>)
    ensures |b| == if Width(r) == 4 then 4 else 8
  {
    if Width(r) == 4 then Bytes4(Word(m, env, r)) else Bytes8(Word(m, env, r))
  }

  /** Both passes over a list of records. */
  function TwicePassed(m: Module, env: Env, recs: seq<Rec>, img: seq<byte>): (out: seq<byte>)
    ensures |out| == |img|
  {
    Applied(m, Second(env), recs, |recs|, Applied(m, First, recs, |recs|, img))
  }

  /** The image after both passes. */
  ghost function Linked(m: Module, env: Env, img: seq<byte>): (out: seq<byte>)
    requires Linkable(m, img)
    ensures |out| == |img|
  {
    TwicePassed(m, env, Recs(m, img), img)
  }

  /** The linking steps of load_module. */
  method Link(m: Module, mem: array<byte>, env: Env)
    requires Linkable(m, mem[..])
    modifies mem
    ensures old(Linkable(m, mem[..])) && mem[..] == Linked(m, env, old(mem[..]))
  {
    ghost var was := mem[..];
    AppliedReads(m, First, |Recs(m, was)|, was);
    LinkableOutcome(m, First, was);
    hide Decodable, AllClear, Recs, Applied, Outcome;
    Relocate(m, mem);
    LinkableOutcome(m, Second(env), mem[..]);
    Resolve(m, mem, env);
  }

  predicate Apart(r: Rec, q: Rec) { r.offset + Width(r) <= q.offset || q.offset + Width(q) <= r.offset }

  ghost predicate DisjointTargets(recs: seq<Rec>) {
    forall a, b | 0 <= a < b < |recs| && Width(recs[a]) > 0 && Width(recs[b]) > 0 :: Apart(recs[a], recs[b])
  }

  /** out holds every record's final value at its target, and img everywhere else. */
  ghost predicate IsLinkOf(m: Module, env: Env, recs: seq<Rec>, img: seq<byte>, out: seq<byte>) {
    && |out| == |img|
    && (forall r, k | r in recs && 0 <= k < |out| && Targets(r, k) :: out[k] == FinalValue(m, env, r)[k - r.offset])
    && (forall k | 0 <= k < |out| && Untouched(recs, k) :: out[k] == img[k])
  }

  ghost predicate Untouched(recs: seq<Rec>, k: int) { forall r | r in recs :: !Targets(r, k) }

  /** With disjoint targets a pass stores its own value for each record it acts on. */
  lemma {:induction false} AppliedStores(m: Module, p: Pass, recs: seq<Rec>, n: nat, img: seq<byte>, a: nat, k: nat)
    requires a < n <= |recs| && DisjointTargets(recs) && Targets(recs[a], k) && k < |img|
    ensures Stored(m, p, recs[a]).Some? ==> k - recs[a].offset < |Stored(m, p, recs[a]).value|
    ensures Applied(m, p, recs, n, img)[k] ==
            if Stored(m, p, recs[a]).Some? then Stored(m, p, recs[a]).value[k - recs[a].offset] else img[k]
  {
    StoredWidth(m, p, recs[n - 1]);
    StoredWidth(m, p, recs[a]);
    hide Stored;
    if a == n - 1 {
      forall b | 0 <= b < n - 1 ensures !Targets(recs[b], k) { assert Width(recs[b]) > 0 ==> Apart(recs[b], recs[a]); }
      AppliedKeeps(m, p, recs, n - 1, img, k);
    } else {
      AppliedStores(m, p, recs, n - 1, img, a, k);
      assert Width(recs[n - 1]) > 0 ==> Apart(recs[a], recs[n - 1]);
    }
  }

  /** The second pass stores where the first did not, or the same again. */
  lemma TwoPasses(m: Module, env: Env, r: Rec)
    requires Width(r) > 0
    ensures FinalValue(m, env, r) ==
            if Stored(m, Second(env), r).Some? then Stored(m, Second(env), r).value
            else if Stored(m, First, r).Some? then Stored(m, First, r).value else []
  {
    hide Bytes4, Bytes8, ImportWord;
  }

  lemma TargetHolds(m: Module, env: Env, recs: seq<Rec>, img: seq<byte>, r: Rec, k: nat)
    requires DisjointTargets(recs) && r in recs && Targets(r, k) && k < |img|
    ensures k - r.offset < |FinalValue(m, env, r)|
    ensures TwicePassed(m, env, recs, img)[k] == FinalValue(m, env, r)[k - r.offset]
  {
    hide DisjointTargets, Stored, FinalValue, Applied;
    var a :| 0 <= a < |recs| && recs[a] == r;
    AppliedStores(m, Second(env), recs, |recs|, Applied(m, First, recs, |recs|, img), a, k);
    AppliedStores(m, First, recs, |recs|, img, a, k);
    TwoPasses(m, env, r);
  }

  lemma UntouchedHolds(m: Module, env: Env, recs: seq<Rec>, img: seq<byte>, k: nat)
    requires k < |img| && Untouched(recs, k)
    ensures TwicePassed(m, env, recs, img)[k] == img[k]
  {
    hide Applied, Targets;
    AppliedKeeps(m, Second(env), recs, |recs|, Applied(m, First, recs, |recs|, img), k);
    AppliedKeeps(m, First, recs, |recs|, img, k);
  }

  /** Each target window holds the record's final value, and no other byte changes. */
  lemma LinkComputes(m: Module, env: Env, img: seq<byte>)
    requires Linkable(m, img) && DisjointTargets(Recs(m, img))
    ensures IsLinkOf(m, env, Recs(m, img), img, Linked(m, env, img))
  {
    var recs, out := Recs(m, img), Linked(m, env, img);
    assert out == TwicePassed(m, env, recs, img);
    hide Linkable, Linked, Recs, DisjointTargets, TwicePassed, Targets, Untouched, FinalValue;
    forall r, k | r in recs && 0 <= k < |out| && Targets(r, k)
      ensures k - r.offset < |FinalValue(m, env, r)| && out[k] == FinalValue(m, env, r)[k - r.offset]
    {
      TargetHolds(m, env, recs, img, r, k);
    }
    forall k | 0 <= k < |out| && Untouched(recs, k)
      ensures out[k] == img[k]
    {
      UntouchedHolds(m, env, recs, img, k);
    }
  }

  /** Even when targets overlap, nothing outside them changes. */
  lemma LinkKeeps(m: Module, env: Env, img: seq<byte>, k: nat)
    requires Linkable(m, img) && k < |img| && Untouched(Recs(m, img), k)
    ensures Linked(m, env, img)[k] == img[k]
  {
    hide Decodable, AllClear, Recs, Applied, Untouched;
    UntouchedHolds(m, env, Recs(m, img), img, k);
  }

  ghost predicate SameRecords(a: seq<Rec>, b: seq<Rec>) { forall r :: r in a <==> r in b }

  /** There is one such image, whatever the order of the records. */
  lemma LinkUnique(m: Module, env: Env, a: seq<Rec>, b: seq<Rec>, img: seq<byte>, x: seq<byte>, y: seq<byte>)
    requires SameRecords(a, b) && IsLinkOf(m, env, a, img, x) && IsLinkOf(m, env, b, img, y)
    ensures x == y
  {
    hide Targets, FinalValue;
    forall k | 0 <= k < |x|
      ensures x[k] == y[k]
    {
      if Untouched(a, k) {
        assert Untouched(b, k);
      } else {
        var r :| r in a && Targets(r, k);
        assert r in b;
      }
    }
  }

  /** The result does not depend on the order of the records or of the sections that hold them. */
  lemma OrderIndependent(m: Module, n: Module, env: Env, img: seq<byte>)
    requires Linkable(m, img) && Linkable(n, img) && n.base == m.base && n.tls == m.tls
    requires DisjointTargets(Recs(m, img)) && DisjointTargets(Recs(n, img)) && SameRecords(Recs(m, img), Recs(n, img))
    ensures Linked(m, env, img) == Linked(n, env, img)
  {
    LinkComputes(m, env, img);
    LinkComputes(n, env, img);
    hide Linkable, DisjointTargets, Recs, Linked, SameRecords;
    SameValues(m, n, env, Recs(n, img), img, Linked(n, env, img));
    LinkUnique(m, env, Recs(m, img), Recs(n, img), img, Linked(m, env, img), Linked(n, env, img));
  }

  lemma SameValues(m: Module, n: Module, env: Env, recs: seq<Rec>, img: seq<byte>, out: seq<byte>)
    requires n.base == m.base && n.tls == m.tls && IsLinkOf(n, env, recs, img, out)
    ensures IsLinkOf(m, env, recs, img, out)
  {
    assert forall r :: FinalValue(m, env, r) == FinalValue(n, env, r);
    hide FinalValue, Untouched;
  }

  /** The passes leave their own tables alone. */
  lemma LinkedReads(m: Module, env: Env, img: seq<byte>)
    requires Linkable(m, img)
    ensures Linkable(m, Linked(m, env, img)) && Recs(m, Linked(m, env, img)) == Recs(m, img)
  {
    AppliedReads(m, First, |Recs(m, img)|, img);
    AppliedReads(m, Second(env), |Recs(m, img)|, Applied(m, First, Recs(m, img), |Recs(m, img)|, img));
    hide Decodable, AllClear, Recs, Applied;
  }

  /** Some record that the pass acts on has k in its target. */
  predicate IsStored(m: Module, p: Pass, recs: seq<Rec>, n: nat, k: nat)
    requires n <= |recs|
  {
    exists a :: 0 <= a < n && Stored(m, p, recs[a]).Some? && Targets(recs[a], k)
  }

  /** What a pass leaves at k depends on what was there only if it stores nothing there. */
  lemma {:induction false} AppliedForgets(m: Module, p: Pass, recs: seq<Rec>, n: nat, x: seq<byte>, y: seq<byte>,
      k: nat)
    requires n <= |recs| && k < |x| == |y|
    ensures IsStored(m, p, recs, n, k) ==> Applied(m, p, recs, n, x)[k] == Applied(m, p, recs, n, y)[k]
    ensures !IsStored(m, p, recs, n, k) ==> Applied(m, p, recs, n, x)[k] == x[k]
  {
    if n == 0 {
    } else {
      AppliedForgets(m, p, recs, n - 1, x, y, k);
      StoredWidth(m, p, recs[n - 1]);
      hide Stored;
    }
  }

  /** Running both passes again changes nothing, even when targets overlap. */
  lemma LinkIdempotent(m: Module, env: Env, img: seq<byte>)
    requires Linkable(m, img)
    ensures Linkable(m, Linked(m, env, img)) && Linked(m, env, Linked(m, env, img)) == Linked(m, env, img)
  {
    LinkedReads(m, env, img);
    var recs, out := Recs(m, img), Linked(m, env, img);
    var n := |recs|;
    var one, again := Applied(m, First, recs, n, img), Applied(m, First, recs, n, out);
    hide Linkable, Recs, Applied, IsStored;
    forall k | 0 <= k < |img|
      ensures Linked(m, env, out)[k] == out[k]
    {
      AppliedForgets(m, First, recs, n, img, out, k);
      AppliedForgets(m, First, recs, n, out, img, k);
      AppliedForgets(m, Second(env), recs, n, one, again, k);
      AppliedForgets(m, Second(env), recs, n, again, one, k);
    }
  }

  // ----- position independence -----

  /** The records whose value moves with the load base. */
  predicate MovesWithBase(r: Rec) { r.kind == R_RELATIVE || IsDefined(r) }

  function Rebased(m: Module, base: nat): Module { m.(base := base) }

  /** The tables do not know where the image was loaded. */
  lemma RebasedReads(m: Module, img: seq<byte>, base: nat)
    requires Linkable(m, img)
    ensures Linkable(Rebased(m, base), img) && Recs(Rebased(m, base), img) == Recs(m, img)
  {
    var n := Rebased(m, base);
    assert TablesFit(n, img) && SymTab(n, img) == SymTab(m, img) && StrTab(n, img) == StrTab(m, img);
    assert Decodable(n, img) by {
      forall i, j | IsRecord(n, i, j)
        ensures DecodableRec(RelaBytes(n, img, i, j), SymTab(n, img), StrTab(n, img))
      {
        assert IsRecord(m, i, j) && RelaBytes(n, img, i, j) == RelaBytes(m, img, i, j);
        hide DecodableRec, TablesFit, RelaBytes;
      }
      hide DecodableRec, TablesFit, RelaBytes;
    }
    forall i, j | IsRecord(n, i, j)
      ensures RecAt(n, img, i, j) == RecAt(m, img, i, j) && Clear(n, img, RecAt(n, img, i, j))
    {
      assert IsRecord(m, i, j) && RelaBytes(n, img, i, j) == RelaBytes(m, img, i, j);
      hide DecodeRec, Decodable, RelaBytes;
      assert Clear(m, img, RecAt(m, img, i, j));
      hide RecAt, Targets, Fits;
      SameInTable(m, base);
    }
    hide Decodable, RecAt, Clear, RelaBytes;
    RebasedRecsBefore(m, img, base, |m.sections|);
  }

  lemma SameInTable(m: Module, base: nat)
    ensures forall k: nat :: InTable(Rebased(m, base), k) <==> InTable(m, k)
  {
  }

  lemma {:induction false} RebasedRecsBefore(m: Module, img: seq<byte>, base: nat, n: nat)
    requires Decodable(m, img) && Decodable(Rebased(m, base), img) && n <= |m.sections|
    requires forall i, j | IsRecord(Rebased(m, base), i, j) :: RecAt(Rebased(m, base), img, i, j) == RecAt(m, img, i, j)
    ensures RecsBefore(Rebased(m, base), img, n) == RecsBefore(m, img, n)
  {
    hide Decodable, RecAt;
    if n == 0 {
    } else {
      RebasedRecsBefore(m, img, base, n - 1);
      var i := n - 1;
      if IsRela(m.sections[i]) {
        var c := Count(m.sections[i]);
        assert forall k | 0 <= k < c :: IsRecord(Rebased(m, base), i, k);
        assert SectionRecs(Rebased(m, base), img, i, c) == SectionRecs(m, img, i, c);
      }
    }
  }

  lemma ModShift(x: int, y: int)
    ensures (x % TWO_64 + y) % TWO_64 == (x + y) % TWO_64
  {
    var q, r := x / TWO_64, x % TWO_64;
    assert x + y == (r + y) + q * TWO_64;
    ModAdd(r + y, q);
  }

  lemma ModAdd(z: int, q: int)
    ensures (z + q * TWO_64) % TWO_64 == z % TWO_64
  {
    var d := z / TWO_64;
    assert z + q * TWO_64 == (d + q) * TWO_64 + z % TWO_64;
  }

  /** A word that moves differs by the difference of the bases; any other is the same. */
  lemma RebasedValue(m: Module, env: Env, r: Rec, base: nat)
    requires Width(r) > 0
    ensures if MovesWithBase(r) then Le8(FinalValue(Rebased(m, base), env, r)) ==
        (Le8(FinalValue(m, env, r)) + (base - m.base)) % TWO_64
            else FinalValue(Rebased(m, base), env, r) == FinalValue(m, env, r)
  {
    if MovesWithBase(r) {
      var w := Word(m, env, r);
      assert Word(Rebased(m, base), env, r) == w + (base - m.base);
      Le8Bytes8(w);
      Le8Bytes8(w + (base - m.base));
      ModShift(w, base - m.base);
      hide Le8, Bytes8, Word;
    } else {
      hide Bytes4, Bytes8;
    }
  }

  /** The window of a record. */
  function Window(out: seq<byte>, r: Rec): seq<byte>
    requires Fits(r, |out|)
  {
    out[r.offset..r.offset + Width(r)]
  }

  lemma WindowHolds(m: Module, env: Env, recs: seq<Rec>, img: seq<byte>, out: seq<byte>, r: Rec)
    requires IsLinkOf(m, env, recs, img, out) && r in recs && Fits(r, |out|) && Width(r) > 0
    ensures Window(out, r) == FinalValue(m, env, r)
  {
    forall i | 0 <= i < Width(r)
      ensures Window(out, r)[i] == FinalValue(m, env, r)[i]
    {
      assert Targets(r, r.offset + i);
    }
    hide FinalValue, Targets, Untouched;
  }

  lemma MovingWidth(r: Rec)
    requires MovesWithBase(r)
    ensures Width(r) == 8
  {
  }

  lemma RebasedWindow(m: Module, env: Env, base: nat, recs: seq<Rec>, img: seq<byte>, x: seq<byte>, y: seq<byte>,
      r: Rec)
    requires IsLinkOf(m, env, recs, img, x) && IsLinkOf(Rebased(m, base), env, recs, img, y)
    requires |x| == |y| == |img| && r in recs && MovesWithBase(r) && Fits(r, |img|)
    ensures |Window(x, r)| == |Window(y, r)| == 8
    ensures Le8(Window(y, r)) == (Le8(Window(x, r)) + (base - m.base)) % TWO_64
  {
    hide *;
    MovingWidth(r);
    WindowHolds(m, env, recs, img, x, r);
    WindowHolds(Rebased(m, base), env, recs, img, y, r);
    RebasedValue(m, env, r, base);
  }

  /** The words that move have moved by d. */
  ghost predicate Shifted(recs: seq<Rec>, x: seq<byte>, y: seq<byte>, d: int) {
    && |x| == |y|
    && forall r | r in recs && MovesWithBase(r) ::
         Fits(r, |x|) && |Window(x, r)| == |Window(y, r)| == 8 && Le8(Window(y, r)) == (Le8(Window(x, r)) + d) % TWO_64
  }

  lemma RebasedShifts(m: Module, env: Env, base: nat, recs: seq<Rec>, img: seq<byte>, x: seq<byte>, y: seq<byte>)
    requires IsLinkOf(m, env, recs, img, x) && IsLinkOf(Rebased(m, base), env, recs, img, y)
    requires forall r | r in recs :: Fits(r, |img|)
    ensures Shifted(recs, x, y, base - m.base)
  {
    assert |x| == |y| == |img|;
    hide IsLinkOf, Le8, Fits, Window;
    forall r | r in recs && MovesWithBase(r)
      ensures Fits(r, |x|) && |Window(x, r)| == |Window(y, r)| == 8
          && Le8(Window(y, r)) == (Le8(Window(x, r)) + (base - m.base)) % TWO_64
    {
      RebasedWindow(m, env, base, recs, img, x, y, r);
    }
  }

  /** Outside the words that move, the images agree. */
  ghost predicate SameElsewhere(recs: seq<Rec>, x: seq<byte>, y: seq<byte>) {
    |x| == |y| && forall k | 0 <= k < |x| && (forall q | q in recs && MovesWithBase(q) :: !Targets(q, k)) ::
        y[k] == x[k]
  }

  lemma RebasedElsewhere(m: Module, env: Env, base: nat, recs: seq<Rec>, img: seq<byte>, x: seq<byte>, y: seq<byte>)
    requires IsLinkOf(m, env, recs, img, x) && IsLinkOf(Rebased(m, base), env, recs, img, y)
    ensures SameElsewhere(recs, x, y)
  {
    hide FinalValue, MovesWithBase, Le8, Targets;
    forall k | 0 <= k < |x| && forall q | q in recs && MovesWithBase(q) :: !Targets(q, k)
      ensures y[k] == x[k]
    {
      if !Untouched(recs, k) {
        var q :| q in recs && Targets(q, k);
        assert Width(q) > 0 by { TargetsSome(q, k); }
        RebasedValue(m, env, q, base);
      }
    }
  }

  lemma TargetsSome(r: Rec, k: int)
    requires Targets(r, k)
    ensures Width(r) > 0
  {
  }

  /** The same file linked at two bases with the same imports: words at RELATIVE and defined-symbol
      targets differ by exactly the difference of the bases, everything else is equal. */
  lemma PositionIndependent(m: Module, env: Env, img: seq<byte>, base: nat)
    requires Linkable(m, img) && DisjointTargets(Recs(m, img))
    ensures Linkable(Rebased(m, base), img)
    ensures Shifted(Recs(m, img), Linked(m, env, img), Linked(Rebased(m, base), env, img), base - m.base)
    ensures SameElsewhere(Recs(m, img), Linked(m, env, img), Linked(Rebased(m, base), env, img))
  {
    var recs := Recs(m, img);
    AllFit(m, img);
    RebasedReads(m, img, base);
    LinkComputes(m, env, img);
    LinkComputes(Rebased(m, base), env, img);
    var x, y := Linked(m, env, img), Linked(Rebased(m, base), env, img);
    hide *;
    RebasedShifts(m, env, base, recs, img, x, y);
    RebasedElsewhere(m, env, base, recs, img, x, y);
  }

  lemma AllFit(m: Module, img: seq<byte>)
    requires Linkable(m, img)
    ensures forall r | r in Recs(m, img) :: Fits(r, |img|)
  {
    forall a | 0 <= a < |Recs(m, img)|
      ensures Fits(Recs(m, img)[a], |img|)
    {
      RecsClear(m, img, a);
    }
    hide Decodable, AllClear, Recs, Fits;
  }

  // ----- the psABI -----

  const SHN_ABS: nat := 0xfff1
  const STT_GNU_IFUNC: int := 10

  /** ELF64_ST_TYPE. */
  predicate IsIndirect(s: Sym) { s.info as int % 16 == STT_GNU_IFUNC }

  /** S in section 4.4.1 of the System V AMD64 psABI. The value of an absolute symbol is not affected
      by the load base; that of an indirect function is what its resolver returns; an undefined symbol
      that nothing defines has the value 0, as a weak one must. */
  function SymbolAddress(m: Module, env: Env, resolver: nat -> nat, r: Rec): nat {
    if r.sym.shndx == SHN_UNDEF then Import(env, r.name)
    else
      var a := if r.sym.shndx == SHN_ABS then r.sym.value else m.base + r.sym.value;
      if IsIndirect(r.sym) then resolver(a) else a
  }

  /** The value section 4.4.1 gives: B + A for RELATIVE, S + A for 64, S for GLOB_DAT and JUMP_SLOT. */
  function PsAbiWord(m: Module, env: Env, resolver: nat -> nat, r: Rec): int {
    if r.kind == R_RELATIVE then m.base + r.addend
    else if r.kind == R_64 then SymbolAddress(m, env, resolver, r) + r.addend
    else SymbolAddress(m, env, resolver, r)
  }

  predicate Congruent(x: int, y: int) { x % TWO_64 == y % TWO_64 }

  /** The part of the stored word that the psABI does not ask for. */
  function Extra(r: Rec): nat { if r.kind == R_64 then 0 else r.addend }

  /** When the linker meets the psABI: always for RELATIVE; for a symbol at its usual place, or one
      that is found, when a GLOB_DAT or JUMP_SLOT record has addend 0; for an absolute symbol, when
      the load base and that addend cancel; for an indirect function, when its resolver returns the
      word that is stored; for a symbol that nothing defines, when the word stored instead happens to
      be the addend of a 64 record, or 0. */
  predicate MeetsPsAbi(m: Module, env: Env, resolver: nat -> nat, r: Rec) {
    if r.kind == R_RELATIVE then true
    else if r.sym.shndx == SHN_UNDEF && Import(env, r.name) == 0 then
      Congruent(if env.taint then r.offset else 0, if r.kind == R_64 then r.addend else 0)
    else if r.sym.shndx == SHN_UNDEF then Extra(r) == 0
    else if IsIndirect(r.sym) then
      Congruent(resolver(if r.sym.shndx == SHN_ABS then r.sym.value else m.base + r.sym.value),
          m.base + r.sym.value + Extra(r))
    else if r.sym.shndx == SHN_ABS then Congruent(m.base + Extra(r), 0)
    else Extra(r) == 0
  }

  /** For every record of these four kinds: the stored word is the one the psABI prescribes if and
      only if that condition holds. */
  lemma AgreesWithPsAbiIff(m: Module, env: Env, resolver: nat -> nat, r: Rec)
    requires (r.kind == R_RELATIVE || IsImportKind(r.kind)) && r.addend < TWO_64
    ensures FinalValue(m, env, r) == Bytes8(PsAbiWord(m, env, resolver, r)) <==> MeetsPsAbi(m, env, resolver, r)
  {
    hide FinalValue, Word, PsAbiWord, Bytes8, Congruent;
    StoredWord(m, env, r);
    SameBytes8(Word(m, env, r), PsAbiWord(m, env, resolver, r));
    if r.kind == R_RELATIVE {
      RelativeMeets(m, env, resolver, r);
    } else if r.sym.shndx == SHN_UNDEF {
      hide MeetsPsAbi;
      UndefinedMeets(m, env, resolver, r);
    } else {
      hide MeetsPsAbi;
      DefinedMeets(m, env, resolver, r);
    }
  }

  lemma StoredWord(m: Module, env: Env, r: Rec)
    requires r.kind == R_RELATIVE || IsImportKind(r.kind)
    ensures FinalValue(m, env, r) == Bytes8(Word(m, env, r))
  {
    hide Bytes8, Bytes4, Word;
  }

  lemma RelativeMeets(m: Module, env: Env, resolver: nat -> nat, r: Rec)
    requires r.kind == R_RELATIVE
    ensures Congruent(Word(m, env, r), PsAbiWord(m, env, resolver, r))
  {
  }

  lemma UndefinedMeets(m: Module, env: Env, resolver: nat -> nat, r: Rec)
    requires IsImportKind(r.kind) && r.addend < TWO_64 && r.sym.shndx == SHN_UNDEF
    ensures MeetsPsAbi(m, env, resolver, r) <==> Congruent(Word(m, env, r), PsAbiWord(m, env, resolver, r))
  {
    var a := Import(env, r.name);
    SameMod(a, r.addend);
    hide Import;
  }

  lemma DefinedMeets(m: Module, env: Env, resolver: nat -> nat, r: Rec)
    requires IsImportKind(r.kind) && r.addend < TWO_64 && r.sym.shndx != SHN_UNDEF
    ensures MeetsPsAbi(m, env, resolver, r) <==> Congruent(Word(m, env, r), PsAbiWord(m, env, resolver, r))
  {
    var x, y := m.base + r.sym.value, if r.sym.shndx == SHN_ABS then r.sym.value else m.base + r.sym.value;
    var s := if IsIndirect(r.sym) then resolver(y) else y;
    assert SymbolAddress(m, env, resolver, r) == s;
    var b := if r.kind == R_64 then r.addend else 0;
    assert Word(m, env, r) == x + Extra(r) + b && PsAbiWord(m, env, resolver, r) == s + b;
    CongruentShift(x + Extra(r), s, b);
    CongruentShift(m.base + Extra(r), 0, r.sym.value);
    SameMod(x, Extra(r));
  }

  lemma CongruentShift(x: int, y: int, b: int)
    ensures Congruent(x + b, y + b) <==> Congruent(x, y)
  {
    ModShift(x, b);
    ModShift(y, b);
    ModShift(x + b, -b);
    ModShift(y + b, -b);
  }

  lemma SameBytes8(x: int, y: int)
    ensures Bytes8(x) == Bytes8(y) <==> Congruent(x, y)
  {
    hide Le8, Bytes8;
    Le8Bytes8(x);
    Le8Bytes8(y);
    Bytes8Le8(Bytes8(x));
    Bytes8Le8(Bytes8(y));
  }

  lemma SameMod(v: int, a: nat)
    requires a < TWO_64
    ensures (v + a) % TWO_64 == v % TWO_64 <==> a == 0
  {
    var p, q := (v + a) / TWO_64, v / TWO_64;
    assert v + a == p * TWO_64 + (v + a) % TWO_64 && v == q * TWO_64 + v % TWO_64;
  }
}
