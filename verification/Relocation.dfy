/** so_relocate and so_resolve (src/so_util.c:182-288): passes over the relocation records, as stores
    into the image that holds the records themselves. so_override_imports (290-324) is a third. */
module Relocation {
  import opened Prelude
  import opened LinkTables

  datatype Func = Func(symbol: seq<byte>, addr: nat)

  /** What imports are resolved against: the table, then up to three dlsym scopes (0: not found). */
  datatype Env = Env(funcs: seq<Func>, taint: bool, global: map<seq<byte>, nat>, libc: Option<map<seq<byte>, nat>>,
      libpthread: Option<map<seq<byte>, nat>>)

  /** An import to redirect; cell, unless null, receives what it was resolved to. */
  datatype Ovr = Ovr(name: seq<byte>, func: nat, cell: Option<nat>)

  datatype Pass = First | Second(env: Env) | Override(ovrs: seq<Ovr>)

  function Dlsym(scope: map<seq<byte>, nat>, name: seq<byte>): nat { if name in scope then scope[name] else 0 }

  function DlsymIn(scope: Option<map<seq<byte>, nat>>, name: seq<byte>): nat {
    match scope case None => 0 case Some(s) => Dlsym(s, name)
  }

  /** The first entry of that name, from entry k on. */
  function Lookup(funcs: seq<Func>, name: seq<byte>, k: nat): nat
    decreases |funcs| - k
  {
    if k >= |funcs| then 0 else if funcs[k].symbol == name then funcs[k].addr else Lookup(funcs, name, k + 1)
  }

  /** The address an undefined symbol resolves to, 0 if none. A zero table entry does not count. */
  function Import(env: Env, name: seq<byte>): nat {
    var a, b, c := Lookup(env.funcs, name, 0), Dlsym(env.global, name), DlsymIn(env.libc, name);
    if a != 0 then a else if b != 0 then b else if c != 0 then c else DlsymIn(env.libpthread, name)
  }

  /** The first override of that name, from entry k on. */
  function FindOvr(ovrs: seq<Ovr>, name: seq<byte>, k: nat): (r: Option<nat>)
    ensures r.Some? ==> k <= r.value < |ovrs| && ovrs[r.value].name == name
    decreases |ovrs| - k
  {
    if k >= |ovrs| then None else if ovrs[k].name == name then Some(k) else FindOvr(ovrs, name, k + 1)
  }

  /** The override that applies to a record: only undefined imports are redirected. */
  function OvrOf(ovrs: seq<Ovr>, r: Rec): (k: Option<nat>)
    ensures k.Some? ==> k.value < |ovrs|
  {
    if IsImportKind(r.kind) && r.sym.shndx == SHN_UNDEF then FindOvr(ovrs, r.name, 0) else None
  }

  function TpOff(m: Module, r: Rec): int { r.sym.value + r.addend - m.tls }

  /** What a pass stores for a record, if anything. */
  function Stored(m: Module, p: Pass, r: Rec): Option<seq<byte>> {
    match p
    case First =>
      if r.kind == R_RELATIVE then Some(Bytes8(m.base + r.addend))
      else if IsImportKind(r.kind) then
        if r.sym.shndx != SHN_UNDEF then Some(Bytes8(m.base + r.sym.value + r.addend)) else None
      else if r.kind == R_TPOFF64 then Some(Bytes8(TpOff(m, r)))
      else if r.kind == R_TPOFF32 then Some(Bytes4(TpOff(m, r)))
      else if r.kind == R_DTPOFF64 then Some(Bytes8(r.sym.value + r.addend))
      else if r.kind == R_DTPMOD64 then Some(Bytes8(1))
      else None
    case Second(env) =>
      if IsImportKind(r.kind) then
        if r.sym.shndx == SHN_UNDEF then Some(Bytes8(ImportWord(env, r))) else None
      else if r.kind == R_TPOFF64 then Some(Bytes8(TpOff(m, r)))
      else if r.kind == R_TPOFF32 then Some(Bytes4(TpOff(m, r)))
      else None
    case Override(ovrs) =>
      var k := OvrOf(ovrs, r);
      if k.Some? then Some(Bytes8(ovrs[k.value].func + r.addend)) else None
  }

  function ImportWord(env: Env, r: Rec): nat {
    var a := Import(env, r.name);
    if a != 0 then a + r.addend else if env.taint then r.offset else 0
  }

  /** How many bytes of the image a record is about. */
  function Width(r: Rec): (w: nat)
    ensures w <= 8
  {
    if r.kind == R_TPOFF32 then 4
    else if IsImportKind(r.kind) || r.kind in {R_RELATIVE, R_DTPMOD64, R_DTPOFF64, R_TPOFF64} then 8
    else 0
  }

  predicate Targets(r: Rec, k: int) { r.offset <= k < r.offset + Width(r) }

  /** The records make sense and none of them patches the tables. */
  ghost predicate Linkable(m: Module, img: seq<byte>) { Decodable(m, img) && AllClear(m, img) }

  ghost predicate AllClear(m: Module, img: seq<byte>)
    requires Decodable(m, img)
  {
    forall i, j | IsRecord(m, i, j) :: Clear(m, img, RecAt(m, img, i, j))
  }

  ghost predicate Clear(m: Module, img: seq<byte>, r: Rec) {
    Fits(r, |img|) && forall k: nat | Targets(r, k) :: !InTable(m, k)
  }

  lemma LinkableDecodes(m: Module, img: seq<byte>)
    requires Linkable(m, img)
    ensures Decodable(m, img)
  {
  }

  predicate Fits(r: Rec, len: nat) { r.offset + Width(r) <= len }

  // ----- stores -----

  function StoreIf(img: seq<byte>, at: nat, b: Option<seq<byte>>): (r: seq<byte>)
    ensures |r| == |img|
  {
    if b.Some? then Overlay(img, at, b.value) else img
  }

  /** The image after a pass has gone through the first n records. */
  function Applied(m: Module, p: Pass, recs: seq<Rec>, n: nat, img: seq<byte>): (r: seq<byte>)
    requires n <= |recs|
    ensures |r| == |img|
  {
    if n == 0 then img else StoreIf(Applied(m, p, recs, n - 1, img), recs[n - 1].offset, Stored(m, p, recs[n - 1]))
  }

  function Passed(m: Module, p: Pass, img: seq<byte>): (r: seq<byte>)
    requires Decodable(m, img)
    ensures |r| == |img|
  {
    Applied(m, p, Recs(m, img), |Recs(m, img)|, img)
  }

  method Poke(mem: array<byte>, at: nat, b: seq<byte>)
    requires at + |b| <= mem.Length
    modifies mem
    ensures mem[..] == Overlay(old(mem[..]), at, b)
  {
    forall k | 0 <= k < |b| {
      mem[at + k] := b[k];
    }
  }

  lemma StoredWidth(m: Module, p: Pass, r: Rec)
    ensures Stored(m, p, r).Some? ==> |Stored(m, p, r).value| == Width(r)
  {
  }

  /** A pass changes no byte outside the targets, so it never disturbs the tables it reads. */
  lemma {:induction false} AppliedKeeps(m: Module, p: Pass, recs: seq<Rec>, n: nat, img: seq<byte>, k: nat)
    requires n <= |recs| && k < |img| && forall a | 0 <= a < n :: !Targets(recs[a], k)
    ensures Applied(m, p, recs, n, img)[k] == img[k]
  {
    if n == 0 {
    } else {
      AppliedKeeps(m, p, recs, n - 1, img, k);
      StoredWidth(m, p, recs[n - 1]);
      assert !Targets(recs[n - 1], k);
      hide Stored;
    }
  }

  /** Every element of Recs is a record of some section. */
  lemma {:induction false} RecIs(m: Module, img: seq<byte>, n: nat, a: nat) returns (i: nat, j: nat)
    requires Decodable(m, img) && n <= |m.sections| && a < |RecsBefore(m, img, n)|
    ensures IsRecord(m, i, j) && RecAt(m, img, i, j) == RecsBefore(m, img, n)[a]
  {
    hide Decodable, RecAt;
    if a < |RecsBefore(m, img, n - 1)| {
      i, j := RecIs(m, img, n - 1, a);
    } else {
      i, j := n - 1, a - |RecsBefore(m, img, n - 1)|;
    }
  }

  lemma RecsClear(m: Module, img: seq<byte>, a: nat)
    requires Linkable(m, img) && Decodable(m, img) && a < |Recs(m, img)|
    ensures Clear(m, img, Recs(m, img)[a])
  {
    var i, j := RecIs(m, img, |m.sections|, a);
    hide Decodable, RecAt, Clear, RecsBefore;
  }

  /** So in the middle of a pass the records still read as they did before it. */
  lemma AppliedReads(m: Module, p: Pass, n: nat, img: seq<byte>)
    requires Linkable(m, img) && n <= |Recs(m, img)|
    ensures var now := Applied(m, p, Recs(m, img), n, img);
            && Linkable(m, now) && Recs(m, now) == Recs(m, img)
            && forall i, j | IsRecord(m, i, j) :: RecAt(m, now, i, j) == RecAt(m, img, i, j)
  {
    var recs := Recs(m, img);
    var now := Applied(m, p, recs, n, img);
    forall k: nat | k < |img| && InTable(m, k)
      ensures now[k] == img[k]
    {
      forall a | 0 <= a < n ensures !Targets(recs[a], k) { RecsClear(m, img, a); }
      AppliedKeeps(m, p, recs, n, img, k);
    }
    SameTablesSameRecs(m, img, now);
    hide InTable, Decodable, RecAt, Applied, Targets;
  }

  // ----- the loops -----

  /** The number of records in the first i sections. */
  function Position(m: Module, i: nat): nat
    requires i <= |m.sections|
  {
    if i == 0 then 0 else Position(m, i - 1) + if IsRela(m.sections[i - 1]) then Count(m.sections[i - 1]) else 0
  }

  /** Before record j of section i. */
  ghost predicate Progress(m: Module, p: Pass, was: seq<byte>, now: seq<byte>, i: nat, j: nat) {
    && Linkable(m, was) && i <= |m.sections|
    && Position(m, i) + j <= |Recs(m, was)|
    && now == Applied(m, p, Recs(m, was), Position(m, i) + j, was)
  }

  lemma {:induction false} RecsBeforePrefix(m: Module, img: seq<byte>, i: nat, n: nat)
    requires Decodable(m, img) && i <= n <= |m.sections|
    ensures RecsBefore(m, img, i) <= RecsBefore(m, img, n)
  {
    hide Decodable;
    if i == n {
    } else {
      RecsBeforePrefix(m, img, i, n - 1);
    }
  }

  lemma {:induction false} PositionIs(m: Module, img: seq<byte>, i: nat)
    requires Decodable(m, img) && i <= |m.sections|
    ensures |RecsBefore(m, img, i)| == Position(m, i)
  {
    hide Decodable, RecAt, Count;
    if i == 0 {
    } else {
      PositionIs(m, img, i - 1);
    }
  }

  lemma RecordPosition(m: Module, img: seq<byte>, i: nat, j: nat)
    requires Decodable(m, img) && IsRecord(m, i, j)
    ensures Position(m, i) + j < |Recs(m, img)|
    ensures Recs(m, img)[Position(m, i) + j] == RecAt(m, img, i, j)
  {
    PositionIs(m, img, i);
    RecsBeforePrefix(m, img, i + 1, |m.sections|);
    hide Decodable, RecAt, Count, Position;
    var all := RecsBefore(m, img, i + 1);
    assert all == RecsBefore(m, img, i) + SectionRecs(m, img, i, Count(m.sections[i]));
    assert all[|RecsBefore(m, img, i)| + j] == RecAt(m, img, i, j);
  }

  lemma AppliedNext(m: Module, p: Pass, recs: seq<Rec>, n: nat, img: seq<byte>)
    requires n < |recs|
    ensures Applied(m, p, recs, n + 1, img) ==
        StoreIf(Applied(m, p, recs, n, img), recs[n].offset, Stored(m, p, recs[n]))
  {
  }

  lemma ProgressStart(m: Module, p: Pass, img: seq<byte>)
    requires Linkable(m, img)
    ensures Progress(m, p, img, img, 0, 0)
  {
    hide Linkable, Decodable;
  }

  lemma LinkableFits(m: Module, img: seq<byte>, i: nat, j: nat)
    requires Linkable(m, img) && IsRecord(m, i, j)
    ensures Decodable(m, img) && Fits(RecAt(m, img, i, j), |img|)
  {
    hide RecAt, Decodable, IsRecord, Fits, InTable;
    assert Clear(m, img, RecAt(m, img, i, j));
  }

  /** The record about to be handled is the one the tables held at first. */
  lemma ProgressRec(m: Module, p: Pass, was: seq<byte>, now: seq<byte>, i: nat, j: nat)
    requires Progress(m, p, was, now, i, j) && IsRecord(m, i, j)
    ensures |now| == |was| && Decodable(m, was) && Decodable(m, now) && RecAt(m, now, i, j) == RecAt(m, was, i, j)
    ensures Fits(RecAt(m, was, i, j), |now|)
  {
    hide AllClear, RecAt, Decodable, Recs, Applied, Fits, IsRecord, Position;
    LinkableFits(m, was, i, j);
    AppliedReads(m, p, Position(m, i) + j, was);
  }

  lemma ProgressStep(m: Module, p: Pass, was: seq<byte>, now: seq<byte>, i: nat, j: nat, next: seq<byte>)
    requires Progress(m, p, was, now, i, j) && IsRecord(m, i, j) && Decodable(m, was)
    requires next == StoreIf(now, RecAt(m, was, i, j).offset, Stored(m, p, RecAt(m, was, i, j)))
    ensures Progress(m, p, was, next, i, j + 1)
  {
    hide RecAt, Decodable, AllClear, Stored, StoreIf, Recs, Applied, Position;
    RecordPosition(m, was, i, j);
    AppliedNext(m, p, Recs(m, was), Position(m, i) + j, was);
  }

  lemma ProgressSection(m: Module, p: Pass, was: seq<byte>, now: seq<byte>, i: nat, j: nat)
    requires Progress(m, p, was, now, i, j) && i < |m.sections|
    requires j == if IsRela(m.sections[i]) then Count(m.sections[i]) else 0
    ensures Progress(m, p, was, now, i + 1, 0)
  {
    hide AllClear, Decodable, Applied, Recs, Count;
  }

  lemma ProgressDone(m: Module, p: Pass, was: seq<byte>, now: seq<byte>)
    requires Progress(m, p, was, now, |m.sections|, 0)
    ensures Decodable(m, was) && now == Passed(m, p, was)
  {
    hide Decodable, AllClear, Applied;
    PositionIs(m, was, |m.sections|);
  }

  // ----- a pass step by step, whatever it patches -----

  /** Record j of section i can be read from memory as it is now. */
  ghost predicate Readable(m: Module, now: seq<byte>, i: nat, j: nat) {
    && IsRecord(m, i, j) && TablesFit(m, now)
    && DecodableRec(RelaBytes(m, now, i, j), SymTab(m, now), StrTab(m, now))
  }

  function RecNow(m: Module, now: seq<byte>, i: nat, j: nat): Rec
    requires Readable(m, now, i, j)
  {
    DecodeRec(RelaBytes(m, now, i, j), SymTab(m, now), StrTab(m, now))
  }

  /** The record can be read, and what it says to patch lies in the image. */
  ghost predicate Usable(m: Module, now: seq<byte>, i: nat, j: nat) {
    Readable(m, now, i, j) && Fits(RecNow(m, now, i, j), |now|)
  }

  function Records(m: Module, i: nat): nat
    requires i < |m.sections|
  {
    if IsRela(m.sections[i]) then Count(m.sections[i]) else 0
  }

  /** Memory when record j of section i is next, each record read from memory as it then is: a record
      may patch the tables. None once an access has left them or the image. */
  ghost function Live(m: Module, p: Pass, img: seq<byte>, i: nat, j: nat): (now: Option<seq<byte>>)
    requires i <= |m.sections|
    ensures now.Some? ==> |now.value| == |img|
    decreases i, j
  {
    if j > 0 then
      var now := Live(m, p, img, i, j - 1);
      if now.Some? && Usable(m, now.value, i, j - 1) then
        var r := RecNow(m, now.value, i, j - 1);
        Some(StoreIf(now.value, r.offset, Stored(m, p, r)))
      else None
    else if i > 0 then Live(m, p, img, i - 1, Records(m, i - 1))
    else Some(img)
  }

  ghost function Outcome(m: Module, p: Pass, img: seq<byte>): Option<seq<byte>> { Live(m, p, img, |m.sections|, 0) }

  lemma {:induction false} LiveInSection(m: Module, p: Pass, img: seq<byte>, i: nat, j: nat, c: nat)
    requires i <= |m.sections| && j <= c && Live(m, p, img, i, c).Some?
    ensures Live(m, p, img, i, j).Some?
  {
    hide Usable, StoreIf, Stored;
    if j == c {
    } else {
      LiveInSection(m, p, img, i, j, c - 1);
    }
  }

  lemma {:induction false} LiveSections(m: Module, p: Pass, img: seq<byte>, i: nat, n: nat)
    requires i <= n <= |m.sections| && Live(m, p, img, n, 0).Some?
    ensures Live(m, p, img, i, 0).Some?
  {
    hide Usable, StoreIf, Stored, Records;
    if i == n {
    } else {
      LiveInSection(m, p, img, n - 1, 0, Records(m, n - 1));
      LiveSections(m, p, img, i, n - 1);
    }
  }

  /** A pass that stays in bounds to the end does so at each record. */
  lemma LiveRecord(m: Module, p: Pass, img: seq<byte>, now: seq<byte>, i: nat, j: nat)
    requires Outcome(m, p, img).Some? && IsRecord(m, i, j) && Live(m, p, img, i, j) == Some(now)
    ensures Usable(m, now, i, j)
    ensures Live(m, p, img, i, j + 1) ==
        Some(StoreIf(now, RecNow(m, now, i, j).offset, Stored(m, p, RecNow(m, now, i, j))))
  {
    hide Usable, StoreIf, Stored;
    LiveSections(m, p, img, i + 1, |m.sections|);
    LiveInSection(m, p, img, i, j + 1, Records(m, i));
  }

  lemma LiveSection(m: Module, p: Pass, img: seq<byte>, i: nat)
    requires i < |m.sections|
    ensures Live(m, p, img, i + 1, 0) == Live(m, p, img, i, Records(m, i))
  {
  }

  /** On a linkable image a pass stays in bounds, and what it leaves follows from the records as they
      were before it. */
  lemma {:induction false} LiveProgress(m: Module, p: Pass, img: seq<byte>, i: nat, j: nat)
    requires Linkable(m, img) && i <= |m.sections| && (j > 0 ==> i < |m.sections| && j <= Records(m, i))
    ensures Live(m, p, img, i, j).Some? && Progress(m, p, img, Live(m, p, img, i, j).value, i, j)
    decreases i, j
  {
    hide AllClear, Decodable, Recs, Progress, StoreIf, Stored, Fits, Usable;
    if j > 0 {
      LiveProgress(m, p, img, i, j - 1);
      var now := Live(m, p, img, i, j - 1).value;
      RecordOf(m, i, j - 1);
      ProgressRec(m, p, img, now, i, j - 1);
      RecIsNow(m, now, i, j - 1);
      ProgressStep(m, p, img, now, i, j - 1, Live(m, p, img, i, j).value);
    } else if i > 0 {
      LiveProgress(m, p, img, i - 1, Records(m, i - 1));
      ProgressSection(m, p, img, Live(m, p, img, i, 0).value, i - 1, Records(m, i - 1));
    } else {
      ProgressStart(m, p, img);
    }
  }

  lemma RecordOf(m: Module, i: nat, j: nat)
    requires i < |m.sections| && j < Records(m, i)
    ensures IsRecord(m, i, j)
  {
  }

  lemma RecIsNow(m: Module, now: seq<byte>, i: nat, j: nat)
    requires Decodable(m, now) && IsRecord(m, i, j) && Fits(RecAt(m, now, i, j), |now|)
    ensures Usable(m, now, i, j) && RecNow(m, now, i, j) == RecAt(m, now, i, j)
  {
    hide DecodeRec, DecodableRec, Fits, RelaBytes, SymTab, StrTab;
  }

  lemma LinkableOutcome(m: Module, p: Pass, img: seq<byte>)
    requires Linkable(m, img)
    ensures Decodable(m, img) && Outcome(m, p, img) == Some(Passed(m, p, img))
  {
    hide Progress, Live, Passed, AllClear, Decodable;
    LiveProgress(m, p, img, |m.sections|, 0);
    ProgressDone(m, p, img, Live(m, p, img, |m.sections|, 0).value);
  }

  /** so_relocate, for a module whose first pass stays in bounds. */
  method Relocate(m: Module, mem: array<byte>)
    requires Outcome(m, First, mem[..]).Some?
    modifies mem
    ensures Some(mem[..]) == old(Outcome(m, First, mem[..]))
  {
    ghost var was := mem[..];
    hide Live, Usable, StoreIf, Stored;
    LiveStart(m, First, was);
    for i := 0 to |m.sections|
      invariant Live(m, First, was, i, 0) == Some(mem[..])
    {
      if m.sections[i].kind == SHT_RELA {
        for j := 0 to Count(m.sections[i])
          invariant Live(m, First, was, i, j) == Some(mem[..])
        {
          LiveRecord(m, First, was, mem[..], i, j);
          UsableMeans(m, mem[..], i, j);
          RelocateAt(m, mem, RecNow(m, mem[..], i, j));
        }
      }
      LiveSection(m, First, was, i);
    }
  }

  lemma LiveStart(m: Module, p: Pass, img: seq<byte>)
    ensures Live(m, p, img, 0, 0) == Some(img)
  {
  }

  lemma UsableMeans(m: Module, now: seq<byte>, i: nat, j: nat)
    requires Usable(m, now, i, j)
    ensures Readable(m, now, i, j) && Fits(RecNow(m, now, i, j), |now|)
  {
  }

  /** Lines 193-218. */
  method RelocateAt(m: Module, mem: array<byte>, r: Rec)
    requires Fits(r, mem.Length)
    modifies mem
    ensures mem[..] == StoreIf(old(mem[..]), r.offset, Stored(m, First, r))
  {
    hide Overlay, Bytes4, Bytes8;
    StoredWidth(m, First, r);
    if r.kind == R_RELATIVE {
      Poke(mem, r.offset, Bytes8(m.base + r.addend));
    } else if r.kind == R_64 || r.kind == R_GLOB_DAT || r.kind == R_JUMP_SLOT {
      if r.sym.shndx != SHN_UNDEF {
        Poke(mem, r.offset, Bytes8(m.base + r.sym.value + r.addend));
      }
    } else if r.kind == R_TPOFF64 {
      Poke(mem, r.offset, Bytes8(r.sym.value + r.addend - m.tls));
    } else if r.kind == R_TPOFF32 {
      Poke(mem, r.offset, Bytes4(r.sym.value + r.addend - m.tls));
    } else if r.kind == R_DTPOFF64 {
      Poke(mem, r.offset, Bytes8(r.sym.value + r.addend));
    } else if r.kind == R_DTPMOD64 {
      Poke(mem, r.offset, Bytes8(1));
    }
  }

  /** so_resolve, for a module whose second pass stays in bounds. */
  method Resolve(m: Module, mem: array<byte>, env: Env)
    requires Outcome(m, Second(env), mem[..]).Some?
    modifies mem
    ensures Some(mem[..]) == old(Outcome(m, Second(env), mem[..]))
  {
    ghost var was, p := mem[..], Second(env);
    hide Live, Usable, StoreIf, Stored;
    LiveStart(m, p, was);
    for i := 0 to |m.sections|
      invariant Live(m, p, was, i, 0) == Some(mem[..])
    {
      if m.sections[i].kind == SHT_RELA {
        for j := 0 to Count(m.sections[i])
          invariant Live(m, p, was, i, j) == Some(mem[..])
        {
          LiveRecord(m, p, was, mem[..], i, j);
          UsableMeans(m, mem[..], i, j);
          ResolveAt(m, mem, env, RecNow(m, mem[..], i, j));
        }
      }
      LiveSection(m, p, was, i);
    }
  }

  /** Lines 244-283. */
  method ResolveAt(m: Module, mem: array<byte>, env: Env, r: Rec)
    requires Fits(r, mem.Length)
    modifies mem
    ensures mem[..] == StoreIf(old(mem[..]), r.offset, Stored(m, Second(env), r))
  {
    hide Overlay, Bytes4, Bytes8, Import;
    StoredWidth(m, Second(env), r);
    if r.kind == R_GLOB_DAT || r.kind == R_JUMP_SLOT || r.kind == R_64 {
      if r.sym.shndx == SHN_UNDEF {
        var resolved := FindImport(env, r.name);
        if resolved != 0 {
          Poke(mem, r.offset, Bytes8(resolved + r.addend));
        } else if env.taint {
          Poke(mem, r.offset, Bytes8(r.offset));
        } else {
          Poke(mem, r.offset, Bytes8(0));
        }
      }
    } else if r.kind == R_TPOFF64 {
      Poke(mem, r.offset, Bytes8(r.sym.value + r.addend - m.tls));
    } else if r.kind == R_TPOFF32 {
      Poke(mem, r.offset, Bytes4(r.sym.value + r.addend - m.tls));
    }
  }

  /** Lines 251-262. */
  method FindImport(env: Env, name: seq<byte>) returns (resolved: nat)
    ensures resolved == Import(env, name)
  {
    resolved := 0;
    var k := 0;
    while k < |env.funcs|
      invariant k <= |env.funcs| && resolved == 0
      invariant Lookup(env.funcs, name, 0) == Lookup(env.funcs, name, k)
    {
      if env.funcs[k].symbol == name {
        resolved := env.funcs[k].addr;
        break;
      }
      k := k + 1;
    }
    if resolved == 0 { resolved := Dlsym(env.global, name); }
    if resolved == 0 && env.libc.Some? { resolved := Dlsym(env.libc.value, name); }
    if resolved == 0 && env.libpthread.Some? { resolved := Dlsym(env.libpthread.value, name); }
  }
}
