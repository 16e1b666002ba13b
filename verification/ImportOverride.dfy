/** so_override_imports (src/so_util.c:290-324): redirect imports of the last loaded module to hooks,
    handing out what they were resolved to before. It may run again and again. */
module ImportOverride {
  import opened Prelude
  import opened LinkTables
  import opened Relocation
  import opened Linking

  /** The word in the slot of a record. */
  function Slot(img: seq<byte>, r: Rec): nat
    requires HasSlot(img, r)
  {
    Le8(img[r.offset..r.offset + 8])
  }

  predicate HasSlot(img: seq<byte>, r: Rec) { r.offset + 8 <= |img| }

  /** Lines 314-315: a cell that is still 0 receives the word of the slot. */
  function TakeReal(ovrs: seq<Ovr>, r: Rec, img: seq<byte>, cells: seq<nat>): (out: seq<nat>)
    ensures |out| == |cells|
  {
    var k := OvrOf(ovrs, r);
    if k == None || ovrs[k.value].cell == None || !HasSlot(img, r) then cells
    else
      var c := ovrs[k.value].cell.value;
      if c < |cells| && cells[c] == 0 then cells[c := Slot(img, r)] else cells
  }

  /** The real_out cells once the first n records are handled, in an image that was img before. */
  function Taken(m: Module, ovrs: seq<Ovr>, recs: seq<Rec>, n: nat, img: seq<byte>, cells: seq<nat>): (out: seq<nat>)
    requires n <= |recs|
    ensures |out| == |cells|
  {
    if n == 0 then cells
    else TakeReal(ovrs, recs[n - 1], Applied(m, Override(ovrs), recs, n - 1, img),
        Taken(m, ovrs, recs, n - 1, img, cells))
  }

  /** Image and cells after one call. */
  ghost function Overridden(m: Module, ovrs: seq<Ovr>, img: seq<byte>, cells: seq<nat>): (out: (seq<byte>, seq<nat>))
    requires Linkable(m, img)
    ensures |out.0| == |img| && |out.1| == |cells|
  {
    var recs := Recs(m, img);
    (Applied(m, Override(ovrs), recs, |recs|, img), Taken(m, ovrs, recs, |recs|, img, cells))
  }

  /** Every cell an override names exists. */
  predicate CellsExist(ovrs: seq<Ovr>, len: nat) {
    forall k | 0 <= k < |ovrs| && ovrs[k].cell.Some? :: ovrs[k].cell.value < len
  }

  ghost predicate CellProgress(m: Module, ovrs: seq<Ovr>, was: seq<byte>, cells: seq<nat>, now: seq<nat>, i: nat,
      j: nat)
  {
    && Linkable(m, was) && i <= |m.sections| && Position(m, i) + j <= |Recs(m, was)|
    && now == Taken(m, ovrs, Recs(m, was), Position(m, i) + j, was, cells)
  }

  lemma CellStep(m: Module, ovrs: seq<Ovr>, was: seq<byte>, cells: seq<nat>, img: seq<byte>, now: seq<nat>, i: nat,
      j: nat)
    requires CellProgress(m, ovrs, was, cells, now, i, j) && Progress(m, Override(ovrs), was, img, i, j)
        && IsRecord(m, i, j)
    requires Decodable(m, was)
    ensures CellProgress(m, ovrs, was, cells, TakeReal(ovrs, RecAt(m, was, i, j), img, now), i, j + 1)
  {
    hide RecAt, Decodable, AllClear, Recs, Applied, Position, TakeReal;
    RecordPosition(m, was, i, j);
    TakenNext(m, ovrs, Recs(m, was), Position(m, i) + j, was, cells);
  }

  lemma TakenNext(m: Module, ovrs: seq<Ovr>, recs: seq<Rec>, n: nat, img: seq<byte>, cells: seq<nat>)
    requires n < |recs|
    ensures Taken(m, ovrs, recs, n + 1, img, cells) ==
            TakeReal(ovrs, recs[n], Applied(m, Override(ovrs), recs, n, img), Taken(m, ovrs, recs, n, img, cells))
  {
  }

  lemma CellSection(m: Module, ovrs: seq<Ovr>, was: seq<byte>, cells: seq<nat>, now: seq<nat>, i: nat, j: nat)
    requires CellProgress(m, ovrs, was, cells, now, i, j) && i < |m.sections|
    requires j == if IsRela(m.sections[i]) then Count(m.sections[i]) else 0
    ensures Position(m, i + 1) == Position(m, i) + j && CellProgress(m, ovrs, was, cells, now, i + 1, 0)
  {
    hide AllClear, Decodable, Taken, Recs, Count;
  }

  lemma CellDone(m: Module, ovrs: seq<Ovr>, was: seq<byte>, cells: seq<nat>, img: seq<byte>, now: seq<nat>)
    requires CellProgress(m, ovrs, was, cells, now, |m.sections|, 0)
        && Progress(m, Override(ovrs), was, img, |m.sections|, 0)
    ensures Linkable(m, was) && (img, now) == Overridden(m, ovrs, was, cells)
  {
    hide Decodable, AllClear, Applied, Taken;
    PositionIs(m, was, |m.sections|);
  }

  lemma CellStart(m: Module, ovrs: seq<Ovr>, img: seq<byte>, cells: seq<nat>)
    requires Linkable(m, img)
    ensures CellProgress(m, ovrs, img, cells, cells, 0, 0)
  {
    hide Decodable, AllClear;
  }

  /** so_override_imports; cells are the words that the real_out pointers point to, outside the image. */
  method OverrideImports(m: Module, mem: array<byte>, cells: array<nat>, ovr: Option<seq<Ovr>>, n: int)
    requires Linkable(m, mem[..])
    requires ovr.Some? ==> n <= |ovr.value| && (n > 0 ==> CellsExist(ovr.value[..n], cells.Length))
    modifies mem, cells
    ensures old(Linkable(m, mem[..]))
    ensures (mem[..], cells[..]) ==
            if n <= 0 || ovr == None then old((mem[..], cells[..]))
                else Overridden(m, ovr.value[..n], old(mem[..]), old(cells[..]))
  {
    if n <= 0 || ovr == None { return; }
    var ovrs := ovr.value[..n];
    ghost var was, given, p := mem[..], cells[..], Override(ovrs);
    ProgressStart(m, p, was);
    CellStart(m, ovrs, was, given);
    hide *;
    for i := 0 to |m.sections|
      invariant Progress(m, p, was, mem[..], i, 0) && CellProgress(m, ovrs, was, given, cells[..], i, 0)
    {
      ghost var last := 0;
      if IsRela(m.sections[i]) {
        for j := 0 to Count(m.sections[i])
          invariant Progress(m, p, was, mem[..], i, j) && CellProgress(m, ovrs, was, given, cells[..], i, j)
        {
          KnownRecord(m, i, j);
          OverrideOne(m, mem, cells, ovrs, i, j, was, given);
        }
        last := Count(m.sections[i]);
      }
      ProgressSection(m, p, was, mem[..], i, last);
      CellSection(m, ovrs, was, given, cells[..], i, last);
    }
    CellDone(m, ovrs, was, given, mem[..], cells[..]);
  }

  lemma KnownRecord(m: Module, i: nat, j: nat)
    requires i < |m.sections| && IsRela(m.sections[i]) && j < Count(m.sections[i])
    ensures IsRecord(m, i, j)
  {
  }

  /** Lines 303-319. */
  method OverrideOne(m: Module, mem: array<byte>, cells: array<nat>, ovrs: seq<Ovr>, i: nat, j: nat,
      ghost was: seq<byte>, ghost given: seq<nat>)
    requires Progress(m, Override(ovrs), was, mem[..], i, j) && CellProgress(m, ovrs, was, given, cells[..], i, j)
    requires IsRecord(m, i, j) && CellsExist(ovrs, cells.Length)
    modifies mem, cells
    ensures Progress(m, Override(ovrs), was, mem[..], i, j + 1)
        && CellProgress(m, ovrs, was, given, cells[..], i, j + 1)
  {
    ghost var img, now, p := mem[..], cells[..], Override(ovrs);
    hide *;
    ProgressRec(m, p, was, img, i, j);
    var r := RecAt(m, mem[..], i, j);
    OverrideAt(m, mem, cells, ovrs, r);
    CellStep(m, ovrs, was, given, img, now, i, j);
    ProgressStep(m, p, was, img, i, j, mem[..]);
  }

  method OverrideAt(m: Module, mem: array<byte>, cells: array<nat>, ovrs: seq<Ovr>, r: Rec)
    requires Fits(r, mem.Length) && CellsExist(ovrs, cells.Length)
    modifies mem, cells
    ensures mem[..] == StoreIf(old(mem[..]), r.offset, Stored(m, Override(ovrs), r))
    ensures cells[..] == TakeReal(ovrs, r, old(mem[..]), old(cells[..]))
  {
    hide Overlay, Bytes8, Le8, FindOvr;
    if r.kind != R_GLOB_DAT && r.kind != R_JUMP_SLOT && r.kind != R_64 { return; }
    if r.sym.shndx != SHN_UNDEF { return; }
    var k := 0;
    while k < |ovrs|
      invariant k <= |ovrs| && FindOvr(ovrs, r.name, 0) == FindOvr(ovrs, r.name, k)
      invariant mem[..] == old(mem[..]) && cells[..] == old(cells[..])
    {
      FindNext(ovrs, r.name, k);
      if ovrs[k].name == r.name {
        if ovrs[k].cell.Some? && cells[ovrs[k].cell.value] == 0 {
          cells[ovrs[k].cell.value] := Slot(mem[..], r);
        }
        Poke(mem, r.offset, Bytes8(ovrs[k].func + r.addend));
        return;
      }
      k := k + 1;
    }
    FindNext(ovrs, r.name, k);
  }

  lemma FindNext(ovrs: seq<Ovr>, name: seq<byte>, k: nat)
    requires k <= |ovrs|
    ensures FindOvr(ovrs, name, k) ==
            if k == |ovrs| then None else if ovrs[k].name == name then Some(k) else FindOvr(ovrs, name, k + 1)
  {
  }

  // ----- any number of calls -----

  /** No two overrides share a cell. */
  predicate CellsApart(ovrs: seq<Ovr>) {
    forall i, j | 0 <= i < j < |ovrs| && ovrs[i].cell.Some? :: ovrs[i].cell != ovrs[j].cell
  }

  /** A 64, GLOB_DAT or JUMP_SLOT record of an undefined symbol, and j is the first override of the
      symbol's name. */
  predicate Hooks(ovrs: seq<Ovr>, r: Rec, j: int) {
    && r.kind in {1, 6, 7} && r.sym.shndx == 0
    && 0 <= j < |ovrs| && ovrs[j].name == r.name && forall i | 0 <= i < j :: ovrs[i].name != r.name
  }

  /** Record a is the first that override j redirects. */
  predicate FirstSlot(ovrs: seq<Ovr>, recs: seq<Rec>, j: nat, a: int) {
    0 <= a < |recs| && Hooks(ovrs, recs[a], j) && forall b | 0 <= b < a :: !Hooks(ovrs, recs[b], j)
  }

  lemma {:induction false} FindsFirst(ovrs: seq<Ovr>, name: seq<byte>, k: nat, j: nat)
    requires k <= |ovrs|
    ensures FindOvr(ovrs, name, k) == Some(j)
       <==> k <= j < |ovrs| && ovrs[j].name == name && forall i | k <= i < j :: ovrs[i].name != name
    decreases |ovrs| - k
  {
    if k == |ovrs| {
    } else {
      FindsFirst(ovrs, name, k + 1, j);
    }
  }

  lemma OvrIs(ovrs: seq<Ovr>, r: Rec, j: nat)
    ensures OvrOf(ovrs, r) == Some(j) <==> Hooks(ovrs, r, j)
    ensures Hooks(ovrs, r, j) ==> Width(r) == 8
  {
    FindsFirst(ovrs, r.name, 0, j);
  }

  /** Before its own turn a slot keeps its word. */
  lemma SlotWaits(m: Module, ovrs: seq<Ovr>, recs: seq<Rec>, n: nat, img: seq<byte>, a: nat)
    requires n <= a < |recs| && DisjointTargets(recs) && Width(recs[a]) == 8 && HasSlot(img, recs[a])
    ensures HasSlot(Applied(m, Override(ovrs), recs, n, img), recs[a])
    ensures Slot(Applied(m, Override(ovrs), recs, n, img), recs[a]) == Slot(img, recs[a])
  {
    var now := Applied(m, Override(ovrs), recs, n, img);
    forall k | recs[a].offset <= k < recs[a].offset + 8
      ensures now[k] == img[k]
    {
      forall b | 0 <= b < n ensures !Targets(recs[b], k) { assert Width(recs[b]) > 0 ==> Apart(recs[b], recs[a]); }
      AppliedKeeps(m, Override(ovrs), recs, n, img, k);
    }
    hide Applied, Le8;
    assert now[recs[a].offset..recs[a].offset + 8] == img[recs[a].offset..recs[a].offset + 8];
  }

  /** A cell changes only for records of its own override. */
  lemma TakeRealFrame(ovrs: seq<Ovr>, r: Rec, img: seq<byte>, cells: seq<nat>, j: nat, c: nat)
    requires CellsApart(ovrs) && j < |ovrs| && ovrs[j].cell == Some(c) && c < |cells|
    ensures !Hooks(ovrs, r, j) || cells[c] != 0 ==> TakeReal(ovrs, r, img, cells)[c] == cells[c]
    ensures Hooks(ovrs, r, j) && cells[c] == 0 && HasSlot(img, r)
        ==> TakeReal(ovrs, r, img, cells)[c] == Slot(img, r)
  {
    OvrIs(ovrs, r, j);
    hide OvrOf, Slot, Hooks;
  }

  lemma {:induction false} TakenNever(m: Module, ovrs: seq<Ovr>, recs: seq<Rec>, n: nat, img: seq<byte>,
      cells: seq<nat>, j: nat, c: nat)
    requires n <= |recs| && CellsApart(ovrs) && j < |ovrs| && ovrs[j].cell == Some(c) && c < |cells|
    requires cells[c] != 0 || forall b | 0 <= b < n :: !Hooks(ovrs, recs[b], j)
    ensures Taken(m, ovrs, recs, n, img, cells)[c] == cells[c]
  {
    if n == 0 {
    } else {
      TakenNever(m, ovrs, recs, n - 1, img, cells, j, c);
      TakeRealFrame(ovrs, recs[n - 1], Applied(m, Override(ovrs), recs, n - 1, img),
          Taken(m, ovrs, recs, n - 1, img, cells), j, c);
      hide TakeReal, Applied, CellsApart, Hooks;
    }
  }

  /** One call: a cell that is 0 receives the word of its override's first slot, unless that is 0. */
  lemma {:induction false} TakenFirst(m: Module, ovrs: seq<Ovr>, recs: seq<Rec>, n: nat, img: seq<byte>,
      cells: seq<nat>, j: nat, c: nat, a: nat)
    requires CellsApart(ovrs) && j < |ovrs| && ovrs[j].cell == Some(c) && c < |cells| && cells[c] == 0
    requires FirstSlot(ovrs, recs, j, a) && a < n <= |recs| && DisjointTargets(recs) && HasSlot(img, recs[a])
    requires Slot(img, recs[a]) != 0
    ensures Taken(m, ovrs, recs, n, img, cells)[c] == Slot(img, recs[a])
  {
    var before := Applied(m, Override(ovrs), recs, n - 1, img);
    var prev := Taken(m, ovrs, recs, n - 1, img, cells);
    TakeRealFrame(ovrs, recs[n - 1], before, prev, j, c);
    if n == a + 1 {
      TakenNever(m, ovrs, recs, a, img, cells, j, c);
      OvrIs(ovrs, recs[a], j);
      SlotWaits(m, ovrs, recs, a, img, a);
    } else {
      TakenFirst(m, ovrs, recs, n - 1, img, cells, j, c, a);
    }
    hide TakeReal, Applied, CellsApart, Slot, OvrOf, Hooks, DisjointTargets;
  }

  // ----- the image -----

  /** Slots that are redirected hold hook plus addend; no other byte has changed. */
  ghost predicate Redirected(ovrs: seq<Ovr>, recs: seq<Rec>, img: seq<byte>, out: seq<byte>) {
    && |out| == |img|
    && (forall r, j | r in recs && Hooks(ovrs, r, j) ::
          r.offset + 8 <= |out| && out[r.offset..r.offset + 8] == Bytes8(ovrs[j].func + r.addend))
    && (forall k | 0 <= k < |out| && Spared(ovrs, recs, k) :: out[k] == img[k])
  }

  /** Position k is in no redirected slot. */
  ghost predicate Spared(ovrs: seq<Ovr>, recs: seq<Rec>, k: int) {
    forall r, j | r in recs && Hooks(ovrs, r, j) :: !(r.offset <= k < r.offset + 8)
  }

  lemma SparedRecord(ovrs: seq<Ovr>, recs: seq<Rec>, r: Rec, k: int)
    requires Spared(ovrs, recs, k) && r in recs
    ensures OvrOf(ovrs, r).Some? ==> !Targets(r, k)
  {
    if OvrOf(ovrs, r).Some? {
      OvrIs(ovrs, r, OvrOf(ovrs, r).value);
    }
    hide OvrOf, Hooks;
  }

  lemma {:induction false} AppliedSpares(m: Module, ovrs: seq<Ovr>, recs: seq<Rec>, n: nat, img: seq<byte>, k: nat)
    requires n <= |recs| && k < |img| && Spared(ovrs, recs, k)
    ensures Applied(m, Override(ovrs), recs, n, img)[k] == img[k]
  {
    if n == 0 {
    } else {
      AppliedSpares(m, ovrs, recs, n - 1, img, k);
      SparedRecord(ovrs, recs, recs[n - 1], k);
      StoredWidth(m, Override(ovrs), recs[n - 1]);
      hide Spared, OvrOf;
    }
  }

  lemma OverrideStored(m: Module, ovrs: seq<Ovr>, r: Rec, j: nat)
    requires Hooks(ovrs, r, j)
    ensures Stored(m, Override(ovrs), r) == Some(Bytes8(ovrs[j].func + r.addend)) && Width(r) == 8
  {
    OvrIs(ovrs, r, j);
    hide OvrOf, Bytes8;
  }

  lemma OverrideRedirects(m: Module, ovrs: seq<Ovr>, recs: seq<Rec>, img: seq<byte>)
    requires DisjointTargets(recs) && forall r | r in recs :: Fits(r, |img|)
    ensures Redirected(ovrs, recs, img, Applied(m, Override(ovrs), recs, |recs|, img))
  {
    var p, out := Override(ovrs), Applied(m, Override(ovrs), recs, |recs|, img);
    forall r, j | r in recs && Hooks(ovrs, r, j)
      ensures r.offset + 8 <= |out| && out[r.offset..r.offset + 8] == Bytes8(ovrs[j].func + r.addend)
    {
      var a :| 0 <= a < |recs| && recs[a] == r;
      OverrideStored(m, ovrs, r, j);
      hide Stored, Applied, Hooks, Bytes8, DisjointTargets, Width;
      var b := Bytes8(ovrs[j].func + r.addend);
      forall i | 0 <= i < 8
        ensures out[r.offset..r.offset + 8][i] == b[i]
      {
        AppliedStores(m, p, recs, |recs|, img, a, r.offset + i);
      }
    }
    forall k | 0 <= k < |out| && Spared(ovrs, recs, k)
      ensures out[k] == img[k]
    {
      AppliedSpares(m, ovrs, recs, |recs|, img, k);
    }
    hide Applied, Spared, Fits, Hooks, Bytes8, DisjointTargets;
  }

  /** There is one such image, and redirecting it again gives the same. */
  lemma RedirectedUnique(ovrs: seq<Ovr>, recs: seq<Rec>, img: seq<byte>, x: seq<byte>, y: seq<byte>)
    requires Redirected(ovrs, recs, img, x) && Redirected(ovrs, recs, img, y)
    ensures x == y
  {
    forall k | 0 <= k < |x|
      ensures x[k] == y[k]
    {
      if !Spared(ovrs, recs, k) {
        var r, j :| r in recs && Hooks(ovrs, r, j) && r.offset <= k < r.offset + 8;
        assert x[r.offset..r.offset + 8][k - r.offset] == y[r.offset..r.offset + 8][k - r.offset];
        hide Hooks, Bytes8;
      }
    }
    hide Spared, Hooks, Bytes8;
  }

  lemma RedirectedAgain(ovrs: seq<Ovr>, recs: seq<Rec>, img: seq<byte>, x: seq<byte>, y: seq<byte>)
    requires Redirected(ovrs, recs, img, x) && Redirected(ovrs, recs, x, y)
    ensures y == x && Redirected(ovrs, recs, img, y)
  {
    hide Spared, Hooks, Bytes8;
    assert Redirected(ovrs, recs, x, x);
    RedirectedUnique(ovrs, recs, x, x, y);
  }

  // ----- any number of calls -----

  /** Image and cells after n calls. */
  ghost function Calls(m: Module, ovrs: seq<Ovr>, img: seq<byte>, cells: seq<nat>, n: nat): (out: (seq<byte>, seq<nat>))
    requires Linkable(m, img)
    ensures |out.0| == |img| && |out.1| == |cells|
    ensures Linkable(m, out.0) && Recs(m, out.0) == Recs(m, img)
  {
    if n == 0 then (img, cells)
    else
      var before := Calls(m, ovrs, img, cells, n - 1);
      AppliedReads(m, Override(ovrs), |Recs(m, img)|, before.0);
      Overridden(m, ovrs, before.0, before.1)
  }

  lemma LastCall(m: Module, ovrs: seq<Ovr>, img: seq<byte>, cells: seq<nat>, n: nat)
    returns (recs: seq<Rec>, before: seq<byte>)
    requires Linkable(m, img) && n >= 1
    ensures Decodable(m, img) && recs == Recs(m, img) && before == Calls(m, ovrs, img, cells, n - 1).0
    ensures |before| == |img| && (n == 1 ==> before == img) && forall r | r in recs :: Fits(r, |before|)
    ensures Calls(m, ovrs, img, cells, n).0 == Applied(m, Override(ovrs), recs, |recs|, before)
  {
    AllFit(m, img);
    recs, before := Recs(m, img), Calls(m, ovrs, img, cells, n - 1).0;
    hide Decodable, AllClear, Recs, Applied, Taken;
  }

  /** Once called, the hooks are in place, and stay. */
  lemma {:induction false} CallsRedirect(m: Module, ovrs: seq<Ovr>, img: seq<byte>, cells: seq<nat>, n: nat)
    requires Linkable(m, img) && DisjointTargets(Recs(m, img)) && n >= 1
    ensures Redirected(ovrs, Recs(m, img), img, Calls(m, ovrs, img, cells, n).0)
  {
    hide *;
    var recs, before := LastCall(m, ovrs, img, cells, n);
    OverrideRedirects(m, ovrs, recs, before);
    if n == 1 {
    } else {
      CallsRedirect(m, ovrs, img, cells, n - 1);
      RedirectedAgain(ovrs, recs, img, before, Calls(m, ovrs, img, cells, n).0);
    }
  }

  // ----- the cells -----

  /** The word that override j puts into the slot of a record. */
  function HookWord(ovrs: seq<Ovr>, r: Rec, j: nat): nat
    requires j < |ovrs|
  {
    (ovrs[j].func + r.addend) % 0x1_0000_0000_0000_0000
  }

  lemma RedirectedSlot(ovrs: seq<Ovr>, recs: seq<Rec>, img: seq<byte>, out: seq<byte>, r: Rec, j: nat)
    requires Redirected(ovrs, recs, img, out) && r in recs && Hooks(ovrs, r, j)
    ensures j < |ovrs| && HasSlot(out, r) && Slot(out, r) == HookWord(ovrs, r, j)
  {
    Le8Bytes8(ovrs[j].func + r.addend);
    hide Le8, Bytes8, Spared;
  }

  /** An override with a cell that no other shares, and the first record it redirects. */
  ghost predicate Owns(ovrs: seq<Ovr>, recs: seq<Rec>, j: nat, c: nat, a: int) {
    CellsApart(ovrs) && j < |ovrs| && ovrs[j].cell == Some(c) && FirstSlot(ovrs, recs, j, a)
  }

  lemma OwnsMeans(ovrs: seq<Ovr>, recs: seq<Rec>, j: nat, c: nat, a: int)
    requires Owns(ovrs, recs, j, c, a)
    ensures CellsApart(ovrs) && j < |ovrs| && ovrs[j].cell == Some(c)
    ensures 0 <= a < |recs| && recs[a] in recs && Hooks(ovrs, recs[a], j)
  {
    hide Hooks, CellsApart;
  }

  /** A cell that is filled stays filled. */
  lemma {:induction false} CallsKeepCell(m: Module, ovrs: seq<Ovr>, img: seq<byte>, cells: seq<nat>, j: nat, c: nat,
      n: nat)
    requires Linkable(m, img) && CellsApart(ovrs) && j < |ovrs| && ovrs[j].cell == Some(c) && c < |cells|
    requires cells[c] != 0 || forall b | 0 <= b < |Recs(m, img)| :: !Hooks(ovrs, Recs(m, img)[b], j)
    ensures Calls(m, ovrs, img, cells, n).1[c] == cells[c]
  {
    hide Decodable, AllClear, Recs, CellsApart, Hooks, Taken, Applied;
    if n == 0 {
    } else {
      CallsKeepCell(m, ovrs, img, cells, j, c, n - 1);
      var before := Calls(m, ovrs, img, cells, n - 1);
      TakenNever(m, ovrs, Recs(m, img), |Recs(m, img)|, before.0, before.1, j, c);
    }
  }

  /** The calls from the second on are calls on what the first left. */
  lemma {:induction false} CallsSplit(m: Module, ovrs: seq<Ovr>, img: seq<byte>, cells: seq<nat>, n: nat)
    requires Linkable(m, img) && n >= 1
    ensures var one := Calls(m, ovrs, img, cells, 1);
            Calls(m, ovrs, img, cells, n) == Calls(m, ovrs, one.0, one.1, n - 1)
  {
    hide Linkable, Recs, Overridden;
    if n == 1 {
    } else {
      CallsSplit(m, ovrs, img, cells, n - 1);
    }
  }

  lemma OneCall(m: Module, ovrs: seq<Ovr>, img: seq<byte>, cells: seq<nat>, j: nat, c: nat, a: nat)
    requires Linkable(m, img) && DisjointTargets(Recs(m, img)) && Owns(ovrs, Recs(m, img), j, c, a)
    requires c < |cells| && HasSlot(img, Recs(m, img)[a])
    ensures Slot(img, Recs(m, img)[a]) != 0 && cells[c] == 0
        ==> Calls(m, ovrs, img, cells, 1).1[c] == Slot(img, Recs(m, img)[a])
    ensures cells[c] != 0 ==> Calls(m, ovrs, img, cells, 1).1[c] == cells[c]
  {
    var recs := Recs(m, img);
    assert Calls(m, ovrs, img, cells, 0) == (img, cells);
    assert Calls(m, ovrs, img, cells, 1).1 == Taken(m, ovrs, recs, |recs|, img, cells);
    hide Decodable, AllClear, Recs, Taken, Slot, HasSlot, DisjointTargets, Calls;
    if cells[c] != 0 {
      TakenNever(m, ovrs, recs, |recs|, img, cells, j, c);
    } else if Slot(img, recs[a]) != 0 {
      TakenFirst(m, ovrs, recs, |recs|, img, cells, j, c, a);
    }
  }

  /** After any number of calls, a cell that began at 0 holds what its import was resolved to before
      the first one, and not the hook that now sits in the slot. */
  lemma CellHoldsOriginal(m: Module, ovrs: seq<Ovr>, img: seq<byte>, cells: seq<nat>, j: nat, c: nat, a: nat, n: nat)
    requires Linkable(m, img) && DisjointTargets(Recs(m, img)) && Owns(ovrs, Recs(m, img), j, c, a)
    requires c < |cells| && cells[c] == 0 && n >= 1
    requires HasSlot(img, Recs(m, img)[a]) && Slot(img, Recs(m, img)[a]) != 0
    ensures Calls(m, ovrs, img, cells, n).1[c] == Slot(img, Recs(m, img)[a])
    ensures Slot(img, Recs(m, img)[a]) != HookWord(ovrs, Recs(m, img)[a], j) ==>
              Calls(m, ovrs, img, cells, n).1[c] != Slot(Calls(m, ovrs, img, cells, n).0, Recs(m, img)[a])
  {
    hide *;
    LinkableDecodes(m, img);
    OwnsMeans(ovrs, Recs(m, img), j, c, a);
    var r, one := Recs(m, img)[a], Calls(m, ovrs, img, cells, 1);
    OneCall(m, ovrs, img, cells, j, c, a);
    CallsSplit(m, ovrs, img, cells, n);
    CallsRedirect(m, ovrs, img, cells, n);
    RedirectedSlot(ovrs, Recs(m, img), img, Calls(m, ovrs, img, cells, n).0, r, j);
    CallsKeepCell(m, ovrs, one.0, one.1, j, c, n - 1);
  }

  /** An import that was never resolved is the exception: its slot held 0, the first call hands out
      nothing, and the second hands out the hook. From the second call on, the cell holds the
      original word if and only if that word is not 0. */
  lemma CellHoldsOriginalIff(m: Module, ovrs: seq<Ovr>, img: seq<byte>, cells: seq<nat>, j: nat, c: nat, a: nat, n: nat)
    requires Linkable(m, img) && DisjointTargets(Recs(m, img)) && Owns(ovrs, Recs(m, img), j, c, a)
    requires c < |cells| && cells[c] == 0 && n >= 2
    requires HasSlot(img, Recs(m, img)[a]) && HookWord(ovrs, Recs(m, img)[a], j) != 0
    ensures Calls(m, ovrs, img, cells, n).1[c] == Slot(img, Recs(m, img)[a]) <==> Slot(img, Recs(m, img)[a]) != 0
  {
    hide *;
    LinkableDecodes(m, img);
    OwnsMeans(ovrs, Recs(m, img), j, c, a);
    var r := Recs(m, img)[a];
    if Slot(img, r) != 0 {
      CellHoldsOriginal(m, ovrs, img, cells, j, c, a, n);
    } else {
      var one := Calls(m, ovrs, img, cells, 1);
      LinkableDecodes(m, one.0);
      CallsRedirect(m, ovrs, img, cells, 1);
      RedirectedSlot(ovrs, Recs(m, img), img, one.0, r, j);
      CallsSplit(m, ovrs, img, cells, n);
      CallsSplit(m, ovrs, one.0, one.1, n - 1);
      var two := Calls(m, ovrs, one.0, one.1, 1);
      OneCall(m, ovrs, one.0, one.1, j, c, a);
      CallsKeepCell(m, ovrs, two.0, two.1, j, c, n - 2);
    }
  }
}
