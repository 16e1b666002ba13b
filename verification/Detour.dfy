/** detour_install (src/shadows.c:63-94): the first 20 bytes of a function are copied to a trampoline
    that jumps back behind them, and the function itself jumps to a hook. On a small abstract machine,
    a program detoured through a hook that calls the trampoline behaves as it did before. */
module Detour {
  import opened Prelude
  import opened CodePatch

  const DETOUR_LEN: nat := 20
  const MAX_INSTR: nat := 15

  type Addr = nat
  type Code = Addr -> byte

  // ----- the machine -----

  /** Where control goes after an instruction, and what becomes of registers and memory. */
  datatype Effect<D> = Fall(data: D) | Jump(target: Addr, data: D) | Call(target: Addr, data: D) | Ret(data: D)

  /** length decodes a window of 15 bytes; exec runs the bytes of one instruction at an address. */
  datatype Isa<!D> = Isa(length: seq<byte> -> nat, exec: (seq<byte>, Addr, D) -> Effect<D>)

  /** The return stack is kept apart from the rest of memory. */
  datatype Config<D> = Config(pc: Addr, stack: seq<Addr>, data: D)

  predicate IsFar(w: seq<byte>) { |w| >= FAR_LEN && w[..6] == FAR_HEAD }

  /** Decoding looks no further than the instruction, and knows the absolute jump. */
  ghost predicate Valid<D>(isa: Isa<D>) {
    && (forall w: seq<byte> | |w| == MAX_INSTR ::
          1 <= isa.length(w) <= MAX_INSTR && (IsFar(w) ==> isa.length(w) == FAR_LEN))
    && (forall w: seq<byte>, v: seq<byte> | |w| == |v| == MAX_INSTR && AgreeOn(w, v, isa.length(w)) ::
        isa.length(v) == isa.length(w))
  }

  predicate AgreeOn(w: seq<byte>, v: seq<byte>, n: nat) { n <= |w| && n <= |v| && w[..n] == v[..n] }

  function Window(code: Code, a: Addr): (w: seq<byte>)
    ensures |w| == MAX_INSTR
  {
    seq(MAX_INSTR, i requires 0 <= i < MAX_INSTR => code(a + i))
  }

  ghost function Instr<D>(isa: Isa<D>, code: Code, a: Addr): (b: seq<byte>)
    requires Valid(isa)
    ensures 1 <= |b| == isa.length(Window(code, a)) <= MAX_INSTR && b == Window(code, a)[..|b|]
  {
    Window(code, a)[..isa.length(Window(code, a))]
  }

  function Pop<D>(stack: seq<Addr>, data: D): Option<Config<D>> {
    if stack == [] then None else Some(Config(stack[|stack| - 1], stack[..|stack| - 1], data))
  }

  function Run1<D>(isa: Isa<D>, b: seq<byte>, c: Config<D>): Option<Config<D>> {
    if IsFar(b) then Some(c.(pc := Le8(b[6..14])))
    else match isa.exec(b, c.pc, c.data)
      case Fall(d) => Some(Config(c.pc + |b|, c.stack, d))
      case Jump(t, d) => Some(Config(t, c.stack, d))
      case Call(t, d) => Some(Config(t, c.stack + [c.pc + |b|], d))
      case Ret(d) => Pop(c.stack, d)
  }

  /** One step of a program; None when it returns from its outermost call. */
  ghost function Next<D>(isa: Isa<D>, code: Code, c: Config<D>): Option<Config<D>>
    requires Valid(isa)
  {
    Run1(isa, Instr(isa, code, c.pc), c)
  }

  // ----- the detour -----

  /** fn is detoured to hook; tramp is the trampoline, and ret the return address within the hook. */
  datatype Detour = Detour(fn: Addr, hook: Addr, ret: Addr, tramp: Addr)

  function FarJump(target: Addr): (b: seq<byte>)
    ensures |b| == FAR_LEN
  {
    FAR_HEAD + Bytes8(target)
  }

  /** The program once the detour is installed. */
  function Detoured(code: Code, d: Detour): Code {
    (a: Addr) =>
      if d.fn <= a < d.fn + FAR_LEN then FarJump(d.hook)[a - d.fn]
      else if d.tramp <= a < d.tramp + DETOUR_LEN then code(d.fn + (a - d.tramp))
      else if d.tramp + DETOUR_LEN <= a < d.tramp + DETOUR_LEN + FAR_LEN then
        FarJump(d.fn + DETOUR_LEN)[a - d.tramp - DETOUR_LEN]
      else code(a)
  }

  /** The hook passes its arguments on to the trampoline and returns its result
      (src/shadows.c:104-106): seen from outside it is a call of the trampoline and a return. */
  ghost function HookedNext<D>(isa: Isa<D>, code: Code, d: Detour, c: Config<D>): Option<Config<D>>
    requires Valid(isa)
  {
    if c.pc == d.hook then Some(Config(d.tramp, c.stack + [d.ret], c.data))
    else if c.pc == d.ret then Pop(c.stack, c.data)
    else Next(isa, Detoured(code, d), c)
  }

  /** An instruction that does the same everywhere and falls through. */
  ghost predicate StraightLine<D(!new)>(isa: Isa<D>, b: seq<byte>) {
    !IsFar(b) && forall p: Addr, q: Addr, x: D :: isa.exec(b, p, x).Fall? && isa.exec(b, p, x) == isa.exec(b, q, x)
  }

  /** From offset i on, the first 20 bytes at fn are whole straight-line instructions. */
  ghost predicate Prologue<D(!new)>(isa: Isa<D>, code: Code, fn: Addr, i: nat)
    requires Valid(isa)
    decreases DETOUR_LEN - i
  {
    if i >= DETOUR_LEN then i == DETOUR_LEN
    else StraightLine(isa, Instr(isa, code, fn + i)) && Prologue(isa, code, fn, i + |Instr(isa, code, fn + i)|)
  }

  /** The places only the detour uses. */
  predicate Fresh(d: Detour, a: Addr) { a == d.hook || a == d.ret || d.tramp <= a < d.tramp + 2 * DETOUR_LEN }

  ghost predicate Installable<D(!new)>(isa: Isa<D>, code: Code, d: Detour) {
    && Valid(isa) && Prologue(isa, code, d.fn, 0)
    && d.hook < TWO_64 && d.fn + DETOUR_LEN < TWO_64 && d.hook != d.ret
    && (forall a: Addr | d.fn <= a <= d.fn + DETOUR_LEN :: !Fresh(d, a))
    && !(d.tramp <= d.hook < d.tramp + 2 * DETOUR_LEN) && !(d.tramp <= d.ret < d.tramp + 2 * DETOUR_LEN)
  }

  /** Strictly inside the bytes that are overwritten. */
  predicate Inside(d: Detour, a: Addr) { d.fn < a < d.fn + FAR_LEN }

  /** The instruction at a has no byte in the overwritten part or in the trampoline. */
  ghost predicate Clear<D>(isa: Isa<D>, code: Code, d: Detour, a: Addr)
    requires Valid(isa)
  {
    var n := |Instr(isa, code, a)|;
    && (a + n <= d.fn || d.fn + FAR_LEN <= a)
    && (a + n <= d.tramp || d.tramp + 2 * DETOUR_LEN <= a)
  }

  /** What the original program must not do: run or return to the detour's own places, or run an
      instruction that overlaps the overwritten bytes from outside. */
  ghost predicate Behaves<D>(isa: Isa<D>, code: Code, d: Detour, c: Config<D>)
    requires Valid(isa)
  {
    && !Fresh(d, c.pc) && d.ret !in c.stack
    && (c.pc == d.fn || Inside(d, c.pc) || Clear(isa, code, d, c.pc))
  }

  /** A step enters the overwritten bytes only at their start, or within them. */
  predicate NoJumpInside<D>(d: Detour, c: Config<D>, n: Config<D>) {
    Inside(d, n.pc) ==> d.fn <= c.pc < d.fn + FAR_LEN
  }

  // ----- the simulation -----

  /** The stack without the return addresses into the hook. */
  function Erase(ret: Addr, stack: seq<Addr>): (s: seq<Addr>)
    ensures ret !in s
  {
    if stack == [] then []
    else if stack[|stack| - 1] == ret then Erase(ret, stack[..|stack| - 1])
    else Erase(ret, stack[..|stack| - 1]) + [stack[|stack| - 1]]
  }

  /** The detoured program (p) is where the original (o) is: at the same place, in the hook before the
      call, in the trampoline, or in the hook after it. */
  ghost predicate Sim<D(!new)>(isa: Isa<D>, code: Code, d: Detour, o: Config<D>, p: Config<D>)
    requires Valid(isa)
  {
    && p.data == o.data
    && if p.pc == d.ret then Erase(d.ret, p.stack) == o.stack + [o.pc] && !Inside(d, o.pc)
       else
         && Erase(d.ret, p.stack) == o.stack
         && if p.pc == d.hook then o.pc == d.fn
            else if d.tramp <= p.pc <= d.tramp + DETOUR_LEN then
              o.pc == d.fn + (p.pc - d.tramp) && Prologue(isa, code, d.fn, p.pc - d.tramp)
            else p.pc == o.pc && !Inside(d, o.pc)
  }

  /** p gets to q in n steps of the detoured program. */
  ghost predicate Reaches<D>(isa: Isa<D>, code: Code, d: Detour, p: Config<D>, q: Config<D>, n: nat)
    requires Valid(isa)
    decreases n
  {
    if n == 0 then q == p
    else var m := HookedNext(isa, code, d, p);
      m.Some? && Reaches(isa, code, d, m.value, q, n - 1)
  }

  ghost predicate Gets<D>(isa: Isa<D>, code: Code, d: Detour, p: Config<D>, q: Config<D>)
    requires Valid(isa)
  {
    exists n: nat :: Reaches(isa, code, d, p, q, n)
  }

  lemma {:induction false} ReachesTrans<D>(isa: Isa<D>, code: Code, d: Detour, p: Config<D>, q: Config<D>,
      r: Config<D>, n: nat, m: nat)
    requires Valid(isa) && Reaches(isa, code, d, p, q, n) && Reaches(isa, code, d, q, r, m)
    ensures Reaches(isa, code, d, p, r, n + m)
    decreases n
  {
    hide Valid, HookedNext;
    if n == 0 {
    } else {
      ReachesTrans(isa, code, d, HookedNext(isa, code, d, p).value, q, r, n - 1, m);
    }
  }

  lemma GetsTrans<D>(isa: Isa<D>, code: Code, d: Detour, p: Config<D>, q: Config<D>, r: Config<D>)
    requires Valid(isa) && Gets(isa, code, d, p, q) && Gets(isa, code, d, q, r)
    ensures Gets(isa, code, d, p, r)
  {
    var n: nat :| Reaches(isa, code, d, p, q, n);
    var m: nat :| Reaches(isa, code, d, q, r, m);
    ReachesTrans(isa, code, d, p, q, r, n, m);
  }

  lemma GetsNext<D>(isa: Isa<D>, code: Code, d: Detour, p: Config<D>)
    requires Valid(isa) && HookedNext(isa, code, d, p).Some?
    ensures Gets(isa, code, d, p, HookedNext(isa, code, d, p).value)
  {
    var q := HookedNext(isa, code, d, p).value;
    assert Reaches(isa, code, d, q, q, 0);
    assert Reaches(isa, code, d, p, q, 1);
  }

  lemma GetsSelf<D>(isa: Isa<D>, code: Code, d: Detour, p: Config<D>)
    requires Valid(isa)
    ensures Gets(isa, code, d, p, p)
  {
    assert Reaches(isa, code, d, p, p, 0);
  }

  /** The bytes of an instruction decide how it decodes, wherever it stands. */
  lemma SameInstr<D>(isa: Isa<D>, code: Code, a: Addr, other: Code, b: Addr)
    requires Valid(isa)
    requires forall i | 0 <= i < |Instr(isa, code, a)| :: Window(other, b)[i] == Window(code, a)[i]
    ensures Instr(isa, other, b) == Instr(isa, code, a)
  {
    var w, v := Window(code, a), Window(other, b);
    var n := isa.length(w);
    assert n == |Instr(isa, code, a)| <= MAX_INSTR;
    hide Window;
    assert v[..n] == w[..n];
    assert AgreeOn(w, v, n);
  }

  lemma ClearInstr<D>(isa: Isa<D>, code: Code, d: Detour, a: Addr)
    requires Valid(isa) && Clear(isa, code, d, a)
    ensures Instr(isa, Detoured(code, d), a) == Instr(isa, code, a)
  {
    hide Valid;
    SameInstr(isa, code, a, Detoured(code, d), a);
  }

  lemma PrologueNext<D(!new)>(isa: Isa<D>, code: Code, fn: Addr, i: nat)
    requires Valid(isa) && Prologue(isa, code, fn, i) && i < DETOUR_LEN
    ensures StraightLine(isa, Instr(isa, code, fn + i))
    ensures Prologue(isa, code, fn, i + |Instr(isa, code, fn + i)|) && i + |Instr(isa, code, fn + i)| <= DETOUR_LEN
  {
    hide Valid, Instr, StraightLine;
  }

  /** The copy of a prologue instruction in the trampoline. */
  lemma CopiedInstr<D(!new)>(isa: Isa<D>, code: Code, d: Detour, i: nat)
    requires Valid(isa) && Apart(d) && i < DETOUR_LEN && Prologue(isa, code, d.fn, i)
    ensures Instr(isa, Detoured(code, d), d.tramp + i) == Instr(isa, code, d.fn + i)
  {
    hide *;
    var a, b, other := d.fn + i, d.tramp + i, Detoured(code, d);
    PrologueNext(isa, code, d.fn, i);
    forall k | 0 <= k < |Instr(isa, code, a)|
      ensures Window(other, b)[k] == Window(code, a)[k]
    {
      CopiedWindow(code, d, i, k);
    }
    SameInstr(isa, code, a, other, b);
  }

  predicate Apart(d: Detour) { d.tramp + 2 * DETOUR_LEN <= d.fn || d.fn + DETOUR_LEN < d.tramp }

  lemma CopiedWindow(code: Code, d: Detour, i: nat, k: nat)
    requires Apart(d) && i + k < DETOUR_LEN && k < MAX_INSTR
    ensures Window(Detoured(code, d), d.tramp + i)[k] == Window(code, d.fn + i)[k]
  {
    hide FarJump;
  }

  lemma PlantedWindows(code: Code, d: Detour)
    requires Apart(d)
    ensures Window(Detoured(code, d), d.fn)[..FAR_LEN] == FarJump(d.hook)
    ensures Window(Detoured(code, d), d.tramp + DETOUR_LEN)[..FAR_LEN] == FarJump(d.fn + DETOUR_LEN)
  {
    hide FarJump;
  }

  lemma TrampolineApart<D(!new)>(isa: Isa<D>, code: Code, d: Detour)
    requires Installable(isa, code, d)
    ensures Apart(d)
  {
    hide Valid, Prologue;
    assert !Fresh(d, d.fn) && !Fresh(d, d.fn + DETOUR_LEN) && Fresh(d, d.tramp);
  }

  /** A jump planted at a decodes as that jump. */
  lemma PlantedJump<D>(isa: Isa<D>, code: Code, a: Addr, target: Addr)
    requires Valid(isa) && target < TWO_64
    requires Window(code, a)[..FAR_LEN] == FarJump(target)
    ensures IsFar(Instr(isa, code, a)) && Le8(Instr(isa, code, a)[6..14]) == target
  {
    var w, j := Window(code, a), FarJump(target);
    hide Window, Bytes8, Le8;
    assert j[..6] == FAR_HEAD && j[6..14] == Bytes8(target);
    assert w[..6] == j[..6];
    assert IsFar(w);
    var b := Instr(isa, code, a);
    assert b == w[..FAR_LEN] == j;
    Le8Bytes8(target);
  }

  // ----- the steps that only the detoured program makes -----

  lemma InstallableMeans<D(!new)>(isa: Isa<D>, code: Code, d: Detour)
    requires Installable(isa, code, d)
    ensures Valid(isa) && Prologue(isa, code, d.fn, 0) && Apart(d)
    ensures d.hook < TWO_64 && d.fn + DETOUR_LEN < TWO_64
    ensures !Fresh(d, d.fn) && !Fresh(d, d.fn + DETOUR_LEN) && d.hook != d.ret
    ensures d.tramp + DETOUR_LEN != d.hook && d.tramp + DETOUR_LEN != d.ret
  {
    hide Valid, Prologue;
    TrampolineApart(isa, code, d);
  }

  lemma FarStep<D>(isa: Isa<D>, b: seq<byte>, c: Config<D>)
    requires IsFar(b)
    ensures Run1(isa, b, c) == Some(c.(pc := Le8(b[6..14])))
  {
    hide Le8;
  }

  lemma UnhookedStep<D>(isa: Isa<D>, code: Code, d: Detour, c: Config<D>)
    requires Valid(isa) && c.pc != d.hook && c.pc != d.ret
    ensures HookedNext(isa, code, d, c) == Run1(isa, Instr(isa, Detoured(code, d), c.pc), c)
  {
    hide Valid, Run1, Instr, Detoured;
  }

  /** The two jumps of the detour, where they were planted. */
  lemma PlantedSteps<D(!new)>(isa: Isa<D>, code: Code, d: Detour, c: Config<D>)
    requires Valid(isa) && Installable(isa, code, d)
    ensures c.pc == d.fn ==> HookedNext(isa, code, d, c) == Some(c.(pc := d.hook))
    ensures c.pc == d.tramp + DETOUR_LEN ==> HookedNext(isa, code, d, c) == Some(c.(pc := d.fn + DETOUR_LEN))
  {
    hide Installable, Valid, HookedNext, Run1, Instr, Detoured, Apart, Prologue, Window, FarJump, IsFar, Le8;
    InstallableMeans(isa, code, d);
    PlantedWindows(code, d);
    if c.pc == d.fn {
      PlantedJump(isa, Detoured(code, d), d.fn, d.hook);
      UnhookedStep(isa, code, d, c);
      FarStep(isa, Instr(isa, Detoured(code, d), d.fn), c);
    }
    if c.pc == d.tramp + DETOUR_LEN {
      PlantedJump(isa, Detoured(code, d), d.tramp + DETOUR_LEN, d.fn + DETOUR_LEN);
      UnhookedStep(isa, code, d, c);
      FarStep(isa, Instr(isa, Detoured(code, d), c.pc), c);
    }
  }

  /** Entering the hook and leaving it. */
  lemma HookSteps<D>(isa: Isa<D>, code: Code, d: Detour, c: Config<D>)
    requires Valid(isa) && d.hook != d.ret
    ensures c.pc == d.hook ==> HookedNext(isa, code, d, c) == Some(Config(d.tramp, c.stack + [d.ret], c.data))
    ensures c.pc == d.ret ==> HookedNext(isa, code, d, c) == Pop(c.stack, c.data)
  {
    hide Valid, Next;
  }

  lemma ErasePush(ret: Addr, stack: seq<Addr>, a: Addr)
    ensures Erase(ret, stack + [a]) == if a == ret then Erase(ret, stack) else Erase(ret, stack) + [a]
  {
    assert (stack + [a])[..|stack|] == stack;
  }

  /** The next step of the detoured program is the original's. */
  ghost predicate Ready<D(!new)>(isa: Isa<D>, code: Code, d: Detour, o: Config<D>, p: Config<D>)
    requires Valid(isa)
  {
    Sim(isa, code, d, o, p) && p.pc != d.ret && p.pc != d.hook && p.pc != d.fn && p.pc != d.tramp + DETOUR_LEN
  }

  /** From the start of the function through the hook into the trampoline. */
  lemma EnterTrampoline<D(!new)>(isa: Isa<D>, code: Code, d: Detour, o: Config<D>, p: Config<D>) returns (q: Config<D>)
    requires Valid(isa) && Installable(isa, code, d) && Sim(isa, code, d, o, p)
    requires p.pc == d.hook || p.pc == d.fn
    ensures Gets(isa, code, d, p, q) && Ready(isa, code, d, o, q)
  {
    hide Valid, Installable, Prologue, HookedNext, Gets, Apart, Detoured, Instr;
    InstallableMeans(isa, code, d);
    var h := p.(pc := d.hook);
    if p.pc == d.fn {
      PlantedSteps(isa, code, d, p);
      GetsNext(isa, code, d, p);
    } else {
      GetsSelf(isa, code, d, p);
    }
    HookSteps(isa, code, d, h);
    GetsNext(isa, code, d, h);
    q := Config(d.tramp, p.stack + [d.ret], p.data);
    GetsTrans(isa, code, d, p, h, q);
    ErasePush(d.ret, p.stack, d.ret);
    TrampolineStart(isa, code, d);
  }

  lemma TrampolineStart<D(!new)>(isa: Isa<D>, code: Code, d: Detour)
    requires Installable(isa, code, d)
    ensures d.tramp != d.hook && d.tramp != d.ret && d.tramp != d.fn
  {
    hide Valid, Prologue;
    assert Fresh(d, d.tramp) && !Fresh(d, d.fn);
  }

  /** From the hook, and hooks of hooks, back to the caller. */
  lemma {:induction false} LeaveHook<D(!new)>(isa: Isa<D>, code: Code, d: Detour, o: Config<D>, p: Config<D>)
      returns (q: Config<D>)
    requires Valid(isa) && Installable(isa, code, d) && Sim(isa, code, d, o, p) && p.pc == d.ret && !Fresh(d, o.pc)
    ensures Gets(isa, code, d, p, q) && Sim(isa, code, d, o, q) && q.pc == o.pc
    decreases |p.stack|
  {
    hide Valid, Installable, Prologue, HookedNext, Gets, Apart, Detoured, Instr;
    InstallableMeans(isa, code, d);
    HookSteps(isa, code, d, p);
    GetsNext(isa, code, d, p);
    var top, rest := p.stack[|p.stack| - 1], p.stack[..|p.stack| - 1];
    q := Config(top, rest, p.data);
    if top == d.ret {
      var r := q;
      q := LeaveHook(isa, code, d, o, r);
      GetsTrans(isa, code, d, p, r, q);
    } else {
      assert Fresh(d, d.tramp + DETOUR_LEN);
      LastAndInit(Erase(d.ret, rest), top, o.stack, o.pc);
    }
  }

  lemma LastAndInit(a: seq<Addr>, x: Addr, b: seq<Addr>, y: Addr)
    requires a + [x] == b + [y]
    ensures a == b && x == y
  {
    assert (a + [x])[..|a|] == a && (b + [y])[..|b|] == b;
    assert (a + [x])[|a|] == x && (b + [y])[|b|] == y;
  }

  /** In finitely many steps of its own the detoured program comes to one of the original's. */
  lemma Settle<D(!new)>(isa: Isa<D>, code: Code, d: Detour, o: Config<D>, p: Config<D>) returns (q: Config<D>)
    requires Valid(isa) && Installable(isa, code, d) && Sim(isa, code, d, o, p) && !Fresh(d, o.pc)
    ensures Gets(isa, code, d, p, q) && Ready(isa, code, d, o, q)
  {
    hide Valid, Installable, Prologue, HookedNext, Gets, Apart, Detoured, Instr, Erase;
    InstallableMeans(isa, code, d);
    if p.pc == d.ret {
      var r := LeaveHook(isa, code, d, o, p);
      if r.pc == d.fn {
        q := EnterTrampoline(isa, code, d, o, r);
        GetsTrans(isa, code, d, p, r, q);
      } else {
        q := r;
      }
    } else if p.pc == d.hook || p.pc == d.fn {
      q := EnterTrampoline(isa, code, d, o, p);
    } else if p.pc == d.tramp + DETOUR_LEN {
      PlantedSteps(isa, code, d, p);
      GetsNext(isa, code, d, p);
      q := p.(pc := d.fn + DETOUR_LEN);
    } else {
      GetsSelf(isa, code, d, p);
      q := p;
    }
  }

  // ----- the steps they share -----

  /** Within the trampoline. */
  lemma TrampolineStep<D(!new)>(isa: Isa<D>, code: Code, d: Detour, o: Config<D>, p: Config<D>)
    requires Valid(isa) && Installable(isa, code, d) && Ready(isa, code, d, o, p)
        && d.tramp <= p.pc < d.tramp + DETOUR_LEN
    ensures Next(isa, code, o).Some? && HookedNext(isa, code, d, p).Some?
    ensures Sim(isa, code, d, Next(isa, code, o).value, HookedNext(isa, code, d, p).value)
  {
    hide Installable, Valid, Prologue, Detoured, Apart, Instr, Erase, HookedNext, StraightLine;
    InstallableMeans(isa, code, d);
    var i := p.pc - d.tramp;
    var b := Instr(isa, code, d.fn + i);
    PrologueNext(isa, code, d.fn, i);
    CopiedInstr(isa, code, d, i);
    UnhookedStep(isa, code, d, p);
    var x := StraightStep(isa, b, o, p);
    TrampolineOwn(isa, code, d, i + |b|);
  }

  lemma TrampolineOwn<D(!new)>(isa: Isa<D>, code: Code, d: Detour, i: nat)
    requires Installable(isa, code, d) && i <= DETOUR_LEN
    ensures d.tramp + i != d.hook && d.tramp + i != d.ret
  {
    hide Valid, Prologue;
  }

  /** A straight-line instruction does the same at both places. */
  lemma StraightStep<D(!new)>(isa: Isa<D>, b: seq<byte>, o: Config<D>, p: Config<D>) returns (x: D)
    requires StraightLine(isa, b) && o.data == p.data
    ensures Run1(isa, b, o) == Some(Config(o.pc + |b|, o.stack, x))
    ensures Run1(isa, b, p) == Some(Config(p.pc + |b|, p.stack, x))
  {
    assert isa.exec(b, o.pc, o.data) == isa.exec(b, p.pc, o.data);
    x := isa.exec(b, o.pc, o.data).data;
  }

  /** The configurations agree but for return addresses into the hook. */
  predicate SameButHooks<D(==)>(d: Detour, o: Config<D>, p: Config<D>) {
    && p.data == o.data
    && (if p.pc == d.ret then Erase(d.ret, p.stack) == o.stack + [o.pc]
        else p.pc == o.pc && Erase(d.ret, p.stack) == o.stack)
  }

  lemma SharedReturn<D>(d: Detour, o: Config<D>, p: Config<D>, x: D)
    requires Erase(d.ret, p.stack) == o.stack && o.stack != [] && d.ret !in o.stack
    ensures Pop(o.stack, x).Some? && Pop(p.stack, x).Some?
        && SameButHooks(d, Pop(o.stack, x).value, Pop(p.stack, x).value)
  {
    var n := |o.stack| - 1;
    var top, rest := p.stack[|p.stack| - 1], p.stack[..|p.stack| - 1];
    assert o.stack == o.stack[..n] + [o.stack[n]];
    if top != d.ret {
      LastAndInit(Erase(d.ret, rest), top, o.stack[..n], o.stack[n]);
    }
  }

  /** The same instruction at the same place: only a return can tell the stacks apart. */
  lemma SharedStep<D>(isa: Isa<D>, b: seq<byte>, d: Detour, o: Config<D>, p: Config<D>)
    requires p.pc == o.pc && p.data == o.data && Erase(d.ret, p.stack) == o.stack && Run1(isa, b, o).Some?
    requires Run1(isa, b, o).value.pc != d.ret && d.ret !in Run1(isa, b, o).value.stack
    ensures Run1(isa, b, p).Some? && SameButHooks(d, Run1(isa, b, o).value, Run1(isa, b, p).value)
  {
    hide IsFar, Le8, Erase;
    if !IsFar(b) {
      match isa.exec(b, o.pc, o.data)
      case Fall(x) =>
      case Jump(t, x) =>
      case Call(t, x) =>
        assert (o.stack + [o.pc + |b|])[|o.stack|] == o.pc + |b|;
        ErasePush(d.ret, p.stack, o.pc + |b|);
      case Ret(x) =>
        SharedReturn(d, o, p, x);
    }
  }

  /** Outside the overwritten bytes. */
  lemma PlainStep<D(!new)>(isa: Isa<D>, code: Code, d: Detour, o: Config<D>, p: Config<D>)
    requires Valid(isa) && Installable(isa, code, d) && Ready(isa, code, d, o, p)
        && !(d.tramp <= p.pc < d.tramp + DETOUR_LEN)
    requires Behaves(isa, code, d, o) && Next(isa, code, o).Some?
    requires Behaves(isa, code, d, Next(isa, code, o).value) && NoJumpInside(d, o, Next(isa, code, o).value)
    ensures HookedNext(isa, code, d, p).Some?
    ensures Sim(isa, code, d, Next(isa, code, o).value, HookedNext(isa, code, d, p).value)
  {
    hide Installable, Valid, Prologue, Detoured, Apart, Instr, Erase, HookedNext, Run1, Clear;
    ClearInstr(isa, code, d, o.pc);
    UnhookedStep(isa, code, d, p);
    SharedStep(isa, Instr(isa, code, o.pc), d, o, p);
  }

  /** Every step of the original is matched by one or more of the detoured program. */
  lemma StepSimulates<D(!new)>(isa: Isa<D>, code: Code, d: Detour, o: Config<D>, p: Config<D>) returns (q: Config<D>)
    requires Valid(isa) && Installable(isa, code, d) && Sim(isa, code, d, o, p)
    requires Behaves(isa, code, d, o) && Next(isa, code, o).Some?
    requires Behaves(isa, code, d, Next(isa, code, o).value) && NoJumpInside(d, o, Next(isa, code, o).value)
    ensures Gets(isa, code, d, p, q) && Sim(isa, code, d, Next(isa, code, o).value, q)
  {
    assert !Fresh(d, o.pc);
    hide *;
    var r := Settle(isa, code, d, o, p);
    if d.tramp <= r.pc < d.tramp + DETOUR_LEN {
      TrampolineStep(isa, code, d, o, r);
    } else {
      PlainStep(isa, code, d, o, r);
    }
    GetsNext(isa, code, d, r);
    q := HookedNext(isa, code, d, r).value;
    GetsTrans(isa, code, d, p, r, q);
  }

  // ----- whole runs -----

  /** A run of the original program that keeps off the detour. */
  ghost predicate IsRun<D>(isa: Isa<D>, code: Code, d: Detour, run: seq<Config<D>>)
    requires Valid(isa)
  {
    && run != []
    && (forall i | 0 <= i < |run| :: Behaves(isa, code, d, run[i]))
    && (forall i | 0 <= i < |run| - 1 ::
          Next(isa, code, run[i]) == Some(run[i + 1]) && NoJumpInside(d, run[i], run[i + 1]))
  }

  lemma {:induction false} EraseNothing(ret: Addr, stack: seq<Addr>)
    requires ret !in stack
    ensures Erase(ret, stack) == stack
  {
    if stack == [] {
    } else {
      EraseNothing(ret, stack[..|stack| - 1]);
      assert stack == stack[..|stack| - 1] + [stack[|stack| - 1]];
    }
  }

  lemma StartSim<D(!new)>(isa: Isa<D>, code: Code, d: Detour, c: Config<D>)
    requires Valid(isa) && Installable(isa, code, d) && Behaves(isa, code, d, c) && !Inside(d, c.pc)
    ensures Sim(isa, code, d, c, c)
  {
    hide Valid, Installable, Clear, Prologue;
    EraseNothing(d.ret, c.stack);
    assert Fresh(d, d.tramp + DETOUR_LEN);
  }

  /** Started at the same place, the detoured program gets to every point of the run, with the same
      registers and memory and, but for the hook's own frames, the same return stack. Calls of fn
      from within fn are calls like any other. */
  lemma {:induction false} DetourSimulates<D(!new)>(isa: Isa<D>, code: Code, d: Detour, run: seq<Config<D>>, i: nat)
      returns (q: Config<D>)
    requires Valid(isa) && Installable(isa, code, d) && IsRun(isa, code, d, run) && !Inside(d, run[0].pc) && i < |run|
    ensures Gets(isa, code, d, run[0], q) && Sim(isa, code, d, run[i], q)
  {
    hide Valid, Installable, Behaves, NoJumpInside, Gets, Sim, Next;
    if i == 0 {
      StartSim(isa, code, d, run[0]);
      GetsSelf(isa, code, d, run[0]);
      q := run[0];
    } else {
      var p := DetourSimulates(isa, code, d, run, i - 1);
      assert Next(isa, code, run[i - 1]) == Some(run[i]) && NoJumpInside(d, run[i - 1], run[i]);
      q := StepSimulates(isa, code, d, run[i - 1], p);
      GetsTrans(isa, code, d, run[0], p, q);
    }
  }

  /** Where the original program ends, so does the detoured one. */
  lemma HaltsToo<D(!new)>(isa: Isa<D>, code: Code, d: Detour, o: Config<D>, p: Config<D>) returns (q: Config<D>)
    requires Valid(isa) && Installable(isa, code, d) && Sim(isa, code, d, o, p) && Behaves(isa, code, d, o)
    requires Next(isa, code, o).None?
    ensures Gets(isa, code, d, p, q) && HookedNext(isa, code, d, q).None?
  {
    assert !Fresh(d, o.pc);
    hide *;
    var r := Settle(isa, code, d, o, p);
    if d.tramp <= r.pc < d.tramp + DETOUR_LEN {
      TrampolineStep(isa, code, d, o, r);
      assert false;
    }
    q := PlainHalt(isa, code, d, o, r);
    GetsTrans(isa, code, d, p, r, q);
  }

  lemma PlainHalt<D(!new)>(isa: Isa<D>, code: Code, d: Detour, o: Config<D>, p: Config<D>) returns (q: Config<D>)
    requires Valid(isa) && Installable(isa, code, d) && Ready(isa, code, d, o, p)
        && !(d.tramp <= p.pc < d.tramp + DETOUR_LEN)
    requires Behaves(isa, code, d, o) && Next(isa, code, o).None?
    ensures Gets(isa, code, d, p, q) && HookedNext(isa, code, d, q).None?
  {
    hide Installable, Valid, Prologue, Detoured, Apart, Instr, Erase, HookedNext, Run1, Clear, Gets;
    ClearInstr(isa, code, d, o.pc);
    UnhookedStep(isa, code, d, p);
    OnlyReturnHalts(isa, Instr(isa, code, o.pc), o, p);
    InstallableMeans(isa, code, d);
    if p.stack == [] {
      GetsSelf(isa, code, d, p);
      q := p;
    } else {
      ErasedOne(d.ret, p.stack);
      GetsNext(isa, code, d, p);
      var t := HookedNext(isa, code, d, p).value;
      q := Unwind(isa, code, d, t);
      GetsTrans(isa, code, d, p, t, q);
    }
  }

  lemma OnlyReturnHalts<D>(isa: Isa<D>, b: seq<byte>, o: Config<D>, r: Config<D>)
    requires Run1(isa, b, o).None? && r.pc == o.pc && r.data == o.data
    ensures o.stack == []
    ensures r.stack == [] ==> Run1(isa, b, r).None?
    ensures r.stack != [] ==>
              Run1(isa, b, r).Some? && Run1(isa, b, r).value.pc == r.stack[|r.stack| - 1]
              && Run1(isa, b, r).value.stack == r.stack[..|r.stack| - 1]
  {
  }

  lemma ErasedOne(ret: Addr, stack: seq<Addr>)
    requires Erase(ret, stack) == [] && stack != []
    ensures stack[|stack| - 1] == ret && Erase(ret, stack[..|stack| - 1]) == []
  {
  }

  /** Hooks that nobody called return to nobody. */
  lemma {:induction false} Unwind<D>(isa: Isa<D>, code: Code, d: Detour, p: Config<D>) returns (q: Config<D>)
    requires Valid(isa) && d.hook != d.ret && p.pc == d.ret && Erase(d.ret, p.stack) == []
    ensures Gets(isa, code, d, p, q) && HookedNext(isa, code, d, q).None?
    decreases |p.stack|
  {
    hide Valid, HookedNext, Gets, Erase;
    HookSteps(isa, code, d, p);
    if p.stack == [] {
      GetsSelf(isa, code, d, p);
      q := p;
    } else {
      ErasedOne(d.ret, p.stack);
      GetsNext(isa, code, d, p);
      var r := Config(d.ret, p.stack[..|p.stack| - 1], p.data);
      q := Unwind(isa, code, d, r);
      GetsTrans(isa, code, d, p, r, q);
    }
  }

  /** n steps of the original program. */
  ghost predicate Goes<D>(isa: Isa<D>, code: Code, p: Config<D>, q: Config<D>, n: nat)
    requires Valid(isa)
    decreases n
  {
    if n == 0 then q == p
    else var m := Next(isa, code, p);
      m.Some? && Goes(isa, code, m.value, q, n - 1)
  }

  /** Running the trampoline is running the original prologue and going on at fn + 20. */
  lemma {:induction false} TrampolineRuns<D(!new)>(isa: Isa<D>, code: Code, d: Detour, i: nat, stack: seq<Addr>, x: D)
    returns (n: nat, y: D)
    requires Valid(isa) && Installable(isa, code, d) && i <= DETOUR_LEN && Prologue(isa, code, d.fn, i)
    ensures Goes(isa, code, Config(d.fn + i, stack, x), Config(d.fn + DETOUR_LEN, stack, y), n)
    ensures Reaches(isa, code, d, Config(d.tramp + i, stack, x), Config(d.fn + DETOUR_LEN, stack, y), n + 1)
    decreases DETOUR_LEN - i
  {
    hide Installable, Valid, Prologue, Detoured, Apart, Instr, HookedNext, StraightLine, Run1;
    var o, p := Config(d.fn + i, stack, x), Config(d.tramp + i, stack, x);
    if i == DETOUR_LEN {
      n, y := 0, x;
      PlantedSteps(isa, code, d, p);
      assert Reaches(isa, code, d, Config(d.fn + DETOUR_LEN, stack, x), Config(d.fn + DETOUR_LEN, stack, x), 0);
    } else {
      var b := Instr(isa, code, d.fn + i);
      InstallableMeans(isa, code, d);
      TrampolineOwn(isa, code, d, i);
      PrologueNext(isa, code, d.fn, i);
      CopiedInstr(isa, code, d, i);
      UnhookedStep(isa, code, d, p);
      var z := StraightStep(isa, b, o, p);
      n, y := TrampolineRuns(isa, code, d, i + |b|, stack, z);
      n := n + 1;
    }
  }

  // ----- an instance -----

  /** One-byte instructions that count, a one-byte return, and the absolute jump. */
  function ToyIsa(): Isa<int> {
    Isa((w: seq<byte>) => if w != [] && w[0] == 0xFF then FAR_LEN else 1,
        (b: seq<byte>, pc: Addr, n: int) => if b == [0xC3] then Ret(n) else Fall(n + 1))
  }

  /** A function at 0x1000 that counts to 20 and returns. */
  function ToyCode(): Code { (a: Addr) => if a == 0x1014 then 0xC3 else 0x90 }

  const TOY_DETOUR := Detour(0x1000, 0x5000, 0x5005, 0x8000)

  function ToyAt(i: nat): Config<int> { if i <= 20 then Config(0x1000 + i, [0x2000], i) else Config(0x2000, [], 20) }

  lemma ToyValid()
    ensures Valid(ToyIsa())
  {
    forall w: seq<byte>, v: seq<byte> | |w| == |v| == MAX_INSTR && AgreeOn(w, v, ToyIsa().length(w))
      ensures ToyIsa().length(v) == ToyIsa().length(w)
    {
      assert w[..ToyIsa().length(w)][0] == v[..ToyIsa().length(w)][0];
    }
    forall w: seq<byte> | |w| == MAX_INSTR && IsFar(w)
      ensures ToyIsa().length(w) == FAR_LEN
    {
      assert w[..6][0] == FAR_HEAD[0];
    }
  }

  lemma ToyInstr(a: Addr)
    requires Valid(ToyIsa())
    ensures Instr(ToyIsa(), ToyCode(), a) == [ToyCode()(a)]
  {
    var w := Window(ToyCode(), a);
    assert w[0] == ToyCode()(a + 0);
    hide Valid;
    assert w[..1] == [w[0]];
  }

  lemma {:induction false} ToyPrologue(i: nat)
    requires Valid(ToyIsa()) && i <= DETOUR_LEN
    ensures Prologue(ToyIsa(), ToyCode(), TOY_DETOUR.fn, i)
    decreases DETOUR_LEN - i
  {
    hide Valid, Instr;
    if i == DETOUR_LEN {
    } else {
      ToyInstr(0x1000 + i);
      ToyPrologue(i + 1);
    }
  }

  lemma ToyInstallable()
    requires Valid(ToyIsa())
    ensures Installable(ToyIsa(), ToyCode(), TOY_DETOUR)
  {
    ToyPrologue(0);
    hide Valid, Prologue;
  }

  lemma ToyBehaves(i: nat)
    requires Valid(ToyIsa()) && i <= 21
    ensures Behaves(ToyIsa(), ToyCode(), TOY_DETOUR, ToyAt(i))
  {
    hide Valid, Instr;
    ToyInstr(ToyAt(i).pc);
  }

  lemma ToyStep(i: nat)
    requires Valid(ToyIsa()) && i <= 20
    ensures Next(ToyIsa(), ToyCode(), ToyAt(i)) == Some(ToyAt(i + 1))
        && NoJumpInside(TOY_DETOUR, ToyAt(i), ToyAt(i + 1))
  {
    hide Valid, Instr;
    ToyInstr(ToyAt(i).pc);
  }

  function ToyRun(): (run: seq<Config<int>>)
    ensures |run| == 22 && forall i | 0 <= i < 22 :: run[i] == ToyAt(i)
  {
    seq(22, i requires 0 <= i => ToyAt(i))
  }

  lemma ToyRuns()
    requires Valid(ToyIsa())
    ensures IsRun(ToyIsa(), ToyCode(), TOY_DETOUR, ToyRun())
  {
    hide Valid, Behaves, Next, NoJumpInside, ToyIsa, ToyCode, ToyAt, ToyRun;
    forall i | 0 <= i < 22
      ensures Behaves(ToyIsa(), ToyCode(), TOY_DETOUR, ToyRun()[i])
    {
      ToyBehaves(i);
    }
    forall i | 0 <= i < 21
      ensures Next(ToyIsa(), ToyCode(), ToyRun()[i]) == Some(ToyRun()[i + 1])
          && NoJumpInside(TOY_DETOUR, ToyRun()[i], ToyRun()[i + 1])
    {
      ToyStep(i);
    }
  }

  /** The hypotheses can be met: here is a detour and a whole run through the detoured function. */
  lemma DetourApplies()
    ensures Valid(ToyIsa()) && Installable(ToyIsa(), ToyCode(), TOY_DETOUR)
    ensures IsRun(ToyIsa(), ToyCode(), TOY_DETOUR, ToyRun())
    ensures ToyRun()[0] == Config(TOY_DETOUR.fn, [0x2000], 0) && ToyRun()[21] == Config(0x2000, [], 20)
  {
    hide Valid, Installable, IsRun;
    ToyValid();
    ToyInstallable();
    ToyRuns();
  }

  // ----- detour_install -----

  /** A text loaded at lo is that part of the program. */
  ghost predicate IsPart(lo: Addr, text: seq<byte>, code: Code) {
    forall i | 0 <= i < |text| :: text[i] == code(lo + i)
  }

  lemma DetouredText(lo: Addr, text: seq<byte>, code: Code, d: Detour)
    requires IsPart(lo, text, code) && lo <= d.fn && d.fn + DETOUR_LEN <= lo + |text|
    requires d.tramp + 2 * DETOUR_LEN <= lo || lo + |text| <= d.tramp
    ensures IsPart(lo, Overlay(text, d.fn - lo, FarJump(d.hook)), Detoured(code, d))
  {
    hide FarJump;
  }

  lemma DetouredBuffer(lo: Addr, text: seq<byte>, code: Code, d: Detour, buf: seq<byte>)
    requires IsPart(lo, text, code) && lo <= d.fn && d.fn + DETOUR_LEN <= lo + |text|
    requires d.tramp + 2 * DETOUR_LEN <= lo || lo + |text| <= d.tramp
    requires |buf| >= DETOUR_LEN + FAR_LEN && buf[..DETOUR_LEN] == text[d.fn - lo..d.fn - lo + DETOUR_LEN]
    requires buf[DETOUR_LEN..DETOUR_LEN + FAR_LEN] == FarJump(d.fn + DETOUR_LEN)
    ensures IsPart(d.tramp, buf[..DETOUR_LEN + FAR_LEN], Detoured(code, d))
  {
    forall i | 0 <= i < DETOUR_LEN + FAR_LEN
      ensures buf[i] == Detoured(code, d)(d.tramp + i)
    {
      if i < DETOUR_LEN {
        assert buf[..DETOUR_LEN][i] == text[d.fn - lo + i];
      } else {
        assert buf[DETOUR_LEN..DETOUR_LEN + FAR_LEN][i - DETOUR_LEN] == buf[i];
      }
    }
    hide FarJump, Detoured;
  }

  /** The calls that can fail: mmap and the first two mprotect calls. */
  datatype Calls = Calls(mapped: bool, sealed: bool, writable: bool)

  /** Lines 75-78: the copied instructions and the jump back. */
  method FillTrampoline(t: Text, fn: Addr, buf: array<byte>)
    requires t.lo <= fn && fn + DETOUR_LEN <= t.lo + t.bytes.Length && buf.Length == 2 * DETOUR_LEN && buf != t.bytes
    modifies buf
    ensures buf[..DETOUR_LEN] == t.bytes[fn - t.lo..fn - t.lo + DETOUR_LEN]
    ensures buf[DETOUR_LEN..DETOUR_LEN + FAR_LEN] == FarJump(fn + DETOUR_LEN)
  {
    forall i | 0 <= i < DETOUR_LEN {
      buf[i] := t.bytes[fn - t.lo + i];
    }
    var back := FarJump(fn + DETOUR_LEN);
    hide FarJump;
    forall i | 0 <= i < FAR_LEN {
      buf[DETOUR_LEN + i] := back[i];
    }
  }

  /** detour_install; the trampoline is mapped at tramp. It is null if a call failed, and then the
      function is as it was. Otherwise text and trampoline are the two parts of the detoured program,
      and no page of the 20 bytes is left writable. */
  method DetourInstall(t: Text, fn: Addr, hook: Addr, tramp: Addr, calls: Calls, ghost code: Code, ghost ret: Addr)
    returns (buf: array?<byte>)
    requires t.page > 0 && IsPart(t.lo, t.bytes[..], code)
    requires t.lo <= fn && fn + DETOUR_LEN <= t.lo + t.bytes.Length
    requires tramp + 2 * DETOUR_LEN <= t.lo || t.lo + t.bytes.Length <= tramp
    modifies t`writable, t.bytes
    ensures buf == null <==> !(calls.mapped && calls.sealed && calls.writable)
    ensures buf == null ==> t.bytes[..] == old(t.bytes[..]) && t.writable == old(t.writable)
    ensures buf != null ==>
              && fresh(buf) && buf.Length == 2 * DETOUR_LEN
              && IsPart(t.lo, t.bytes[..], Detoured(code, Detour(fn, hook, ret, tramp)))
              && IsPart(tramp, buf[..DETOUR_LEN + FAR_LEN], Detoured(code, Detour(fn, hook, ret, tramp)))
    ensures buf != null ==>
              && t.bytes[..] == Overlay(old(t.bytes[..]), fn - t.lo, [0xFF, 0x25, 0, 0, 0, 0] + Bytes8(hook))
              && buf[..20] == old(t.bytes[fn - t.lo..fn - t.lo + 20])
              && buf[20..34] == [0xFF, 0x25, 0, 0, 0, 0] + Bytes8(fn + 20)
    ensures buf != null ==>
              t.writable == old(t.writable) - t.PagesOf(PageStart(fn, t.page), PageLen(fn, 20, t.page))
  {
    var pageStart := fn / t.page * t.page;
    var plen := (fn + DETOUR_LEN - pageStart + t.page - 1) / t.page * t.page;
    PageRangeSmallest(fn, DETOUR_LEN, t.page, 0, 0);
    hide Bytes8, Overlay, IsPart, Detoured;
    if !calls.mapped { return null; }
    buf := new byte[2 * DETOUR_LEN](_ => 0);
    FillTrampoline(t, fn, buf);
    if !calls.sealed { return null; }
    if !calls.writable { return null; }
    DetouredText(t.lo, t.bytes[..], code, Detour(fn, hook, ret, tramp));
    DetouredBuffer(t.lo, t.bytes[..], code, Detour(fn, hook, ret, tramp), buf[..]);
    t.Protect(pageStart, plen, true);
    t.StoreFar(fn, hook);
    t.Protect(pageStart, plen, false);
  }
}
