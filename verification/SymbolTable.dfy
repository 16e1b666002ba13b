/** so_snapshot_symbols (src/so_util.c:352-384), the combined import table (src/main.c:178-190) and
    what an import resolves to through it. */
module SymbolTable {
  import opened Prelude
  import opened LinkTables
  import opened Relocation

  const STB_GLOBAL: int := 1
  const STB_WEAK: int := 2

  /** ELF64_ST_BIND. */
  function Bind(s: Sym): int { s.info as int / 16 }

  /** A named, defined, global or weak symbol with a non-zero value. */
  predicate Qualifies(s: Sym) {
    s.shndx != SHN_UNDEF && s.value != 0 && s.name != 0 && (Bind(s) == STB_GLOBAL || Bind(s) == STB_WEAK)
  }

  function NameOf(strtab: seq<byte>, s: Sym): seq<byte> { if s.name < |strtab| then CStr(strtab[s.name..]) else [] }

  function AsFunc(base: nat, strtab: seq<byte>, s: Sym): Func { Func(NameOf(strtab, s), base + s.value) }

  /** The qualifying ones of the first n symbols, in order. */
  function Exports(base: nat, strtab: seq<byte>, syms: seq<Sym>, n: nat): seq<Func>
    requires n <= |syms|
  {
    if n == 0 then []
    else if Qualifies(syms[n - 1]) then Exports(base, strtab, syms, n - 1) + [AsFunc(base, strtab, syms[n - 1])]
    else Exports(base, strtab, syms, n - 1)
  }

  lemma {:induction false} ExportsGrow(base: nat, strtab: seq<byte>, syms: seq<Sym>, i: nat, n: nat)
    requires i <= n <= |syms|
    ensures Exports(base, strtab, syms, i) <= Exports(base, strtab, syms, n)
  {
    if i == n {
    } else {
      ExportsGrow(base, strtab, syms, i, n - 1);
    }
  }

  /** The first pass counts exactly the slots the second one fills. None stands for a null table. */
  method Snapshot(base: nat, strtab: Option<seq<byte>>, syms: Option<seq<Sym>>) returns (tbl: array?<Func>, count: nat)
    ensures syms == None || syms == Some([]) || strtab == None ==> tbl == null && count == 0
    ensures syms.Some? && syms.value != [] && strtab.Some? ==>
              && tbl != null && fresh(tbl) && tbl.Length == (if count > 0 then count else 1)
              && tbl[..count] == Exports(base, strtab.value, syms.value, |syms.value|)
  {
    if syms == None || strtab == None { return null, 0; }
    var ss, names := syms.value, strtab.value;
    if |ss| <= 0 { return null, 0; }
    var n := 0;
    for i := 0 to |ss|
      invariant n == |Exports(base, names, ss, i)|
    {
      if ss[i].shndx == SHN_UNDEF || ss[i].value == 0 || ss[i].name == 0 { continue; }
      var bind := ss[i].info as int / 16;
      if bind == STB_GLOBAL || bind == STB_WEAK { n := n + 1; }
    }
    tbl := new Func[if n > 0 then n else 1](_ => Func([], 0));
    var k: nat := 0;
    for i := 0 to |ss|
      invariant k == |Exports(base, names, ss, i)| <= tbl.Length
      invariant tbl[..k] == Exports(base, names, ss, i)
    {
      ExportsGrow(base, names, ss, i + 1, |ss|);
      if ss[i].shndx == SHN_UNDEF || ss[i].value == 0 || ss[i].name == 0 { continue; }
      var bind := ss[i].info as int / 16;
      if bind == STB_GLOBAL || bind == STB_WEAK {
        tbl[k] := Func(NameOf(names, ss[i]), base + ss[i].value);
        k := k + 1;
      }
    }
    count := k;
  }

  /** main.c:181-188: the shims, then the exports of the C++ library. */
  method Combine(shims: array<Func>, cxx: array<Func>, cxxCount: nat) returns (comb: array<Func>)
    requires cxxCount <= cxx.Length
    ensures fresh(comb) && comb[..] == shims[..] + cxx[..cxxCount]
  {
    comb := new Func[shims.Length + cxxCount](_ => Func([], 0));
    forall i | 0 <= i < shims.Length {
      comb[i] := shims[i];
    }
    forall i | 0 <= i < cxxCount {
      comb[shims.Length + i] := cxx[i];
    }
  }

  // ----- what an import resolves to -----

  predicate FirstNamed(funcs: seq<Func>, name: seq<byte>, i: int) {
    0 <= i < |funcs| && funcs[i].symbol == name && forall j | 0 <= j < i :: funcs[j].symbol != name
  }

  predicate Unnamed(funcs: seq<Func>, name: seq<byte>) { forall j | 0 <= j < |funcs| :: funcs[j].symbol != name }

  /** The bytes from there up to a NUL, or to the end of the table, are name. */
  predicate SpelledAt(strtab: seq<byte>, off: nat, name: seq<byte>) {
    if off >= |strtab| then name == []
    else
      && off + |name| <= |strtab| && strtab[off..off + |name|] == name && 0 !in name
      && (off + |name| < |strtab| ==> strtab[off + |name|] == 0)
  }

  /** A defined symbol of that name, not at 0, that is global (1) or weak (2). */
  predicate IsExport(strtab: seq<byte>, s: Sym, name: seq<byte>) {
    && s.shndx != 0 && s.value != 0 && s.name != 0 && s.info as int / 16 in {1, 2}
    && SpelledAt(strtab, s.name, name)
  }

  lemma ExportIs(strtab: seq<byte>, s: Sym, name: seq<byte>)
    ensures IsExport(strtab, s, name) <==> Qualifies(s) && NameOf(strtab, s) == name
  {
    if s.name < |strtab| {
      var rest := strtab[s.name..];
      if SpelledAt(strtab, s.name, name) {
        assert rest[..|name|] == name;
        CStrUnique(rest, name);
      } else {
        assert rest[..|CStr(rest)|] == strtab[s.name..s.name + |CStr(rest)|];
      }
    }
  }

  predicate FirstExport(strtab: seq<byte>, syms: seq<Sym>, name: seq<byte>, i: int) {
    0 <= i < |syms| && IsExport(strtab, syms[i], name) && forall j | 0 <= j < i :: !IsExport(strtab, syms[j], name)
  }

  predicate NotExported(strtab: seq<byte>, syms: seq<Sym>, n: nat, name: seq<byte>) {
    n <= |syms| && forall j | 0 <= j < n :: !IsExport(strtab, syms[j], name)
  }

  /** The scope has an address for the name. */
  predicate Finds(scope: Option<map<seq<byte>, nat>>, name: seq<byte>) {
    scope.Some? && name in scope.value && scope.value[name] != 0
  }

  /** Scope q is the first that finds the name, and addr what it finds. */
  predicate FoundAt(scopes: seq<Option<map<seq<byte>, nat>>>, name: seq<byte>, addr: nat, q: int) {
    && 0 <= q < |scopes| && Finds(scopes[q], name) && addr == scopes[q].value[name]
    && forall p | 0 <= p < q :: !Finds(scopes[p], name)
  }

  /** What dlsym finds in the program's own scope, or else in libc, or else in libpthread, or 0. */
  predicate IsFallback(env: Env, name: seq<byte>, addr: nat) {
    var scopes := [Some(env.global), env.libc, env.libpthread];
    if exists q :: 0 <= q < |scopes| && Finds(scopes[q], name) then
      exists q :: 0 <= q < |scopes| && FoundAt(scopes, name, addr, q)
    else addr == 0
  }

  lemma ImportFallback(env: Env, name: seq<byte>)
    requires Lookup(env.funcs, name, 0) == 0
    ensures IsFallback(env, name, Import(env, name))
  {
    var scopes, addr := [Some(env.global), env.libc, env.libpthread], Import(env, name);
    assert Finds(scopes[0], name) ==> FoundAt(scopes, name, addr, 0);
    assert !Finds(scopes[0], name) && Finds(scopes[1], name) ==> FoundAt(scopes, name, addr, 1);
    assert !Finds(scopes[0], name) && !Finds(scopes[1], name) && Finds(scopes[2], name) ==>
        FoundAt(scopes, name, addr, 2);
  }

  lemma {:induction false} LookupFirst(funcs: seq<Func>, name: seq<byte>, k: nat)
    requires k <= |funcs| && forall j | 0 <= j < k :: funcs[j].symbol != name
    ensures forall i | FirstNamed(funcs, name, i) :: Lookup(funcs, name, k) == funcs[i].addr
    ensures Unnamed(funcs, name) ==> Lookup(funcs, name, k) == 0
    decreases |funcs| - k
  {
    if k == |funcs| || funcs[k].symbol == name {
    } else {
      LookupFirst(funcs, name, k + 1);
    }
  }

  lemma {:induction false} ExportsUnnamed(base: nat, strtab: seq<byte>, syms: seq<Sym>, n: nat, name: seq<byte>)
    requires NotExported(strtab, syms, n, name)
    ensures Unnamed(Exports(base, strtab, syms, n), name)
  {
    if n == 0 {
    } else {
      ExportsUnnamed(base, strtab, syms, n - 1, name);
      ExportIs(strtab, syms[n - 1], name);
      hide NameOf, IsExport, Qualifies;
    }
  }

  /** The first export of a name comes from the first qualifying symbol of that name. */
  lemma ExportNamed(base: nat, strtab: seq<byte>, syms: seq<Sym>, name: seq<byte>, i: nat) returns (k: nat)
    requires FirstExport(strtab, syms, name, i)
    ensures FirstNamed(Exports(base, strtab, syms, |syms|), name, k)
    ensures Exports(base, strtab, syms, |syms|)[k].addr == base + syms[i].value
  {
    ExportsUnnamed(base, strtab, syms, i, name);
    ExportIs(strtab, syms[i], name);
    k := |Exports(base, strtab, syms, i)|;
    assert Exports(base, strtab, syms, i + 1)[k] == AsFunc(base, strtab, syms[i]);
    ExportsGrow(base, strtab, syms, i, i + 1);
    ExportsGrow(base, strtab, syms, i + 1, |syms|);
    hide Exports, NameOf, IsExport, Qualifies;
  }

  /** An import goes to the shim of that name if there is one, unless its entry is 0; else to the
      first qualifying export of that name; else through the dlsym scopes, also for a zero entry. */
  lemma ImportOrder(env: Env, shims: seq<Func>, base: nat, strtab: seq<byte>, syms: seq<Sym>, name: seq<byte>)
    requires env.funcs == shims + Exports(base, strtab, syms, |syms|)
    ensures forall i | FirstNamed(shims, name, i) ::
              if shims[i].addr != 0 then Import(env, name) == shims[i].addr
              else IsFallback(env, name, Import(env, name))
    ensures Unnamed(shims, name) ==>
              forall i | FirstExport(strtab, syms, name, i) :: Import(env, name) == base + syms[i].value
    ensures Unnamed(shims, name) && NotExported(strtab, syms, |syms|, name) ==>
              IsFallback(env, name, Import(env, name))
  {
    var es := Exports(base, strtab, syms, |syms|);
    if NotExported(strtab, syms, |syms|, name) {
      ExportsUnnamed(base, strtab, syms, |syms|, name);
    }
    LookupFirst(env.funcs, name, 0);
    if Lookup(env.funcs, name, 0) == 0 {
      ImportFallback(env, name);
    }
    hide Exports, IsExport, Lookup, IsFallback;
    forall i | FirstNamed(shims, name, i)
      ensures Lookup(env.funcs, name, 0) == shims[i].addr
    {
      assert FirstNamed(env.funcs, name, i) by { assert forall j | 0 <= j < |shims| :: env.funcs[j] == shims[j]; }
    }
    if Unnamed(shims, name) {
      UnnamedAppend(shims, es, name);
      forall i | FirstExport(strtab, syms, name, i)
        ensures Import(env, name) == base + syms[i].value
      {
        FirstExportIsPlaced(strtab, syms, name, i);
        var k := ExportNamed(base, strtab, syms, name, i);
        assert FirstNamed(env.funcs, name, |shims| + k);
      }
    }
  }

  lemma FirstExportIsPlaced(strtab: seq<byte>, syms: seq<Sym>, name: seq<byte>, i: int)
    requires FirstExport(strtab, syms, name, i)
    ensures syms[i].value != 0
  {
  }

  lemma UnnamedAppend(a: seq<Func>, b: seq<Func>, name: seq<byte>)
    requires Unnamed(a, name)
    ensures Unnamed(a + b, name) <==> Unnamed(b, name)
    ensures forall k | FirstNamed(b, name, k) :: FirstNamed(a + b, name, |a| + k)
  {
    assert forall j | 0 <= j < |b| :: (a + b)[|a| + j] == b[j];
  }
}
