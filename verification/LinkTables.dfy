/** The relocation, symbol and string tables of a loaded module (src/so_util.c:152-167, 186-195,
    250): bytes of the image being linked, or of the file it came from. */
module LinkTables {
  import opened Prelude

  const SHT_RELA: nat := 4
  const SHN_UNDEF: nat := 0
  const RELA_SIZE: nat := 24
  const SYM_SIZE: nat := 24

  const R_64: nat := 1
  const R_GLOB_DAT: nat := 6
  const R_JUMP_SLOT: nat := 7
  const R_RELATIVE: nat := 8
  const R_DTPMOD64: nat := 16
  const R_DTPOFF64: nat := 17
  const R_TPOFF64: nat := 18
  const R_TPOFF32: nat := 23

  /** A table lies in the image if its section has an address, else in the file. */
  datatype Loc = InImage(off: nat) | InFile(off: nat)

  datatype Shdr = Shdr(kind: nat, addr: nat, offset: nat, size: nat)

  /** base is load_base, tls is tls_total_size. A module without symbols has numSyms and strSize 0. */
  datatype Module = Module(base: nat, tls: nat, file: seq<byte>, sections: seq<Shdr>, syms: Loc, numSyms: nat,
      strs: Loc, strSize: nat)

  datatype Sym = Sym(name: nat, info: byte, shndx: nat, value: nat)

  /** A relocation record with its symbol, if its kind reads one, and that symbol's name if it is to
      be imported. */
  datatype Rec = Rec(offset: nat, kind: nat, addend: nat, sym: Sym, name: seq<byte>)

  function TableAt(s: Shdr): Loc { if s.addr != 0 then InImage(s.addr) else InFile(s.offset) }

  /** There are len bytes at that place. */
  predicate Within(m: Module, img: seq<byte>, l: Loc, len: nat) {
    match l case InImage(o) => o + len <= |img| case InFile(o) => o + len <= |m.file|
  }

  function Bytes(m: Module, img: seq<byte>, l: Loc, len: nat): (b: seq<byte>)
    requires Within(m, img, l, len)
    ensures |b| == len
  {
    match l case InImage(o) => img[o..o + len] case InFile(o) => m.file[o..o + len]
  }

  function DecodeSym(b: seq<byte>): Sym
    requires |b| == SYM_SIZE
  {
    Sym(Le4(b[0..4]), b[4], Le2(b[6..8]), Le8(b[8..16]))
  }

  /** The kinds that read their symbol, and of them those that may import it. */
  predicate IsImportKind(kind: nat) { kind == R_64 || kind == R_GLOB_DAT || kind == R_JUMP_SLOT }

  predicate ReadsSym(kind: nat) { IsImportKind(kind) || kind == R_TPOFF64 || kind == R_TPOFF32 || kind == R_DTPOFF64 }

  function KindIn(b: seq<byte>): nat
    requires |b| == RELA_SIZE
  {
    Le8(b[8..16]) % TWO_32
  }

  function SymOffset(b: seq<byte>): nat
    requires |b| == RELA_SIZE
  {
    SYM_SIZE * (Le8(b[8..16]) / TWO_32)
  }

  const NO_SYM := Sym(0, 0, 0, 0)

  /** The symbol of a record, if its kind reads one and the table has it. */
  function SymIn(b: seq<byte>, symtab: seq<byte>): Sym
    requires |b| == RELA_SIZE
  {
    var at := SymOffset(b);
    if ReadsSym(KindIn(b)) && at + SYM_SIZE <= |symtab| then DecodeSym(symtab[at..at + SYM_SIZE]) else NO_SYM
  }

  predicate ReadsName(kind: nat, sym: Sym) { IsImportKind(kind) && sym.shndx == SHN_UNDEF }

  /** What one record says, given its 24 bytes, the symbol table and the string table. */
  function DecodeRec(b: seq<byte>, symtab: seq<byte>, strtab: seq<byte>): Rec
    requires |b| == RELA_SIZE
  {
    var kind, sym := KindIn(b), SymIn(b, symtab);
    var name := if ReadsName(kind, sym) && sym.name <= |strtab| then CStr(strtab[sym.name..]) else [];
    Rec(Le8(b[0..8]), kind, Le8(b[16..24]), sym, name)
  }

  /** What is read of the symbol and of its name lies inside the tables. */
  predicate DecodableRec(b: seq<byte>, symtab: seq<byte>, strtab: seq<byte>)
    requires |b| == RELA_SIZE
  {
    var kind, sym := KindIn(b), SymIn(b, symtab);
    && (ReadsSym(kind) ==> SymOffset(b) + SYM_SIZE <= |symtab|)
    && (ReadsName(kind, sym) ==> sym.name < |strtab| && 0 in strtab[sym.name..])
  }

  predicate IsRela(s: Shdr) { s.kind == SHT_RELA }

  function Count(s: Shdr): nat { s.size / RELA_SIZE }

  /** Section i and record j of it: the tables are where the headers say and the record makes sense. */
  predicate TablesFit(m: Module, img: seq<byte>) {
    && Within(m, img, m.syms, SYM_SIZE * m.numSyms) && Within(m, img, m.strs, m.strSize)
    && (forall i | 0 <= i < |m.sections| && IsRela(m.sections[i]) ::
        Within(m, img, TableAt(m.sections[i]), m.sections[i].size))
  }

  function RelaBytes(m: Module, img: seq<byte>, i: nat, j: nat): (b: seq<byte>)
    requires TablesFit(m, img) && i < |m.sections| && IsRela(m.sections[i]) && j < Count(m.sections[i])
    ensures |b| == RELA_SIZE
  {
    Bytes(m, img, TableAt(m.sections[i]), m.sections[i].size)[RELA_SIZE * j..RELA_SIZE * (j + 1)]
  }

  function SymTab(m: Module, img: seq<byte>): seq<byte>
    requires TablesFit(m, img)
  {
    Bytes(m, img, m.syms, SYM_SIZE * m.numSyms)
  }

  function StrTab(m: Module, img: seq<byte>): seq<byte>
    requires TablesFit(m, img)
  {
    Bytes(m, img, m.strs, m.strSize)
  }

  predicate IsRecord(m: Module, i: int, j: int) {
    0 <= i < |m.sections| && IsRela(m.sections[i]) && 0 <= j < Count(m.sections[i])
  }

  ghost predicate Decodable(m: Module, img: seq<byte>) {
    && TablesFit(m, img)
    && forall i, j | IsRecord(m, i, j) :: DecodableRec(RelaBytes(m, img, i, j), SymTab(m, img), StrTab(m, img))
  }

  function RecAt(m: Module, img: seq<byte>, i: nat, j: nat): Rec
    requires Decodable(m, img) && IsRecord(m, i, j)
  {
    DecodeRec(RelaBytes(m, img, i, j), SymTab(m, img), StrTab(m, img))
  }

  /** The first j records of section i, if it holds any. */
  function SectionRecs(m: Module, img: seq<byte>, i: nat, j: nat): seq<Rec>
    requires Decodable(m, img) && i < |m.sections| && IsRela(m.sections[i]) && j <= Count(m.sections[i])
  {
    seq(j, k requires 0 <= k < j => RecAt(m, img, i, k))
  }

  /** The records of the first n sections, in the order the passes meet them. */
  function RecsBefore(m: Module, img: seq<byte>, n: nat): seq<Rec>
    requires Decodable(m, img) && n <= |m.sections|
  {
    if n == 0 then []
    else if IsRela(m.sections[n - 1]) then
        RecsBefore(m, img, n - 1) + SectionRecs(m, img, n - 1, Count(m.sections[n - 1]))
    else RecsBefore(m, img, n - 1)
  }

  function Recs(m: Module, img: seq<byte>): seq<Rec>
    requires Decodable(m, img)
  {
    RecsBefore(m, img, |m.sections|)
  }

  /** Position k of the image belongs to a table. */
  predicate InTable(m: Module, k: nat) {
    || (m.syms.InImage? && m.syms.off <= k < m.syms.off + SYM_SIZE * m.numSyms)
    || (m.strs.InImage? && m.strs.off <= k < m.strs.off + m.strSize)
    || (exists i :: 0 <= i < |m.sections| && IsRela(m.sections[i]) && SectionAt(m.sections[i], k))
  }

  predicate SectionAt(s: Shdr, k: nat) { s.addr != 0 && s.addr <= k < s.addr + s.size }

  ghost predicate SameTables(m: Module, a: seq<byte>, b: seq<byte>) {
    |a| == |b| && forall k | 0 <= k < |a| && InTable(m, k) :: a[k] == b[k]
  }

  lemma SameBytes(m: Module, a: seq<byte>, b: seq<byte>, l: Loc, len: nat)
    requires |a| == |b| && Within(m, a, l, len)
    requires l.InImage? ==> forall k | l.off <= k < l.off + len :: a[k] == b[k]
    ensures Bytes(m, a, l, len) == Bytes(m, b, l, len)
  {
  }

  /** Memory that agrees on the tables holds the same records. */
  lemma SameTablesSameRecs(m: Module, a: seq<byte>, b: seq<byte>)
    requires Decodable(m, a) && SameTables(m, a, b)
    ensures Decodable(m, b)
    ensures forall i, j | IsRecord(m, i, j) :: RecAt(m, b, i, j) == RecAt(m, a, i, j)
    ensures Recs(m, b) == Recs(m, a)
  {
    SameBytes(m, a, b, m.syms, SYM_SIZE * m.numSyms);
    SameBytes(m, a, b, m.strs, m.strSize);
    forall i, j | IsRecord(m, i, j)
      ensures RelaBytes(m, a, i, j) == RelaBytes(m, b, i, j)
    {
      var s := m.sections[i];
      assert forall k: nat | SectionAt(s, k) :: InTable(m, k);
      assert s.addr != 0 ==> forall k: nat | s.addr <= k < s.addr + s.size :: SectionAt(s, k) && a[k] == b[k];
      SameBytes(m, a, b, TableAt(s), s.size);
    }
    SameRecsBefore(m, a, b, |m.sections|);
  }

  lemma {:induction false} SameRecsBefore(m: Module, a: seq<byte>, b: seq<byte>, n: nat)
    requires Decodable(m, a) && Decodable(m, b) && n <= |m.sections|
    requires forall i, j | IsRecord(m, i, j) :: RecAt(m, b, i, j) == RecAt(m, a, i, j)
    ensures RecsBefore(m, b, n) == RecsBefore(m, a, n)
  {
    if n == 0 {
    } else {
      SameRecsBefore(m, a, b, n - 1);
      if IsRela(m.sections[n - 1]) {
        SameSectionRecs(m, a, b, n - 1, Count(m.sections[n - 1]));
      }
      hide Decodable, IsRecord, RecAt, SectionRecs;
    }
  }

  lemma SameSectionRecs(m: Module, a: seq<byte>, b: seq<byte>, i: nat, c: nat)
    requires Decodable(m, a) && Decodable(m, b) && i < |m.sections| && IsRela(m.sections[i])
        && c <= Count(m.sections[i])
    requires forall i, j | IsRecord(m, i, j) :: RecAt(m, b, i, j) == RecAt(m, a, i, j)
    ensures SectionRecs(m, b, i, c) == SectionRecs(m, a, i, c)
  {
    hide Decodable, RecAt;
    assert forall k | 0 <= k < c :: IsRecord(m, i, k);
  }
}
