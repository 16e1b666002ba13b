/** How the tables of a module are written: Elf64_Rela and Elf64_Sym records of 24 bytes each, and
    names that end in a NUL. What LinkTables reads from such bytes is what was written. */
module TableFormat {
  import opened Prelude
  import opened LinkTables

  datatype Elf64Rela = Elf64Rela(offset: nat, sym: nat, kind: nat, addend: nat) {
    predicate Fits() {
      && offset < 0x1_0000_0000_0000_0000 && addend < 0x1_0000_0000_0000_0000
      && sym < 0x1_0000_0000 && kind < 0x1_0000_0000
    }
  }

  datatype Elf64Sym = Elf64Sym(name: nat, info: byte, other: byte, shndx: nat, value: nat, size: nat) {
    predicate Fits() { name < 0x1_0000_0000 && shndx < 0x1_0000 && value < 0x1_0000_0000_0000_0000 }
  }

  function EncodeRela(r: Elf64Rela): (b: seq<byte>)
    ensures |b| == 24
  {
    Bytes8(r.offset) + Bytes8(r.sym * 0x1_0000_0000 + r.kind) + Bytes8(r.addend)
  }

  function EncodeSym(s: Elf64Sym): (b: seq<byte>)
    ensures |b| == 24
  {
    Bytes4(s.name) + [s.info, s.other] + Bytes2(s.shndx) + Bytes8(s.value) + Bytes8(s.size)
  }

  function EncodeRelas(rs: seq<Elf64Rela>): seq<byte> {
    Joined(seq(|rs|, i requires 0 <= i < |rs| => EncodeRela(rs[i])))
  }

  function EncodeSyms(ss: seq<Elf64Sym>): seq<byte> {
    Joined(seq(|ss|, i requires 0 <= i < |ss| => EncodeSym(ss[i])))
  }

  /** The string table has this name, with its NUL, at this offset. */
  predicate NamedAt(strs: seq<byte>, off: nat, name: seq<byte>) {
    off + |name| < |strs| && strs[off..off + |name|] == name && 0 !in name && strs[off + |name|] == 0
  }

  /** The tables as they are meant; relas has an item for each section. */
  datatype Tables = Tables(syms: seq<Elf64Sym>, strs: seq<byte>, relas: seq<seq<Elf64Rela>>)

  /** The kinds 64, GLOB_DAT, JUMP_SLOT, DTPOFF64, TPOFF64 and TPOFF32 name a symbol of the table; the
      first three need its name when it is undefined. */
  ghost predicate GoodRela(t: Tables, r: Elf64Rela) {
    && r.Fits()
    && (r.kind in {1, 6, 7, 17, 18, 23} ==> r.sym < |t.syms| && t.syms[r.sym].Fits())
    && (r.kind in {1, 6, 7} && t.syms[r.sym].shndx == 0 ==> exists name :: NamedAt(t.strs, t.syms[r.sym].name, name))
  }

  /** rec is r with its symbol and, if it has one to import, that symbol's name. */
  predicate IsRecOf(t: Tables, r: Elf64Rela, rec: Rec) {
    && rec.offset == r.offset && rec.kind == r.kind && rec.addend == r.addend
    && (r.kind in {1, 6, 7, 17, 18, 23} ==>
          && r.sym < |t.syms|
          && (var s := t.syms[r.sym]; rec.sym == Sym(s.name, s.info, s.shndx, s.value)))
    && (r.kind in {1, 6, 7} && t.syms[r.sym].shndx == 0 ==> NamedAt(t.strs, t.syms[r.sym].name, rec.name))
  }

  /** The bytes stand at that place. */
  predicate StandsAt(m: Module, img: seq<byte>, l: Loc, b: seq<byte>) {
    match l
    case InImage(o) => o + |b| <= |img| && img[o..o + |b|] == b
    case InFile(o) => o + |b| <= |m.file| && m.file[o..o + |b|] == b
  }

  /** A section's records, and after them less than another; in the image if the section has an
      address, else in the file. */
  ghost predicate SectionHolds(m: Module, img: seq<byte>, s: Shdr, rs: seq<Elf64Rela>) {
    exists rest: seq<byte> ::
      && |rest| < 24 && s.size == 24 * |rs| + |rest|
      && StandsAt(m, img, if s.addr != 0 then InImage(s.addr) else InFile(s.offset), EncodeRelas(rs) + rest)
  }

  ghost predicate Holds(m: Module, img: seq<byte>, t: Tables) {
    && m.numSyms == |t.syms| && StandsAt(m, img, m.syms, EncodeSyms(t.syms))
    && m.strSize == |t.strs| && StandsAt(m, img, m.strs, t.strs)
    && |t.relas| == |m.sections|
    && forall i | 0 <= i < |m.sections| && m.sections[i].kind == 4 ::
         && SectionHolds(m, img, m.sections[i], t.relas[i])
         && forall j | 0 <= j < |t.relas[i]| :: GoodRela(t, t.relas[i][j])
  }

  /** The records of the first n sections, those that are of type SHT_RELA, in order. */
  function RelasBefore(m: Module, t: Tables, n: nat): seq<Elf64Rela>
    requires n <= |m.sections| == |t.relas|
  {
    if n == 0 then [] else RelasBefore(m, t, n - 1) + if m.sections[n - 1].kind == 4 then t.relas[n - 1] else []
  }

  // ----- single records -----

  lemma RelaFields(r: Elf64Rela)
    requires r.Fits()
    ensures var b := EncodeRela(r);
            && Le8(b[0..8]) == r.offset && Le8(b[16..24]) == r.addend
            && KindIn(b) == r.kind && SymOffset(b) == 24 * r.sym
  {
    var info := r.sym * 0x1_0000_0000 + r.kind;
    Le8Bytes8(r.offset);
    Le8Bytes8(info);
    Le8Bytes8(r.addend);
    hide Le8, Bytes8;
    var b := EncodeRela(r);
    assert b[0..8] == Bytes8(r.offset) && b[8..16] == Bytes8(info) && b[16..24] == Bytes8(r.addend);
    assert info / 0x1_0000_0000 == r.sym && info % 0x1_0000_0000 == r.kind;
  }

  lemma SymFields(s: Elf64Sym)
    requires s.Fits()
    ensures DecodeSym(EncodeSym(s)) == Sym(s.name, s.info, s.shndx, s.value)
  {
    SmallWords(s.name);
    SmallWords(s.shndx);
    Le8Bytes8(s.value);
    EncodedSym(s);
    hide Le2, Le4, Le8, Bytes2, Bytes4, Bytes8, EncodeSym;
  }

  lemma EncodedSym(s: Elf64Sym)
    ensures var b := EncodeSym(s);
            b[0..4] == Bytes4(s.name) && b[4] == s.info && b[6..8] == Bytes2(s.shndx) && b[8..16] == Bytes8(s.value)
  {
    assert |Bytes2(s.shndx)| == 2;
    hide Bytes2, Bytes4, Bytes8;
    SymParts(Bytes4(s.name), [s.info, s.other], Bytes2(s.shndx), Bytes8(s.value), Bytes8(s.size));
  }

  lemma SymParts(name: seq<byte>, flags: seq<byte>, shndx: seq<byte>, value: seq<byte>, size: seq<byte>)
    requires |name| == 4 && |flags| == |shndx| == 2 && |value| == |size| == 8
    ensures var b := name + flags + shndx + value + size;
            |b| == 24 && b[0..4] == name && b[4] == flags[0] && b[6..8] == shndx && b[8..16] == value
  {
  }

  lemma NameIs(strs: seq<byte>, off: nat, name: seq<byte>)
    requires NamedAt(strs, off, name)
    ensures 0 in strs[off..] && CStr(strs[off..]) == name
  {
    var s := strs[off..];
    assert s[|name|] == 0 && s[..|name|] == name;
    CStrUnique(s, name);
  }

  lemma {:induction false} JoinedPiece(parts: seq<seq<byte>>, j: nat)
    requires (forall i | 0 <= i < |parts| :: |parts[i]| == 24) && j < |parts|
    ensures |Joined(parts)| == 24 * |parts| && Joined(parts)[24 * j..24 * j + 24] == parts[j]
  {
    var tail := Joined(parts[1..]);
    if |parts| == 1 {
    } else if j == 0 {
      JoinedPiece(parts[1..], 0);
    } else {
      JoinedPiece(parts[1..], j - 1);
      assert (parts[0] + tail)[24 * j..24 * j + 24] == tail[24 * (j - 1)..24 * (j - 1) + 24];
    }
  }

  lemma RelaAt(rs: seq<Elf64Rela>, rest: seq<byte>, j: nat)
    requires j < |rs|
    ensures |EncodeRelas(rs)| == 24 * |rs| && (EncodeRelas(rs) + rest)[24 * j..24 * (j + 1)] == EncodeRela(rs[j])
  {
    var parts := seq(|rs|, i requires 0 <= i < |rs| => EncodeRela(rs[i]));
    JoinedPiece(parts, j);
    hide Joined, EncodeRela;
    assert (EncodeRelas(rs) + rest)[24 * j..24 * (j + 1)] == EncodeRelas(rs)[24 * j..24 * j + 24];
  }

  lemma SymAt(ss: seq<Elf64Sym>, j: nat)
    requires j < |ss|
    ensures |EncodeSyms(ss)| == 24 * |ss| && EncodeSyms(ss)[24 * j..24 * j + 24] == EncodeSym(ss[j])
  {
    var parts := seq(|ss|, i requires 0 <= i < |ss| => EncodeSym(ss[i]));
    JoinedPiece(parts, j);
  }

  /** One record, with the whole symbol and string tables. */
  lemma RecIsOf(t: Tables, r: Elf64Rela)
    requires GoodRela(t, r)
    ensures DecodableRec(EncodeRela(r), EncodeSyms(t.syms), t.strs)
    ensures IsRecOf(t, r, DecodeRec(EncodeRela(r), EncodeSyms(t.syms), t.strs))
  {
    hide EncodeRela, EncodeSyms, DecodeSym, KindIn, SymOffset, CStr, Le8, NamedAt;
    RelaFields(r);
    if r.kind in {1, 6, 7, 17, 18, 23} {
      SymAt(t.syms, r.sym);
      SymFields(t.syms[r.sym]);
      if r.kind in {1, 6, 7} && t.syms[r.sym].shndx == 0 {
        var name :| NamedAt(t.strs, t.syms[r.sym].name, name);
        NameIs(t.strs, t.syms[r.sym].name, name);
      }
    }
  }

  // ----- the tables -----

  lemma LengthOfRelas(rs: seq<Elf64Rela>)
    ensures |EncodeRelas(rs)| == 24 * |rs|
  {
    if rs != [] {
      RelaAt(rs, [], 0);
    }
  }

  lemma LengthOfSyms(ss: seq<Elf64Sym>)
    ensures |EncodeSyms(ss)| == 24 * |ss|
  {
    if ss != [] {
      SymAt(ss, 0);
    }
  }

  lemma StandsWithin(m: Module, img: seq<byte>, l: Loc, b: seq<byte>)
    requires StandsAt(m, img, l, b)
    ensures Within(m, img, l, |b|) && Bytes(m, img, l, |b|) == b
  {
  }

  lemma HeldTablesFit(m: Module, img: seq<byte>, t: Tables)
    requires Holds(m, img, t)
    ensures TablesFit(m, img) && SymTab(m, img) == EncodeSyms(t.syms) && StrTab(m, img) == t.strs
  {
    hide EncodeRelas, EncodeSyms, GoodRela, Within, StandsAt;
    LengthOfSyms(t.syms);
    StandsWithin(m, img, m.syms, EncodeSyms(t.syms));
    StandsWithin(m, img, m.strs, t.strs);
    forall i | 0 <= i < |m.sections| && IsRela(m.sections[i])
      ensures Within(m, img, TableAt(m.sections[i]), m.sections[i].size)
    {
      var rest := SectionRest(m, img, m.sections[i], t.relas[i]);
      StandsWithin(m, img, TableAt(m.sections[i]), EncodeRelas(t.relas[i]) + rest);
    }
  }

  lemma SectionRest(m: Module, img: seq<byte>, s: Shdr, rs: seq<Elf64Rela>) returns (rest: seq<byte>)
    requires SectionHolds(m, img, s, rs)
    ensures |EncodeRelas(rs) + rest| == s.size && Count(s) == |rs|
    ensures StandsAt(m, img, TableAt(s), EncodeRelas(rs) + rest)
  {
    hide EncodeRelas, StandsAt;
    rest :| |rest| < 24 && s.size == 24 * |rs| + |rest|
        && StandsAt(m, img, if s.addr != 0 then InImage(s.addr) else InFile(s.offset), EncodeRelas(rs) + rest);
    LengthOfRelas(rs);
  }

  lemma HeldRecord(m: Module, img: seq<byte>, t: Tables, i: nat, j: nat)
    requires Holds(m, img, t) && TablesFit(m, img) && i < |m.sections| && m.sections[i].kind == 4
    ensures Count(m.sections[i]) == |t.relas[i]|
    ensures j < |t.relas[i]| ==> RelaBytes(m, img, i, j) == EncodeRela(t.relas[i][j])
  {
    hide EncodeRelas, EncodeSyms, EncodeRela, GoodRela, Within, StandsAt, TablesFit;
    var rest := SectionRest(m, img, m.sections[i], t.relas[i]);
    StandsWithin(m, img, TableAt(m.sections[i]), EncodeRelas(t.relas[i]) + rest);
    if j < |t.relas[i]| {
      RelaAt(t.relas[i], rest, j);
    }
  }

  /** Each record that was written is read, from its section and place. */
  lemma HeldRecordReads(m: Module, img: seq<byte>, t: Tables)
    requires Holds(m, img, t)
    ensures Decodable(m, img)
    ensures forall i, j | IsRecord(m, i, j) :: j < |t.relas[i]| && IsRecOf(t, t.relas[i][j], RecAt(m, img, i, j))
    ensures forall i | 0 <= i < |m.sections| && IsRela(m.sections[i]) :: Count(m.sections[i]) == |t.relas[i]|
  {
    HeldTablesFit(m, img, t);
    hide TablesFit, Count;
    forall i | 0 <= i < |m.sections| && IsRela(m.sections[i])
      ensures Count(m.sections[i]) == |t.relas[i]|
    {
      HeldRecord(m, img, t, i, 0);
    }
    forall i, j | IsRecord(m, i, j)
      ensures DecodableRec(RelaBytes(m, img, i, j), SymTab(m, img), StrTab(m, img))
      ensures IsRecOf(t, t.relas[i][j], DecodeRec(RelaBytes(m, img, i, j), SymTab(m, img), StrTab(m, img)))
    {
      HeldRecord(m, img, t, i, j);
      RecIsOf(t, t.relas[i][j]);
      hide *;
    }
    hide RelaBytes, SymTab, StrTab, DecodeRec, DecodableRec, IsRecOf, Holds;
  }

  lemma {:induction false} HeldRecsBefore(m: Module, img: seq<byte>, t: Tables, n: nat)
    requires Holds(m, img, t) && Decodable(m, img) && n <= |m.sections| == |t.relas|
    ensures |RecsBefore(m, img, n)| == |RelasBefore(m, t, n)|
    ensures forall k | 0 <= k < |RecsBefore(m, img, n)| ::
              IsRecOf(t, RelasBefore(m, t, n)[k], RecsBefore(m, img, n)[k])
  {
    hide Decodable, Holds, RecAt, IsRecOf, Count;
    if n == 0 {
    } else {
      HeldRecsBefore(m, img, t, n - 1);
      if IsRela(m.sections[n - 1]) {
        HeldRecordReads(m, img, t);
        HeldSection(m, img, t, n - 1, Count(m.sections[n - 1]));
        hide SectionRecs, IsRecord;
      }
    }
  }

  lemma HeldSection(m: Module, img: seq<byte>, t: Tables, i: nat, c: nat)
    requires Decodable(m, img) && i < |m.sections| == |t.relas| && IsRela(m.sections[i])
    requires c == Count(m.sections[i]) == |t.relas[i]|
    requires forall i, j | IsRecord(m, i, j) :: j < |t.relas[i]| && IsRecOf(t, t.relas[i][j], RecAt(m, img, i, j))
    ensures |SectionRecs(m, img, i, c)| == c
    ensures forall k | 0 <= k < c :: IsRecOf(t, t.relas[i][k], SectionRecs(m, img, i, c)[k])
  {
    hide Decodable, RecAt, IsRecOf, Count;
    assert forall k | 0 <= k < c :: IsRecord(m, i, k);
  }

  /** Round trip: memory and file that hold these tables are read as these records, in the order of
      the sections and within each of its records. */
  lemma TablesRoundTrip(m: Module, img: seq<byte>, t: Tables)
    requires Holds(m, img, t)
    ensures Decodable(m, img)
    ensures |Recs(m, img)| == |RelasBefore(m, t, |m.sections|)|
    ensures forall k | 0 <= k < |Recs(m, img)| :: IsRecOf(t, RelasBefore(m, t, |m.sections|)[k], Recs(m, img)[k])
  {
    HeldRecordReads(m, img, t);
    HeldRecsBefore(m, img, t, |m.sections|);
    hide Decodable, Holds, IsRecOf, RecsBefore, RelasBefore, IsRecord, RecAt, IsRela;
  }
}
