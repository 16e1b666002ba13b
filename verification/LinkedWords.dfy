/** What linking leaves in memory, in terms of the tables as they were written: for each kind of
    relocation the bytes at its offset. */
module LinkedWords {
  import opened Prelude
  import opened LinkTables
  import opened TableFormat
  import opened Relocation
  import opened Linking

  predicate WordAt(out: seq<byte>, at: nat, w: int) { at + 8 <= |out| && out[at..at + 8] == Bytes8(w) }

  /** The word that an import of this name leaves: the address it resolves to plus the addend; if there
      is none the record's own offset, or 0. */
  predicate ImportedAt(env: Env, r: Elf64Rela, name: seq<byte>, out: seq<byte>) {
    var a := Import(env, name);
    WordAt(out, r.offset, if a != 0 then a + r.addend else if env.taint then r.offset else 0)
  }

  /** What out must hold for this record, kind by kind: 64, GLOB_DAT and JUMP_SLOT (1, 6, 7) of a defined
      symbol and of an import, RELATIVE (8), DTPMOD64 (16), DTPOFF64 (17), TPOFF64 (18), TPOFF32 (23). */
  ghost predicate Serves(m: Module, env: Env, t: Tables, r: Elf64Rela, out: seq<byte>) {
    && (r.kind == 8 ==> WordAt(out, r.offset, m.base + r.addend))
    && (r.kind == 16 ==> WordAt(out, r.offset, 1))
    && (r.kind in {1, 6, 7, 17, 18, 23} ==>
          && r.sym < |t.syms|
          && ServesSymbol(m, env, t, r, t.syms[r.sym], out))
  }

  ghost predicate ServesSymbol(m: Module, env: Env, t: Tables, r: Elf64Rela, s: Elf64Sym, out: seq<byte>) {
    && (r.kind in {1, 6, 7} ==>
          if s.shndx != 0 then WordAt(out, r.offset, m.base + s.value + r.addend)
          else forall name | NamedAt(t.strs, s.name, name) :: ImportedAt(env, r, name, out))
    && (r.kind == 17 ==> WordAt(out, r.offset, s.value + r.addend))
    && (r.kind == 18 ==> WordAt(out, r.offset, s.value + r.addend - m.tls))
    && (r.kind == 23 ==>
          r.offset + 4 <= |out| && out[r.offset..r.offset + 4] == Bytes4(s.value + r.addend - m.tls))
  }

  lemma NameUnique(strs: seq<byte>, off: nat, a: seq<byte>, b: seq<byte>)
    requires NamedAt(strs, off, a) && NamedAt(strs, off, b)
    ensures a == b
  {
    NameIs(strs, off, a);
    NameIs(strs, off, b);
  }

  lemma WindowServes(m: Module, env: Env, t: Tables, r: Elf64Rela, rec: Rec, out: seq<byte>)
    requires IsRecOf(t, r, rec) && Fits(rec, |out|)
    requires Width(rec) > 0 ==> Window(out, rec) == FinalValue(m, env, rec)
    ensures Serves(m, env, t, r, out)
  {
    hide Bytes4, Bytes8, NamedAt, Import;
    if r.kind in {1, 6, 7} && t.syms[r.sym].shndx == 0 {
      forall name | NamedAt(t.strs, t.syms[r.sym].name, name)
        ensures name == rec.name
      {
        NameUnique(t.strs, t.syms[r.sym].name, name, rec.name);
      }
    }
  }

  lemma RecordOf(m: Module, img: seq<byte>, t: Tables, i: nat, j: nat) returns (rec: Rec)
    requires Linkable(m, img) && Holds(m, img, t)
    requires i < |m.sections| && m.sections[i].kind == 4 && j < |t.relas[i]|
    ensures rec in Recs(m, img) && IsRecOf(t, t.relas[i][j], rec) && Fits(rec, |img|)
  {
    HeldRecordReads(m, img, t);
    assert IsRecord(m, i, j);
    rec := RecAt(m, img, i, j);
    hide Holds, Decodable, AllClear, RecAt, IsRecOf, Fits;
    RecordPosition(m, img, i, j);
    AllFit(m, img);
  }

  /** Every record of the tables is served in the linked image. */
  lemma LinkServes(m: Module, env: Env, img: seq<byte>, t: Tables, i: nat, j: nat)
    requires Linkable(m, img) && DisjointTargets(Recs(m, img)) && Holds(m, img, t)
    requires i < |m.sections| == |t.relas| && m.sections[i].kind == 4 && j < |t.relas[i]|
    ensures Serves(m, env, t, t.relas[i][j], Linked(m, env, img))
  {
    var out := Linked(m, env, img);
    LinkComputes(m, env, img);
    var rec := RecordOf(m, img, t, i, j);
    hide *;
    if Width(rec) > 0 {
      WindowHolds(m, env, Recs(m, img), img, out, rec);
    }
    WindowServes(m, env, t, t.relas[i][j], rec, out);
  }

  /** Position k is in the bytes that some record is about. */
  ghost predicate Served(m: Module, t: Tables, k: int) {
    exists i, j ::
      && 0 <= i < |m.sections| && i < |t.relas| && m.sections[i].kind == 4 && 0 <= j < |t.relas[i]|
      && Covers(t.relas[i][j], k)
  }

  predicate Covers(r: Elf64Rela, k: int) {
    || (r.kind in {1, 6, 7, 8, 16, 17, 18} && r.offset <= k < r.offset + 8)
    || (r.kind == 23 && r.offset <= k < r.offset + 4)
  }

  /** And no other byte has changed. */
  lemma LinkSpares(m: Module, env: Env, img: seq<byte>, t: Tables, k: nat)
    requires Linkable(m, img) && Holds(m, img, t) && k < |img| && !Served(m, t, k)
    ensures Linked(m, env, img)[k] == img[k]
  {
    HeldRecordReads(m, img, t);
    hide Holds, Decodable, AllClear, RecAt, Linked, IsRecOf, Targets;
    var recs := Recs(m, img);
    forall r | r in recs
      ensures !Targets(r, k)
    {
      var a :| 0 <= a < |recs| && recs[a] == r;
      var i, j := RecIs(m, img, |m.sections|, a);
      UnservedRecord(m, t, i, j, r, k);
    }
    LinkKeeps(m, env, img, k);
  }

  lemma UnservedRecord(m: Module, t: Tables, i: nat, j: nat, rec: Rec, k: nat)
    requires IsRecord(m, i, j) && i < |t.relas| && j < |t.relas[i]| && IsRecOf(t, t.relas[i][j], rec)
    requires !Served(m, t, k)
    ensures !Targets(rec, k)
  {
    hide NamedAt;
    assert !Covers(t.relas[i][j], k);
  }

  // ----- thread-local symbols -----

  function SignExtended(half: nat): int { if half < 0x8000_0000 then half else half - 0x1_0000_0000 }

  /** A thread's block ends at its thread pointer tp, so it starts tls below: the word stored for a
      thread-local symbol, added to tp, is the place of the symbol in the block, plus the addend. */
  lemma ThreadLocalPlace(m: Module, env: Env, t: Tables, r: Elf64Rela, out: seq<byte>, tp: int)
    requires Serves(m, env, t, r, out) && r.kind in {18, 23}
    ensures var block := tp - m.tls;
            var place := block + t.syms[r.sym].value + r.addend;
            && (r.kind == 18 ==> (tp + Le8(out[r.offset..r.offset + 8])) % TWO_64 == place % TWO_64)
            && (r.kind == 23 && -0x8000_0000 <= place - tp < 0x8000_0000 ==>
                  tp + SignExtended(Le4(out[r.offset..r.offset + 4])) == place)
  {
    hide Le8, Le4, Bytes8, Bytes4;
    var w := t.syms[r.sym].value + r.addend - m.tls;
    Le8Bytes8(w);
    Le4Bytes4(w);
    ModShift(w, tp);
    assert w < 0 && w >= -0x8000_0000 ==> w % TWO_32 == w + TWO_32;
  }
}
