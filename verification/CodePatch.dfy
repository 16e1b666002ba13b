/** hook_x64 (src/so_util.c:57-83): overwrite the first bytes of a function with a jump. The two jump
    forms are those of the Intel SDM, Volume 2A chapter 3, JMP: E9 rel32 and FF /4 with a RIP-relative
    operand. */
module CodePatch {
  import opened Prelude

  const NEAR_LEN: nat := 5
  const FAR_LEN: nat := 14

  function RoundDown(x: nat, page: nat): nat
    requires page > 0
  {
    x / page * page
  }

  /** A 64-bit or 32-bit word read as a signed number. */
  function Signed64(x: nat): int { if x < TWO_63 then x else x - TWO_64 }

  function Signed32(x: nat): int { if x < 0x8000_0000 then x else x - TWO_32 }

  /** Line 62. */
  function Diff(addr: nat, dst: nat): int { Signed64(dst) - Signed64((addr + NEAR_LEN) % TWO_64) }

  predicate IsNear(addr: nat, dst: nat) { -0x8000_0000 <= Diff(addr, dst) <= 0x7fff_ffff }

  /** The subtraction of line 62 does not overflow. */
  predicate InRange(addr: nat, dst: nat) { addr < TWO_64 && dst < TWO_64 && 0 <= Diff(addr, dst) + TWO_63 < TWO_64 }

  const FAR_HEAD: seq<byte> := [0xFF, 0x25, 0, 0, 0, 0]

  function PatchLen(addr: nat, dst: nat): nat { if IsNear(addr, dst) then NEAR_LEN else FAR_LEN }

  function JumpBytes(addr: nat, dst: nat): (b: seq<byte>)
    ensures |b| == PatchLen(addr, dst)
  {
    if IsNear(addr, dst) then [0xE9] + Bytes4(Diff(addr, dst)) else FAR_HEAD + Bytes8(dst)
  }

  /** The target of the jump instruction at offset at of a text loaded at lo, if there is one: the
      operand of the second form is the word at the end of the instruction plus its displacement. */
  function DecodeJump(lo: nat, text: seq<byte>, at: nat): Option<nat> {
    if at + 5 <= |text| && text[at] == 0xE9 then
      Some((lo + at + 5 + Signed32(Le4(text[at + 1..at + 5]))) % TWO_64)
    else if at + 6 <= |text| && text[at] == 0xFF && text[at + 1] == 0x25 then
      var operand := at + 6 + Signed32(Le4(text[at + 2..at + 6]));
      if 0 <= operand && operand + 8 <= |text| then Some(Le8(text[operand..operand + 8])) else None
    else None
  }

  // ----- pages -----

  /** The pages line 60 and lines 64 or 71 ask for, for a patch of n bytes. */
  function PageStart(addr: nat, page: nat): nat
    requires page > 0
  {
    RoundDown(addr, page)
  }

  function PageLen(addr: nat, n: nat, page: nat): nat
    requires page > 0
  {
    RoundDown(addr + n - PageStart(addr, page) + page - 1, page)
  }

  predicate Aligned(x: nat, page: nat)
    requires page > 0
  {
    x % page == 0
  }

  lemma RoundDownBounds(x: nat, page: nat)
    requires page > 0
    ensures Aligned(RoundDown(x, page), page) && RoundDown(x, page) <= x < RoundDown(x, page) + page
  {
    MultipleMod(x / page, page);
  }

  lemma MultipleMod(q: nat, page: nat)
    requires page > 0
    ensures q * page % page == 0
  {
    var r, d := q * page % page, q * page / page;
    assert q * page == d * page + r;
    assert r == (q - d) * page;
    assert q - d >= 1 ==> (q - d) * page >= page;
    assert q - d <= -1 ==> (q - d) * page < 0;
  }

  lemma TimesMono(a: int, b: int, page: nat)
    requires a <= b
    ensures a * page <= b * page
  {
    assert (b - a) * page >= 0;
    assert b * page == a * page + (b - a) * page;
  }

  /** A multiple of the page size up to x is up to the last such multiple. */
  lemma RoundDownLast(s: nat, x: nat, page: nat)
    requires page > 0 && Aligned(s, page) && s <= x
    ensures s <= RoundDown(x, page)
  {
    var q, d := s / page, x / page;
    assert s == q * page && x < (d + 1) * page;
    if q > d {
      TimesMono(d + 1, q, page);
    }
    assert q <= d;
    TimesMono(q, d, page);
  }

  /** The pages made writable cover the patch, and every page range that covers it contains them. */
  lemma PageRangeSmallest(addr: nat, n: nat, page: nat, s: nat, e: nat)
    requires page > 0 && n > 0
    ensures var start := PageStart(addr, page);
            var end := start + PageLen(addr, n, page);
            && Aligned(start, page) && Aligned(end, page) && start <= addr && addr + n <= end
            && (Aligned(s, page) && Aligned(e, page) && s <= addr && addr + n <= e ==> s <= start && end <= e)
  {
    var start, len := PageStart(addr, page), PageLen(addr, n, page);
    RoundDownBounds(addr, page);
    RoundDownBounds(addr + n - start + page - 1, page);
    AlignedSum(start, len, page);
    if Aligned(s, page) && Aligned(e, page) && s <= addr && addr + n <= e {
      hide RoundDown, Aligned, PageStart, PageLen;
      RoundDownStart(s, addr, page);
      RoundUpEnd(addr, n, page, e);
    }
  }

  lemma RoundDownStart(s: nat, addr: nat, page: nat)
    requires page > 0 && Aligned(s, page) && s <= addr
    ensures s <= PageStart(addr, page)
  {
    RoundDownLast(s, addr, page);
  }

  lemma RoundUpEnd(addr: nat, n: nat, page: nat, e: nat)
    requires page > 0 && Aligned(e, page) && addr + n <= e
    ensures PageStart(addr, page) + PageLen(addr, n, page) <= e
  {
    var start, x := PageStart(addr, page), addr + n - PageStart(addr, page) + page - 1;
    RoundDownBounds(addr, page);
    RoundDownBounds(x, page);
    AlignedSum(start, PageLen(addr, n, page), page);
    hide RoundDown;
    if e < start + PageLen(addr, n, page) {
      AlignedGap(e, start + PageLen(addr, n, page), page);
    }
  }

  lemma AlignedSum(a: nat, b: nat, page: nat)
    requires page > 0 && Aligned(a, page) && Aligned(b, page)
    ensures Aligned(a + b, page)
  {
    assert a == a / page * page && b == b / page * page;
    MultipleMod(a / page + b / page, page);
    assert a + b == (a / page + b / page) * page;
  }

  /** Distinct multiples of the page size are at least a page apart. */
  lemma AlignedGap(a: nat, b: nat, page: nat)
    requires page > 0 && Aligned(a, page) && Aligned(b, page) && a < b
    ensures a + page <= b
  {
    var p, q := a / page, b / page;
    assert a == p * page && b == q * page;
    if q <= p {
      TimesMono(q, p, page);
    }
    assert p + 1 <= q;
    TimesMono(p + 1, q, page);
    assert (p + 1) * page == a + page;
  }

  // ----- hook_x64 -----

  /** The text of a module, loaded at lo, and its pages (numbered from address 0) that are writable.
      The page size is a power of two, so the masks of the source round down. */
  class Text {
    const lo: nat
    const page: nat
    const bytes: array<byte>
    var writable: iset<nat>

    constructor (lo: nat, page: nat, bytes: array<byte>)
      ensures this.lo == lo && this.page == page && this.bytes == bytes && writable == iset{}
    {
      this.lo, this.page, this.bytes := lo, page, bytes;
      writable := iset{};
    }

    predicate Holds(addr: nat) { lo <= addr < lo + bytes.Length }

    /** mprotect on pages start to start + len, absent failure. */
    method Protect(start: nat, len: nat, write: bool)
      requires page > 0
      modifies this`writable
      ensures writable == if write then old(writable) + PagesOf(start, len) else old(writable) - PagesOf(start, len)
    {
      var pages := PagesOf(start, len);
      if write { writable := writable + pages; } else { writable := writable - pages; }
    }

    function PagesOf(start: nat, len: nat): iset<nat>
      requires page > 0
    {
      iset a: nat | start <= a < start + len :: a / page
    }

    /** A store faults unless its page is writable. */
    method StoreByte(addr: nat, v: byte)
      requires page > 0 && Holds(addr) && addr / page in writable
      modifies bytes
      ensures bytes[..] == old(bytes[..])[addr - lo := v]
    {
      bytes[addr - lo] := v;
    }

    method StoreBytes(addr: nat, b: seq<byte>)
      requires page > 0 && lo <= addr && addr + |b| <= lo + bytes.Length
      requires forall a: nat | addr <= a < addr + |b| :: a / page in writable
      modifies bytes
      ensures bytes[..] == Overlay(old(bytes[..]), addr - lo, b)
    {
      for i := 0 to |b|
        invariant bytes[..] == Overlay(old(bytes[..]), addr - lo, b[..i])
      {
        StoreByte(addr + i, b[i]);
      }
    }

    predicate CanStore(addr: nat, n: nat)
      requires page > 0
      reads this
    {
      lo <= addr && addr + n <= lo + bytes.Length && forall a: nat | addr <= a < addr + n :: a / page in writable
    }

    /** Lines 66-67. */
    method StoreNear(addr: nat, diff: int)
      requires page > 0 && CanStore(addr, NEAR_LEN)
      modifies bytes
      ensures bytes[..] == Overlay(old(bytes[..]), addr - lo, [0xE9] + Bytes4(diff))
    {
      hide Bytes4;
      StoreByte(addr, 0xE9);
      StoreBytes(addr + 1, Bytes4(diff));
    }

    /** Lines 73-79. */
    method StoreFar(addr: nat, dst: nat)
      requires page > 0 && CanStore(addr, FAR_LEN)
      modifies bytes
      ensures bytes[..] == Overlay(old(bytes[..]), addr - lo, FAR_HEAD + Bytes8(dst))
    {
      hide Bytes8;
      StoreByte(addr, 0xFF);
      StoreByte(addr + 1, 0x25);
      StoreByte(addr + 2, 0x00);
      StoreByte(addr + 3, 0x00);
      StoreByte(addr + 4, 0x00);
      StoreByte(addr + 5, 0x00);
      StoreBytes(addr + 6, Bytes8(dst));
    }

    /** hook_x64. */
    method Hook(addr: nat, dst: nat)
      requires page > 0 && InRange(addr, dst) && lo <= addr && addr + PatchLen(addr, dst) <= lo + bytes.Length
      modifies this`writable, bytes
      ensures bytes[..] == Overlay(old(bytes[..]), addr - lo, JumpBytes(addr, dst))
      ensures writable == old(writable) - PagesOf(PageStart(addr, page), PageLen(addr, PatchLen(addr, dst), page))
    {
      hide Overlay, Bytes4, Bytes8;
      PageRangeSmallest(addr, PatchLen(addr, dst), page, 0, 0);
      var pageStart := addr / page * page;
      var diff := Signed64(dst) - Signed64((addr + 5) % TWO_64);
      if -2147483648 <= diff <= 2147483647 {
        var len := (addr + 5 - pageStart + page - 1) / page * page;
        Protect(pageStart, len, true);
        StoreNear(addr, diff);
        Protect(pageStart, len, false);
      } else {
        var len := (addr + 14 - pageStart + page - 1) / page * page;
        Protect(pageStart, len, true);
        StoreFar(addr, dst);
        Protect(pageStart, len, false);
      }
    }
  }

  // ----- what the hooks do -----

  datatype Install = Install(addr: nat, dst: nat)

  /** The text after the first n installs. */
  function Installed(lo: nat, text: seq<byte>, hooks: seq<Install>, n: nat): (r: seq<byte>)
    requires n <= |hooks|
    ensures |r| == |text|
  {
    if n == 0 then text
    else
      var h, before := hooks[n - 1], Installed(lo, text, hooks, n - 1);
      if h.addr < lo then before else Overlay(before, h.addr - lo, JumpBytes(h.addr, h.dst))
  }

  predicate InText(lo: nat, len: nat, h: Install) {
    InRange(h.addr, h.dst) && lo <= h.addr && h.addr + PatchLen(h.addr, h.dst) <= lo + len <= TWO_64
  }

  predicate WindowsApart(h: Install, g: Install) {
    h.addr + PatchLen(h.addr, h.dst) <= g.addr || g.addr + PatchLen(g.addr, g.dst) <= h.addr
  }

  /** Patch windows are disjoint or start at the same address. */
  ghost predicate Compatible(lo: nat, len: nat, hooks: seq<Install>) {
    && (forall i | 0 <= i < |hooks| :: InText(lo, len, hooks[i]))
    && (forall i, j | 0 <= i < j < |hooks| && hooks[i].addr != hooks[j].addr :: WindowsApart(hooks[i], hooks[j]))
  }

  lemma Signed32Bytes4(d: int)
    requires -0x8000_0000 <= d <= 0x7fff_ffff
    ensures Signed32(Le4(Bytes4(d))) == d
  {
    hide Le4, Bytes4;
    Le4Bytes4(d);
  }

  /** A near jump adds its displacement back. */
  lemma NearTarget(addr: nat, dst: nat)
    requires InRange(addr, dst)
    ensures (addr + 5 + Diff(addr, dst)) % TWO_64 == dst
  {
  }

  /** The bytes at offset at are jump bytes. */
  predicate HoldsAt(text: seq<byte>, at: nat, b: seq<byte>) { at + |b| <= |text| && text[at..at + |b|] == b }

  lemma NearDecodes(lo: nat, text: seq<byte>, at: nat, diff: int)
    requires -0x8000_0000 <= diff <= 0x7fff_ffff && HoldsAt(text, at, [0xE9] + Bytes4(diff))
    ensures DecodeJump(lo, text, at) == Some((lo + at + 5 + diff) % TWO_64)
  {
    Signed32Bytes4(diff);
    hide Bytes4, Le4;
    var w := text[at..at + 5];
    assert text[at] == w[0] && text[at + 1..at + 5] == w[1..5];
    assert w[1..5] == Bytes4(diff);
  }

  lemma FarDecodes(lo: nat, text: seq<byte>, at: nat, dst: nat)
    requires dst < TWO_64 && HoldsAt(text, at, FAR_HEAD + Bytes8(dst))
    ensures DecodeJump(lo, text, at) == Some(dst)
  {
    Le8Bytes8(dst);
    hide Bytes8, Le8;
    var w := text[at..at + 14];
    assert text[at] == w[0] && text[at + 1] == w[1] && text[at + 2..at + 6] == w[2..6]
        && text[at + 6..at + 14] == w[6..14];
    assert w[2..6] == [0, 0, 0, 0] && w[6..14] == Bytes8(dst);
    assert Signed32(Le4([0, 0, 0, 0])) == 0;
  }

  /** Jump bytes decode as a jump to their target, wherever they stand. */
  lemma JumpDecodes(lo: nat, text: seq<byte>, addr: nat, dst: nat)
    requires InRange(addr, dst) && lo <= addr && HoldsAt(text, addr - lo, JumpBytes(addr, dst))
    ensures DecodeJump(lo, text, addr - lo) == Some(dst)
  {
    hide HoldsAt, DecodeJump, Bytes4, Bytes8, Diff;
    var at := addr - lo;
    if IsNear(addr, dst) {
      hide InRange;
      NearTarget(addr, dst);
      NearDecodes(lo, text, at, Diff(addr, dst));
      assert lo + at == addr;
    } else {
      FarDecodes(lo, text, addr - lo, dst);
    }
  }

  /** How far dst is from the end of a five-byte jump, as 64-bit addresses. */
  function Distance(addr: nat, dst: nat): nat { (dst - (addr + 5)) % 0x1_0000_0000_0000_0000 }

  /** At most 2^31 - 1 ahead or 2^31 behind. */
  predicate IsClose(addr: nat, dst: nat) {
    Distance(addr, dst) < 0x8000_0000 || Distance(addr, dst) >= 0xffff_ffff_8000_0000
  }

  lemma NearIsClose(addr: nat, dst: nat)
    requires InRange(addr, dst)
    ensures IsNear(addr, dst) <==> IsClose(addr, dst)
    ensures Distance(addr, dst) == Diff(addr, dst) % TWO_64
  {
  }

  /** Five bytes with the distance as their displacement if the destination is close, else fourteen
      with the destination itself. */
  lemma JumpIs(addr: nat, dst: nat)
    requires InRange(addr, dst)
    ensures JumpBytes(addr, dst) ==
            if IsClose(addr, dst) then [0xE9] + Bytes4(Distance(addr, dst))
            else [0xFF, 0x25, 0, 0, 0, 0] + Bytes8(dst)
    ensures PatchLen(addr, dst) == if IsClose(addr, dst) then 5 else 14
  {
    NearIsClose(addr, dst);
    var d, e := Diff(addr, dst), Distance(addr, dst);
    hide IsNear, IsClose, Distance, Diff, InRange, Le4, Bytes4, Bytes8;
    Le4Bytes4(d);
    Le4Bytes4(e);
    SameLowWord(d);
    Bytes4Le4(Bytes4(d));
    Bytes4Le4(Bytes4(e));
  }

  lemma SameLowWord(d: int)
    ensures d % TWO_64 % TWO_32 == d % TWO_32
  {
    var q, r := d / TWO_64, d % TWO_64;
    var u, v := r / TWO_32, r % TWO_32;
    var k := TWO_32 * q + u;
    assert d == TWO_64 * q + r && r == TWO_32 * u + v;
    assert d == TWO_32 * k + v;
  }

  /** Bytes in no install's window stay. */
  lemma {:induction false} InstalledKeeps(lo: nat, text: seq<byte>, hooks: seq<Install>, n: nat, k: nat)
    requires Compatible(lo, |text|, hooks) && n <= |hooks| && k < |text|
    requires forall i | 0 <= i < n ::
               var h := hooks[i]; !(h.addr <= lo + k < h.addr + if IsClose(h.addr, h.dst) then 5 else 14)
    ensures Installed(lo, text, hooks, n)[k] == text[k]
  {
    if n == 0 {
    } else {
      InstalledKeeps(lo, text, hooks, n - 1, k);
      JumpIs(hooks[n - 1].addr, hooks[n - 1].dst);
      hide JumpBytes, PatchLen, IsClose, Compatible;
    }
  }

  /** Another patch, elsewhere, leaves the bytes held at an offset. */
  lemma PatchedKeeps(text: seq<byte>, at: nat, b: seq<byte>, to: nat, c: seq<byte>)
    requires HoldsAt(text, at, b) && (at + |b| <= to || to + |c| <= at)
    ensures HoldsAt(Overlay(text, to, c), at, b)
  {
    assert Overlay(text, to, c)[at..at + |b|] == text[at..at + |b|];
  }

  lemma PatchedHolds(text: seq<byte>, at: nat, b: seq<byte>)
    requires at + |b| <= |text|
    ensures HoldsAt(Overlay(text, at, b), at, b)
  {
    assert Overlay(text, at, b)[at..at + |b|] == b;
  }

  /** The last install at an address stays. */
  lemma {:induction false} LatestHolds(lo: nat, text: seq<byte>, hooks: seq<Install>, n: nat, i: nat)
    requires Compatible(lo, |text|, hooks) && i < n <= |hooks| && lo <= hooks[i].addr
    requires forall j | i < j < n :: hooks[j].addr != hooks[i].addr
    ensures HoldsAt(Installed(lo, text, hooks, n), hooks[i].addr - lo, JumpBytes(hooks[i].addr, hooks[i].dst))
  {
    hide InRange, PatchLen, JumpBytes, Overlay, HoldsAt, Compatible;
    var h, g := hooks[i], hooks[n - 1];
    var before := Installed(lo, text, hooks, n - 1);
    CompatibleMeans(lo, |text|, hooks, i, n - 1);
    if i == n - 1 {
      PatchedHolds(before, h.addr - lo, JumpBytes(h.addr, h.dst));
    } else {
      LatestHolds(lo, text, hooks, n - 1, i);
      PatchedKeeps(before, h.addr - lo, JumpBytes(h.addr, h.dst), g.addr - lo, JumpBytes(g.addr, g.dst));
    }
  }

  lemma CompatibleMeans(lo: nat, len: nat, hooks: seq<Install>, i: nat, j: nat)
    requires Compatible(lo, len, hooks) && i <= j < |hooks|
    ensures InText(lo, len, hooks[i]) && InText(lo, len, hooks[j])
    ensures hooks[i].addr != hooks[j].addr ==> WindowsApart(hooks[i], hooks[j])
  {
    hide InText, WindowsApart;
  }

  /** No later install is at the same address. */
  predicate IsLatest(hooks: seq<Install>, i: int) {
    0 <= i < |hooks| && forall j | i < j < |hooks| :: hooks[j].addr != hooks[i].addr
  }

  /** After any sequence of installs whose windows are disjoint or share an address, one jump from each
      hooked address reaches its latest destination. */
  lemma HooksReach(lo: nat, text: seq<byte>, hooks: seq<Install>, i: nat)
    requires Compatible(lo, |text|, hooks) && IsLatest(hooks, i)
    ensures lo <= hooks[i].addr
    ensures DecodeJump(lo, Installed(lo, text, hooks, |hooks|), hooks[i].addr - lo) == Some(hooks[i].dst)
  {
    hide Installed, JumpBytes, HoldsAt, DecodeJump, Compatible, InRange, PatchLen;
    CompatibleMeans(lo, |text|, hooks, i, i);
    LatestHolds(lo, text, hooks, |hooks|, i);
    JumpDecodes(lo, Installed(lo, text, hooks, |hooks|), hooks[i].addr, hooks[i].dst);
  }
}
