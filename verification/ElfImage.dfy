/** so_load (src/so_util.c:95-180): the segments of an ELF file copied to their place in memory. */
module ElfImage {
  import opened Prelude

  const PT_LOAD: nat := 1
  const PT_TLS: nat := 7
  const PAGE: nat := 0x1000

  /** A program header; exec says that PF_X is set. */
  datatype Phdr = Phdr(kind: nat, exec: bool, offset: nat, vaddr: nat, filesz: nat, memsz: nat, align: nat)

  predicate Wide(x: nat) { x < TWO_64 }

  /** Every field is a 64-bit word. */
  predicate WideHeader(p: Phdr) {
    Wide(p.offset) && Wide(p.vaddr) && Wide(p.filesz) && Wide(p.memsz) && Wide(p.align)
  }

  function End(p: Phdr): nat { (p.vaddr + p.memsz) % TWO_64 }

  /** ALIGN_MEM(x, 0x1000), so_util.h:7. */
  function AlignUp(x: nat): nat { (x + PAGE - 1) % TWO_64 / PAGE * PAGE }

  // ----- what the loaded image is -----

  /** Position k is among the filesz bytes at the address of a PT_LOAD (1) segment. */
  predicate InPart(p: Phdr, k: int) { p.kind == 1 && p.vaddr <= k && k - p.vaddr < p.filesz }

  predicate LastPart(ps: seq<Phdr>, n: nat, k: int, i: int) {
    0 <= i < n <= |ps| && InPart(ps[i], k) && forall j | i < j < n :: !InPart(ps[j], k)
  }

  /** Every byte is the one that the last segment with a file part there has for it, or else 0. */
  ghost predicate IsImageOf(file: seq<byte>, ps: seq<Phdr>, img: seq<byte>) {
    && (forall i, k | 0 <= k < |img| && LastPart(ps, |ps|, k, i) ::
          ps[i].offset + (k - ps[i].vaddr) < |file| && img[k] == file[ps[i].offset + (k - ps[i].vaddr)])
    && (forall k | 0 <= k < |img| && (forall i | 0 <= i < |ps| :: !InPart(ps[i], k)) :: img[k] == 0)
  }

  /** What the loop has copied from segment p. */
  predicate InFilePart(p: Phdr, k: nat) { p.kind == PT_LOAD && p.vaddr <= k < p.vaddr + p.filesz }

  predicate Covers(size: nat, ps: seq<Phdr>) {
    forall i | 0 <= i < |ps| && ps[i].kind == PT_LOAD :: ps[i].vaddr + ps[i].memsz <= size
  }

  predicate IsImageSize(size: nat, ps: seq<Phdr>) {
    size % 0x1000 == 0 && Covers(size, ps) && forall s: nat | s % 0x1000 == 0 && Covers(s, ps) :: size <= s
  }

  /** The byte at k once the first n headers are copied: that of the last segment with k in its file
      part, or 0. */
  function ImageByte(file: seq<byte>, ps: seq<Phdr>, n: nat, k: nat): byte
    requires n <= |ps|
  {
    if n == 0 then 0
    else if InFilePart(ps[n - 1], k) && ps[n - 1].offset + (k - ps[n - 1].vaddr) < |file| then
      file[ps[n - 1].offset + (k - ps[n - 1].vaddr)]
    else ImageByte(file, ps, n - 1, k)
  }

  /** The segments fit the file and a buffer of len bytes. */
  predicate Loadable(file: seq<byte>, ps: seq<Phdr>, len: nat) {
    && |file| < TWO_63 && len < TWO_63 && len % PAGE == 0
    && (forall i | 0 <= i < |ps| :: WideHeader(ps[i]))
    && (forall i | 0 <= i < |ps| && ps[i].kind == PT_LOAD ::
          && ps[i].filesz <= ps[i].memsz && ps[i].offset + ps[i].filesz <= |file|
          && ps[i].vaddr + ps[i].memsz <= len)
    && (exists i :: 0 <= i < |ps| && ps[i].kind == PT_LOAD && ps[i].exec)
  }

  // ----- the loader -----

  predicate IsTls(p: Phdr) { p.kind == 7 }

  predicate IsText(p: Phdr) { p.kind == 1 && p.exec }

  /** i is the last of the first n headers with that property. */
  predicate LastTls(ps: seq<Phdr>, n: nat, i: int) {
    n <= |ps| && 0 <= i < n && IsTls(ps[i]) && forall j | i < j < n :: !IsTls(ps[j])
  }

  predicate NoTls(ps: seq<Phdr>, n: nat) { n <= |ps| && forall j | 0 <= j < n :: !IsTls(ps[j]) }

  predicate LastText(ps: seq<Phdr>, n: nat, i: int) {
    n <= |ps| && 0 <= i < n && IsText(ps[i]) && forall j | i < j < n :: !IsText(ps[j])
  }

  predicate NoText(ps: seq<Phdr>, n: nat) { n <= |ps| && forall j | 0 <= j < n :: !IsText(ps[j]) }

  function MaxEnd(ps: seq<Phdr>, n: nat): nat
    requires n <= |ps|
  {
    if n == 0 then 0
    else if ps[n - 1].kind == PT_LOAD && End(ps[n - 1]) > MaxEnd(ps, n - 1) then End(ps[n - 1])
    else MaxEnd(ps, n - 1)
  }

  /** The globals so_load sets. Addresses in the image are offsets from load_base, tlsTemplate is an
      offset into the file. The TLS globals of an earlier module stay when a module has no PT_TLS. */
  class Loader {
    var loadSize: nat
    var textBase: nat
    var textSize: nat
    var tlsTemplate: nat
    var tlsInitSize: nat
    var tlsTotalSize: nat
    var tlsAlign: nat

    constructor ()
      ensures tlsTemplate == tlsInitSize == tlsTotalSize == 0 && tlsAlign == 1
    {
      loadSize, textBase, textSize, tlsTemplate, tlsInitSize, tlsTotalSize, tlsAlign := 0, 0, 0, 0, 0, 0, 1;
    }

    /** The TLS globals are those of header p. */
    predicate TlsOf(p: Phdr)
      reads this
    {
      tlsTemplate == p.offset && tlsInitSize == p.filesz && tlsTotalSize == p.memsz
          && tlsAlign == if p.align != 0 then p.align else 1
    }

    /** Lines 116-131: find the end of the image, the text segment and the TLS segment. */
    method Scan(ps: seq<Phdr>) returns (maxEnd: nat, execSeg: int)
      modifies this
      ensures maxEnd == MaxEnd(ps, |ps|)
      ensures if NoText(ps, |ps|) then execSeg == -1 else LastText(ps, |ps|, execSeg)
      ensures if NoTls(ps, |ps|) then
                tlsTemplate == old(tlsTemplate) && tlsInitSize == old(tlsInitSize)
                    && tlsTotalSize == old(tlsTotalSize) && tlsAlign == old(tlsAlign)
              else exists i :: LastTls(ps, |ps|, i) && TlsOf(ps[i])
      ensures loadSize == old(loadSize) && textBase == old(textBase) && textSize == old(textSize)
    {
      maxEnd, execSeg := 0, -1;
      ghost var tls := -1;
      for i := 0 to |ps|
        invariant maxEnd == MaxEnd(ps, i)
        invariant if execSeg == -1 then NoText(ps, i) else LastText(ps, i, execSeg)
        invariant if tls == -1 then NoTls(ps, i) else LastTls(ps, i, tls)
        invariant if tls == -1 then
                    tlsTemplate == old(tlsTemplate) && tlsInitSize == old(tlsInitSize)
                        && tlsTotalSize == old(tlsTotalSize) && tlsAlign == old(tlsAlign)
                  else TlsOf(ps[tls])
        invariant loadSize == old(loadSize) && textBase == old(textBase) && textSize == old(textSize)
      {
        if ps[i].kind == PT_LOAD {
          var end := (ps[i].vaddr + ps[i].memsz) % TWO_64;
          if end > maxEnd { maxEnd := end; }
          if ps[i].exec { execSeg := i; }
        } else if ps[i].kind == PT_TLS {
          tlsTemplate := ps[i].offset;
          tlsInitSize := ps[i].filesz;
          tlsTotalSize := ps[i].memsz;
          tlsAlign := if ps[i].align != 0 then ps[i].align else 1;
          tls := i;
        }
      }
    }

    /** Lines 116-148: the image is zero but for the file parts, and nothing beyond it is touched. */
    method Load(file: seq<byte>, ps: seq<Phdr>, base: array<byte>)
      requires Loadable(file, ps, base.Length)
      modifies this, base
      ensures loadSize <= base.Length && IsImageSize(loadSize, ps)
      ensures IsImageOf(file, ps, base[..loadSize])
      ensures forall k | loadSize <= k < base.Length :: base[k] == old(base[k])
      ensures exists i :: LastText(ps, |ps|, i) && textBase == ps[i].vaddr && textSize == ps[i].memsz
      ensures if NoTls(ps, |ps|) then tlsTotalSize == old(tlsTotalSize)
              else exists i :: LastTls(ps, |ps|, i) && TlsOf(ps[i])
    {
      var maxEnd, execSeg := Scan(ps);
      ImageSize(file, ps, base.Length);
      loadSize := AlignUp(maxEnd);
      forall k | 0 <= k < loadSize {
        base[k] := 0;
      }
      CopySegments(file, ps, base);
      LoadedIsImage(file, ps, base.Length, base[..loadSize]);
      hide ImageByte, IsImageOf;
      textSize := ps[execSeg].memsz;
      textBase := ps[execSeg].vaddr;
    }

    /** Lines 137-143. */
    method CopySegments(file: seq<byte>, ps: seq<Phdr>, base: array<byte>)
      requires Loadable(file, ps, base.Length) && loadSize <= base.Length && Covers(loadSize, ps)
      requires forall k | 0 <= k < loadSize :: base[k] == 0
      modifies base
      ensures forall k | 0 <= k < loadSize :: base[k] == ImageByte(file, ps, |ps|, k)
      ensures forall k | loadSize <= k < base.Length :: base[k] == old(base[k])
    {
      for i := 0 to |ps|
        invariant forall k | 0 <= k < loadSize :: base[k] == ImageByte(file, ps, i, k)
        invariant forall k | loadSize <= k < base.Length :: base[k] == old(base[k])
      {
        var p := ps[i];
        if p.kind == PT_LOAD {
          forall k | p.vaddr <= k < p.vaddr + p.filesz {
            base[k] := file[p.offset + (k - p.vaddr)];
          }
        }
      }
    }
  }

  lemma {:induction false} MaxEndBounds(ps: seq<Phdr>, n: nat, len: nat)
    requires n <= |ps| && len < TWO_63
    requires forall i | 0 <= i < n && ps[i].kind == PT_LOAD :: ps[i].vaddr + ps[i].memsz <= len
    ensures MaxEnd(ps, n) <= len
    ensures forall i | 0 <= i < n && ps[i].kind == PT_LOAD :: ps[i].vaddr + ps[i].memsz <= MaxEnd(ps, n)
    ensures MaxEnd(ps, n) == 0 ||
            exists i :: 0 <= i < n && ps[i].kind == PT_LOAD && ps[i].vaddr + ps[i].memsz == MaxEnd(ps, n)
  {
    if n == 0 {
    } else {
      MaxEndBounds(ps, n - 1, len);
    }
  }

  lemma AlignUpLeast(x: nat, s: nat)
    requires x < TWO_63
    ensures AlignUp(x) % PAGE == 0 && x <= AlignUp(x)
    ensures s % PAGE == 0 && x <= s ==> AlignUp(x) <= s
  {
    var y := x + PAGE - 1;
    assert y % TWO_64 == y;
    var q, p := y / PAGE, s / PAGE;
    assert AlignUp(x) == q * PAGE;
    hide AlignUp;
    assert q * PAGE <= y < q * PAGE + PAGE;
    if s % PAGE == 0 && x <= s {
      assert s == p * PAGE;
      assert q < p + 1;
    }
  }

  /** load_size is the least multiple of the page size that covers the end of every segment. */
  lemma ImageSize(file: seq<byte>, ps: seq<Phdr>, len: nat)
    requires Loadable(file, ps, len)
    ensures IsImageSize(AlignUp(MaxEnd(ps, |ps|)), ps) && AlignUp(MaxEnd(ps, |ps|)) <= len
  {
    MaxEndBounds(ps, |ps|, len);
    var max := MaxEnd(ps, |ps|);
    hide AlignUp, MaxEnd;
    AlignUpLeast(max, len);
    forall s: nat | s % PAGE == 0 && Covers(s, ps)
      ensures AlignUp(max) <= s
    {
      AlignUpLeast(max, s);
    }
  }

  /** PT_LOAD segments occupy disjoint parts of the image. */
  predicate Disjoint(ps: seq<Phdr>) {
    forall i, j | 0 <= i < j < |ps| && ps[i].kind == PT_LOAD && ps[j].kind == PT_LOAD ::
      ps[i].vaddr + ps[i].memsz <= ps[j].vaddr || ps[j].vaddr + ps[j].memsz <= ps[i].vaddr
  }

  /** With disjoint segments every one of them, whatever its permissions, finds its file bytes at its
      address. */
  lemma ImageHoldsFile(file: seq<byte>, ps: seq<Phdr>, img: seq<byte>, i: nat, x: nat)
    requires IsImageOf(file, ps, img) && Loadable(file, ps, |img|) && Disjoint(ps)
    requires i < |ps| && ps[i].kind == 1 && x < ps[i].filesz
    ensures img[ps[i].vaddr + x] == file[ps[i].offset + x]
  {
    assert forall j | i < j < |ps| && ps[j].kind == 1 :: !InPart(ps[j], ps[i].vaddr + x);
    assert LastPart(ps, |ps|, ps[i].vaddr + x, i);
  }

  lemma {:induction false} ImageByteIs(file: seq<byte>, ps: seq<Phdr>, n: nat, k: nat, i: nat)
    requires LastPart(ps, n, k, i) && ps[i].offset + ps[i].filesz <= |file|
    ensures ImageByte(file, ps, n, k) == file[ps[i].offset + (k - ps[i].vaddr)]
  {
    if i == n - 1 {
    } else {
      ImageByteIs(file, ps, n - 1, k, i);
    }
  }

  lemma {:induction false} ImageByteZero(file: seq<byte>, ps: seq<Phdr>, n: nat, k: nat)
    requires n <= |ps| && forall i | 0 <= i < n :: !InPart(ps[i], k)
    ensures ImageByte(file, ps, n, k) == 0
  {
    if n == 0 {
    } else {
      ImageByteZero(file, ps, n - 1, k);
    }
  }

  lemma LoadedIsImage(file: seq<byte>, ps: seq<Phdr>, len: nat, img: seq<byte>)
    requires Loadable(file, ps, len) && forall k | 0 <= k < |img| :: img[k] == ImageByte(file, ps, |ps|, k)
    ensures IsImageOf(file, ps, img)
  {
    hide ImageByte;
    forall i, k | 0 <= k < |img| && LastPart(ps, |ps|, k, i)
      ensures ps[i].offset + (k - ps[i].vaddr) < |file| && img[k] == file[ps[i].offset + (k - ps[i].vaddr)]
    {
      ImageByteIs(file, ps, |ps|, k, i);
    }
    forall k | 0 <= k < |img| && (forall i | 0 <= i < |ps| :: !InPart(ps[i], k))
      ensures img[k] == 0
    {
      ImageByteZero(file, ps, |ps|, k);
    }
  }
}
