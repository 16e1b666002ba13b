/** What an IMG pack is, in bytes and indices (src/asset_archive.c, load_img_pack and
    open_img_pack_asset): its directory, where its slices begin, which pack decides about a path, and
    what a reader of that path is given. */
module ImgPacks {
  import opened Prelude
  import opened AssetPath
  import opened IndexFormat
  import opened SliceHandle
  import opened AssetArchive

  // ----- the directory -----

  /** A directory record as it is meant; its name is padded with NUL to 24 bytes. */
  datatype DirRec = DirRec(start: nat, count: nat, name: seq<byte>) {
    predicate Fits() { start < 0x1_0000_0000 && count < 0x1_0000_0000 && |name| <= 24 && 0 !in name }
  }

  function Zeros(n: nat): seq<byte> { seq(n, _ => 0) }

  function EncodeDirRec(r: DirRec): (b: seq<byte>)
    requires r.Fits()
    ensures |b| == 32
  {
    Bytes4(r.start) + Bytes4(r.count) + (r.name + Zeros(24 - |r.name|))
  }

  function EncodeDir(rs: seq<DirRec>): (b: seq<byte>)
    requires forall i | 0 <= i < |rs| :: rs[i].Fits()
    ensures |b| == 32 * |rs|
  {
    if rs == [] then [] else EncodeDirRec(rs[0]) + EncodeDir(rs[1..])
  }

  /** Record i of the directory bytes: two little-endian words and a string. */
  predicate RecordAt(data: seq<byte>, i: nat, start: nat, count: nat, name: seq<byte>) {
    && 32 * i + 32 <= |data|
    && data[32 * i..32 * i + 4] == Bytes4(start) && data[32 * i + 4..32 * i + 8] == Bytes4(count)
    && CStr(data[32 * i + 8..32 * i + 32]) == name
  }

  lemma EntryIs(data: seq<byte>, i: nat, start: nat, count: nat, name: seq<byte>)
    requires RecordAt(data, i, start, count, name) && start < 0x1_0000_0000 && count < 0x1_0000_0000
    ensures i < |DecodeDir(data)| && DecodeDir(data)[i] == ImgEntry(Normalize(name, 25), start, count)
  {
    hide CStr, Normalize, Bytes4, Le4;
    SmallWords(start);
    SmallWords(count);
  }

  lemma RecordEncoded(r: DirRec)
    requires r.Fits()
    ensures RecordAt(EncodeDirRec(r), 0, r.start, r.count, r.name)
  {
    hide Bytes4;
    var name := r.name + Zeros(24 - |r.name|);
    assert EncodeDirRec(r)[8..32] == name;
    CStrUnique(name, r.name);
  }

  /** A record keeps its meaning when others come before it and bytes after it. */
  lemma RecordShifts(a: seq<byte>, b: seq<byte>, k: nat, i: nat, start: nat, count: nat, name: seq<byte>)
    requires |a| == 32 * k && RecordAt(b, i, start, count, name)
    ensures RecordAt(a + b, k + i, start, count, name)
  {
    hide Bytes4, CStr;
    var d, o := a + b, 32 * i;
    assert 32 * (k + i) == |a| + o;
    assert d[|a| + o..|a| + o + 4] == b[o..o + 4] && d[|a| + o + 4..|a| + o + 8] == b[o + 4..o + 8];
    assert d[|a| + o + 8..|a| + o + 32] == b[o + 8..o + 32];
  }

  lemma RecordGrows(a: seq<byte>, b: seq<byte>, i: nat, start: nat, count: nat, name: seq<byte>)
    requires RecordAt(a, i, start, count, name)
    ensures RecordAt(a + b, i, start, count, name)
  {
    hide Bytes4, CStr;
    var d, o := a + b, 32 * i;
    assert d[o..o + 4] == a[o..o + 4] && d[o + 4..o + 8] == a[o + 4..o + 8] && d[o + 8..o + 32] == a[o + 8..o + 32];
  }

  lemma {:induction false} EncodedRecordAt(rs: seq<DirRec>, rest: seq<byte>, i: nat)
    requires (forall j | 0 <= j < |rs| :: rs[j].Fits()) && i < |rs|
    ensures RecordAt(EncodeDir(rs) + rest, i, rs[i].start, rs[i].count, rs[i].name)
  {
    hide RecordAt, EncodeDirRec, DirRec.Fits;
    var first, tail := EncodeDirRec(rs[0]), EncodeDir(rs[1..]) + rest;
    Assoc(first, EncodeDir(rs[1..]), rest);
    if i == 0 {
      RecordEncoded(rs[0]);
      RecordGrows(first, tail, 0, rs[0].start, rs[0].count, rs[0].name);
    } else {
      EncodedRecordAt(rs[1..], rest, i - 1);
      RecordShifts(first, tail, 1, i - 1, rs[i].start, rs[i].count, rs[i].name);
    }
  }

  /** Round trip: a directory is read back as its records in order, with their names normalised,
      whatever incomplete record follows. */
  lemma DirectoryRoundTrip(rs: seq<DirRec>, rest: seq<byte>)
    requires (forall i | 0 <= i < |rs| :: rs[i].Fits()) && |rest| < 32
    ensures var es := DecodeDir(EncodeDir(rs) + rest);
            && |es| == |rs|
            && forall i | 0 <= i < |rs| :: es[i] == ImgEntry(Normalize(rs[i].name, 25), rs[i].start, rs[i].count)
  {
    var data := EncodeDir(rs) + rest;
    hide *;
    assert |DecodeDir(data)| == |rs|;
    forall i | 0 <= i < |rs|
      ensures DecodeDir(data)[i] == ImgEntry(Normalize(rs[i].name, 25), rs[i].start, rs[i].count)
    {
      EncodedRecordAt(rs, rest, i);
      EntryIs(data, i, rs[i].start, rs[i].count, rs[i].name);
    }
  }

  // ----- where a slice begins -----

  /** The slice asked for at start begins at from: after the local file header if the bytes there (or
      zeros after the end of the file) are one, its name n and its extra field m bytes long. */
  ghost predicate BeginsAt(file: seq<byte>, start: nat, from: nat) {
    var h := file[Min(start, |file|)..] + Zeros(32);
    if h[..4] == [80, 75, 3, 4] then
      exists n, m ::
        && 0 <= n < 0x1_0000 && 0 <= m < 0x1_0000 && h[26..28] == Bytes2(n) && h[28..30] == Bytes2(m)
        && from == (start + 30 + n + m) % 0x1_0000_0000
    else from == start
  }

  lemma SliceBegins(file: seq<byte>, start: nat, from: nat)
    ensures SliceStart(file, start) == from <==> BeginsAt(file, start, from)
  {
    var h := file[Min(start, |file|)..] + Zeros(32);
    var magic := Magic(file, start);
    assert magic == h[..32];
    assert magic[..4] == h[..4] && magic[26..28] == h[26..28] && magic[28..30] == h[28..30];
    Bytes2Le2(h[26..28]);
    Bytes2Le2(h[28..30]);
    forall n | 0 <= n < 0x1_0000 {
      SmallWords(n);
    }
    hide Le2, Bytes2, Magic;
  }

  /** Without a header the slice begins where it was asked for. */
  lemma SliceBeginsPlain(file: seq<byte>, start: nat)
    requires start + 4 <= |file| ==> file[start..start + 4] != [80, 75, 3, 4]
    ensures SliceStart(file, start) == start && !HasSignature(file, start)
  {
    var magic := Magic(file, start);
    assert start + 4 <= |file| ==> magic[..4] == file[start..start + 4];
    assert start + 4 > |file| ==> magic[3] == 0 && magic[..4][3] == 0;
    hide Magic;
  }

  /** The directory bytes are the whole slice, and there are none if the file ends before it. */
  lemma DirDataIs(disk: Disk, d: Entry, from: nat)
    requires d.zip in disk && BeginsAt(disk[d.zip], d.offset, from)
    ensures d.size == 0 ==> DirData(disk, d) == Some([])
    ensures d.size > 0 ==>
              DirData(disk, d) ==
              if from + d.size <= |disk[d.zip]| then Some(disk[d.zip][from..from + d.size]) else None
  {
    SliceBegins(disk[d.zip], d.offset, from);
    hide BeginsAt, SliceStart;
  }

  // ----- which pack decides -----

  /** A loaded pack whose logical prefix the path has. */
  predicate Claims(p: ImgPack, path: seq<byte>) { p.entries != [] && p.prefix <= path }

  predicate Names(p: ImgPack, name: seq<byte>) { exists i :: 0 <= i < |p.entries| && p.entries[i].name == name }

  /** Pack k decides about path: the first that claims it, or, when none does, the first that has an
      entry of its base name. */
  predicate Decides(packs: seq<ImgPack>, path: seq<byte>, k: nat) {
    && k < |packs|
    && (|| (Claims(packs[k], path) && forall j | 0 <= j < k :: !Claims(packs[j], path))
        || (&& (forall j | 0 <= j < |packs| :: !Claims(packs[j], path))
            && Names(packs[k], Basename(path)) && forall j | 0 <= j < k :: !Names(packs[j], Basename(path))))
  }

  predicate FirstNamed(es: seq<ImgEntry>, name: seq<byte>, i: nat) {
    i < |es| && es[i].name == name && forall j | 0 <= j < i :: es[j].name != name
  }

  lemma {:induction false} FindImgIs(es: seq<ImgEntry>, name: seq<byte>) returns (i: nat)
    ensures if FindImg(es, name).Some? then FirstNamed(es, name, i) && FindImg(es, name) == Some(es[i])
            else forall j | 0 <= j < |es| :: es[j].name != name
  {
    if es == [] || es[0].name == name {
      i := 0;
    } else {
      i := FindImgIs(es[1..], name);
      i := i + 1;
    }
  }

  lemma {:induction false} PrefixPackIs(packs: seq<ImgPack>, path: seq<byte>) returns (k: nat)
    ensures if PrefixPack(packs, path).Some? then
              && k < |packs| && PrefixPack(packs, path) == Some(packs[k])
              && Claims(packs[k], path) && forall j | 0 <= j < k :: !Claims(packs[j], path)
            else forall j | 0 <= j < |packs| :: !Claims(packs[j], path)
  {
    if packs == [] || Claims(packs[0], path) {
      k := 0;
    } else {
      k := PrefixPackIs(packs[1..], path);
      k := k + 1;
    }
  }

  lemma {:induction false} AnyPackIs(packs: seq<ImgPack>, name: seq<byte>) returns (k: nat, i: nat)
    ensures if AnyPack(packs, name).Some? then
              && k < |packs| && FirstNamed(packs[k].entries, name, i)
              && AnyPack(packs, name) == Some((packs[k], packs[k].entries[i]))
              && forall j | 0 <= j < k :: !Names(packs[j], name)
            else forall j | 0 <= j < |packs| :: !Names(packs[j], name)
  {
    if packs == [] {
      k, i := 0, 0;
    } else {
      i := FindImgIs(packs[0].entries, name);
      if FindImg(packs[0].entries, name).Some? {
        k := 0;
      } else {
        k, i := AnyPackIs(packs[1..], name);
        k := k + 1;
      }
    }
  }

  /** open_img_pack_asset chooses from the pack that decides its first entry of the base name. */
  lemma ChosenIs(packs: seq<ImgPack>, path: seq<byte>) returns (k: nat, i: nat)
    requires Chosen(packs, path).Some?
    ensures Decides(packs, path, k) && FirstNamed(packs[k].entries, Basename(path), i)
    ensures Chosen(packs, path) == Some((packs[k], packs[k].entries[i]))
  {
    hide Basename, FindImg, PrefixPack, AnyPack, Claims;
    k := PrefixPackIs(packs, path);
    if PrefixPack(packs, path).Some? {
      i := FindImgIs(packs[k].entries, Basename(path));
    } else {
      k, i := AnyPackIs(packs, Basename(path));
    }
  }

  lemma FirstEntry(es: seq<ImgEntry>, name: seq<byte>, i: nat)
    requires FirstNamed(es, name, i)
    ensures FindImg(es, name) == Some(es[i])
  {
    hide FindImg;
    var j := FindImgIs(es, name);
    assert es[i].name == name;
  }

  lemma ClaimDecides(packs: seq<ImgPack>, path: seq<byte>, k: nat)
    requires k < |packs| && Claims(packs[k], path) && forall j | 0 <= j < k :: !Claims(packs[j], path)
    ensures PrefixPack(packs, path) == Some(packs[k])
  {
    hide PrefixPack, Claims;
    var l := PrefixPackIs(packs, path);
    assert Claims(packs[k], path);
  }

  lemma NameDecides(packs: seq<ImgPack>, name: seq<byte>, k: nat, i: nat)
    requires k < |packs| && FirstNamed(packs[k].entries, name, i) && forall j | 0 <= j < k :: !Names(packs[j], name)
    ensures AnyPack(packs, name) == Some((packs[k], packs[k].entries[i]))
  {
    hide AnyPack, FindImg;
    var l, j := AnyPackIs(packs, name);
    NamedIsNamed(packs[k], name, i);
    if AnyPack(packs, name).Some? {
      NamedIsNamed(packs[l], name, j);
      hide Names;
      assert l == k;
    }
  }

  lemma NamedIsNamed(p: ImgPack, name: seq<byte>, i: nat)
    requires FirstNamed(p.entries, name, i)
    ensures Names(p, name)
  {
  }

  /** And whenever there is such a pack and such an entry it does choose them. */
  lemma ChosenIff(packs: seq<ImgPack>, path: seq<byte>, k: nat, i: nat)
    requires Decides(packs, path, k) && FirstNamed(packs[k].entries, Basename(path), i)
    ensures Chosen(packs, path) == Some((packs[k], packs[k].entries[i]))
  {
    hide Basename, FindImg, PrefixPack, AnyPack, Claims, Names, FirstNamed;
    FirstEntry(packs[k].entries, Basename(path), i);
    if Claims(packs[k], path) && forall j | 0 <= j < k :: !Claims(packs[j], path) {
      ClaimDecides(packs, path, k);
    } else {
      var l := PrefixPackIs(packs, path);
      NameDecides(packs, Basename(path), k, i);
    }
  }

  // ----- what opening a pack entry means -----

  /** The image of a pack lies in its archive, within 32-bit offsets. */
  predicate ImageInFile(file: seq<byte>, p: ImgPack) {
    p.offset + p.size <= |file| && p.offset + p.size < TWO_32
  }

  predicate EntryInImage(p: ImgPack, e: ImgEntry) { BLOCK * (e.start + e.count) <= p.size }

  lemma SmallMod(x: int)
    requires 0 <= x < TWO_32
    ensures x % TWO_32 == x
  {
  }

  /** Nothing wraps in lines 319-321. */
  lemma ImgExact(file: seq<byte>, p: ImgPack, e: ImgEntry)
    requires ImageInFile(file, p) && EntryInImage(p, e)
    ensures ImgStart(p, e) == p.offset + BLOCK * e.start && ImgSize(e) == BLOCK * e.count
  {
    SmallMod(BLOCK * e.start);
    SmallMod(BLOCK * e.count);
    SmallMod(p.offset + BLOCK * e.start);
  }

  /** Opening an entry and reading it to the end yields its blocks of the image. */
  lemma ImgComposes(file: seq<byte>, p: ImgPack, e: ImgEntry, v: View, ops: seq<Op>)
    requires ImageInFile(file, p) && EntryInImage(p, e) && !HasSignature(file, ImgStart(p, e))
    requires v == View(file, SliceStart(file, ImgStart(p, e)), ImgSize(e), 0)
    requires (forall i | 0 <= i < |ops| :: !ops[i].Seek?) && Asked(ops) >= BLOCK * e.count
    ensures BLOCK * e.start + BLOCK * e.count <= p.size
    ensures Delivered(HandleRun(v, ops).0) ==
        file[p.offset..p.offset + p.size][BLOCK * e.start..BLOCK * e.start + BLOCK * e.count]
  {
    hide *;
    ImgView(file, p, e, v);
    ReadsInner(v, ops, p.offset, p.size, BLOCK * e.start);
  }

  lemma ImgView(file: seq<byte>, p: ImgPack, e: ImgEntry, v: View)
    requires ImageInFile(file, p) && EntryInImage(p, e) && !HasSignature(file, ImgStart(p, e))
    requires v == View(file, SliceStart(file, ImgStart(p, e)), ImgSize(e), 0)
    ensures v.file == file && v.start == p.offset + BLOCK * e.start && v.size == BLOCK * e.count && v.pos == 0
    ensures p.offset + p.size <= |file| && BLOCK * e.start + BLOCK * e.count <= p.size
  {
    ImgExact(file, p, e);
    hide HasSignature, ImgStart, ImgSize;
  }

  lemma ReadsInner(v: View, ops: seq<Op>, o: nat, s: nat, a: nat)
    requires o + s <= |v.file| && v.pos == 0 && v.start == o + a && a + v.size <= s
    requires (forall i | 0 <= i < |ops| :: !ops[i].Seek?) && Asked(ops) >= v.size
    ensures Delivered(HandleRun(v, ops).0) == v.file[o..o + s][a..a + v.size]
  {
    hide *;
    ReadsWhole(v, ops);
    SliceOfSlice(v.file, o, s, a, v.start, v.size);
  }

  lemma SliceOfSlice(file: seq<byte>, o: nat, s: nat, a: nat, start: nat, n: nat)
    requires o + s <= |file| && a + n <= s && start == o + a
    ensures file[o..o + s][a..a + n] == file[start..start + n]
  {
    var whole, inner := file[start..start + n], file[o..o + s][a..a + n];
    assert |inner| == |whole|;
    forall i | 0 <= i < n
      ensures inner[i] == whole[i]
    {
      assert inner[i] == file[o..o + s][a + i] == file[o + (a + i)];
    }
  }

  lemma ReadsWhole(v: View, ops: seq<Op>)
    requires v.start + v.size <= |v.file| && v.pos == 0
    requires (forall i | 0 <= i < |ops| :: !ops[i].Seek?) && Asked(ops) >= v.size
    ensures Delivered(HandleRun(v, ops).0) == v.file[v.start..v.start + v.size]
  {
    ReadsArePrefix(v, ops);
    assert Payload(v)[..v.size] == Payload(v);
  }

  /** Entries whose blocks do not overlap give slices that do not overlap. */
  lemma ImgSlicesDisjoint(file: seq<byte>, p: ImgPack, e: ImgEntry, f: ImgEntry)
    requires ImageInFile(file, p) && EntryInImage(p, e) && EntryInImage(p, f)
    requires e.start + e.count <= f.start || f.start + f.count <= e.start
    ensures ImgStart(p, e) + ImgSize(e) <= ImgStart(p, f) || ImgStart(p, f) + ImgSize(f) <= ImgStart(p, e)
  {
    ImgExact(file, p, e);
    ImgExact(file, p, f);
    hide ImgStart, ImgSize;
  }

  // ----- from the index files to the bytes -----

  lemma ReadyPack(disk: Disk, packs: seq<ImgPack>, k: nat) returns (d: Entry, g: Entry)
    requires AllReady(disk, packs) && k < |packs| && packs[k].entries != []
    ensures k < |IMG_PACKS| && IsLoaded(disk, IMG_PACKS[k], d, g, packs[k])
  {
    assert IMG_PACKS[k].entries == [];
    hide IsLoaded, CannotLoad;
    d, g :| IsLoaded(disk, IMG_PACKS[k], d, g, packs[k]);
  }

  /** bytes are the blocks that record i of the directory gives, in the image that g names. */
  ghost predicate AreBlocks(disk: Disk, d: Entry, g: Entry, i: nat, name: seq<byte>, bytes: seq<byte>) {
    && DirData(disk, d).Some? && g.zip in disk && g.offset + g.size <= |disk[g.zip]|
    && exists start, count, raw ::
         && start >= 0 && count >= 0 && RecordAt(DirData(disk, d).value, i, start, count, raw)
         && Normalize(raw, 25) == name && 2048 * (start + count) <= g.size
         && bytes == disk[g.zip][g.offset..g.offset + g.size][2048 * start..2048 * start + 2048 * count]
  }

  lemma RecordIs(data: seq<byte>, i: nat) returns (raw: seq<byte>)
    requires 32 * (i + 1) <= |data|
    ensures RecordAt(data, i, DirEntryAt(data, i).start, DirEntryAt(data, i).count, raw)
    ensures DirEntryAt(data, i).name == Normalize(raw, 25)
  {
    raw := CStr(data[32 * i + 8..32 * i + 32]);
    Bytes4Le4(data[32 * i..32 * i + 4]);
    Bytes4Le4(data[32 * i + 4..32 * i + 8]);
    hide Bytes4, Le4, CStr, Normalize;
  }

  lemma ChosenEntry(packs: seq<ImgPack>, path: seq<byte>) returns (k: nat, i: nat)
    requires Chosen(packs, path).Some?
    ensures k < |packs| && packs[k] == Chosen(packs, path).value.0
    ensures i < |packs[k].entries| && packs[k].entries[i] == Chosen(packs, path).value.1
    ensures packs[k].entries[i].name == Basename(path)
  {
    k, i := ChosenIs(packs, path);
    hide Chosen, Basename;
  }

  /** From the index files to the bytes: after init, opening a path whose chosen entry lies in an image
      inside its file and reading it to the end yields the blocks that the directory record of that
      name gives, in the image that the pack's path stands for. v is the handle that
      open_img_pack_asset returns. */
  lemma ImgAssetReads(disk: Disk, packs: seq<ImgPack>, path: seq<byte>, p: ImgPack, e: ImgEntry, v: View, ops: seq<Op>)
    returns (k: nat, d: Entry, g: Entry, i: nat)
    requires AllReady(disk, packs) && Chosen(packs, path) == Some((p, e)) && p.zip in disk
    requires ImageInFile(disk[p.zip], p) && EntryInImage(p, e) && !HasSignature(disk[p.zip], ImgStart(p, e))
    requires v == View(disk[p.zip], SliceStart(disk[p.zip], ImgStart(p, e)), ImgSize(e), 0)
    requires (forall i | 0 <= i < |ops| :: !ops[i].Seek?) && Asked(ops) >= BLOCK * e.count
    ensures k < |IMG_PACKS| && Indexed(disk, d) && d.path == IMG_PACKS[k].dirPath
    ensures Indexed(disk, g) && g.path == IMG_PACKS[k].imgPath
    ensures AreBlocks(disk, d, g, i, Basename(path), Delivered(HandleRun(v, ops).0))
  {
    hide *;
    k, i := ChosenEntry(packs, path);
    d, g := ReadyPack(disk, packs, k);
    ImgComposes(disk[p.zip], p, e, v, ops);
    LoadedBlocks(disk, IMG_PACKS[k], d, g, p, i, Delivered(HandleRun(v, ops).0));
  }

  lemma LoadedBlocks(disk: Disk, p: ImgPack, d: Entry, g: Entry, q: ImgPack, i: nat, bytes: seq<byte>)
    requires IsLoaded(disk, p, d, g, q) && i < |q.entries| && q.zip in disk
    requires ImageInFile(disk[q.zip], q) && EntryInImage(q, q.entries[i])
    requires var e := q.entries[i];
             BLOCK * e.start + BLOCK * e.count <= q.size
             && bytes == disk[q.zip][q.offset..q.offset + q.size][BLOCK * e.start..BLOCK * e.start + BLOCK * e.count]
    ensures Indexed(disk, d) && d.path == p.dirPath && Indexed(disk, g) && g.path == p.imgPath
    ensures AreBlocks(disk, d, g, i, q.entries[i].name, bytes)
  {
    hide Indexed, DirData, RecordAt, DirEntryAt, Normalize;
    var data := DirData(disk, d).value;
    assert q.entries[i] == DirEntryAt(data, i);
    var raw := RecordIs(data, i);
    assert RecordAt(data, i, q.entries[i].start, q.entries[i].count, raw);
  }

  /** The slice of d holds this directory, and after it less than a record. */
  ghost predicate HoldsDir(disk: Disk, d: Entry, rs: seq<DirRec>, rest: seq<byte>) {
    && d.zip in disk && |rest| < 32 && (forall i | 0 <= i < |rs| :: rs[i].Fits())
    && exists from :: from >= 0 && BeginsAt(disk[d.zip], d.offset, from) && from + d.size <= |disk[d.zip]|
        && disk[d.zip][from..from + d.size] == EncodeDir(rs) + rest
  }

  /** Record j is the first of that name. */
  predicate FirstRecord(rs: seq<DirRec>, name: seq<byte>, j: nat) {
    && j < |rs| && Normalize(rs[j].name, 25) == name
    && forall i | 0 <= i < j :: Normalize(rs[i].name, 25) != name
  }

  lemma OnePrefix(path: seq<byte>, k: nat, l: nat)
    requires k < |IMG_PACKS| && l < |IMG_PACKS| && IMG_PACKS[k].prefix <= path && IMG_PACKS[l].prefix <= path
    ensures k == l
  {
    var a, b := IMG_PACKS[k].prefix, IMG_PACKS[l].prefix;
    assert path[0] == a[0] == b[0] && path[1] == a[1] == b[1];
  }

  lemma HeldDirData(disk: Disk, d: Entry, rs: seq<DirRec>, rest: seq<byte>)
    requires HoldsDir(disk, d, rs, rest)
    ensures DirData(disk, d) == Some(EncodeDir(rs) + rest)
  {
    hide BeginsAt, DirData, EncodeDir, DirRec.Fits;
    var from :| from >= 0 && BeginsAt(disk[d.zip], d.offset, from) && from + d.size <= |disk[d.zip]|
        && disk[d.zip][from..from + d.size] == EncodeDir(rs) + rest;
    DirDataIs(disk, d, from);
  }

  /** A pack whose two paths are indexed once and whose directory can be read is loaded from there. */
  lemma PackIsLoaded(disk: Disk, packs: seq<ImgPack>, k: nat, d: Entry, g: Entry)
    requires AllReady(disk, packs) && k < |packs| && DirData(disk, d).Some?
    requires IsOnlyEntry(disk, IMG_PACKS[k].dirPath, d) && IsOnlyEntry(disk, IMG_PACKS[k].imgPath, g)
    ensures packs[k] == LoadedPack(IMG_PACKS[k], DirData(disk, d).value, g)
  {
    hide Indexed, DirData, LoadedPack;
    assert PackReady(disk, IMG_PACKS[k], packs[k]);
    assert IsIndexed(disk, IMG_PACKS[k].dirPath) && IsIndexed(disk, IMG_PACKS[k].imgPath);
  }

  lemma PrefixesStay(disk: Disk, packs: seq<ImgPack>, k: nat)
    requires AllReady(disk, packs) && k < |packs|
    ensures packs[k].prefix == IMG_PACKS[k].prefix
  {
    hide Indexed, DirData;
    assert PackReady(disk, IMG_PACKS[k], packs[k]);
  }

  /** The other way round, from the bytes on the disk to what is read: with the two paths of pack k
      indexed once, by d and g, and d's slice holding a directory, a path with the pack's prefix whose
      base name is first that of record j opens the blocks of record j in the image of g. */
  lemma PackPathOpens(disk: Disk, packs: seq<ImgPack>, path: seq<byte>, k: nat, d: Entry, g: Entry,
                      rs: seq<DirRec>, rest: seq<byte>, j: nat)
    requires AllReady(disk, packs) && k < |packs| && IMG_PACKS[k].prefix <= path
    requires IsOnlyEntry(disk, IMG_PACKS[k].dirPath, d) && IsOnlyEntry(disk, IMG_PACKS[k].imgPath, g)
    requires HoldsDir(disk, d, rs, rest) && FirstRecord(rs, Basename(path), j)
    requires g.zip in disk && g.offset + g.size <= |disk[g.zip]| && g.offset + g.size < 0x1_0000_0000
    requires 2048 * (rs[j].start + rs[j].count) <= g.size
    requires var at := g.offset + 2048 * rs[j].start;
             at + 4 <= |disk[g.zip]| ==> disk[g.zip][at..at + 4] != [80, 75, 3, 4]
    ensures Chosen(packs, path).Some?
    ensures var (p, e) := Chosen(packs, path).value;
            && p.zip == g.zip
            && View(disk[p.zip], SliceStart(disk[p.zip], ImgStart(p, e)), ImgSize(e), 0) ==
               View(disk[g.zip], g.offset + 2048 * rs[j].start, 2048 * rs[j].count, 0)
  {
    hide *;
    var p, e := PackPathChosen(disk, packs, path, k, d, g, rs, rest, j);
    BlocksExact(disk[g.zip], p, e, e.start, e.count);
    SliceBeginsPlain(disk[g.zip], g.offset + 2048 * e.start);
  }

  lemma BlocksExact(file: seq<byte>, p: ImgPack, e: ImgEntry, start: nat, count: nat)
    requires e.start == start && e.count == count && 2048 * (start + count) <= p.size
    requires p.offset + p.size <= |file| && p.offset + p.size < 0x1_0000_0000
    ensures ImgStart(p, e) == p.offset + 2048 * start && ImgSize(e) == 2048 * count
  {
    ImgExact(file, p, e);
  }

  lemma PackPathChosen(disk: Disk, packs: seq<ImgPack>, path: seq<byte>, k: nat, d: Entry, g: Entry,
                       rs: seq<DirRec>, rest: seq<byte>, j: nat)
    returns (p: ImgPack, e: ImgEntry)
    requires AllReady(disk, packs) && k < |packs| && IMG_PACKS[k].prefix <= path
    requires IsOnlyEntry(disk, IMG_PACKS[k].dirPath, d) && IsOnlyEntry(disk, IMG_PACKS[k].imgPath, g)
    requires HoldsDir(disk, d, rs, rest) && FirstRecord(rs, Basename(path), j)
    ensures Chosen(packs, path) == Some((p, e)) && p.zip == g.zip && p.offset == g.offset && p.size == g.size
    ensures e.start == rs[j].start && e.count == rs[j].count
  {
    HeldDirData(disk, d, rs, rest);
    hide DirRec.Fits, EncodeDir, AllReady, IsOnlyEntry, DirData, BeginsAt, Chosen, DecodeDir, Basename, Normalize,
      FirstNamed, Decides;
    PackIsLoaded(disk, packs, k, d, g);
    DirectoryRoundTrip(rs, rest);
    p := packs[k];
    e := p.entries[j];
    PackDecides(disk, packs, path, k);
    FirstRecordNamed(rs, p.entries, Basename(path), j);
    ChosenIff(packs, path, k, j);
  }

  lemma PackDecides(disk: Disk, packs: seq<ImgPack>, path: seq<byte>, k: nat)
    requires AllReady(disk, packs) && k < |packs| && packs[k].entries != [] && IMG_PACKS[k].prefix <= path
    ensures Decides(packs, path, k)
  {
    hide PackReady, Names;
    forall i | 0 <= i <= k
      ensures Claims(packs[i], path) <==> i == k
    {
      PrefixesStay(disk, packs, i);
      if IMG_PACKS[i].prefix <= path {
        OnePrefix(path, i, k);
      }
    }
  }

  lemma FirstRecordNamed(rs: seq<DirRec>, es: seq<ImgEntry>, name: seq<byte>, j: nat)
    requires FirstRecord(rs, name, j) && |es| == |rs|
    requires forall i | 0 <= i < |rs| :: es[i] == ImgEntry(Normalize(rs[i].name, 25), rs[i].start, rs[i].count)
    ensures FirstNamed(es, name, j)
  {
    hide Normalize;
  }

  // ----- packs that are never loaded -----

  /** An upper-case letter or a backslash. */
  predicate HasUpper(s: seq<byte>) { exists i :: 0 <= i < |s| && (65 <= s[i] <= 90 || s[i] == 92) }

  lemma IndexedAnswers(disk: Disk, e: Entry) returns (r: Rec)
    requires Indexed(disk, e)
    ensures Answers(r, e.path)
  {
    hide FileRecords, ZipOf, Answers;
    var k :| 0 <= k < |IDX_FILES| && IndexedIn(disk, k, e);
    var rs := FileRecords(disk[IDX_FILES[k]]);
    var i :| 0 <= i < |rs| && Made(ZipOf(IDX_FILES[k]), rs[i], e);
    r := rs[i];
  }

  lemma IndexedIsFolded(disk: Disk, e: Entry)
    requires Indexed(disk, e)
    ensures !HasUpper(e.path)
  {
    hide Indexed, Normalize;
    var r := IndexedAnswers(disk, e);
    NormalizedBytes(CStr(r.name), MAX_NAME);
    var n := NormalName(r);
    assert |e.path| <= |n|;
    forall j | 0 <= j < |e.path|
      ensures !(65 <= e.path[j] <= 90) && e.path[j] != 92
    {
      assert e.path[j] == n[|n| - |e.path| + j] && e.path[j] in n;
    }
  }

  /** The table holds only folded paths, but load_img_pack looks its two up as they are written: a pack
      can be loaded only if neither has an upper-case letter or a backslash. */
  lemma LoadedNeedsLowerCase(disk: Disk, p: ImgPack, d: Entry, g: Entry, q: ImgPack)
    requires IsLoaded(disk, p, d, g, q)
    ensures !HasUpper(p.dirPath) && !HasUpper(p.imgPath)
  {
    hide Indexed, DirData;
    IndexedIsFolded(disk, d);
    IndexedIsFolded(disk, g);
  }

  /** So, whatever is on the disk, the packs for dat/ (Trigger.dir) and cuts/ (Cuts.dir) stay empty. */
  lemma TwoPacksStayEmpty(disk: Disk, packs: seq<ImgPack>, k: nat)
    requires AllReady(disk, packs) && (k == 2 || k == 3)
    ensures packs[k] == IMG_PACKS[k] && packs[k].entries == []
  {
    assert 65 <= IMG_PACKS[k].dirPath[if k == 2 then 14 else 15] <= 90;
    if d, g :| IsLoaded(disk, IMG_PACKS[k], d, g, packs[k]) {
      LoadedNeedsLowerCase(disk, IMG_PACKS[k], d, g, packs[k]);
    }
    hide IsLoaded, CannotLoad;
  }
}
