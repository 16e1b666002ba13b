/** The asset archive (src/asset_archive.c): index files are read once into a growing table, the
    table is sorted at the first lookup and searched by bisection, and IMG packs are decoded through
    slice handles. */
module AssetArchive {
  import opened Prelude
  import opened AssetPath
  import opened IndexFormat
  import opened SliceHandle
  import opened StrOrder

  const BLOCK: nat := 2048

  function Ascii(s: string): seq<byte> {
    seq(|s|, i requires 0 <= i < |s| => s[i] as int % 256)
  }

  const IDX_FILES: seq<seq<byte>> :=
    [Ascii("data_0.zip.idx"), Ascii("data_1.zip.idx"), Ascii("data_2.zip.idx"), Ascii("data_3.zip.idx"),
        Ascii("data_4.zip.idx")]

  const DOT_IDX := Ascii(".idx")

  /** The name up to its first ".idx", lines 142-145. */
  function CutIdx(s: seq<byte>): seq<byte> {
    if s == [] || DOT_IDX <= s then [] else [s[0]] + CutIdx(s[1..])
  }

  /** The archive an index belongs to, as kept in the 16-byte field of an entry. */
  function ZipOf(idx: seq<byte>): seq<byte> {
    var zip := CutIdx(idx[..Min(|idx|, 31)]);
    zip[..Min(|zip|, 15)]
  }

  predicate IdxAt(s: seq<byte>, i: nat) { i + 4 <= |s| && s[i..i + 4] == Ascii(".idx") }

  lemma {:induction false} CutsAt(s: seq<byte>, k: nat)
    requires IdxAt(s, k) && forall i | 0 <= i < k :: !IdxAt(s, i)
    ensures CutIdx(s) == s[..k]
  {
    assert DOT_IDX <= s <==> IdxAt(s, 0);
    if k == 0 {
    } else {
      assert s[1..][k - 1..k + 3] == s[k..k + 4];
      forall i | 0 <= i < k - 1
        ensures !IdxAt(s[1..], i)
      {
        assert !IdxAt(s, i + 1) && s[1..][i..i + 4] == s[i + 1..i + 5];
      }
      CutsAt(s[1..], k - 1);
    }
  }

  /** An index file is named after its archive: of the name before the first ".idx" an entry keeps up
      to 15 bytes. */
  lemma ZipOfIs(name: seq<byte>)
    requires |name| <= 27 && forall i | 0 <= i < |name| :: !IdxAt(name + Ascii(".idx"), i)
    ensures ZipOf(name + Ascii(".idx")) == name[..Min(|name|, 15)]
  {
    var s := name + Ascii(".idx");
    assert s[..Min(|s|, 31)] == s && s[|name|..|name| + 4] == Ascii(".idx");
    CutsAt(s, |name|);
    assert s[..|name|] == name;
  }

  lemma NotIdxAt(s: seq<byte>, i: nat)
    requires i + 1 < |s| && (s[i] != 46 || s[i + 1] != 105)
    ensures !IdxAt(s, i)
  {
    var piece := if i + 4 <= |s| then s[i..i + 4] else [];
    assert piece != [] ==> piece[0] == s[i] && piece[1] == s[i + 1];
  }

  const ZIP_FILES: seq<seq<byte>> :=
    [Ascii("data_0.zip"), Ascii("data_1.zip"), Ascii("data_2.zip"), Ascii("data_3.zip"), Ascii("data_4.zip")]

  lemma ZipFiles(k: nat)
    requires k < |IDX_FILES|
    ensures k < |ZIP_FILES| && ZipOf(IDX_FILES[k]) == ZIP_FILES[k]
  {
    var name := ZIP_FILES[k];
    assert IDX_FILES[k] == name + Ascii(".idx");
    assert forall i | 0 <= i < |name| :: name[i] == 46 ==> i == 6;
    assert name[7] == 122;
    hide ZipOf, IdxAt;
    forall i | 0 <= i < |name| {
      NotIdxAt(IDX_FILES[k], i);
    }
    ZipOfIs(name);
  }

  /** The files below assets/. */
  type Disk = map<seq<byte>, seq<byte>>

  // ----- IMG packs -----

  /** One 32-byte record of a pack directory. */
  datatype ImgEntry = ImgEntry(name: seq<byte>, start: nat, count: nat)

  /** A pack: where it is looked for, and once loaded the archive, offset and size of its image and
      its directory. */
  datatype ImgPack = ImgPack(
    prefix: seq<byte>, dirPath: seq<byte>, imgPath: seq<byte>,
    zip: seq<byte>, offset: nat, size: nat, entries: seq<ImgEntry>)

  function EmptyPack(prefix: string, dirPath: string, imgPath: string): ImgPack {
    ImgPack(Ascii(prefix), Ascii(dirPath), Ascii(imgPath), [], 0, 0, [])
  }

  const IMG_PACKS: seq<ImgPack> := [
    EmptyPack("act/", "bullyorig/act/act.dir", "bullyorig/act/act.img"),
    EmptyPack("scripts/", "bullyorig/scripts/scripts.dir", "bullyorig/scripts/scripts.img"),
    EmptyPack("dat/", "bullyorig/dat/Trigger.dir", "bullyorig/dat/Trigger.img"),
    EmptyPack("cuts/", "bullyorig/cuts/Cuts.dir", "bullyorig/cuts/Cuts.img"),
    EmptyPack("stream/", "bullyorig/stream/world.dir", "bullyorig/stream/world.img"),
    EmptyPack("objects/", "bullyorig/objects/ide.dir", "bullyorig/objects/ide.img")]

  function DirEntryAt(data: seq<byte>, i: nat): ImgEntry
    requires 32 * (i + 1) <= |data|
  {
    var name := Normalize(CStr(data[32 * i + 8..32 * i + 32]), 25);
    ImgEntry(name, Le4(data[32 * i..32 * i + 4]), Le4(data[32 * i + 4..32 * i + 8]))
  }

  function DecodeDir(data: seq<byte>): (es: seq<ImgEntry>)
    ensures |es| == |data| / 32
  {
    seq(|data| / 32, i requires 0 <= i < |data| / 32 => DirEntryAt(data, i))
  }

  /** The 32 bytes probed at start, zero where the file has ended. */
  function Magic(file: seq<byte>, start: nat): seq<byte> {
    seq(32, i requires 0 <= i < 32 => if start + i < |file| then file[start + i] else 0)
  }

  predicate HasSignature(file: seq<byte>, start: nat) { Magic(file, start)[..4] == [80, 75, 3, 4] }

  /** Lines 205-213: where a slice really starts, past a local file header if one stands there. */
  function SliceStart(file: seq<byte>, start: nat): nat {
    if HasSignature(file, start) then
      (start + 30 + Le2(Magic(file, start)[26..28]) + Le2(Magic(file, start)[28..30])) % TWO_32
    else start
  }

  /** The directory bytes an index entry leads to, if its slice can be read to the end. */
  function DirData(disk: Disk, d: Entry): Option<seq<byte>> {
    if d.zip !in disk then None
    else
      var v := View(disk[d.zip], SliceStart(disk[d.zip], d.offset), d.size, 0);
      if Got(v, d.size) == d.size then Some(Chunk(v, d.size)) else None
  }

  function LoadedPack(p: ImgPack, dir: seq<byte>, img: Entry): ImgPack {
    p.(zip := img.zip, offset := img.offset, size := img.size, entries := DecodeDir(dir))
  }

  /** The first entry of that name. */
  function FindImg(es: seq<ImgEntry>, name: seq<byte>): Option<ImgEntry> {
    if es == [] then None else if es[0].name == name then Some(es[0]) else FindImg(es[1..], name)
  }

  /** The first loaded pack whose logical prefix the path has. */
  function PrefixPack(packs: seq<ImgPack>, path: seq<byte>): Option<ImgPack> {
    if packs == [] then None
    else if packs[0].entries != [] && packs[0].prefix <= path then Some(packs[0])
    else PrefixPack(packs[1..], path)
  }

  /** The first loaded pack that has an entry of that name. */
  function AnyPack(packs: seq<ImgPack>, name: seq<byte>): Option<(ImgPack, ImgEntry)> {
    if packs == [] then None
    else match FindImg(packs[0].entries, name)
      case Some(e) => Some((packs[0], e))
      case None => AnyPack(packs[1..], name)
  }

  /** The pack named by the path decides alone; without one the first match anywhere. */
  function Chosen(packs: seq<ImgPack>, path: seq<byte>): Option<(ImgPack, ImgEntry)> {
    match PrefixPack(packs, path)
    case Some(p) => (match FindImg(p.entries, Basename(path)) case None => None case Some(e) => Some((p, e)))
    case None => AnyPack(packs, Basename(path))
  }

  /** Lines 319-321 in 32-bit arithmetic. */
  function ImgStart(p: ImgPack, e: ImgEntry): nat { (p.offset + e.start * BLOCK % TWO_32) % TWO_32 }
  function ImgSize(e: ImgEntry): nat { e.count * BLOCK % TWO_32 }

  // ----- what the table should hold -----

  function FileEntries(disk: Disk, idx: seq<byte>): seq<Entry> {
    if idx in disk then RecsEntries(ZipOf(idx), FileRecords(disk[idx])) else []
  }

  /** The entries of the first n index files, in order. */
  function AllEntries(disk: Disk, n: nat): seq<Entry>
    requires n <= |IDX_FILES|
  {
    if n == 0 then [] else AllEntries(disk, n - 1) + FileEntries(disk, IDX_FILES[n - 1])
  }

  predicate Ordered(t: seq<Entry>) {
    forall i, j | 0 <= i < j < |t| :: Leq(t[i].path, t[j].path)
  }

  // ----- the table -----

  class Archive {
    const disk: Disk
    const packs: array<ImgPack>
    var entries: array<Entry>
    var count: nat
    var sorted: bool
    var attempted: bool
    var ready: bool
    ghost var table: seq<Entry>  // the entries in use

    constructor (disk: Disk)
      ensures this.disk == disk && Valid() && table == [] && !attempted && fresh(entries) && fresh(packs)
          && packs[..] == IMG_PACKS
    {
      this.disk := disk;
      packs := new ImgPack[6](i requires 0 <= i < 6 => IMG_PACKS[i]);
      entries := new Entry[0];
      count, sorted, attempted, ready := 0, false, false, false;
      table := [];
    }

    ghost predicate Holds()
      reads this, entries
    {
      count <= entries.Length && entries[..count] == table
    }

    /** The table is complete: it holds just the entries of the index files. */
    ghost predicate IsComplete()
      reads this`table
    {
      multiset(table) == multiset(AllEntries(disk, |IDX_FILES|))
    }

    /** Each pack is empty before the first attempt, and then loaded, or empty for a reason. */
    ghost predicate PacksValid()
      reads this`attempted, packs
    {
      && packs.Length == |IMG_PACKS|
      && (forall k | 0 <= k < |IMG_PACKS| ::
            if attempted then PackReady(disk, IMG_PACKS[k], packs[k]) else packs[k] == IMG_PACKS[k])
    }

    /** Between calls: nothing is loaded before the first attempt, a sorted table stays sorted, and
        from then on the table is complete. */
    ghost predicate Valid()
      reads this, entries, packs
    {
      && Holds() && PacksValid()
      && (!attempted ==> table == [] && !sorted && !ready)
      && (sorted ==> Ordered(table))
      && (attempted ==> ready && IsComplete())
    }

    /** Lines 105-111: double the capacity of a full table. */
    method Grow()
      requires Holds()
      modifies this`entries
      ensures Holds() && count < entries.Length
      ensures entries == old(entries) || fresh(entries)
      ensures entries.Length == if count < old(entries.Length) then old(entries.Length)
                                else if old(entries.Length) == 0 then 512 else 2 * old(entries.Length)
    {
      if count == entries.Length {
        var newCap := if entries.Length == 0 then 512 else entries.Length * 2;
        var bigger := new Entry[newCap](_ => Entry([], [], 0, 0));
        forall i | 0 <= i < count {
          bigger[i] := entries[i];
        }
        entries := bigger;
      }
    }

    /** add_zip_index_alias, absent allocation failure. */
    method AddAlias(zip: seq<byte>, path: seq<byte>, offset: nat, size: nat)
      requires Holds()
      modifies this`entries, this`count, this`table, entries
      ensures Holds() && table == With(old(table), Alias(zip, path, Rec(offset, size, [])))
      ensures entries == old(entries) || fresh(entries)
    {
      if path == [] { return; }
      Grow();
      entries[count] := Entry(path, zip, offset, size);
      count := count + 1;
      table := table + [Entry(path, zip, offset, size)];
    }

    /** Lines 165-169 for one root. */
    method AddAliasBelow(root: seq<byte>, zip: seq<byte>, path: seq<byte>, offset: nat, size: nat)
      requires Holds() && root <= path
      modifies this`entries, this`count, this`table, entries
      ensures Holds() && table == With(old(table), AliasBelow(root, zip, path, Rec(offset, size, [])))
      ensures entries == old(entries) || fresh(entries)
    {
      AddAlias(zip, path[|root|..], offset, size);
    }

    /** Lines 157-169: copy the name, normalise it, and add it with its alias. */
    method AddRecord(zip: seq<byte>, offset: nat, size: nat, name: seq<byte>)
      requires Holds()
      modifies this`entries, this`count, this`table, entries
      ensures Holds() && table == With(old(table), RecEntries(zip, Rec(offset, size, name)))
      ensures entries == old(entries) || fresh(entries)
    {
      var alias := NormalisedName(name, MAX_NAME);
      RecEntriesAre(table, zip, Rec(offset, size, name), alias);
      hide *;
      AddAlias(zip, alias, offset, size);
      if BULLYORIG <= alias {
        AddAliasBelow(BULLYORIG, zip, alias, offset, size);
      } else if BULLY <= alias {
        AddAliasBelow(BULLY, zip, alias, offset, size);
      }
    }

    /** Lines 150-169: the record at pos, if there is a whole one. */
    method LoadRecord(zip: seq<byte>, data: seq<byte>, pos: nat) returns (ok: bool, next: nat)
      requires Holds() && pos <= |data|
      modifies this`entries, this`count, this`table, entries
      ensures Holds() && (entries == old(entries) || fresh(entries))
      ensures RecordLoaded(zip, data, pos, old(table), ok, next, table)
    {
      if pos + 10 > |data| { return false, pos; }
      var r, whole := ReadRecord(data, pos);
      if !whole { return false, pos; }
      AddRecord(zip, r.offset, r.size, r.name);
      return true, pos + 10 + |r.name|;
    }

    /** The loop of lines 147-170 over the bytes of an index file. */
    method LoadRecords(zip: seq<byte>, data: seq<byte>)
      requires Holds() && |data| >= 4
      modifies this`entries, this`count, this`table, entries
      ensures Holds() && table == With(old(table), RecsEntries(zip, FileRecords(data)))
      ensures entries == old(entries) || fresh(entries)
    {
      var entryCount := Le4(data[..4]);
      var pos: nat := 4;
      var i := 0;
      var ok := true;
      ghost var done: seq<Rec> := [];
      ReadingStart(zip, data, table);
      hide *;
      while ok && i < entryCount
        invariant i <= entryCount && pos <= |data| && Holds()
        invariant entries == old(entries) || fresh(entries)
        invariant Reading(zip, data, old(table), entryCount, pos, i, ok, done, table)
        decreases ok, entryCount - i
      {
        ghost var was, here := table, pos;
        ok, pos := LoadRecord(zip, data, pos);
        ReadingStep(zip, data, old(table), entryCount, here, i, done, was, ok, pos, table);
        done := Longer(done, data, here, ok);
        if ok {
          i := i + 1;
        }
      }
      ReadingDone(zip, data, old(table), entryCount, pos, i, ok, done, table);
    }

    /** load_zip_index_file, absent allocation failure. */
    method LoadIndexFile(idx: seq<byte>) returns (res: int)
      requires Holds()
      modifies this`entries, this`count, this`table, entries
      ensures Holds() && table == old(table) + FileEntries(disk, idx)
      ensures entries == old(entries) || fresh(entries)
      ensures res == if idx in disk && |disk[idx]| >= 4 then 0 else -1
    {
      if idx !in disk { return -1; }
      if |disk[idx]| < 4 { return -1; }
      LoadRecords(ZipOf(idx), disk[idx]);
      return 0;
    }

    // ----- lookup -----

    /** One exchange of the sort. */
    method Exchange(j: nat)
      requires Holds() && 0 < j < count
      modifies entries, this`table
      ensures Holds() && table == Exchanged(old(table), j)
    {
      entries[j - 1], entries[j] := entries[j], entries[j - 1];
      table := Exchanged(table, j);
    }

    /** Move entry i down to its place among the sorted entries before it. */
    method SinkEntry(i: nat)
      requires Holds() && i < count && Ordered(table[..i])
      modifies entries, this`table
      ensures Holds() && Ordered(table[..i + 1]) && multiset(table) == multiset(old(table))
    {
      var j: nat := i;
      while j > 0 && StrCmp(entries[j - 1].path, entries[j].path) > 0
        invariant j <= i && Holds()
        invariant OrderedBut(table, i + 1, j)
        invariant multiset(table) == multiset(old(table))
      {
        ExchangeKeeps(table, i + 1, j);
        Exchange(j);
        j := j - 1;
      }
      SunkIsOrdered(table, i + 1, j);
    }

    /** qsort: an in-place sort by strcmp of the paths. */
    method SortTable()
      requires Holds()
      modifies entries, this`table
      ensures Holds() && Ordered(table) && multiset(table) == multiset(old(table))
    {
      var i := 0;
      while i < count
        invariant i <= count && Holds()
        invariant Ordered(table[..i]) && multiset(table) == multiset(old(table))
      {
        SinkEntry(i);
        i := i + 1;
      }
      assert table[..i] == table;
    }

    /** bsearch: halve the range [l, u) until the key is hit or the range is empty. */
    method Search(key: seq<byte>) returns (r: Option<Entry>)
      requires Holds() && Ordered(table)
      ensures r.Some? ==> r.value in table && r.value.path == key
      ensures r.None? ==> forall k | 0 <= k < |table| :: table[k].path != key
    {
      var l, u := 0, count;
      while l < u
        invariant 0 <= l <= u <= count
        invariant forall k | 0 <= k < l || u <= k < |table| :: table[k].path != key
      {
        var mid := (l + u) / 2;
        var c := StrCmp(key, entries[mid].path);
        assert entries[mid] == table[mid];
        StrCmpZero(key, table[mid].path);
        SearchHalves(table, key, mid);
        if c < 0 { u := mid; } else if c > 0 { l := mid + 1; } else { return Some(entries[mid]); }
      }
      return None;
    }

    /** find_zip_entry: sort once, then bisect. */
    method FindZipEntry(path: seq<byte>) returns (r: Option<Entry>)
      requires Holds() && (sorted ==> Ordered(table))
      modifies entries, this`table, this`sorted
      ensures Holds() && sorted && Ordered(table) && multiset(table) == multiset(old(table))
      ensures old(sorted) ==> table == old(table)
      ensures r.Some? ==> r.value in table && r.value.path == path
      ensures r.None? ==> forall k | 0 <= k < |table| :: table[k].path != path
    {
      if !sorted {
        SortTable();
        sorted := true;
      }
      r := Search(path);
    }

    /** A lookup once asset_archive_init has run finds a path if and only if some record of an index
        file answers to it, and returns an entry that such a record makes. */
    method FindIndexed(path: seq<byte>) returns (r: Option<Entry>)
      requires Valid() && attempted && path != []
      modifies entries, this`table, this`sorted
      ensures Valid() && multiset(table) == multiset(old(table))
      ensures r.Some? <==> exists e: Entry :: e.path == path && Indexed(disk, e)
      ensures r.Some? ==> r.value.path == path && Indexed(disk, r.value)
    {
      hide PacksValid, Ordered, Indexed;
      r := FindZipEntry(path);
      LookupMeaning(disk, table, path, r);
    }

    // ----- slices and packs -----

    /** asset_handle_from_slice. */
    method OpenSlice(zip: seq<byte>, start: nat, size: nat) returns (h: AssetHandle?)
      ensures h == null <==> zip !in disk
      ensures h != null ==> fresh(h) && h.AsView() == View(disk[zip], SliceStart(disk[zip], start), size, 0)
    {
      if zip !in disk { return null; }
      var file := disk[zip];
      var magic := Magic(file, start);
      var from := start;
      assert magic[..4] == [magic[0], magic[1], magic[2], magic[3]];
      hide Magic, Le2;
      if magic[0] == 80 && magic[1] == 75 && magic[2] == 3 && magic[3] == 4 {
        var headerSize := 30 + Le2(magic[26..28]) + Le2(magic[28..30]);
        from := (start + headerSize) % TWO_32;
      }
      h := new AssetHandle(file, from, size);
    }

    /** Lines 232-241: the directory of a pack, read through a handle. */
    method ReadDir(d: Entry) returns (r: Option<seq<byte>>)
      ensures r == DirData(disk, d)
    {
      var h := OpenSlice(d.zip, d.offset, d.size);
      if h == null { return None; }
      var buf := new byte[d.size];
      var n := AssetRead(buf, 1, d.size, h);
      if n != d.size { return None; }
      assert d.size == 0 ==> buf[..] == [];
      assert buf[..d.size] == buf[..];
      return Some(buf[..]);
    }

    /** load_img_pack for pack k: both paths must be indexed and the directory readable. */
    method LoadImgPack(k: nat) returns (res: int)
      requires k < packs.Length && Holds() && IsComplete() && (sorted ==> Ordered(table))
      modifies entries, this`table, this`sorted, packs
      ensures Holds() && IsComplete() && sorted && Ordered(table)
      ensures res == 0 ==> exists d, g :: IsLoaded(disk, old(packs[k]), d, g, packs[k])
      ensures res != 0 ==> res == -1 && packs[k] == old(packs[k]) && CannotLoad(disk, packs[k])
      ensures forall j | 0 <= j < packs.Length && j != k :: packs[j] == old(packs[j])
    {
      hide Ordered, Indexed, DirData, Holds;
      var pack := packs[k];
      var d := FindZipEntry(pack.dirPath);
      LookupMeaning(disk, table, pack.dirPath, d);
      var g := FindZipEntry(pack.imgPath);
      LookupMeaning(disk, table, pack.imgPath, g);
      if d.None? || g.None? { return -1; }
      var dir := ReadDir(d.value);
      if dir.None? { return -1; }
      var es := DecodeDirectory(dir.value);
      packs[k] := pack.(zip := g.value.zip, offset := g.value.offset, size := g.value.size, entries := es);
      assert IsLoaded(disk, pack, d.value, g.value, packs[k]);
      return 0;
    }

    /** Lines 271-272: read the index files in order. */
    method LoadIndexFiles()
      requires Holds() && table == []
      modifies this`entries, this`count, this`table, entries
      ensures Holds() && table == AllEntries(disk, |IDX_FILES|)
      ensures entries == old(entries) || fresh(entries)
    {
      var i := 0;
      while i < |IDX_FILES|
        invariant i <= |IDX_FILES| && Holds() && table == AllEntries(disk, i)
        invariant entries == old(entries) || fresh(entries)
      {
        hide *;
        AllEntriesNext(disk, i);
        var r := LoadIndexFile(IDX_FILES[i]);
        i := i + 1;
      }
    }

    /** Lines 274-275: load each pack that can be. */
    method LoadImgPacks()
      requires Holds() && IsComplete() && (sorted ==> Ordered(table))
      modifies entries, this`table, this`sorted, packs
      ensures Holds() && IsComplete() && (sorted ==> Ordered(table))
      ensures forall k | 0 <= k < packs.Length :: PackReady(disk, old(packs[k]), packs[k])
    {
      var k := 0;
      while k < packs.Length
        invariant k <= packs.Length && Holds() && IsComplete() && (sorted ==> Ordered(table))
        invariant forall j | 0 <= j < k :: PackReady(disk, old(packs[j]), packs[j])
        invariant forall j | k <= j < packs.Length :: packs[j] == old(packs[j])
      {
        hide IsLoaded, CannotLoad;
        var r := LoadImgPack(k);
        k := k + 1;
      }
    }

    /** asset_archive_init: done at most once, whatever it finds. No entry is added afterwards, so the
        table stays sorted once it is. */
    method Init() returns (res: bool)
      requires Valid()
      modifies this`entries, this`count, this`table, this`sorted, this`attempted, this`ready, entries, packs
      ensures Valid() && attempted && res && AllReady(disk, packs[..])
      ensures old(attempted) ==> table == old(table) && packs[..] == old(packs[..])
    {
      if attempted { return ready; }
      attempted := true;
      hide PackReady;
      LoadIndexFiles();
      LoadImgPacks();
      ready := true;
      return ready;
    }

    /** open_zip_asset; asset_open has called asset_archive_init before. */
    method OpenZipAsset(path: seq<byte>) returns (h: AssetHandle?)
      requires Valid() && attempted
      modifies entries, this`table, this`sorted
      ensures Valid() && multiset(table) == multiset(old(table))
      ensures h == null ==>
                || (forall e: Entry | e.path == path :: !Indexed(disk, e))
                || (exists e: Entry :: e.path == path && Indexed(disk, e) && e.zip !in disk)
      ensures h != null ==>
                fresh(h) && exists e: Entry ::
                  && e.path == path && Indexed(disk, e) && e.zip in disk
                  && h.AsView() == View(disk[e.zip], SliceStart(disk[e.zip], e.offset), e.size, 0)
    {
      hide PacksValid, Ordered, Indexed, SliceStart;
      var r := FindZipEntry(path);
      LookupMeaning(disk, table, path, r);
      if r.None? { return null; }
      h := OpenSlice(r.value.zip, r.value.offset, r.value.size);
    }

    /** The loop of lines 313-322: the pack whose prefix the path has. */
    method FindPrefixPack(path: seq<byte>) returns (r: Option<ImgPack>)
      ensures r == PrefixPack(packs[..], path)
    {
      var i := 0;
      while i < packs.Length
        invariant i <= packs.Length && PrefixPack(packs[..], path) == PrefixPack(packs[i..], path)
      {
        if packs[i].entries != [] && packs[i].prefix <= path { return Some(packs[i]); }
        assert packs[i..][1..] == packs[i + 1..];
        i := i + 1;
      }
      return None;
    }

    /** The loop of lines 324-332: the first pack with an entry of that name. */
    method FindAnyPack(name: seq<byte>) returns (r: Option<(ImgPack, ImgEntry)>)
      ensures r == AnyPack(packs[..], name)
    {
      var i := 0;
      while i < packs.Length
        invariant i <= packs.Length && AnyPack(packs[..], name) == AnyPack(packs[i..], name)
      {
        var e := FindImgEntry(packs[i].entries, name);
        if e.Some? { return Some((packs[i], e.value)); }
        assert packs[i..][1..] == packs[i + 1..];
        i := i + 1;
      }
      return None;
    }

    /** open_img_pack_asset. */
    method OpenImgPackAsset(path: seq<byte>) returns (h: AssetHandle?)
      ensures match Chosen(packs[..], path)
              case None => h == null
              case Some((p, e)) =>
                && (h == null <==> p.zip !in disk)
                && (h != null ==>
                      && fresh(h)
                      && h.AsView() == View(disk[p.zip], SliceStart(disk[p.zip], ImgStart(p, e)), ImgSize(e), 0))
    {
      var name := Basename(path);
      var p := FindPrefixPack(path);
      var found: Option<(ImgPack, ImgEntry)> := None;
      if p.Some? {
        var e := FindImgEntry(p.value.entries, name);
        if e.Some? { found := Some((p.value, e.value)); }
      } else {
        found := FindAnyPack(name);
      }
      assert found == Chosen(packs[..], path);
      if found.None? { return null; }
      var (q, f) := found.value;
      h := OpenSlice(q.zip, ImgStart(q, f), ImgSize(f));
    }
  }

  // ----- loaded packs -----

  /** q is pack p with the directory that entry d leads to and the image of entry g. */
  ghost predicate IsLoaded(disk: Disk, p: ImgPack, d: Entry, g: Entry, q: ImgPack) {
    && Indexed(disk, d) && d.path == p.dirPath && Indexed(disk, g) && g.path == p.imgPath
    && DirData(disk, d).Some? && q == LoadedPack(p, DirData(disk, d).value, g)
  }

  ghost predicate IsIndexed(disk: Disk, path: seq<byte>) { exists e: Entry :: e.path == path && Indexed(disk, e) }

  /** A path of the pack is in no index file, or its directory cannot be read to the end. */
  ghost predicate CannotLoad(disk: Disk, p: ImgPack) {
    || !IsIndexed(disk, p.dirPath) || !IsIndexed(disk, p.imgPath)
    || (exists d: Entry :: Indexed(disk, d) && d.path == p.dirPath && DirData(disk, d) == None)
  }

  ghost predicate PackReady(disk: Disk, p: ImgPack, q: ImgPack) {
    (exists d, g :: IsLoaded(disk, p, d, g, q)) || (q == p && CannotLoad(disk, p))
  }

  /** Lines 254-260: decode one directory record. */
  method DecodeEntry(data: seq<byte>, i: nat) returns (e: ImgEntry)
    requires 32 * (i + 1) <= |data|
    ensures e == DirEntryAt(data, i)
  {
    var off := i * 32;
    var name := NormalisedName(data[off + 8..off + 32], 25);
    e := ImgEntry(name, Le4(data[off..off + 4]), Le4(data[off + 4..off + 8]));
  }

  ghost predicate Decoded(data: seq<byte>, i: nat, es: seq<ImgEntry>) {
    i <= |data| / 32 && es == DecodeDir(data)[..i]
  }

  lemma DecodedOne(data: seq<byte>, i: nat, es: seq<ImgEntry>, e: ImgEntry)
    requires Decoded(data, i, es) && i < |data| / 32 && e == DirEntryAt(data, i)
    ensures Decoded(data, i + 1, es + [e])
  {
    hide DirEntryAt;
  }

  /** The loop of lines 253-261. */
  method DecodeDirectory(data: seq<byte>) returns (es: seq<ImgEntry>)
    ensures es == DecodeDir(data)
  {
    es := [];
    var count := |data| / 32;
    for i := 0 to count
      invariant Decoded(data, i, es)
    {
      hide *;
      var e := DecodeEntry(data, i);
      DecodedOne(data, i, es, e);
      es := es + [e];
    }
    hide DirEntryAt;
  }

  /** find_img_entry. */
  method FindImgEntry(es: seq<ImgEntry>, name: seq<byte>) returns (r: Option<ImgEntry>)
    ensures r == FindImg(es, name)
    ensures r.None? <==> forall i | 0 <= i < |es| :: es[i].name != name
  {
    for i := 0 to |es|
      invariant FindImg(es, name) == FindImg(es[i..], name)
      invariant forall j | 0 <= j < i :: es[j].name != name
    {
      if StrCmp(es[i].name, name) == 0 {
        StrCmpZero(es[i].name, name);
        return Some(es[i]);
      }
      StrCmpZero(es[i].name, name);
    }
    return None;
  }

  lemma AllEntriesNext(disk: Disk, i: nat)
    requires i < |IDX_FILES|
    ensures AllEntries(disk, i + 1) == AllEntries(disk, i) + FileEntries(disk, IDX_FILES[i])
  {
    hide FileEntries;
  }

  ghost function Exchanged(t: seq<Entry>, j: nat): seq<Entry>
    requires 0 < j < |t|
  {
    t[j - 1 := t[j]][j := t[j - 1]]
  }

  /** The first n entries are in order, except perhaps entry j with those before it. */
  ghost predicate OrderedBut(t: seq<Entry>, n: nat, j: nat)
    requires n <= |t|
  {
    forall a, b | 0 <= a < b < n && b != j :: Leq(t[a].path, t[b].path)
  }

  lemma ExchangeKeeps(t: seq<Entry>, n: nat, j: nat)
    requires 0 < j < n <= |t| && OrderedBut(t, n, j) && StrCmp(t[j - 1].path, t[j].path) > 0
    ensures OrderedBut(Exchanged(t, j), n, j - 1) && multiset(Exchanged(t, j)) == multiset(t)
  {
    StrCmpFlips(t[j - 1].path, t[j].path);
    hide StrCmp;
    assert t == t[..j - 1] + [t[j - 1], t[j]] + t[j + 1..];
    assert Exchanged(t, j) == t[..j - 1] + [t[j], t[j - 1]] + t[j + 1..];
    assert multiset([t[j - 1], t[j]]) == multiset([t[j], t[j - 1]]);
  }

  lemma SunkIsOrdered(t: seq<Entry>, n: nat, j: nat)
    requires j < n <= |t| && OrderedBut(t, n, j) && (j == 0 || StrCmp(t[j - 1].path, t[j].path) <= 0)
    ensures Ordered(t[..n])
  {
    hide StrCmp;
    forall a, b | 0 <= a < b < n
      ensures Leq(t[a].path, t[b].path)
    {
      if b == j && a < j - 1 {
        LeqTransitive(t[a].path, t[j - 1].path, t[j].path);
      }
    }
  }

  /** In an ordered table, a key below entry m is not after it, and one above is not before it. */
  lemma SearchHalves(t: seq<Entry>, key: seq<byte>, m: nat)
    requires Ordered(t) && m < |t|
    ensures StrCmp(key, t[m].path) < 0 ==> forall k | m <= k < |t| :: t[k].path != key
    ensures StrCmp(key, t[m].path) > 0 ==> forall k | 0 <= k <= m :: t[k].path != key
  {
    StrCmpFlips(key, t[m].path);
    TotalOrder(key, key, key);
    hide StrCmp;
  }

  predicate HasRecAt(data: seq<byte>, pos: nat)
    requires pos <= |data|
  {
    HasRec(data[pos..])
  }

  function RecAt(data: seq<byte>, pos: nat): Rec
    requires pos <= |data| && HasRecAt(data, pos)
  {
    FirstRec(data[pos..])
  }

  function After(data: seq<byte>, pos: nat): (next: nat)
    requires pos <= |data| && HasRecAt(data, pos)
    ensures next <= |data|
  {
    pos + 10 + |RecAt(data, pos).name|
  }

  function With(base: seq<Entry>, more: seq<Entry>): seq<Entry> { base + more }

  /** Lines 150-158: read the fields of the record at pos; whole says that its name is all there. */
  method ReadRecord(data: seq<byte>, pos: nat) returns (r: Rec, whole: bool)
    requires pos + 10 <= |data|
    ensures whole == HasRecAt(data, pos)
    ensures whole ==> r == RecAt(data, pos)
  {
    var offset := Le4(data[pos..pos + 4]);
    var size := Le4(data[pos + 4..pos + 8]);
    var nameLen := Le2(data[pos + 8..pos + 10]);
    FieldsAt(data, pos);
    if pos + 10 + nameLen > |data| || nameLen >= MAX_NAME { return Rec(offset, size, []), false; }
    return Rec(offset, size, data[pos + 10..pos + 10 + nameLen]), true;
  }

  /** The loop so far: done are the first i records of the file, and while ok the rest begin at pos;
      the table has grown from base by their entries. */
  ghost predicate Reading(zip: seq<byte>, data: seq<byte>, base: seq<Entry>, n: nat, pos: nat, i: nat, ok: bool,
                          done: seq<Rec>, table: seq<Entry>)
  {
    && |data| >= 4 && pos <= |data| && i <= n
    && FileRecords(data) == (if ok then done + Records(data[pos..], n - i) else done)
    && table == base + RecsEntries(zip, done)
  }

  lemma ReadingStart(zip: seq<byte>, data: seq<byte>, base: seq<Entry>)
    requires |data| >= 4
    ensures Reading(zip, data, base, Le4(data[..4]), 4, 0, true, [], base)
  {
  }

  /** One turn of the loop: the record at pos was added, or there is none. */
  ghost predicate RecordLoaded(zip: seq<byte>, data: seq<byte>, pos: nat, was: seq<Entry>, ok: bool, next: nat,
      table: seq<Entry>)
  {
    && pos <= |data| && ok == HasRecAt(data, pos)
    && (if ok then next == After(data, pos) && table == With(was, RecEntries(zip, RecAt(data, pos)))
        else next == pos && table == was)
  }

  ghost function Longer(done: seq<Rec>, data: seq<byte>, pos: nat, ok: bool): seq<Rec> {
    if ok && pos <= |data| && HasRecAt(data, pos) then done + [RecAt(data, pos)] else done
  }

  lemma ReadingStep(zip: seq<byte>, data: seq<byte>, base: seq<Entry>, n: nat, pos: nat, i: nat, done: seq<Rec>,
      was: seq<Entry>, ok: bool, next: nat, table: seq<Entry>)
    requires i < n && Reading(zip, data, base, n, pos, i, true, done, was)
    requires RecordLoaded(zip, data, pos, was, ok, next, table)
    ensures Reading(zip, data, base, n, next, if ok then i + 1 else i, ok, Longer(done, data, pos, ok), table)
  {
    hide RecEntries, RecsEntries;
    RecordsFrom(data, pos, n - i);
    if ok {
      var r := RecAt(data, pos);
      hide HasRecAt, RecAt, After, Records, FileRecords;
      Assoc(done, [r], Records(data[After(data, pos)..], n - i - 1));
      RecsEntriesSnoc(zip, done, r);
      Assoc(base, RecsEntries(zip, done), RecEntries(zip, r));
    }
  }

  lemma RecordsFrom(data: seq<byte>, pos: nat, n: nat)
    requires pos <= |data| && n > 0
    ensures if HasRecAt(data, pos) then
              After(data, pos) <= |data|
                  && Records(data[pos..], n) == [RecAt(data, pos)] + Records(data[After(data, pos)..], n - 1)
            else Records(data[pos..], n) == []
  {
    if HasRecAt(data, pos) {
      assert data[pos..][10 + |RecAt(data, pos).name|..] == data[After(data, pos)..];
    }
    hide HasRec, FirstRec;
  }

  lemma ReadingDone(zip: seq<byte>, data: seq<byte>, base: seq<Entry>, n: nat, pos: nat, i: nat, ok: bool,
      done: seq<Rec>, table: seq<Entry>)
    requires Reading(zip, data, base, n, pos, i, ok, done, table) && (!ok || i == n)
    ensures table == With(base, RecsEntries(zip, FileRecords(data)))
  {
    assert done + [] == done;
  }

  /** Lines 157-162 and 258-260: a name made a C string and normalised in a buffer of that size. */
  method NormalisedName(name: seq<byte>, size: nat) returns (alias: seq<byte>)
    requires size > 0
    ensures alias == Normalize(CStr(name), size)
  {
    var pathBuf := name + [0];
    var aliasBuf := new byte[size];
    NormalizePath(aliasBuf, Some(pathBuf));
    CStrOfName(name);
    NormalizedIsCStr(name, size, aliasBuf[..]);
    alias := CStr(aliasBuf[..]);
  }

  lemma RecEntriesAre(t: seq<Entry>, zip: seq<byte>, r: Rec, p: seq<byte>)
    requires p == NormalName(Rec(0, 0, r.name))
    ensures var q := Rec(r.offset, r.size, []);
            var u := With(t, Alias(zip, p, q));
            With(t, RecEntries(zip, r)) ==
              if BULLYORIG <= p then With(u, AliasBelow(BULLYORIG, zip, p, q))
              else if BULLY <= p then With(u, AliasBelow(BULLY, zip, p, q))
              else u
  {
    hide Normalize;
  }

  lemma RecsEntriesSnoc(zip: seq<byte>, rs: seq<Rec>, r: Rec)
    ensures RecsEntries(zip, rs + [r]) == RecsEntries(zip, rs) + RecEntries(zip, r)
  {
    assert (rs + [r])[..|rs|] == rs;
    hide RecEntries;
  }

  lemma CStrOfName(name: seq<byte>)
    ensures CStr(name + [0]) == CStr(name)
  {
    var s := CStr(name);
    assert (name + [0])[..|s|] == s;
    CStrUnique(name + [0], s);
  }

  /** The normalised name has no NUL in it, so the buffer reads back as it was written. */
  lemma NormalizedIsCStr(name: seq<byte>, size: nat, buf: seq<byte>)
    requires size > 0
    requires var n := Normalize(CStr(name), size); |n| < |buf| && buf[..|n|] == n && buf[|n|] == 0
    ensures CStr(buf) == Normalize(CStr(name), size)
  {
    var s := CStr(name);
    NormalizeNoNul(s, size);
    hide Normalize;
    CStrUnique(buf, Normalize(s, size));
  }

  lemma NormalizeNoNul(s: seq<byte>, size: nat)
    requires size > 0 && 0 !in s
    ensures 0 !in Normalize(s, size)
  {
    var t := StripLead(s);
    forall i | 0 <= i < |t| ensures t[i] != 0 { assert t[i] == s[|s| - |t| + i] && t[i] in s; }
  }

  /** The fields that the loop reads at pos are those of the next record. */
  lemma FieldsAt(data: seq<byte>, pos: nat)
    requires pos + 10 <= |data|
    ensures var d, k := data[pos..], Le2(data[pos + 8..pos + 10]);
            && (HasRec(d) <==> pos + 10 + k <= |data| && k < MAX_NAME)
            && (HasRec(d) ==>
                  && FirstRec(d).offset == Le4(data[pos..pos + 4]) && FirstRec(d).size == Le4(data[pos + 4..pos + 8])
                  && FirstRec(d).name == data[pos + 10..pos + 10 + k])
  {
    var d := data[pos..];
    assert d[0..4] == data[pos..pos + 4] && d[4..8] == data[pos + 4..pos + 8] && d[8..10] == data[pos + 8..pos + 10];
    var k := Le2(d[8..10]);
    assert pos + 10 + k <= |data| ==> d[10..10 + k] == data[pos + 10..pos + 10 + k];
    hide Le4, Le2;
  }

  // ----- what a lookup means -----

  predicate IndexedIn(disk: Disk, k: nat, e: Entry)
    requires k < |IDX_FILES|
  {
    IDX_FILES[k] in disk && MadeBySome(ZipOf(IDX_FILES[k]), FileRecords(disk[IDX_FILES[k]]), e)
  }

  ghost predicate IndexedBelow(disk: Disk, n: nat, e: Entry)
    requires n <= |IDX_FILES|
  {
    exists k :: 0 <= k < n && IndexedIn(disk, k, e)
  }

  /** Some record in the parsed part of some index file makes this entry. */
  ghost predicate Indexed(disk: Disk, e: Entry) { IndexedBelow(disk, |IDX_FILES|, e) }

  lemma InFileEntries(disk: Disk, k: nat, e: Entry)
    requires k < |IDX_FILES|
    ensures e in FileEntries(disk, IDX_FILES[k]) <==> IndexedIn(disk, k, e)
  {
    hide MadeBySome, RecsEntries, FileRecords, ZipOf;
    if IDX_FILES[k] in disk {
      RecsEntriesAnswer(ZipOf(IDX_FILES[k]), FileRecords(disk[IDX_FILES[k]]), e);
    }
  }

  lemma IndexedBelowSplit(disk: Disk, n: nat, e: Entry)
    requires 0 < n <= |IDX_FILES|
    ensures IndexedBelow(disk, n, e) <==> IndexedBelow(disk, n - 1, e) || IndexedIn(disk, n - 1, e)
  {
    hide IndexedIn;
  }

  lemma {:induction false} InAllEntries(disk: Disk, n: nat, e: Entry)
    requires n <= |IDX_FILES|
    ensures e in AllEntries(disk, n) <==> IndexedBelow(disk, n, e)
  {
    if n == 0 {
    } else {
      hide *;
      InAllEntries(disk, n - 1, e);
      InFileEntries(disk, n - 1, e);
      IndexedBelowSplit(disk, n, e);
      AllEntriesNext(disk, n - 1);
    }
  }

  lemma SameMembers(a: seq<Entry>, b: seq<Entry>, e: Entry)
    requires multiset(a) == multiset(b)
    ensures e in a <==> e in b
  {
    assert e in a <==> e in multiset(a);
    assert e in b <==> e in multiset(b);
  }

  ghost predicate IsOnlyEntry(disk: Disk, path: seq<byte>, e: Entry) {
    e.path == path && Indexed(disk, e) && forall f: Entry | f.path == path && Indexed(disk, f) :: f == e
  }

  /** From the table's contents and the contract of the search alone: found if and only if some record
      of an index file has that path, itself or below "bullyorig/" or "bully/"; what is found is the
      entry of such a record, and the only one when there is only one. */
  lemma LookupMeaning(disk: Disk, table: seq<Entry>, path: seq<byte>, r: Option<Entry>)
    requires multiset(table) == multiset(AllEntries(disk, |IDX_FILES|))
    requires r.Some? ==> r.value in table && r.value.path == path
    requires r.None? ==> forall k | 0 <= k < |table| :: table[k].path != path
    ensures r.Some? <==> exists e: Entry :: e.path == path && Indexed(disk, e)
    ensures r.Some? ==> r.value.path == path && Indexed(disk, r.value)
    ensures r.Some? ==> forall e: Entry | IsOnlyEntry(disk, path, e) :: r.value == e
  {
    forall e
      ensures e in table <==> Indexed(disk, e)
    {
      InAllEntries(disk, |IDX_FILES|, e);
      SameMembers(table, AllEntries(disk, |IDX_FILES|), e);
      hide IndexedIn;
    }
    hide Indexed;
    if r.None? {
      assert forall e | e in table :: e.path != path;
    }
  }

  /** e is made by record r of the index of this archive: its path is the normalised name, or what
      stands in it below "bullyorig/" or "bully/". */
  predicate NamedBy(zip: seq<byte>, r: Rec, e: Entry) {
    var n := Normalize(CStr(r.name), 512);
    && e.path != [] && e.zip == zip && e.offset == r.offset && e.size == r.size
    && (n == e.path || n == Ascii("bullyorig/") + e.path || n == Ascii("bully/") + e.path)
  }

  /** The same in terms of files and records: which entries there are at all. */
  lemma PathsFound(disk: Disk, e: Entry)
    ensures Indexed(disk, e) <==>
            exists k, i ::
              && 0 <= k < |IDX_FILES| && IDX_FILES[k] in disk
              && 0 <= i < |FileRecords(disk[IDX_FILES[k]])|
              && NamedBy(ZIP_FILES[k], FileRecords(disk[IDX_FILES[k]])[i], e)
  {
    forall k | 0 <= k < |IDX_FILES|
      ensures forall r: Rec :: Made(ZipOf(IDX_FILES[k]), r, e) <==> NamedBy(ZIP_FILES[k], r, e)
    {
      ZipFiles(k);
      forall r: Rec {
        MadeIsNamed(ZIP_FILES[k], r, e);
      }
    }
    hide Made, NamedBy, FileRecords, ZipOf;
    if Indexed(disk, e) {
      var k :| 0 <= k < |IDX_FILES| && IndexedIn(disk, k, e);
      var i :| 0 <= i < |FileRecords(disk[IDX_FILES[k]])|
          && Made(ZipOf(IDX_FILES[k]), FileRecords(disk[IDX_FILES[k]])[i], e);
    }
    if k: int, i: int :|
      && 0 <= k < |IDX_FILES| && IDX_FILES[k] in disk
      && 0 <= i < |FileRecords(disk[IDX_FILES[k]])|
      && NamedBy(ZIP_FILES[k], FileRecords(disk[IDX_FILES[k]])[i], e)
    {
      assert Made(ZipOf(IDX_FILES[k]), FileRecords(disk[IDX_FILES[k]])[i], e);
      assert IndexedIn(disk, k, e);
    }
  }

  lemma MadeIsNamed(zip: seq<byte>, r: Rec, e: Entry)
    ensures Made(zip, r, e) <==> NamedBy(zip, r, e)
  {
    hide Normalize, CStr;
    assert BULLYORIG == Ascii("bullyorig/") && BULLY == Ascii("bully/");
  }

  // ----- what the packs are after init -----

  /** The packs as asset_archive_init leaves them. */
  ghost predicate AllReady(disk: Disk, packs: seq<ImgPack>) {
    |packs| == |IMG_PACKS| && forall k | 0 <= k < |packs| :: PackReady(disk, IMG_PACKS[k], packs[k])
  }
}
