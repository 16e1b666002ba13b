/** The binary index format of the data archives (src/asset_archive.c, load_zip_index_file): a
    record count and then records of offset, size, name length and name. */
module IndexFormat {
  import opened Prelude
  import opened AssetPath

  const MAX_NAME: nat := 512

  /** One record as it stands in the file; name is raw bytes. */
  datatype Rec = Rec(offset: nat, size: nat, name: seq<byte>) {
    predicate Fits() { offset < TWO_32 && size < TWO_32 && |name| < MAX_NAME }
  }

  /** An entry of the lookup table. */
  datatype Entry = Entry(path: seq<byte>, zip: seq<byte>, offset: nat, size: nat)

  // ----- the format -----

  function EncodeRec(r: Rec): seq<byte> {
    Bytes4(r.offset) + Bytes4(r.size) + Bytes2(|r.name|) + r.name
  }

  function EncodeRecs(rs: seq<Rec>): seq<byte> {
    if rs == [] then [] else EncodeRec(rs[0]) + EncodeRecs(rs[1..])
  }

  /** A whole index file that declares count records. */
  function EncodeIndex(count: nat, rs: seq<Rec>): seq<byte> { Bytes4(count) + EncodeRecs(rs) }

  /** d begins with a whole record whose name is short enough. */
  predicate HasRec(d: seq<byte>) {
    |d| >= 10 && 10 + Le2(d[8..10]) <= |d| && Le2(d[8..10]) < MAX_NAME
  }

  function FirstRec(d: seq<byte>): (r: Rec)
    requires HasRec(d)
  {
    Rec(Le4(d[0..4]), Le4(d[4..8]), d[10..10 + Le2(d[8..10])])
  }

  /** At most n records from the front of d, stopping at the first that is cut short or too long. */
  function Records(d: seq<byte>, n: nat): (rs: seq<Rec>)
    ensures |rs| <= n
  {
    if n == 0 || !HasRec(d) then []
    else [FirstRec(d)] + Records(d[10 + |FirstRec(d).name|..], n - 1)
  }

  /** The records of an index file; one shorter than its own count holds none. */
  function FileRecords(d: seq<byte>): seq<Rec> {
    if |d| < 4 then [] else Records(d[4..], Le4(d[..4]))
  }

  lemma FirstRecFits(d: seq<byte>)
    requires HasRec(d)
    ensures FirstRec(d).Fits() && EncodeRec(FirstRec(d)) == d[..10 + |FirstRec(d).name|]
  {
    Bytes4Le4(d[0..4]);
    Bytes4Le4(d[4..8]);
    Bytes2Le2(d[8..10]);
    assert d[..10 + Le2(d[8..10])] == d[0..4] + d[4..8] + d[8..10] + d[10..10 + Le2(d[8..10])];
  }

  lemma Fields(a: seq<byte>, b: seq<byte>, c: seq<byte>, name: seq<byte>, rest: seq<byte>)
    requires |a| == |b| == 4 && |c| == 2
    ensures var d := a + b + c + name + rest;
            && |d| == 10 + |name| + |rest| && d[0..4] == a && d[4..8] == b && d[8..10] == c
            && d[10..10 + |name|] == name && d[10 + |name|..] == rest
  {
  }

  lemma EncodedRec(r: Rec, rest: seq<byte>)
    requires r.Fits()
    ensures HasRec(EncodeRec(r) + rest) && FirstRec(EncodeRec(r) + rest) == r
    ensures (EncodeRec(r) + rest)[10 + |r.name|..] == rest
  {
    assert |Bytes2(|r.name|)| == 2;
    hide Bytes2, Bytes4, Le2, Le4;
    SmallWords(r.offset);
    SmallWords(r.size);
    SmallWords(|r.name|);
    Fields(Bytes4(r.offset), Bytes4(r.size), Bytes2(|r.name|), r.name, rest);
  }

  /** d starts with the encoding of rs, and reading at most n records stops after it for one of the
      two reasons it may: the count is used up, or no whole record follows. */
  predicate IsPrefix(d: seq<byte>, n: nat, rs: seq<Rec>) {
    && (forall i | 0 <= i < |rs| :: rs[i].Fits())
    && |rs| <= n
    && EncodeRecs(rs) <= d
    && (|rs| == n || !HasRec(d[|EncodeRecs(rs)|..]))
  }

  lemma PrefixCons(d: seq<byte>, n: nat, r: Rec, rest: seq<Rec>)
    requires r.Fits() && EncodeRec(r) <= d && n > 0 && IsPrefix(d[|EncodeRec(r)|..], n - 1, rest)
    ensures IsPrefix(d, n, [r] + rest)
  {
    hide EncodeRec, HasRec, Rec.Fits;
    var k := |EncodeRec(r)|;
    assert ([r] + rest)[1..] == rest;
    assert d == EncodeRec(r) + d[k..];
    assert d[k..][|EncodeRecs(rest)|..] == d[k + |EncodeRecs(rest)|..];
  }

  lemma {:induction false} RecordsArePrefix(d: seq<byte>, n: nat)
    ensures IsPrefix(d, n, Records(d, n))
    decreases n
  {
    if n == 0 || !HasRec(d) {
      assert d[0..] == d;
      hide HasRec;
    } else {
      hide IsPrefix, EncodeRec, HasRec;
      var r := FirstRec(d);
      FirstRecFits(d);
      RecordsArePrefix(d[10 + |r.name|..], n - 1);
      PrefixCons(d, n, r, Records(d[10 + |r.name|..], n - 1));
    }
  }

  lemma SplitPrefix<T>(a: seq<T>, b: seq<T>, d: seq<T>)
    requires a + b <= d
    ensures d == a + d[|a|..] && b <= d[|a|..] && d[|a|..][|b|..] == d[|a + b|..]
  {
    var tail := d[|a|..];
    assert d[..|a + b|] == a + b;
    assert d[..|a|] == (a + b)[..|a|] == a;
    assert tail[..|b|] == (a + b)[|a|..] == b;
  }

  lemma {:induction false} PrefixIsRecords(d: seq<byte>, n: nat, rs: seq<Rec>)
    requires IsPrefix(d, n, rs)
    ensures Records(d, n) == rs
    decreases n
  {
    hide EncodeRec, HasRec, FirstRec;
    if rs == [] {
      assert d[0..] == d;
    } else {
      var r, rest := rs[0], rs[1..];
      var tail := d[|EncodeRec(r)|..];
      SplitPrefix(EncodeRec(r), EncodeRecs(rest), d);
      EncodedRec(r, tail);
      assert IsPrefix(tail, n - 1, rest);
      PrefixIsRecords(tail, n - 1, rest);
    }
  }

  /** Exactly what is read from arbitrary bytes: the longest well-formed prefix, up to n records. */
  lemma RecordsIff(d: seq<byte>, n: nat, rs: seq<Rec>)
    ensures Records(d, n) == rs <==> IsPrefix(d, n, rs)
  {
    RecordsArePrefix(d, n);
    if IsPrefix(d, n, rs) {
      PrefixIsRecords(d, n, rs);
    }
  }

  /** Round trip: an encoded index yields its records, whatever bytes follow the last of them. */
  lemma IndexRoundTrip(rs: seq<Rec>, junk: seq<byte>)
    requires |rs| < TWO_32 && forall i | 0 <= i < |rs| :: rs[i].Fits()
    ensures FileRecords(EncodeIndex(|rs|, rs) + junk) == rs
  {
    hide EncodeRec, HasRec, FirstRec, Le4, Bytes4;
    var body := EncodeRecs(rs) + junk;
    SmallWords(|rs|);
    assert EncodeIndex(|rs|, rs) + junk == Bytes4(|rs|) + body;
    PrefixIsRecords(body, |rs|, rs);
  }

  lemma {:induction false} EncodeRecsLength(rs: seq<Rec>)
    ensures |EncodeRecs(rs)| >= 10 * |rs|
  {
    if rs == [] {
    } else {
      EncodeRecsLength(rs[1..]);
    }
  }

  /** However many records the file declares, it is read as at most one per ten bytes. */
  lemma RecordsBounded(d: seq<byte>)
    requires |d| >= 4
    ensures |FileRecords(d)| <= (|d| - 4) / 10
  {
    var rs := FileRecords(d);
    RecordsArePrefix(d[4..], Le4(d[..4]));
    EncodeRecsLength(rs);
  }

  // ----- table entries -----

  // "bullyorig/" and "bully/"
  const BULLYORIG: seq<byte> := [98, 117, 108, 108, 121, 111, 114, 105, 103, 47]
  const BULLY: seq<byte> := [98, 117, 108, 108, 121, 47]

  /** add_zip_index_alias ignores the empty path. */
  function Alias(zip: seq<byte>, path: seq<byte>, r: Rec): seq<Entry> {
    if path == [] then [] else [Entry(path, zip, r.offset, r.size)]
  }

  /** The path with this root taken off, if it has it. */
  function AliasBelow(root: seq<byte>, zip: seq<byte>, path: seq<byte>, r: Rec): seq<Entry> {
    if root <= path then Alias(zip, path[|root|..], r) else []
  }

  function NormalName(r: Rec): seq<byte> { Normalize(CStr(r.name), MAX_NAME) }

  /** What one record adds to the table: its normalised name, and that name without its root. */
  function RecEntries(zip: seq<byte>, r: Rec): seq<Entry> {
    var p := NormalName(r);
    Alias(zip, p, r) + (if BULLYORIG <= p then AliasBelow(BULLYORIG, zip, p, r) else AliasBelow(BULLY, zip, p, r))
  }

  function RecsEntries(zip: seq<byte>, rs: seq<Rec>): seq<Entry> {
    if rs == [] then [] else RecsEntries(zip, rs[..|rs| - 1]) + RecEntries(zip, rs[|rs| - 1])
  }

  /** A lookup of p should find this record. */
  predicate Answers(r: Rec, p: seq<byte>) {
    NormalName(r) == p || NormalName(r) == BULLYORIG + p || NormalName(r) == BULLY + p
  }

  lemma OneRoot(p: seq<byte>)
    ensures BULLYORIG <= p ==> !(BULLY <= p)
  {
    if BULLYORIG <= p {
      assert p[5] == BULLYORIG[5] != BULLY[5];
    }
  }

  lemma InAlias(zip: seq<byte>, p: seq<byte>, r: Rec, e: Entry)
    ensures e in Alias(zip, p, r) <==> p != [] && e == Entry(p, zip, r.offset, r.size)
  {
  }

  lemma InAliasBelow(root: seq<byte>, zip: seq<byte>, p: seq<byte>, r: Rec, e: Entry)
    ensures e in AliasBelow(root, zip, p, r)
        <==> e.path != [] && p == root + e.path && e == Entry(e.path, zip, r.offset, r.size)
  {
    if root <= p {
      assert p == root + p[|root|..];
      InAlias(zip, p[|root|..], r, e);
    }
    if p == root + e.path {
      assert p[|root|..] == e.path;
    }
  }

  lemma RecEntriesAnswer(zip: seq<byte>, r: Rec, e: Entry)
    ensures e in RecEntries(zip, r) <==> e.path != [] && Answers(r, e.path) && e == Entry(e.path, zip, r.offset, r.size)
  {
    var p := NormalName(r);
    OneRoot(p);
    InAlias(zip, p, r, e);
    InAliasBelow(BULLYORIG, zip, p, r, e);
    InAliasBelow(BULLY, zip, p, r, e);
  }

  /** The record gives rise to this entry. */
  predicate Made(zip: seq<byte>, r: Rec, e: Entry) {
    e.path != [] && Answers(r, e.path) && e == Entry(e.path, zip, r.offset, r.size)
  }

  /** Some record among rs gives rise to this entry. */
  predicate MadeBySome(zip: seq<byte>, rs: seq<Rec>, e: Entry) {
    exists i :: 0 <= i < |rs| && Made(zip, rs[i], e)
  }

  lemma MadeBySomeSplit(zip: seq<byte>, rs: seq<Rec>, e: Entry)
    requires rs != []
    ensures MadeBySome(zip, rs, e) <==> MadeBySome(zip, rs[..|rs| - 1], e) || Made(zip, rs[|rs| - 1], e)
  {
    hide Made;
    var k := |rs| - 1;
    if MadeBySome(zip, rs[..k], e) {
      var i :| 0 <= i < k && Made(zip, rs[..k][i], e);
      assert Made(zip, rs[i], e);
    }
    if MadeBySome(zip, rs, e) {
      var i :| 0 <= i < |rs| && Made(zip, rs[i], e);
      assert i < k ==> Made(zip, rs[..k][i], e);
    }
  }

  lemma {:induction false} RecsEntriesAnswer(zip: seq<byte>, rs: seq<Rec>, e: Entry)
    ensures e in RecsEntries(zip, rs) <==> MadeBySome(zip, rs, e)
  {
    if rs == [] {
    } else {
      var k := |rs| - 1;
      RecsEntriesAnswer(zip, rs[..k], e);
      RecEntriesAnswer(zip, rs[k], e);
      assert Made(zip, rs[k], e) <==> e in RecEntries(zip, rs[k]);
      MadeBySomeSplit(zip, rs, e);
      hide Made, RecEntries, MadeBySome;
    }
  }
}
