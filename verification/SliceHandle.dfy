/** Seekable handles on a slice of an archive file (src/asset_archive.c, asset_read to asset_gets).
    A handle must behave as a byte sequence with a cursor. */
module SliceHandle {
  import opened Prelude

  const SEEK_SET := 0
  const SEEK_CUR := 1
  const SEEK_END := 2
  const NEWLINE: byte := 10

  /** The fields of a slice handle and the file behind it. */
  datatype View = View(file: seq<byte>, start: nat, size: nat, pos: nat)

  /** The slice lies inside its file. */
  predicate InFile(v: View) { v.start + v.size <= |v.file| }

  /** The bytes of the slice that the file really has. */
  function Payload(v: View): seq<byte> {
    v.file[Min(v.start, |v.file|)..Min(v.start + v.size, |v.file|)]
  }

  /** How many bytes a read of total bytes delivers: limited by the slice (line 377) and by the file
      (what fread finds). */
  function Got(v: View, total: nat): nat {
    if v.pos >= v.size || v.start + v.pos >= |v.file| then 0
    else Min(Min(total, v.size - v.pos), |v.file| - (v.start + v.pos))
  }

  function Chunk(v: View, total: nat): seq<byte>
  {
    if Got(v, total) == 0 then [] else v.file[v.start + v.pos..v.start + v.pos + Got(v, total)]
  }

  function AfterRead(v: View, total: nat): View { v.(pos := v.pos + Got(v, total)) }

  /** Where a seek goes; a target before the start of the slice, or an unknown whence, is refused. */
  function Target(v: View, offset: int, whence: int): int {
    if whence == SEEK_SET then offset
    else if whence == SEEK_CUR then v.pos + offset
    else if whence == SEEK_END then v.size + offset
    else -1
  }

  function AfterSeek(v: View, offset: int, whence: int): View {
    if Target(v, offset, whence) >= 0 then v.(pos := Target(v, offset, whence)) else v
  }

  class AssetHandle {
    const file: seq<byte>
    const start: nat
    const size: nat
    var pos: nat

    constructor (file: seq<byte>, start: nat, size: nat)
      ensures AsView() == View(file, start, size, 0)
    {
      this.file, this.start, this.size, this.pos := file, start, size, 0;
    }

    function AsView(): View
      reads this
    {
      View(file, start, size, pos)
    }
  }

  /** The slice branch of asset_read, lines 376-383: at most total bytes from the cursor. */
  method ReadSlice(buf: array<byte>, total: nat, h: AssetHandle) returns (bytesRead: nat)
    requires total <= buf.Length
    modifies buf, h
    ensures bytesRead == Got(old(h.AsView()), total) && h.AsView() == AfterRead(old(h.AsView()), total)
    ensures buf[..bytesRead] == Chunk(old(h.AsView()), total) && buf[bytesRead..] == old(buf[bytesRead..])
  {
    bytesRead := 0;
    if h.pos < h.size {
      var remaining := h.size - h.pos;
      var toRead := if remaining < total then remaining else total;
      var from := h.start + h.pos;
      bytesRead := if from >= |h.file| then 0 else if toRead <= |h.file| - from then toRead else |h.file| - from;
      forall i | 0 <= i < bytesRead {
        buf[i] := h.file[from + i];
      }
      h.pos := h.pos + bytesRead;
    }
  }

  /** asset_read. The buffer has room for size * nmemb bytes, as fread's contract demands; an object
      in memory is smaller than 2^63, so the casts of lines 372-378 lose nothing. */
  method AssetRead(buf: array?<byte>, size: nat, nmemb: nat, h: AssetHandle?) returns (result: nat)
    requires buf != null ==> size * nmemb <= buf.Length
    modifies buf, h
    ensures h == null || buf == null || size == 0 || nmemb == 0 ==>
              result == 0 && (h != null ==> h.AsView() == old(h.AsView())) && (buf != null ==> buf[..] == old(buf[..]))
    ensures h != null && buf != null && size != 0 && nmemb != 0 ==>
              var got := Got(old(h.AsView()), size * nmemb);
              && h.AsView() == AfterRead(old(h.AsView()), size * nmemb)
              && result == got / size
              && got <= buf.Length && buf[..got] == Chunk(old(h.AsView()), size * nmemb)
              && buf[got..] == old(buf[got..])
  {
    if h == null || buf == null || size == 0 || nmemb == 0 { return 0; }
    var bytesRead := ReadSlice(buf, size * nmemb, h);
    result := bytesRead / size;
  }

  /** asset_seek. */
  method AssetSeek(h: AssetHandle?, offset: int, whence: int) returns (res: int)
    modifies h
    ensures h == null ==> res == -1
    ensures h != null ==> h.AsView() == AfterSeek(old(h.AsView()), offset, whence)
    ensures h != null ==> res == if Target(old(h.AsView()), offset, whence) >= 0 then 0 else -1
  {
    if h == null { return -1; }
    res := -1;
    var newPos := -1;
    match whence {
      case 0 => newPos := offset;
      case 1 => newPos := h.pos + offset;
      case 2 => newPos := h.size + offset;
      case _ =>
    }
    if newPos >= 0 {
      h.pos := newPos;
      res := 0;
    }
  }

  /** asset_tell. */
  method AssetTell(h: AssetHandle?) returns (pos: int)
    ensures pos == if h == null then -1 else h.pos
  {
    if h == null { return -1; }
    pos := h.pos;
  }

  /** asset_eof. */
  method AssetEof(h: AssetHandle?) returns (eof: bool)
    ensures eof <==> h == null || h.pos >= h.size
  {
    if h == null { return true; }
    eof := h.pos >= h.size;
  }

  // ----- the abstract cursor, and every run of operations -----

  datatype Op = Read(size: nat, nmemb: nat) | Seek(offset: int, whence: int) | Tell | Eof

  /** What an operation gives back: bytes and a count, a status, a position or a flag. */
  datatype Out = Bytes(chunk: seq<byte>, count: nat) | Status(res: int) | Position(pos: nat) | AtEnd(eof: bool)

  /** The specification: a byte sequence and a position in it, past the end allowed. */
  datatype Cursor = Cursor(bytes: seq<byte>, at: nat)

  function Rest(c: Cursor): seq<byte> { c.bytes[Min(c.at, |c.bytes|)..] }

  function CursorStep(c: Cursor, op: Op): (Cursor, Out) {
    match op
    case Read(size, nmemb) =>
      if size == 0 || nmemb == 0 then (c, Bytes([], 0))
      else
        var chunk := Rest(c)[..Min(size * nmemb, |Rest(c)|)];
        (c.(at := c.at + |chunk|), Bytes(chunk, |chunk| / size))
    case Seek(offset, whence) =>
      var base := if whence == SEEK_SET then 0 else if whence == SEEK_CUR then c.at else |c.bytes|;
      if whence in {SEEK_SET, SEEK_CUR, SEEK_END} && base + offset >= 0 then (c.(at := base + offset), Status(0))
      else (c, Status(-1))
    case Tell => (c, Position(c.at))
    case Eof => (c, AtEnd(c.at >= |c.bytes|))
  }

  /** The handle's own operations, as the methods above specify them. */
  function HandleStep(v: View, op: Op): (View, Out) {
    match op
    case Read(size, nmemb) =>
      if size == 0 || nmemb == 0 then (v, Bytes([], 0))
      else (AfterRead(v, size * nmemb), Bytes(Chunk(v, size * nmemb), Got(v, size * nmemb) / size))
    case Seek(offset, whence) =>
        (AfterSeek(v, offset, whence), Status(if Target(v, offset, whence) >= 0 then 0 else -1))
    case Tell => (v, Position(v.pos))
    case Eof => (v, AtEnd(v.pos >= v.size))
  }

  function HandleRun(v: View, ops: seq<Op>): (seq<Out>, View)
    decreases |ops|
  {
    if ops == [] then ([], v)
    else
      var (w, out) := HandleStep(v, ops[0]);
      var (outs, last) := HandleRun(w, ops[1..]);
      ([out] + outs, last)
  }

  function CursorRun(c: Cursor, ops: seq<Op>): (seq<Out>, Cursor)
    decreases |ops|
  {
    if ops == [] then ([], c)
    else
      var (d, out) := CursorStep(c, ops[0]);
      var (outs, last) := CursorRun(d, ops[1..]);
      ([out] + outs, last)
  }

  function AsCursor(v: View): Cursor { Cursor(Payload(v), v.pos) }

  lemma ReadRefines(v: View, total: nat)
    requires InFile(v)
    ensures var c := AsCursor(v);
            && Chunk(v, total) == Rest(c)[..Min(total, |Rest(c)|)] && |Chunk(v, total)| == Got(v, total)
            && InFile(AfterRead(v, total)) && AsCursor(AfterRead(v, total)) == c.(at := c.at + Got(v, total))
  {
    var p := Payload(v);
    assert p == v.file[v.start..v.start + v.size];
    if v.pos < v.size {
      assert Rest(AsCursor(v)) == v.file[v.start + v.pos..v.start + v.size];
    }
  }

  lemma StepRefines(v: View, op: Op)
    requires InFile(v)
    ensures var (w, out) := HandleStep(v, op);
            && CursorStep(AsCursor(v), op) == (AsCursor(w), out)
            && InFile(w) && Payload(w) == Payload(v)
  {
    if op.Read? {
      ReadRefines(v, op.size * op.nmemb);
      hide Chunk, Got, Payload, Rest, InFile;
    }
  }

  /** Over every run of read, seek, tell and eof, a slice handle inside its file gives back what the
      byte sequence with a cursor gives back. */
  lemma {:induction false} RunRefines(v: View, ops: seq<Op>)
    requires InFile(v)
    ensures var (outs, last) := HandleRun(v, ops);
            CursorRun(AsCursor(v), ops) == (outs, AsCursor(last)) && InFile(last) && Payload(last) == Payload(v)
    ensures AsCursor(v) == Cursor(v.file[v.start..v.start + v.size], v.pos)
    decreases |ops|
  {
    if ops == [] {
    } else {
      StepRefines(v, ops[0]);
      RunRefines(HandleStep(v, ops[0]).0, ops[1..]);
    }
  }

  function Delivered(outs: seq<Out>): seq<byte> {
    if outs == [] then []
    else (if outs[0].Bytes? then outs[0].chunk else []) + Delivered(outs[1..])
  }

  function Asked(ops: seq<Op>): nat {
    if ops == [] then 0 else (if ops[0].Read? then ops[0].size * ops[0].nmemb else 0) + Asked(ops[1..])
  }

  lemma TakeTwice(s: seq<byte>, k: nat, n: nat)
    requires k <= |s|
    ensures s[..Min(k + n, |s|)] == s[..k] + s[k..][..Min(n, |s| - k)]
  {
  }

  /** What reads alone deliver is the payload from the cursor on, as far as was asked for. */
  lemma {:induction false} ReadsDeliver(c: Cursor, ops: seq<Op>)
    requires forall i | 0 <= i < |ops| :: !ops[i].Seek?
    ensures Delivered(CursorRun(c, ops).0) == Rest(c)[..Min(Asked(ops), |Rest(c)|)]
    decreases |ops|
  {
    if ops == [] {
    } else {
      var (d, out) := CursorStep(c, ops[0]);
      var more := CursorRun(d, ops[1..]).0;
      ReadsDeliver(d, ops[1..]);
      assert ([out] + more)[1..] == more;
      var n := if ops[0].Read? then ops[0].size * ops[0].nmemb else 0;
      var k := Min(n, |Rest(c)|);
      assert Rest(d) == Rest(c)[k..];
      TakeTwice(Rest(c), k, Asked(ops[1..]));
      assert k < n ==> Rest(d) == [];
    }
  }

  /** From position 0, the chunks of any seek-free sequence concatenate to a prefix of the payload. */
  lemma ReadsArePrefix(v: View, ops: seq<Op>)
    requires InFile(v) && v.pos == 0 && forall i | 0 <= i < |ops| :: !ops[i].Seek?
    ensures Delivered(HandleRun(v, ops).0) == Payload(v)[..Min(Asked(ops), v.size)]
  {
    RunRefines(v, ops);
    ReadsDeliver(AsCursor(v), ops);
  }

  /** Reading can reach the end of the slice if and only if the slice is empty or lies inside its
      file; otherwise the cursor stalls where the file ends. */
  lemma {:induction false} ReadsStall(v: View, ops: seq<Op>)
    requires v.pos < v.size && !InFile(v) && v.start + v.pos <= Max(v.start, |v.file|)
    requires forall i | 0 <= i < |ops| :: !ops[i].Seek?
    ensures HandleRun(v, ops).1.pos < HandleRun(v, ops).1.size
    decreases |ops|
  {
    if ops == [] {
    } else {
      ReadsStall(HandleStep(v, ops[0]).0, ops[1..]);
    }
  }

  function Max(a: int, b: int): int { if a >= b then a else b }

  lemma EofReachableIff(v: View)
    requires v.pos == 0
    ensures (exists ops: seq<Op> :: (forall i | 0 <= i < |ops| :: ops[i].Read?) && HandleRun(v, ops).1.pos >= v.size)
            <==> v.size == 0 || InFile(v)
  {
    if v.size == 0 {
      assert HandleRun(v, []).1.pos >= v.size;
    } else if InFile(v) {
      var ops := [Read(1, v.size)];
      var w := HandleStep(v, ops[0]).0;
      assert HandleRun(w, ops[1..]).1 == w;
      assert HandleRun(v, ops).1.pos >= v.size;
    } else {
      forall ops: seq<Op> | (forall i | 0 <= i < |ops| :: ops[i].Read?)
        ensures HandleRun(v, ops).1.pos < v.size
      {
        ReadsStall(v, ops);
        RunKeepsSize(v, ops);
      }
    }
  }

  lemma {:induction false} RunKeepsSize(v: View, ops: seq<Op>)
    ensures HandleRun(v, ops).1.size == v.size
    decreases |ops|
  {
    if ops == [] {
    } else {
      RunKeepsSize(HandleStep(v, ops[0]).0, ops[1..]);
    }
  }

  // ----- asset_getc and asset_gets -----

  /** What can still be read from the cursor on. */
  function Remaining(v: View): seq<byte> { Chunk(v, v.size) }

  /** The slice from the cursor on, as far as it lies in the file. */
  lemma RemainingIs(v: View)
    ensures Remaining(v) == if v.pos >= v.size then []
                            else v.file[Min(v.start + v.pos, |v.file|)..Min(v.start + v.size, |v.file|)]
  {
  }

  lemma RemainingRead(v: View, total: nat)
    ensures Got(v, total) == Min(total, |Remaining(v)|) && Chunk(v, total) == Remaining(v)[..Got(v, total)]
    ensures Remaining(AfterRead(v, total)) == Remaining(v)[Got(v, total)..]
  {
    var rest := Remaining(v);
    assert Got(v, total) == Min(total, |rest|);
    assert Chunk(v, total) == rest[..Got(v, total)];
  }

  /** Reading i bytes and then one more is reading i + 1 bytes. */
  lemma ReadOneMore(v: View, i: nat)
    requires i <= |Remaining(v)|
    ensures AfterRead(AfterRead(v, i), 1) == AfterRead(v, i + 1)
    ensures Remaining(AfterRead(v, i)) == Remaining(v)[i..]
    ensures i == |Remaining(v)| ==> AfterRead(v, i + 1) == AfterRead(v, i)
  {
    RemainingRead(v, i);
    RemainingRead(AfterRead(v, i), 1);
    RemainingRead(v, i + 1);
  }

  /** asset_getc. */
  method AssetGetc(h: AssetHandle?) returns (c: int)
    modifies h
    ensures h == null ==> c == -1
    ensures h != null ==>
              var rest := Remaining(old(h.AsView()));
              && c == (if rest == [] then -1 else rest[0] as int)
              && h.AsView() == AfterRead(old(h.AsView()), 1)
  {
    var one := new byte[1](_ => 0);
    var r := AssetRead(one, 1, 1, h);
    if h != null { RemainingRead(old(h.AsView()), 1); }
    if r != 1 { return -1; }
    c := one[0];
  }

  /** Where the piece that starts before i ends: after a newline, at the limit, or at the end. */
  function LineEnd(rest: seq<byte>, i: nat, limit: nat): (n: nat)
    requires i <= |rest| && i <= limit
    ensures i <= n <= |rest| && n <= limit
    decreases limit - i
  {
    if i == limit || i == |rest| then i else if rest[i] == NEWLINE then i + 1 else LineEnd(rest, i + 1, limit)
  }

  function Line(rest: seq<byte>, max: int): seq<byte>
    requires max > 0
  {
    rest[..LineEnd(rest, 0, max - 1)]
  }

  /** The end is the first place that qualifies, and the only one. */
  lemma {:induction false} LineEndIff(rest: seq<byte>, i: nat, limit: nat, n: nat)
    requires i <= |rest| && i <= limit && i <= n <= |rest| && n <= limit
    ensures LineEnd(rest, i, limit) == n <==>
            && (forall m | i <= m < n - 1 :: rest[m] != 10)
            && (n == limit || n == |rest| || (n > i && rest[n - 1] == 10))
            && (n == i ==> i == limit || i == |rest|)
    decreases limit - i
  {
    if i == limit || i == |rest| || rest[i] == NEWLINE || n == i {
    } else {
      LineEndIff(rest, i + 1, limit, n);
    }
  }

  /** The loop of asset_gets, lines 447-452: how many bytes it stores. */
  method FillLine(buf: array<byte>, max: int, h: AssetHandle) returns (i: nat)
    requires 0 < max <= buf.Length
    modifies buf, h
    ensures var line := Line(Remaining(old(h.AsView())), max);
            i == |line| && buf[..i] == line && h.AsView() == AfterRead(old(h.AsView()), i)
  {
    i := 0;
    ghost var v := h.AsView();
    ghost var rest := Remaining(v);
    ReadOneMore(v, 0);
    hide Chunk, Got, AfterRead, Remaining, AssetHandle.AsView;
    var more := true;
    while more && i < max - 1
      invariant i <= max - 1 && i <= |rest|
      invariant h.AsView() == AfterRead(v, i)
      invariant buf[..i] == rest[..i]
      invariant LineEnd(rest, 0, max - 1) == if more then LineEnd(rest, i, max - 1) else i
      decreases more, max - i
    {
      ReadOneMore(v, i);
      var c := AssetGetc(h);
      if c < 0 {
        more := false;
      } else {
        buf[i] := c;
        i := i + 1;
        more := c != 10;
      }
    }
  }

  /** asset_gets: the next piece and a NUL, or NULL with the handle as it was. */
  method AssetGets(buf: array?<byte>, max: int, h: AssetHandle?) returns (ok: bool)
    requires buf != null && max > 0 ==> max <= buf.Length
    modifies buf, h
    ensures h == null || buf == null || max <= 0 ==> !ok && (h != null ==> h.AsView() == old(h.AsView()))
    ensures h != null && buf != null && max > 0 ==>
              var line := Line(Remaining(old(h.AsView())), max);
              && (ok <==> line != [])
              && (ok ==> buf[..|line|] == line && buf[|line|] == 0)
              && h.AsView() == AfterRead(old(h.AsView()), |line|)
  {
    if buf == null || max <= 0 || h == null { return false; }
    var i := FillLine(buf, max, h);
    if i == 0 { return false; }
    buf[i] := 0;
    ok := true;
  }

  // ----- repeated asset_gets -----

  /** The pieces that repeated calls deliver, from the bytes still to be read. */
  function Pieces(rest: seq<byte>, max: int): seq<seq<byte>>
    requires max >= 2
    decreases |rest|
  {
    if Line(rest, max) == [] then [] else [Line(rest, max)] + Pieces(rest[|Line(rest, max)|..], max)
  }

  function Concat(ps: seq<seq<byte>>): seq<byte> {
    if ps == [] then [] else ps[0] + Concat(ps[1..])
  }

  predicate IsLine(p: seq<byte>, max: int) {
    1 <= |p| <= max - 1 && forall m | 0 <= m < |p| - 1 :: p[m] != 10
  }

  predicate IsFull(p: seq<byte>, max: int) { p != [] && (p[|p| - 1] == 10 || |p| == max - 1) }

  /** A division into non-empty pieces of at most max - 1 bytes in which a newline only ends a piece
      and only the last piece may end for another reason than a newline or its length. */
  predicate IsDivision(ps: seq<seq<byte>>, rest: seq<byte>, max: int) {
    && Concat(ps) == rest
    && (forall i | 0 <= i < |ps| :: IsLine(ps[i], max))
    && (forall i | 0 <= i < |ps| - 1 :: IsFull(ps[i], max))
  }

  lemma LineIsLine(rest: seq<byte>, max: int)
    requires max >= 2
    ensures Line(rest, max) == [] <==> rest == []
    ensures rest != [] ==> IsLine(Line(rest, max), max)
    ensures |Line(rest, max)| < |rest| ==> IsFull(Line(rest, max), max)
  {
    LineEndIff(rest, 0, max - 1, LineEnd(rest, 0, max - 1));
  }

  lemma IsDivisionCons(p: seq<byte>, more: seq<seq<byte>>, rest: seq<byte>, max: int)
    ensures IsDivision([p] + more, p + rest, max) <==>
            IsLine(p, max) && IsDivision(more, rest, max) && (more != [] ==> IsFull(p, max))
  {
    var ps := [p] + more;
    assert ps[1..] == more;
    assert Concat(ps) == p + Concat(more);
    assert p + Concat(more) == p + rest <==> Concat(more) == rest by {
      if p + Concat(more) == p + rest {
        assert Concat(more) == (p + Concat(more))[|p|..] == (p + rest)[|p|..] == rest;
      }
    }
    assert forall i | 0 <= i < |more| :: more[i] == ps[i + 1];
    hide IsLine, IsFull, Concat;
    assert forall i | 0 < i < |ps| :: ps[i] == more[i - 1];
  }

  lemma {:induction false} PiecesDivide(rest: seq<byte>, max: int)
    requires max >= 2
    ensures IsDivision(Pieces(rest, max), rest, max) && |Pieces(rest, max)| <= |rest|
    decreases |rest|
  {
    var line := Line(rest, max);
    LineIsLine(rest, max);
    if line == [] {
    } else {
      var tail := rest[|line|..];
      PiecesDivide(tail, max);
      assert rest == line + tail;
      IsDivisionCons(line, Pieces(tail, max), tail, max);
      hide IsDivision, Line, IsLine, IsFull;
    }
  }

  /** There is only one such division, so it is the one that repeated asset_gets deliver. */
  lemma {:induction false} DivisionIsPieces(ps: seq<seq<byte>>, rest: seq<byte>, max: int)
    requires max >= 2 && IsDivision(ps, rest, max)
    ensures ps == Pieces(rest, max)
    decreases |ps|
  {
    if ps == [] {
    } else {
      var p, more := ps[0], ps[1..];
      var tail := Concat(more);
      assert ps == [p] + more && rest == p + tail;
      IsDivisionCons(p, more, tail, max);
      assert more == [] ==> tail == [];
      LineEndIff(rest, 0, max - 1, |p|);
      assert Line(rest, max) == p && rest[|p|..] == tail;
      DivisionIsPieces(more, tail, max);
    }
  }

  /** The results of n successive calls of asset_gets; NULL is the empty piece. */
  function GetsRun(v: View, max: int, n: nat): seq<seq<byte>>
    requires max > 0
    decreases n
  {
    if n == 0 then []
    else
      var line := Line(Remaining(v), max);
      [line] + GetsRun(AfterRead(v, |line|), max, n - 1)
  }

  /** Repeated asset_gets deliver the division and then NULL: at most one call more than bytes. */
  lemma {:induction false} GetsPartition(v: View, max: int)
    requires max >= 2
    ensures var ps := Pieces(Remaining(v), max);
            GetsRun(v, max, |ps| + 1) == ps + [[]] && IsDivision(ps, Remaining(v), max) && |ps| <= |Remaining(v)|
    decreases |Remaining(v)|
  {
    var rest := Remaining(v);
    var line := Line(rest, max);
    PiecesDivide(rest, max);
    RemainingRead(v, |line|);
    if line != [] {
      GetsPartition(AfterRead(v, |line|), max);
    } else {
      assert GetsRun(v, max, 1) == [line] + GetsRun(AfterRead(v, |line|), max, 0);
    }
  }
}
