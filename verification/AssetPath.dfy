/** Path normalisation (src/asset_archive.c, normalize_path and path_basename). */
module AssetPath {
  import opened Prelude

  const SLASH: byte := 47
  const BACKSLASH: byte := 92
  const DOT: byte := 46

  /** The path begins with one of the pieces that are skipped: "/" or "./". */
  predicate HasLead(s: seq<byte>) {
    (s != [] && s[0] == SLASH) || (|s| >= 2 && s[0] == DOT && s[1] == SLASH)
  }

  function StripLead(s: seq<byte>): (r: seq<byte>)
    ensures !HasLead(r) && |r| <= |s| && s[|s| - |r|..] == r
    ensures HasLead(s) ==> |r| < |s|
  {
    if !HasLead(s) then s else if s[0] == SLASH then StripLead(s[1..]) else StripLead(s[2..])
  }

  function FoldByte(c: byte): byte {
    if c == BACKSLASH then SLASH else if 65 <= c <= 90 then c + 32 else c
  }

  function Fold(s: seq<byte>): (r: seq<byte>)
    ensures |r| == |s|
  {
    seq(|s|, i requires 0 <= i < |s| => FoldByte(s[i]))
  }

  /** What normalize_path leaves in a buffer of the given size. */
  function Normalize(s: seq<byte>, size: nat): (r: seq<byte>)
    requires size > 0
    ensures |r| <= size - 1
  {
    Fold(StripLead(s))[..Min(|StripLead(s)|, size - 1)]
  }

  /** The loop of line 88: how far the pointer moves before the copy begins. */
  method SkipLead(src: seq<byte>) returns (i: nat)
    requires 0 in src
    ensures i <= |CStr(src)| && CStr(src)[i..] == StripLead(CStr(src))
  {
    i := 0;
    LeadAt(src, i);
    while (src[i] == DOT && src[i + 1] == SLASH) || src[i] == SLASH
      invariant i <= |CStr(src)| < |src| && (src[i] == DOT ==> i + 1 < |src|)
      invariant StripLead(CStr(src)[i..]) == StripLead(CStr(src))
      decreases |CStr(src)| - i
    {
      LeadAt(src, i);
      i := i + (if src[i] == SLASH then 1 else 2);
      LeadAt(src, i);
    }
    LeadAt(src, i);
  }

  /** The loop of lines 89-95: copy from src[start..], folding each byte, and end with a NUL. */
  method CopyFolded(dst: array<byte>, src: seq<byte>, start: nat)
    requires dst.Length > 0 && 0 in src && start <= |CStr(src)|
    modifies dst
    ensures var k := Min(|CStr(src)| - start, dst.Length - 1);
            dst[..k] == Fold(CStr(src)[start..])[..k] && dst[k] == 0
  {
    EndsInNul(src);
    ghost var n := |CStr(src)| - start;
    FoldedAt(src, start);
    hide CStr, Fold, StripLead;
    var i, j := start, 0;
    while src[i] != 0 && j + 1 < dst.Length
      invariant 0 <= j <= n && j < dst.Length && i == start + j
      invariant forall k | 0 <= k < j :: dst[k] == FoldByte(src[start + k])
      decreases n - j
    {
      var c := src[i];
      i := i + 1;
      if c == BACKSLASH { c := SLASH; }
      if 65 <= c <= 90 { c := c - 65 + 97; }
      dst[j] := c;
      j := j + 1;
    }
    dst[j] := 0;
  }

  lemma FoldedAt(src: seq<byte>, start: nat)
    requires 0 in src && start <= |CStr(src)|
    ensures |Fold(CStr(src)[start..])| == |CStr(src)| - start
    ensures forall k | 0 <= k < |CStr(src)| - start :: Fold(CStr(src)[start..])[k] == FoldByte(src[start + k])
  {
  }

  /** normalize_path. src is the buffer that the char pointer points into; a C string has its NUL. */
  method NormalizePath(dst: array?<byte>, src: Option<seq<byte>>)
    requires src.Some? ==> 0 in src.value
    modifies dst
    ensures dst != null && dst.Length > 0 ==>
              var r := if src.None? then [] else Normalize(CStr(src.value), dst.Length);
              |r| < dst.Length && dst[..|r|] == r && dst[|r|] == 0
  {
    if dst == null || dst.Length == 0 { return; }
    if src.None? { dst[0] := 0; return; }
    var i := SkipLead(src.value);
    CopyFolded(dst, src.value, i);
  }

  lemma EndsInNul(s: seq<byte>)
    requires 0 in s
    ensures |CStr(s)| < |s| && s[|CStr(s)|] == 0
    ensures forall i | 0 <= i < |CStr(s)| :: s[i] == CStr(s)[i] && s[i] != 0
  {
    assert |CStr(s)| == |s| ==> CStr(s) == s;
    forall i | 0 <= i < |CStr(s)| ensures s[i] == CStr(s)[i] && s[i] != 0 { assert CStr(s)[i] in CStr(s); }
  }

  /** The loop test of line 88 at offset i of the buffer. */
  lemma LeadAt(s: seq<byte>, i: nat)
    requires 0 in s && i <= |CStr(s)|
    ensures |CStr(s)| < |s|
    ensures s[i] == DOT ==> i + 1 < |s|
    ensures HasLead(CStr(s)[i..]) <==> s[i] == SLASH || (s[i] == DOT && s[i + 1] == SLASH)
    ensures s[i] == SLASH ==> i < |CStr(s)| && StripLead(CStr(s)[i + 1..]) == StripLead(CStr(s)[i..])
    ensures s[i] == DOT && s[i + 1] == SLASH
        ==> i + 2 <= |CStr(s)| && StripLead(CStr(s)[i + 2..]) == StripLead(CStr(s)[i..])
  {
    EndsInNul(s);
    var t := CStr(s)[i..];
    if i < |CStr(s)| {
      assert t[0] == s[i];
      assert t[1..] == CStr(s)[i + 1..];
      if i + 1 < |CStr(s)| {
        assert t[1] == s[i + 1] && t[2..] == CStr(s)[i + 2..];
      }
    }
  }

  // ----- what normalisation does to the bytes -----

  /** A run of "/" and "./" pieces. */
  predicate Pieces(pieces: seq<seq<byte>>) {
    forall p | p in pieces :: p == [47] || p == [46, 47]
  }

  /** Neither "/" nor "./" comes first. */
  predicate NoPiece(s: seq<byte>) {
    s == [] || (s[0] != 47 && (s[0] == 46 ==> |s| < 2 || s[1] != 47))
  }

  lemma {:induction false} StripsPieces(pieces: seq<seq<byte>>, s: seq<byte>)
    requires Pieces(pieces)
    ensures StripLead(Joined(pieces) + s) == StripLead(s)
  {
    if pieces == [] {
      assert Joined(pieces) + s == s;
    } else {
      hide StripLead;
      assert pieces[0] in pieces && forall p | p in pieces[1..] :: p in pieces;
      StripsPieces(pieces[1..], s);
      StripsOne(pieces[0], Joined(pieces[1..]) + s);
      Assoc(pieces[0], Joined(pieces[1..]), s);
    }
  }

  lemma StripsOne(p: seq<byte>, rest: seq<byte>)
    requires p == [47] || p == [46, 47]
    ensures StripLead(p + rest) == StripLead(rest)
  {
    hide StripLead;
    StripsStep(p + rest);
    assert (p + rest)[|p|..] == rest && (p + rest)[0] == p[0] && (|p| == 2 ==> (p + rest)[1] == p[1]);
  }

  lemma StripsStep(s: seq<byte>)
    ensures s != [] && s[0] == 47 ==> StripLead(s) == StripLead(s[1..])
    ensures |s| >= 2 && s[0] == 46 && s[1] == 47 ==> StripLead(s) == StripLead(s[2..])
  {
  }

  /** The leading pieces go, and of what follows each byte is kept but for two kinds: an upper case
      letter becomes the lower case one 32 above it, a backslash becomes a slash. */
  lemma NormalizeBytes(pieces: seq<seq<byte>>, s: seq<byte>, size: nat)
    requires size > 0 && Pieces(pieces) && NoPiece(s)
    ensures var r := Normalize(Joined(pieces) + s, size);
            && |r| == Min(|s|, size - 1)
            && forall i | 0 <= i < |r| ::
                 r[i] == (if 65 <= s[i] <= 90 then s[i] + 32 else if s[i] == 92 then 47 else s[i])
  {
    hide *;
    StripsPieces(pieces, s);
    StartsPlain(s);
    CopiesFolded(Joined(pieces) + s, s, size);
  }

  lemma StartsPlain(s: seq<byte>)
    ensures NoPiece(s) <==> StripLead(s) == s
  {
  }

  lemma CopiesFolded(t: seq<byte>, s: seq<byte>, size: nat)
    requires size > 0 && StripLead(t) == s
    ensures var r := Normalize(t, size);
            && |r| == Min(|s|, size - 1)
            && forall i | 0 <= i < |r| ::
                 r[i] == (if 65 <= s[i] <= 90 then s[i] + 32 else if s[i] == 92 then 47 else s[i])
  {
    hide StripLead;
    var r := Normalize(t, size);
    assert r == Fold(s)[..Min(|s|, size - 1)];
    forall i | 0 <= i < |r|
      ensures r[i] == FoldByte(s[i])
    {
    }
  }

  /** Every path is such a run and a rest. */
  lemma {:induction false} LeadAndRest(s: seq<byte>) returns (pieces: seq<seq<byte>>, t: seq<byte>)
    ensures Pieces(pieces) && NoPiece(t) && s == Joined(pieces) + t
  {
    if NoPiece(s) {
      pieces, t := [], s;
    } else {
      var n := if s[0] == 47 then 1 else 2;
      var rest;
      rest, t := LeadAndRest(s[n..]);
      pieces := [s[..n]] + rest;
      assert Joined(pieces) + t == s[..n] + (Joined(rest) + t);
    }
  }

  /** Whatever the path, no upper case letter and no backslash is left. */
  lemma NormalizedBytes(s: seq<byte>, size: nat)
    requires size > 0
    ensures forall c | c in Normalize(s, size) :: !(65 <= c <= 90) && c != 92
  {
    hide StripLead, Normalize, Min;
    CopiesFolded(s, StripLead(s), size);
  }

  /** A path comes back as it was exactly when it fits and has nothing to strip or to fold. */
  lemma NormalizeKeepsIff(s: seq<byte>, size: nat)
    requires size > 0
    ensures Normalize(s, size) == s
       <==> |s| < size && NoPiece(s) && forall c | c in s :: !(65 <= c <= 90) && c != 92
  {
    NormalizedBytes(s, size);
    StartsPlain(s);
    CopiesFolded(s, StripLead(s), size);
    hide StripLead, Normalize, NoPiece;
    var r := Normalize(s, size);
    if r == s {
      assert |s| == |StripLead(s)|;
    } else if NoPiece(s) && |s| < size {
      assert |r| == |s|;
      var i :| 0 <= i < |s| && r[i] != s[i];
      assert s[i] in s;
    }
  }

  // ----- what normalisation erases -----

  /** Letter for letter the same but for ASCII case. */
  predicate SameButCase(a: seq<byte>, b: seq<byte>) {
    |a| == |b| && forall i | 0 <= i < |a| :: LowerCase(a[i]) == LowerCase(b[i])
  }

  function LowerCase(c: byte): byte { if 65 <= c <= 90 then c + 32 else c }

  lemma {:induction false} StripKeepsCase(a: seq<byte>, b: seq<byte>)
    requires SameButCase(a, b)
    ensures SameButCase(StripLead(a), StripLead(b))
    decreases |a|
  {
    assert forall i | 0 <= i < |a| :: (a[i] == SLASH <==> b[i] == SLASH) && (a[i] == DOT <==> b[i] == DOT);
    assert HasLead(a) <==> HasLead(b);
    if !HasLead(a) {
    } else {
      if a[0] == SLASH { StripKeepsCase(a[1..], b[1..]); } else { StripKeepsCase(a[2..], b[2..]); }
    }
  }

  /** ASCII case never matters. */
  lemma NormalizeErasesCase(a: seq<byte>, b: seq<byte>, size: nat)
    requires size > 0 && SameButCase(a, b)
    ensures Normalize(a, size) == Normalize(b, size)
  {
    StripKeepsCase(a, b);
    hide StripLead;
    var s, t := StripLead(a), StripLead(b);
    assert forall i | 0 <= i < |s| :: LowerCase(s[i]) == LowerCase(t[i]) ==> FoldByte(s[i]) == FoldByte(t[i]);
    assert Fold(s) == Fold(t);
  }

  /** Nor does any leading run of "/" and "./", nor, after it, the direction of slashes. */
  lemma NormalizeErasesLead(l: seq<seq<byte>>, a: seq<byte>, m: seq<seq<byte>>, b: seq<byte>, size: nat)
    requires size > 0 && Pieces(l) && Pieces(m) && NoPiece(a) && NoPiece(b)
    requires |a| == |b| && forall i | 0 <= i < |a| :: a[i] == b[i] || (a[i] in {47, 92} && b[i] in {47, 92})
    ensures Normalize(Joined(l) + a, size) == Normalize(Joined(m) + b, size)
  {
    hide Normalize, Joined, Pieces;
    NormalizeBytes(l, a, size);
    NormalizeBytes(m, b, size);
    var r, q := Normalize(Joined(l) + a, size), Normalize(Joined(m) + b, size);
    forall i | 0 <= i < |r|
      ensures r[i] == q[i]
    {
      assert a[i] == b[i] || (a[i] in {47, 92} && b[i] in {47, 92});
    }
  }

  /** The stripped path still begins with a separator, but a backslash one. */
  predicate HasBackslashLead(s: seq<byte>) {
    (s != [] && s[0] == BACKSLASH) || (|s| >= 2 && s[0] == DOT && s[1] == BACKSLASH)
  }

  lemma NormalizedIsFolded(s: seq<byte>, size: nat)
    requires size > 0
    ensures Fold(Normalize(s, size)) == Normalize(s, size)
  {
    hide StripLead;
    var n, r := Normalize(s, size), StripLead(s);
    forall i | 0 <= i < |n|
      ensures FoldByte(n[i]) == n[i]
    {
      assert n[i] == FoldByte(r[i]);
    }
  }

  lemma NormalizedLead(s: seq<byte>, size: nat)
    requires size >= 3
    ensures HasLead(Normalize(s, size)) <==> HasBackslashLead(StripLead(s))
  {
    var n, r := Normalize(s, size), StripLead(s);
    assert !HasLead(r);
    hide StripLead;
    assert |r| >= 1 ==> |n| >= 1 && n[0] == FoldByte(r[0]);
    assert |r| >= 2 ==> |n| >= 2 && n[1] == FoldByte(r[1]);
  }

  lemma NormalizeFolded(n: seq<byte>, size: nat)
    requires |n| < size && Fold(n) == n
    ensures Normalize(n, size) == n <==> !HasLead(n)
  {
    if HasLead(n) {
      assert |StripLead(n)| < |n|;
      assert |Normalize(n, size)| < |n|;
    }
  }

  /** Stripping happens before backslashes are turned round, so a second pass strips again exactly
      when a backslash separator came to the front. */
  lemma NormalizeIdempotentIff(s: seq<byte>, size: nat)
    requires size >= 3
    ensures Normalize(Normalize(s, size), size) == Normalize(s, size) <==> !HasBackslashLead(StripLead(s))
  {
    hide Fold, StripLead, HasLead, HasBackslashLead;
    NormalizedIsFolded(s, size);
    NormalizedLead(s, size);
    NormalizeFolded(Normalize(s, size), size);
  }

  // ----- path_basename -----

  /** The part after the last slash. */
  function Basename(p: seq<byte>): (b: seq<byte>)
    ensures SLASH !in b && |b| <= |p| && p[|p| - |b|..] == b
    ensures |b| < |p| ==> p[|p| - |b| - 1] == SLASH
  {
    if p == [] || p[|p| - 1] == SLASH then [] else Basename(p[..|p| - 1]) + [p[|p| - 1]]
  }
}
