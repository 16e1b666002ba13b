/** The order of strcmp on C strings: bytes compare unsigned, a prefix comes first. */
module StrOrder {
  import opened Prelude

  function StrCmp(a: seq<byte>, b: seq<byte>): int {
    if a == [] && b == [] then 0
    else if a == [] then -(b[0] as int) - 1
    else if b == [] then a[0] as int + 1
    else if a[0] != b[0] then a[0] as int - b[0] as int
    else StrCmp(a[1..], b[1..])
  }

  predicate Leq(a: seq<byte>, b: seq<byte>) { StrCmp(a, b) <= 0 }

  lemma {:induction false} StrCmpZero(a: seq<byte>, b: seq<byte>)
    ensures StrCmp(a, b) == 0 <==> a == b
    decreases |a|
  {
    if a == [] || b == [] || a[0] != b[0] {
    } else {
      StrCmpZero(a[1..], b[1..]);
      assert a == [a[0]] + a[1..] && b == [b[0]] + b[1..];
    }
  }

  /** The first byte that differs decides, compared unsigned; where there is none the prefix is less. */
  lemma {:induction false} FirstDifference(p: seq<byte>, a: seq<byte>, b: seq<byte>)
    requires a != [] && (b == [] || a[0] != b[0])
    ensures StrCmp(p + a, p + b) > 0 <==> b == [] || a[0] > b[0]
    ensures StrCmp(p + b, p + a) < 0 <==> b == [] || b[0] < a[0]
  {
    if p == [] {
      assert p + a == a && p + b == b;
    } else {
      assert (p + a)[1..] == p[1..] + a && (p + b)[1..] == p[1..] + b;
      FirstDifference(p[1..], a, b);
    }
  }

  lemma {:induction false} StrCmpFlips(a: seq<byte>, b: seq<byte>)
    ensures StrCmp(a, b) == -StrCmp(b, a)
    decreases |a|
  {
    if a == [] || b == [] || a[0] != b[0] {
    } else {
      StrCmpFlips(a[1..], b[1..]);
    }
  }

  lemma {:induction false} LeqTransitive(a: seq<byte>, b: seq<byte>, c: seq<byte>)
    requires Leq(a, b) && Leq(b, c)
    ensures Leq(a, c)
    decreases |a|
  {
    if a == [] || b == [] || c == [] || a[0] != b[0] || b[0] != c[0] {
    } else {
      LeqTransitive(a[1..], b[1..], c[1..]);
    }
  }

  /** A total order: reflexive, antisymmetric, transitive, and any two strings compare. */
  lemma TotalOrder(a: seq<byte>, b: seq<byte>, c: seq<byte>)
    ensures Leq(a, a)
    ensures Leq(a, b) && Leq(b, a) ==> a == b
    ensures Leq(a, b) && Leq(b, c) ==> Leq(a, c)
    ensures Leq(a, b) || Leq(b, a)
  {
    StrCmpZero(a, a);
    StrCmpZero(a, b);
    StrCmpFlips(a, b);
    if Leq(a, b) && Leq(b, c) {
      LeqTransitive(a, b, c);
    }
  }
}
