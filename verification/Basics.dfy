/** What several modules need about sequences, circular positions and division. */
module Basics {

  type Byte = bv8

  datatype Option<+T> = None | Some(value: T)

  function Min(a: int, b: int): int {
    if a < b then a else b
  }

  /** Position i of a circle of n, at most once around. */
  function Wrap(i: nat, n: nat): nat {
    if i < n then i else i - n
  }

  ghost predicate NoRepeat<T>(s: seq<T>) {
    forall i, j :: 0 <= i < j < |s| ==> s[i] != s[j]
  }

  function Joined<T>(chunks: seq<seq<T>>): seq<T> {
    if chunks == [] then [] else chunks[0] + Joined(chunks[1..])
  }

  lemma {:induction false} JoinedNext<T>(chunks: seq<seq<T>>, last: seq<T>)
    ensures Joined(chunks + [last]) == Joined(chunks) + last
  {
    if chunks == [] {
      assert chunks + [last] == [last] && [last][1..] == [];
    } else {
      JoinedNext(chunks[1..], last);
      assert (chunks + [last])[1..] == chunks[1..] + [last];
    }
  }

  lemma Regroup<T>(a: seq<T>, b: seq<T>, c: seq<T>)
    ensures a + (b + c) == (a + b) + c
  {
  }

  lemma Halves<T>(s: seq<T>, t: seq<T>)
    ensures (s + t)[..|s|] == s && (s + t)[|s|..] == t
  {
  }

  /** Equal parts make equal wholes, and the other way round if none of the parts is longer. */
  lemma SameParts<T>(a: seq<T>, b: seq<T>, x: seq<T>, y: seq<T>)
    requires |a| <= |x| && (|a| == |x| || |b| <= |y|)
    ensures a + b == x + y <==> a == x && b == y
  {
    Halves(a, b);
    Halves(x, y);
    if a + b == x + y {
      assert |a + b| == |x + y|;
    }
  }

  lemma Multiply(d: nat, a: nat, b: nat)
    requires a <= b
    ensures d * a <= d * b
  {
  }

  /** There is only one quotient with a remainder below the divisor. */
  lemma DivUnique(x: nat, d: nat, q: nat, r: nat)
    requires x == d * q + r && r < d
    ensures x / d == q && x % d == r
  {
    assert x == d * (x / d) + x % d;
    if x / d < q {
      Multiply(d, x / d + 1, q);
    } else if x / d > q {
      Multiply(d, q + 1, x / d);
    }
  }
}
