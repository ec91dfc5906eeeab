/** The relation lists of the online-friend engine, in daemon/utmpd/friend.cpp.

    Every user owns a forward list (whom he likes) and a backward list (who likes him).
    An entry of one list stores the position of its mirror entry in the other, so an entry
    can be removed by moving the last entry into its place.  The same code serves like/likeby
    and hate/hateby; an object of class RelationLists is one such pair of families, with the
    lists of all users indexed by uid. */
module Relations {

  /** One entry: the user it names and the position of the mirror entry in his list. */
  datatype Relation = Relation(him: int, offset: int)

  type Lists = seq<seq<Relation>>

  /** Entry e, sitting at position k of user u's list, is answered in the other family. */
  ghost predicate Answered(e: Relation, other: Lists, u: int, k: int) {
    && 0 <= e.him < |other|
    && 0 <= e.offset < |other[e.him]|
    && other[e.him][e.offset] == Relation(u, k)
  }

  ghost predicate AllAnswered(a: Lists, b: Lists) {
    forall u, k {:trigger a[u][k]} :: 0 <= u < |a| && 0 <= k < |a[u]| ==> Answered(a[u][k], b, u, k)
  }

  /** The two families are in bijection: entry k of u's list names v with offset j exactly when
      entry j of v's list in the other family names u with offset k. */
  ghost predicate Mirror(a: Lists, b: Lists) {
    |a| == |b| && AllAnswered(a, b) && AllAnswered(b, a)
  }

  /** The state in the middle of the removal of all entries of user me: his first i entries have
      already lost their mirror entries, everything else is still in bijection. */
  ghost predicate HalfMirror(a: Lists, b: Lists, me: int, i: int) {
    && |a| == |b|
    && (forall u, k {:trigger a[u][k]} :: 0 <= u < |a| && 0 <= k < |a[u]| && (u != me || i <= k) ==>
          Answered(a[u][k], b, u, k))
    && (forall v, j {:trigger b[v][j]} :: 0 <= v < |b| && 0 <= j < |b[v]| ==>
          Answered(b[v][j], a, v, j) && (b[v][j].him != me || i <= b[v][j].offset))
  }

  /** The users named by a list, in order. */
  function Names(l: seq<Relation>): (r: seq<int>)
    ensures |r| == |l| && forall k :: 0 <= k < |l| ==> r[k] == l[k].him
  {
    seq(|l|, k requires 0 <= k < |l| => l[k].him)
  }

  function AllNames(a: Lists): (r: seq<seq<int>>)
    ensures |r| == |a| && forall u :: 0 <= u < |a| ==> r[u] == Names(a[u])
  {
    seq(|a|, u requires 0 <= u < |a| => Names(a[u]))
  }

  lemma NamesAppend(a: Lists, me: int, e: Relation)
    requires 0 <= me < |a|
    ensures AllNames(a[me := a[me] + [e]]) == AllNames(a)[me := AllNames(a)[me] + [e.him]]
  {
    assert Names(a[me] + [e]) == Names(a[me]) + [e.him];
  }

  /** Entry offset of user v's backward list is gone and the last entry has taken its place;
      the forward entry that the moved one mirrors has been told the new position. */
  ghost function HalfDelete(a: Lists, b: Lists, v: int, offset: int): (r: (Lists, Lists))
    requires 0 <= v < |b| && 0 <= offset < |b[v]|
    requires offset < |b[v]| - 1 ==>
               var last := b[v][|b[v]| - 1]; 0 <= last.him < |a| && 0 <= last.offset < |a[last.him]|
  {
    var n := |b[v]|;
    if offset < n - 1 then
      var last := b[v][n - 1];
      (a[last.him := a[last.him][last.offset := a[last.him][last.offset].(offset := offset)]],
       b[v := b[v][offset := last][..n - 1]])
    else
      (a, b[v := b[v][..n - 1]])
  }

  /** The entry about to lose its mirror is answered, and so is the one that will be moved. */
  lemma NextAnswered(a: Lists, b: Lists, me: int, i: int)
    requires HalfMirror(a, b, me, i) && 0 <= me < |a| && 0 <= i < |a[me]|
    ensures Answered(a[me][i], b, me, i)
    ensures var v := a[me][i].him; Answered(b[v][|b[v]| - 1], a, v, |b[v]| - 1)
  {
    assert Answered(a[me][i], b, me, i);
    var v := a[me][i].him;
    assert Answered(b[v][|b[v]| - 1], a, v, |b[v]| - 1);
  }

  lemma HalfDeleteForward(a: Lists, b: Lists, me: int, i: int, v: int, offset: int)
    requires HalfMirror(a, b, me, i) && 0 <= me < |a| && 0 <= i < |a[me]|
    requires a[me][i] == Relation(v, offset) && Answered(a[me][i], b, me, i)
    requires Answered(b[v][|b[v]| - 1], a, v, |b[v]| - 1)
    ensures var (a', b') := HalfDelete(a, b, v, offset);
            forall u, k {:trigger a'[u][k]} :: 0 <= u < |a'| && 0 <= k < |a'[u]| && (u != me || i + 1 <= k) ==>
              Answered(a'[u][k], b', u, k)
  {
    var (a', b') := HalfDelete(a, b, v, offset);
    forall u, k | 0 <= u < |a'| && 0 <= k < |a'[u]| && (u != me || i + 1 <= k)
      ensures Answered(a'[u][k], b', u, k)
    {
      assert Answered(a[u][k], b, u, k);
    }
  }

  lemma HalfDeleteBackward(a: Lists, b: Lists, me: int, i: int, v: int, offset: int)
    requires HalfMirror(a, b, me, i) && 0 <= me < |a| && 0 <= i < |a[me]|
    requires a[me][i] == Relation(v, offset) && Answered(a[me][i], b, me, i)
    requires Answered(b[v][|b[v]| - 1], a, v, |b[v]| - 1)
    ensures var (a', b') := HalfDelete(a, b, v, offset);
            forall w, j {:trigger b'[w][j]} :: 0 <= w < |b'| && 0 <= j < |b'[w]| ==>
              Answered(b'[w][j], a', w, j) && (b'[w][j].him != me || i + 1 <= b'[w][j].offset)
  {
    var n := |b[v]|;
    var (a', b') := HalfDelete(a, b, v, offset);
    forall w, j | 0 <= w < |b'| && 0 <= j < |b'[w]|
      ensures Answered(b'[w][j], a', w, j) && (b'[w][j].him != me || i + 1 <= b'[w][j].offset)
    {
      if w == v && j == offset {
        assert b'[w][j] == b[v][n - 1];
      } else {
        assert b'[w][j] == b[w][j];
        assert Answered(b[w][j], a, w, j);
      }
    }
  }

  lemma HalfDeleteNames(a: Lists, b: Lists, v: int, offset: int)
    requires 0 <= v < |b| && 0 <= offset < |b[v]| && Answered(b[v][|b[v]| - 1], a, v, |b[v]| - 1)
    ensures AllNames(HalfDelete(a, b, v, offset).0) == AllNames(a)
  {
    var a' := HalfDelete(a, b, v, offset).0;
    forall u | 0 <= u < |a|
      ensures Names(a'[u]) == Names(a[u])
    {
      assert forall k :: 0 <= k < |a[u]| ==> a'[u][k].him == a[u][k].him;
    }
  }

  lemma HalfDeleteKeeps(a: Lists, b: Lists, me: int, i: int)
    requires HalfMirror(a, b, me, i)
    requires 0 <= me < |a| && 0 <= i < |a[me]|
    ensures var e := a[me][i];
            && Answered(e, b, me, i) && Answered(b[e.him][|b[e.him]| - 1], a, e.him, |b[e.him]| - 1)
            && var (a', b') := HalfDelete(a, b, e.him, e.offset);
               HalfMirror(a', b', me, i + 1) && AllNames(a') == AllNames(a)
  {
    var e := a[me][i];
    NextAnswered(a, b, me, i);
    HalfDeleteForward(a, b, me, i, e.him, e.offset);
    HalfDeleteBackward(a, b, me, i, e.him, e.offset);
    HalfDeleteNames(a, b, e.him, e.offset);
  }

  /** Once all entries of me have lost their mirrors, dropping his list restores the bijection. */
  lemma ClearKeeps(a: Lists, b: Lists, me: int)
    requires 0 <= me < |a| && HalfMirror(a, b, me, |a[me]|)
    ensures Mirror(a[me := []], b)
  {
    var a' := a[me := []];
    forall u, k | 0 <= u < |a'| && 0 <= k < |a'[u]|
      ensures Answered(a'[u][k], b, u, k)
    {
      assert a'[u] == a[u];
      assert Answered(a[u][k], b, u, k);
    }
    forall v, j | 0 <= v < |b| && 0 <= j < |b[v]|
      ensures Answered(b[v][j], a', v, j)
    {
      assert Answered(b[v][j], a, v, j);
    }
  }

  lemma AddKeeps(a: Lists, b: Lists, me: int, him: int)
    requires Mirror(a, b) && 0 <= me < |a| && 0 <= him < |a|
    ensures Mirror(a[me := a[me] + [Relation(him, |b[him]|)]], b[him := b[him] + [Relation(me, |a[me]|)]])
  {
    var a', b' := a[me := a[me] + [Relation(him, |b[him]|)]], b[him := b[him] + [Relation(me, |a[me]|)]];
    forall u, k | 0 <= u < |a'| && 0 <= k < |a'[u]|
      ensures Answered(a'[u][k], b', u, k)
    {
      if k < |a[u]| {
        assert Answered(a[u][k], b, u, k);
      }
    }
    forall v, j | 0 <= v < |b'| && 0 <= j < |b'[v]|
      ensures Answered(b'[v][j], a', v, j)
    {
      if j < |b[v]| {
        assert Answered(b[v][j], a, v, j);
      }
    }
  }

  // ---------------------------------------------------------------------------
  // What the bijection is for: both users see the same relation, with multiplicity.

  ghost function Positions(l: seq<Relation>, him: int): set<int> {
    set k | 0 <= k < |l| && l[k].him == him
  }

  lemma {:induction false} InjectionBound<X, Y>(s: set<X>, t: set<Y>, f: map<X, Y>)
    requires s <= f.Keys
    requires forall x :: x in s ==> f[x] in t
    requires forall x, y :: x in s && y in s && x != y ==> f[x] != f[y]
    ensures |s| <= |t|
  {
    if s != {} {
      var x :| x in s;
      InjectionBound(s - {x}, t - {f[x]}, f);
    }
  }

  lemma OffsetsBound(a: Lists, b: Lists, u: int, v: int)
    requires Mirror(a, b) && 0 <= u < |a| && 0 <= v < |a|
    ensures |Positions(a[u], v)| <= |Positions(b[v], u)|
  {
    var f := map k | k in Positions(a[u], v) :: a[u][k].offset;
    forall k | k in Positions(a[u], v)
      ensures f[k] in Positions(b[v], u) && b[v][f[k]].offset == k
    {
      assert Answered(a[u][k], b, u, k);
    }
    InjectionBound(Positions(a[u], v), Positions(b[v], u), f);
  }

  /** User u names v exactly as often as v is recorded to be named by u. */
  lemma SameMultiplicity(a: Lists, b: Lists, u: int, v: int)
    requires Mirror(a, b) && 0 <= u < |a| && 0 <= v < |a|
    ensures |Positions(a[u], v)| == |Positions(b[v], u)|
    ensures v in Names(a[u]) <==> u in Names(b[v])
  {
    OffsetsBound(a, b, u, v);
    OffsetsBound(b, a, v, u);
    if v in Names(a[u]) {
      var k :| 0 <= k < |a[u]| && a[u][k].him == v;
      assert Answered(a[u][k], b, u, k);
      assert Names(b[v])[a[u][k].offset] == u;
    }
    if u in Names(b[v]) {
      var j :| 0 <= j < |b[v]| && b[v][j].him == u;
      assert Answered(b[v][j], a, v, j);
      assert Names(a[u])[b[v][j].offset] == v;
    }
  }

  /** Nobody is liked once nobody likes: the backward lists empty themselves. */
  lemma EmptyTogether(a: Lists, b: Lists)
    requires Mirror(a, b) && forall u :: 0 <= u < |a| ==> a[u] == []
    ensures forall v :: 0 <= v < |b| ==> b[v] == []
  {
    forall v | 0 <= v < |b|
      ensures b[v] == []
    {
      assert |b[v]| > 0 ==> Answered(b[v][0], a, v, 0);
    }
  }

  // ---------------------------------------------------------------------------
  // The lists themselves, updated in place.

  class RelationLists {
    var fwd: Lists
    var back: Lists

    ghost predicate Valid()
      reads this
    {
      Mirror(fwd, back)
    }

    constructor (n: nat)
      ensures Valid() && |fwd| == n && forall u :: 0 <= u < n ==> fwd[u] == [] && back[u] == []
    {
      fwd := seq(n, _ => []);
      back := seq(n, _ => []);
    }

    /** add: append to my list, append to his, then record where mine landed in his. */
    method Add(me: int, him: int)
      requires Valid() && 0 <= me < |fwd| && 0 <= him < |fwd|
      modifies this
      ensures Valid()
      ensures fwd == old(fwd)[me := old(fwd)[me] + [Relation(him, |old(back)[him]|)]]
      ensures back == old(back)[him := old(back)[him] + [Relation(me, |old(fwd)[me]|)]]
      ensures AllNames(fwd) == AllNames(old(fwd))[me := AllNames(old(fwd))[me] + [him]]
    {
      AddKeeps(fwd, back, me, him);
      NamesAppend(fwd, me, Relation(him, |back[him]|));
      var meOffset := |fwd[me]|;
      fwd := fwd[me := fwd[me] + [Relation(him, -1)]];
      var himOffset := |back[him]|;
      back := back[him := back[him] + [Relation(me, meOffset)]];
      fwd := fwd[me := fwd[me][meOffset := fwd[me][meOffset].(offset := himOffset)]];
      assert fwd[me] == old(fwd)[me] + [Relation(him, himOffset)];
      assert fwd == old(fwd)[me := old(fwd)[me] + [Relation(him, himOffset)]];
    }

    /** delete_half, on the backward list of user v. */
    method DeleteHalf(v: int, offset: int)
      requires 0 <= v < |back| && 0 <= offset < |back[v]|
      requires offset < |back[v]| - 1 ==>
                 var last := back[v][|back[v]| - 1]; 0 <= last.him < |fwd| && 0 <= last.offset < |fwd[last.him]|
      modifies this
      ensures (fwd, back) == HalfDelete(old(fwd), old(back), v, offset)
    {
      var n := |back[v]|;
      if offset < n - 1 {
        back := back[v := back[v][offset := back[v][n - 1]]];
        var moved := back[v][offset];
        fwd := fwd[moved.him := fwd[moved.him][moved.offset := fwd[moved.him][moved.offset].(offset := offset)]];
      }
      back := back[v := back[v][..n - 1]];
      ghost var (f, b) := HalfDelete(old(fwd), old(back), v, offset);
      assert fwd == f;
      assert back == b;
    }

    /** deleteall: strike the mirror of each of my entries, then clear my list. */
    method DeleteAll(me: int)
      requires Valid() && 0 <= me < |fwd|
      modifies this
      ensures Valid() && |fwd| == old(|fwd|)
      ensures fwd[me] == [] && AllNames(fwd) == AllNames(old(fwd))[me := []]
    {
      var i := 0;
      assert HalfMirror(fwd, back, me, 0) by {
        assert forall v, j :: 0 <= v < |back| && 0 <= j < |back[v]| ==> Answered(back[v][j], fwd, v, j);
      }
      while i < |fwd[me]|
        invariant |fwd| == old(|fwd|) && |fwd[me]| == old(|fwd[me]|)
        invariant 0 <= i <= |fwd[me]|
        invariant HalfMirror(fwd, back, me, i)
        invariant AllNames(fwd) == AllNames(old(fwd))
      {
        HalfDeleteKeeps(fwd, back, me, i);
        var e := fwd[me][i];
        assert AllNames(HalfDelete(fwd, back, e.him, e.offset).0)[me] == AllNames(fwd)[me];
        DeleteHalf(e.him, e.offset);
        i := i + 1;
      }
      ClearKeeps(fwd, back, me);
      fwd := fwd[me := []];
      assert Names([]) == [];
      assert AllNames(fwd) == AllNames(old(fwd))[me := []];
    }
  }
}
