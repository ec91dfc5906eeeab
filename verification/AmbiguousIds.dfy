/** The index of easily confused user ids in daemon/regmaild/regmaild.c: a canonical form, computed in
    place, and two sorted lists that are probed with it. */
module AmbiguousIds {

  const IDLEN: nat := 12
  const NUL: char := '\0'
  const LIFETIME: int := 60 * 60

  // ---------------------------------------------------------------------------
  // Letters.

  /** AMBLIST1 to AMBLIST4. */
  const AMBLISTS: seq<string> := ["0Oo", "1IliL", "5Ss", "2Zz"]
  const AMBCHARS: string := "0Oo1IliL5Ss2Zz"

  /** The table that holds c; 4 for none. */
  function ClassOf(c: char): (k: nat)
    ensures k <= 4
  {
    if c == '0' || c == 'O' || c == 'o' then 0
    else if c == '1' || c == 'I' || c == 'l' || c == 'i' || c == 'L' then 1
    else if c == '5' || c == 'S' || c == 's' then 2
    else if c == '2' || c == 'Z' || c == 'z' then 3
    else 4
  }

  function Head(k: nat): (c: char)
    requires k < 4
    ensures ClassOf(c) == k && c == AMBLISTS[k][0]
  {
    if k == 0 then '0' else if k == 1 then '1' else if k == 2 then '5' else '2'
  }

  lemma ListsAreClasses(c: char, k: nat)
    requires k < 4
    ensures c in AMBLISTS[k] <==> ClassOf(c) == k
  {
    if k == 0 {
      assert AMBLISTS[0] == ['0', 'O', 'o'];
    } else if k == 1 {
      assert AMBLISTS[1] == ['1', 'I', 'l', 'i', 'L'];
    } else if k == 2 {
      assert AMBLISTS[2] == ['5', 'S', 's'];
    } else {
      assert AMBLISTS[3] == ['2', 'Z', 'z'];
    }
  }

  lemma CharsAreClasses(c: char)
    ensures c in AMBCHARS <==> ClassOf(c) < 4
  {
    assert AMBCHARS == ['0', 'O', 'o', '1', 'I', 'l', 'i', 'L', '5', 'S', 's', '2', 'Z', 'z'];
  }

  /** The same with the lists written out. */
  lemma ClassesAre(c: char)
    ensures ClassOf(c) == 0 <==> c in "0Oo"
    ensures ClassOf(c) == 1 <==> c in "1IliL"
    ensures ClassOf(c) == 2 <==> c in "5Ss"
    ensures ClassOf(c) == 3 <==> c in "2Zz"
    ensures Head(0) == '0' && Head(1) == '1' && Head(2) == '5' && Head(3) == '2'
  {
    ListsAreClasses(c, 0);
    ListsAreClasses(c, 1);
    ListsAreClasses(c, 2);
    ListsAreClasses(c, 3);
  }

  /** tolower. */
  function Fold(c: char): int {
    if 'A' <= c <= 'Z' then c as int + 32 else c as int
  }

  /** Two characters are the same but for case if they are the same, or one is a capital letter and the
      other stands 32 places behind it. */
  lemma FoldIff(c: char, d: char)
    ensures Fold(c) == Fold(d) <==>
              || c == d
              || ('A' <= c <= 'Z' && d as int == c as int + 32)
              || ('A' <= d <= 'Z' && c as int == d as int + 32)
  {
  }

  lemma ClassIgnoresCase(c: char, d: char)
    requires Fold(c) == Fold(d)
    ensures ClassOf(c) == ClassOf(d)
  {
  }

  /** strcspn from a position of a string that ends at n. */
  method StrCspn(uid: array<char>, from: nat, ghost n: nat, table: string) returns (pos: nat)
    requires from <= n < uid.Length && uid[n] == NUL && forall i :: 0 <= i < n ==> uid[i] != NUL
    ensures from <= pos <= n && forall i :: from <= i < pos ==> uid[i] !in table
    ensures pos < n ==> uid[pos] in table
  {
    pos := from;
    while uid[pos] != NUL && uid[pos] !in table
      invariant from <= pos <= n && forall i :: from <= i < pos ==> uid[i] !in table
      decreases n - pos
    {
      pos := pos + 1;
    }
  }

  // ---------------------------------------------------------------------------
  // The canonical form.

  /** No character of s belongs to a table before table k. */
  predicate NoneBefore(s: string, k: nat) {
    forall i :: 0 <= i < |s| ==> ClassOf(s[i]) >= k
  }

  /** The canonical character at j: the head of its table, unless a later character belongs to an
      earlier table. */
  function CanonAt(s: string, j: nat): char
    requires j < |s|
  {
    var k := ClassOf(s[j]);
    if k < 4 && NoneBefore(s[j..], k) then Head(k) else s[j]
  }

  function Canon(s: string): (r: string)
    ensures |r| == |s| && forall j {:trigger r[j]} :: 0 <= j < |s| ==> r[j] == CanonAt(s, j)
  {
    seq(|s|, j requires 0 <= j < |s| => CanonAt(s, j))
  }

  /** Between turns: what lies before b is done, what follows is untouched and holds nothing of the
      tables before i. */
  ghost predicate Building(was: string, now: string, b: nat, i: nat) {
    && b <= |was| == |now| && i <= 4
    && now[..b] == Canon(was)[..b] && now[b..] == was[b..] && NoneBefore(was[b..], i)
  }

  lemma BuildingReplaces(was: string, now: string, b: nat, i: nat, pos: nat)
    requires Building(was, now, b, i) && i < 4 && b <= pos < |was|
    requires ClassOf(now[pos]) == i && forall j :: b <= j < pos ==> ClassOf(now[j]) != i
    ensures Building(was, now[pos := Head(i)], pos + 1, i)
  {
    var next := now[pos := Head(i)];
    forall j | b <= j < |was|
      ensures now[j] == was[j] && ClassOf(was[j]) >= i
    {
      assert now[b..][j - b] == now[j] && was[b..][j - b] == was[j];
    }
    forall j | b <= j < pos
      ensures CanonAt(was, j) == was[j]
    {
      assert was[j..][pos - j] == was[pos];
    }
    assert CanonAt(was, pos) == Head(i);
    forall j | 0 <= j < pos + 1
      ensures next[j] == Canon(was)[j]
    {
      if j < b {
        assert now[..b][j] == Canon(was)[..b][j];
      }
    }
  }

  lemma BuildingPasses(was: string, now: string, b: nat, i: nat)
    requires Building(was, now, b, i) && i < 4 && forall j :: b <= j < |was| ==> ClassOf(now[j]) != i
    ensures Building(was, now, b, i + 1)
  {
    forall j | 0 <= j < |was[b..]|
      ensures ClassOf(was[b..][j]) >= i + 1
    {
      assert now[b..][j] == now[b + j];
    }
  }

  lemma BuildingEnds(was: string, now: string, b: nat)
    requires Building(was, now, b, 4)
    ensures now == Canon(was)
  {
    forall j | 0 <= j < |was|
      ensures now[j] == Canon(was)[j]
    {
      if j < b {
        assert now[..b][j] == Canon(was)[..b][j];
      } else {
        assert now[b..][j - b] == was[b..][j - b];
      }
    }
  }

  /** build_unambiguous_userid, in place on a string that ends at n.  The tables are gone through once,
      without going back to the start of the string. */
  method BuildUnambiguous(uid: array<char>, ghost n: nat)
    requires n < uid.Length && uid[n] == NUL && forall i :: 0 <= i < n ==> uid[i] != NUL
    modifies uid
    ensures uid[..n] == Canon(old(uid[..n])) && uid[n] == NUL
  {
    ghost var was := uid[..n];
    var i, b := 0, 0;
    while i < 4
      invariant b <= n && i <= 4 && uid[n] == NUL && forall j :: 0 <= j < n ==> uid[j] != NUL
      invariant Building(was, uid[..n], b, i)
      decreases 4 - i, n - b
    {
      var pos := StrCspn(uid, b, n, AMBLISTS[i]);
      forall c: char
        ensures c in AMBLISTS[i] <==> ClassOf(c) == i
      {
        ListsAreClasses(c, i);
      }
      if uid[pos] == NUL {
        BuildingPasses(was, uid[..n], b, i);
        i := i + 1;
      } else {
        BuildingReplaces(was, uid[..n], b, i, pos);
        assert uid[..n][pos := Head(i)] == (uid[..n])[..pos] + [Head(i)] + (uid[..n])[pos + 1..];
        uid[pos] := AMBLISTS[i][0];
        b := pos + 1;
      }
    }
    BuildingEnds(was, uid[..n], b);
  }

  lemma CanonKeepsClass(s: string, j: nat)
    requires j < |s|
    ensures ClassOf(Canon(s)[j]) == ClassOf(s[j])
  {
  }

  /** A second pass changes nothing. */
  lemma CanonIsIdempotent(s: string)
    ensures Canon(Canon(s)) == Canon(s)
  {
    var r := Canon(s);
    forall j | 0 <= j < |s|
      ensures CanonAt(r, j) == r[j]
    {
      var k := ClassOf(s[j]);
      if k < 4 && NoneBefore(s[j..], k) {
        CanonKeepsClass(s, j);
      } else if k < 4 {
        var i :| 0 <= i < |s[j..]| && ClassOf(s[j..][i]) < k;
        CanonKeepsClass(s, j + i);
        assert r[j..][i] == r[j + i];
      }
    }
  }

  /** strcasecmp(s, t) == 0. */
  predicate Same(s: string, t: string) {
    |s| == |t| && forall j :: 0 <= j < |s| ==> Fold(s[j]) == Fold(t[j])
  }

  /** s and t read alike: at every place the same letter but for case, or two of one table. */
  predicate Alike(s: string, t: string) {
    |s| == |t| && forall j :: 0 <= j < |s| ==> Fold(s[j]) == Fold(t[j]) || (ClassOf(s[j]) == ClassOf(t[j]) < 4)
  }

  lemma ClassesAgree(s: string, t: string, k: nat)
    requires |s| == |t| && forall j :: 0 <= j < |s| ==> ClassOf(s[j]) == ClassOf(t[j])
    ensures NoneBefore(s, k) == NoneBefore(t, k)
  {
  }

  lemma CanonAtAlike(s: string, t: string, j: nat)
    requires j < |s| == |t| && forall i :: 0 <= i < |s| ==> ClassOf(s[i]) == ClassOf(t[i])
    ensures Fold(s[j]) == Fold(t[j]) ==> Fold(CanonAt(s, j)) == Fold(CanonAt(t, j))
    ensures ClassOf(s[j]) < 4 && NoneBefore(s[j..], ClassOf(s[j])) ==> CanonAt(s, j) == CanonAt(t, j)
    ensures Fold(CanonAt(s, j)) == Fold(CanonAt(t, j))
            ==> Fold(s[j]) == Fold(t[j]) || (ClassOf(s[j]) < 4 && NoneBefore(s[j..], ClassOf(s[j])))
  {
    ClassesAgree(s[j..], t[j..], ClassOf(s[j]));
  }

  /** Two ids have one canonical form exactly if they read alike, and each place where they differ by
      more than case is followed by no letter of an earlier table. */
  lemma SameCanonIff(s: string, t: string)
    ensures Same(Canon(s), Canon(t))
            <==> Alike(s, t) && forall j :: 0 <= j < |s| ==>
                   Fold(s[j]) == Fold(t[j]) || NoneBefore(s[j..], ClassOf(s[j]))
  {
    if Alike(s, t) || Same(Canon(s), Canon(t)) {
      forall i | 0 <= i < |s|
        ensures ClassOf(s[i]) == ClassOf(t[i])
      {
        if Alike(s, t) {
          if Fold(s[i]) == Fold(t[i]) {
            ClassIgnoresCase(s[i], t[i]);
          }
        } else {
          ClassIgnoresCase(Canon(s)[i], Canon(t)[i]);
          CanonKeepsClass(s, i);
          CanonKeepsClass(t, i);
        }
      }
      forall j | 0 <= j < |s|
        ensures Fold(Canon(s)[j]) == Fold(Canon(t)[j])
                <==> Fold(s[j]) == Fold(t[j]) || (ClassOf(s[j]) < 4 && NoneBefore(s[j..], ClassOf(s[j])))
      {
        CanonAtAlike(s, t, j);
      }
    }
  }

  /** The canonical form ignores case where ids do. */
  lemma CanonIgnoresCase(s: string, t: string)
    requires Same(s, t)
    ensures Same(Canon(s), Canon(t))
  {
    SameCanonIff(s, t);
  }

  /** Two ids that read alike but have different canonical forms, because the tables are not gone
      through from the start of the string: the second is not found to be taken. */
  lemma MissedExample()
    ensures Alike("AIO", "A1O") && !Same("AIO", "A1O") && !Taking("A1O", ["AIO"])
  {
    var s, t := "A1O", "AIO";
    assert s == ['A', '1', 'O'] && t == ['A', 'I', 'O'];
    assert Fold(s[1]) != Fold(t[1]);
    assert s[1..][1] == 'O' && ClassOf('O') == 0;
    SameCanonIff(s, t);
    TakingCons(s, t, []);
    assert [t] + [] == [t];
  }

  // ---------------------------------------------------------------------------
  // Order.

  /** The sign of strcasecmp. */
  function Compare(s: string, t: string): (r: int)
    ensures -1 <= r <= 1
  {
    if s == [] && t == [] then 0
    else if s == [] then -1
    else if t == [] then 1
    else if Fold(s[0]) < Fold(t[0]) then -1
    else if Fold(s[0]) > Fold(t[0]) then 1
    else Compare(s[1..], t[1..])
  }

  lemma {:induction false} CompareIsSame(s: string, t: string)
    ensures Compare(s, t) == 0 <==> Same(s, t)
  {
    if s != [] && t != [] && Fold(s[0]) == Fold(t[0]) {
      CompareIsSame(s[1..], t[1..]);
      assert Same(s[1..], t[1..]) ==> Same(s, t) by {
        if Same(s[1..], t[1..]) {
          forall j | 0 <= j < |s|
            ensures Fold(s[j]) == Fold(t[j])
          {
            if j > 0 {
              assert Fold(s[1..][j - 1]) == Fold(t[1..][j - 1]);
            }
          }
        }
      }
    }
  }

  lemma {:induction false} CompareIsAntisymmetric(s: string, t: string)
    ensures Compare(s, t) == -Compare(t, s)
  {
    if s != [] && t != [] && Fold(s[0]) == Fold(t[0]) {
      CompareIsAntisymmetric(s[1..], t[1..]);
    }
  }

  lemma {:induction false} CompareIsTransitive(s: string, t: string, u: string)
    requires Compare(s, t) <= 0 && Compare(t, u) <= 0
    ensures Compare(s, u) <= 0
    ensures Compare(s, u) == 0 ==> Compare(s, t) == 0 && Compare(t, u) == 0
  {
    if s != [] && t != [] && u != [] && Fold(s[0]) == Fold(t[0]) == Fold(u[0]) {
      CompareIsTransitive(s[1..], t[1..], u[1..]);
    }
  }

  ghost predicate Sorted(list: seq<string>) {
    forall i, j :: 0 <= i <= j < |list| ==> Compare(list[i], list[j]) <= 0
  }

  lemma CompareSelf(s: string)
    ensures Compare(s, s) == 0
  {
    CompareIsSame(s, s);
  }

  lemma ShortIsSorted(list: seq<string>)
    requires |list| <= 1
    ensures Sorted(list)
  {
    if list != [] {
      CompareSelf(list[0]);
    }
  }

  function Insert(x: string, list: seq<string>): (r: seq<string>)
    ensures multiset(r) == multiset(list) + multiset{x}
  {
    if list == [] then [x]
    else if Compare(x, list[0]) <= 0 then [x] + list
    else
      assert list == [list[0]] + list[1..];
      [list[0]] + Insert(x, list[1..])
  }

  function InsertAll(list: seq<string>): (r: seq<string>)
    ensures multiset(r) == multiset(list)
  {
    if list == [] then []
    else
      assert list == [list[0]] + list[1..];
      Insert(list[0], InsertAll(list[1..]))
  }

  /** qsort with strcasecmp, known by its contract: sorted, with the same members; the order of ids that
      are the same but for case is left open. */
  method Sort(list: seq<string>) returns (r: seq<string>)
    ensures Sorted(r) && multiset(r) == multiset(list)
  {
    InsertAllSorts(list);
    r := InsertAll(list);
  }

  lemma SortedCons(x: string, list: seq<string>)
    requires Sorted(list) && (list != [] ==> Compare(x, list[0]) <= 0)
    ensures Sorted([x] + list)
  {
    CompareSelf(x);
    forall i, j | 0 <= i <= j < |list| + 1
      ensures Compare(([x] + list)[i], ([x] + list)[j]) <= 0
    {
      if i == 0 && j > 0 {
        CompareIsTransitive(x, list[0], list[j - 1]);
      }
    }
  }

  lemma {:induction false} InsertSorts(x: string, list: seq<string>)
    requires Sorted(list)
    ensures Sorted(Insert(x, list))
    ensures list != [] && Compare(x, list[0]) > 0 ==> Insert(x, list)[0] == list[0]
  {
    if list == [] {
      CompareSelf(x);
    } else if Compare(x, list[0]) <= 0 {
      SortedCons(x, list);
    } else {
      var r := Insert(x, list[1..]);
      InsertSorts(x, list[1..]);
      CompareIsAntisymmetric(x, list[0]);
      SortedCons(list[0], r);
    }
  }

  lemma {:induction false} InsertAllSorts(list: seq<string>)
    ensures Sorted(InsertAll(list))
  {
    if list != [] {
      InsertAllSorts(list[1..]);
      InsertSorts(list[0], InsertAll(list[1..]));
    }
  }

  /** bsearch with strcasecmp: some equal entry, if there is one. */
  method Search(key: string, list: seq<string>) returns (found: bool, at: nat)
    requires Sorted(list)
    ensures found ==> at < |list| && Compare(key, list[at]) == 0
    ensures !found ==> forall i :: 0 <= i < |list| ==> Compare(key, list[i]) != 0
  {
    var lo, hi := 0, |list|;
    while lo < hi
      invariant lo <= hi <= |list|
      invariant forall i :: 0 <= i < lo ==> Compare(key, list[i]) > 0
      invariant forall i :: hi <= i < |list| ==> Compare(key, list[i]) < 0
    {
      var mid := (lo + hi) / 2;
      var c := Compare(key, list[mid]);
      if c == 0 {
        return true, mid;
      }
      forall i | 0 <= i < |list|
        ensures c < 0 && i >= mid ==> Compare(key, list[i]) < 0
        ensures c > 0 && i <= mid ==> Compare(key, list[i]) > 0
      {
        StaysBeyond(key, list, mid, i);
      }
      if c < 0 {
        hi := mid;
      } else {
        lo := mid + 1;
      }
    }
    return false, 0;
  }

  lemma StaysBeyond(key: string, list: seq<string>, mid: nat, i: nat)
    requires Sorted(list) && mid < |list| && i < |list|
    ensures Compare(key, list[mid]) < 0 && i >= mid ==> Compare(key, list[i]) < 0
    ensures Compare(key, list[mid]) > 0 && i <= mid ==> Compare(key, list[i]) > 0
  {
    if Compare(key, list[mid]) < 0 && i >= mid {
      CompareIsTransitive(key, list[mid], list[i]);
    }
    if Compare(key, list[mid]) > 0 && i <= mid {
      CompareIsAntisymmetric(key, list[mid]);
      CompareIsAntisymmetric(key, list[i]);
      CompareIsTransitive(list[i], list[mid], key);
    }
  }

  // ---------------------------------------------------------------------------
  // How often an id occurs.

  function Count(key: string, list: seq<string>): (n: nat)
    ensures n <= |list|
  {
    if list == [] then 0 else (if Same(key, list[0]) then 1 else 0) + Count(key, list[1..])
  }

  lemma {:induction false} CountAppends(key: string, a: seq<string>, b: seq<string>)
    ensures Count(key, a + b) == Count(key, a) + Count(key, b)
  {
    if a == [] {
      assert a + b == b;
    } else {
      assert (a + b)[1..] == a[1..] + b;
      CountAppends(key, a[1..], b);
    }
  }

  lemma {:induction false} CountIsZero(key: string, list: seq<string>)
    ensures Count(key, list) == 0 <==> forall i :: 0 <= i < |list| ==> !Same(key, list[i])
  {
    if list != [] {
      CountIsZero(key, list[1..]);
      forall i | 1 <= i < |list|
        ensures Same(key, list[i]) == Same(key, list[1..][i - 1])
      {
      }
      assert Same(key, list[0]) ==> !(forall i :: 0 <= i < |list| ==> !Same(key, list[i]));
    }
  }

  /** Two arrangements of the same members differ by where the first one of a stands in b. */
  lemma TakeOut<T>(a: seq<T>, b: seq<T>) returns (i: nat)
    requires a != [] && multiset(a) == multiset(b)
    ensures i < |b| && b[i] == a[0] && b == b[..i] + ([a[0]] + b[i + 1..])
    ensures multiset(a[1..]) == multiset(b[..i] + b[i + 1..])
  {
    assert a[0] in multiset(b);
    i :| 0 <= i < |b| && b[i] == a[0];
    TakenOut(b, i);
    TakenOut(a, 0);
    assert a[..0] + a[1..] == a[1..];
  }

  lemma TakenOut<T>(s: seq<T>, i: nat)
    requires i < |s|
    ensures s == s[..i] + ([s[i]] + s[i + 1..]) && multiset(s[..i] + s[i + 1..]) == multiset(s) - multiset{s[i]}
  {
    assert s == s[..i] + ([s[i]] + s[i + 1..]);
    Without(s[..i], s[i], s[i + 1..]);
  }

  lemma Without<T>(p: seq<T>, x: T, q: seq<T>)
    ensures multiset(p + q) == multiset(p + ([x] + q)) - multiset{x}
  {
    assert multiset(p + ([x] + q)) == multiset(p) + (multiset{x} + multiset(q));
    assert multiset(p + q) == multiset(p) + multiset(q);
  }

  /** How often an id occurs does not depend on the order of the list. */
  lemma {:induction false} CountIgnoresOrder(key: string, a: seq<string>, b: seq<string>)
    requires multiset(a) == multiset(b)
    ensures Count(key, a) == Count(key, b)
    decreases |a|
  {
    if a == [] {
      assert |b| == |multiset(b)| == 0;
    } else {
      var i := TakeOut(a, b);
      CountIgnoresOrder(key, a[1..], b[..i] + b[i + 1..]);
      CountAppends(key, b[..i], b[i + 1..]);
      CountAppends(key, b[..i], [a[0]] + b[i + 1..]);
      assert ([a[0]] + b[i + 1..])[1..] == b[i + 1..];
    }
  }

  /** The probe: in a sorted list equal entries are neighbours, so that an entry found is the only one
      exactly if it differs from both of its neighbours. */
  lemma NeighboursDecide(key: string, list: seq<string>, at: nat)
    requires Sorted(list) && at < |list| && Same(key, list[at])
    ensures Count(key, list) >= 2
            <==> (at > 0 && Same(list[at - 1], key)) || (at + 1 < |list| && Same(list[at + 1], key))
  {
    CountAround(key, list, at);
    PriorDecides(key, list, at);
    NextDecides(key, list, at);
  }

  lemma CountAround(key: string, list: seq<string>, at: nat)
    requires at < |list| && Same(key, list[at])
    ensures Count(key, list) == Count(key, list[..at]) + 1 + Count(key, list[at + 1..])
  {
    var rest := [list[at]] + list[at + 1..];
    assert list == list[..at] + rest && rest[1..] == list[at + 1..];
    CountAppends(key, list[..at], rest);
  }

  lemma PriorDecides(key: string, list: seq<string>, at: nat)
    requires Sorted(list) && at < |list| && Same(key, list[at])
    ensures Count(key, list[..at]) > 0 <==> at > 0 && Same(list[at - 1], key)
  {
    var before := list[..at];
    CountIsZero(key, before);
    forall i | 0 <= i < at
      ensures Same(key, before[i]) ==> Same(list[at - 1], key)
    {
      EqualBetween(key, list, i, at - 1, at);
    }
    if at > 0 && Same(list[at - 1], key) {
      assert Same(key, before[at - 1]);
    }
  }

  lemma NextDecides(key: string, list: seq<string>, at: nat)
    requires Sorted(list) && at < |list| && Same(key, list[at])
    ensures Count(key, list[at + 1..]) > 0 <==> at + 1 < |list| && Same(list[at + 1], key)
  {
    var after := list[at + 1..];
    CountIsZero(key, after);
    forall i | 0 <= i < |after|
      ensures Same(key, after[i]) ==> Same(list[at + 1], key)
    {
      EqualBetween(key, list, at, at + 1, at + 1 + i);
    }
    if at + 1 < |list| && Same(list[at + 1], key) {
      assert Same(key, after[0]);
    }
  }

  lemma EqualBetween(key: string, list: seq<string>, i: nat, m: nat, j: nat)
    requires Sorted(list) && i <= m <= j < |list|
    ensures Same(key, list[i]) && Same(key, list[j]) ==> Same(list[m], key)
  {
    if Same(key, list[i]) && Same(key, list[j]) {
      CompareIsSame(list[i], list[j]);
      CompareIsTransitive(list[i], list[m], list[j]);
      CompareIsSame(list[i], list[m]);
    }
  }

  // ---------------------------------------------------------------------------
  // The question and its answer.

  /** strlcpy into a buffer for one id. */
  function Trunc(u: string): (r: string)
    ensures |r| <= IDLEN
  {
    if |u| <= IDLEN then u else u[..IDLEN]
  }

  lemma TruncIs(u: string)
    ensures |u| <= 12 ==> Trunc(u) == u
    ensures |u| > 12 ==> |Trunc(u)| == 12 && forall j :: 0 <= j < 12 ==> Trunc(u)[j] == u[j]
  {
  }

  predicate HasAmbiguous(s: string) {
    !NoneBefore(s, 4)
  }

  function Canons(list: seq<string>): (r: seq<string>)
    ensures |r| == |list|
  {
    seq(|list|, i requires 0 <= i < |list| => Canon(list[i]))
  }

  /** The ids reload takes from the user table: those with an ambiguous letter, up to the last slot but
      one. */
  function Taken(users: seq<string>, n: nat): (r: seq<string>)
    requires n <= |users|
  {
    if n == 0 then []
    else Taken(users, n - 1) + (if HasAmbiguous(users[n - 1]) then [users[n - 1]] else [])
  }

  function Snapshot(users: seq<string>): seq<string>
    requires users != []
  {
    Taken(users, |users| - 1)
  }

  /** Some other id of the list has the canonical form of u. */
  predicate Taking(u: string, list: seq<string>) {
    exists i :: 0 <= i < |list| && !Same(u, list[i]) && Same(Canon(Trunc(u)), Canon(list[i]))
  }

  /** The same by counting. */
  function Others(u: string, list: seq<string>): nat {
    if list == [] then 0
    else (if !Same(u, list[0]) && Same(Canon(Trunc(u)), Canon(list[0])) then 1 else 0) + Others(u, list[1..])
  }

  lemma {:induction false} OthersIsTaking(u: string, list: seq<string>)
    ensures Others(u, list) > 0 <==> Taking(u, list)
  {
    if list != [] {
      OthersIsTaking(u, list[1..]);
      TakingCons(u, list[0], list[1..]);
      assert [list[0]] + list[1..] == list;
    }
  }

  lemma TakingCons(u: string, x: string, list: seq<string>)
    ensures Taking(u, [x] + list) <==> Taking(u, list) || (!Same(u, x) && Same(Canon(Trunc(u)), Canon(x)))
  {
    var s := [x] + list;
    if Taking(u, list) {
      var i :| 0 <= i < |list| && !Same(u, list[i]) && Same(Canon(Trunc(u)), Canon(list[i]));
      assert s[i + 1] == list[i];
    }
    if !Same(u, x) && Same(Canon(Trunc(u)), Canon(x)) {
      assert s[0] == x;
    }
    if Taking(u, s) {
      var i :| 0 <= i < |s| && !Same(u, s[i]) && Same(Canon(Trunc(u)), Canon(s[i]));
      assert i > 0 ==> s[i] == list[i - 1];
    }
  }

  predicate Short(list: seq<string>) {
    forall i :: 0 <= i < |list| ==> |list[i]| <= IDLEN
  }

  /** The entries with the canonical form of u are those of u itself and those of others. */
  lemma {:induction false} CanonsCount(u: string, list: seq<string>)
    requires Short(list)
    ensures Count(Canon(Trunc(u)), Canons(list)) == Count(u, list) + Others(u, list)
  {
    if list != [] {
      CanonsCount(u, list[1..]);
      assert Canons(list)[1..] == Canons(list[1..]);
      if Same(u, list[0]) {
        CanonIgnoresCase(u, list[0]);
      }
    }
  }

  /** What the probing of both lists says, against the plain statement. */
  lemma ProbeIs(u: string, list: seq<string>)
    requires Short(list)
    ensures var n := Count(Canon(Trunc(u)), Canons(list));
            n > 0 && (Count(u, list) == 0 || n >= 2) <==> Taking(u, list) || Count(u, list) >= 2
  {
    CanonsCount(u, list);
    OthersIsTaking(u, list);
  }

  /** Without an ambiguous letter no other id can be taken for it, truncated or not. */
  lemma PlainIdIsSafe(u: string, list: seq<string>)
    requires !HasAmbiguous(u) && forall i :: 0 <= i < |list| ==> HasAmbiguous(list[i])
    ensures !Taking(u, list) && Count(u, list) == 0
  {
    forall i | 0 <= i < |list|
      ensures !Same(u, list[i]) && !Same(Canon(Trunc(u)), Canon(list[i]))
    {
      var x := list[i];
      var j :| 0 <= j < |x| && ClassOf(x[j]) < 4;
      CanonKeepsClass(x, j);
      if Same(u, x) {
        ClassIgnoresCase(u[j], x[j]);
      }
      if Same(Canon(Trunc(u)), Canon(x)) {
        CanonKeepsClass(Trunc(u), j);
        ClassIgnoresCase(Canon(Trunc(u))[j], Canon(x)[j]);
      }
    }
    CountIsZero(u, list);
  }

  predicate Distinct(list: seq<string>) {
    forall i, j :: 0 <= i < j < |list| ==> !Same(list[i], list[j])
  }

  lemma {:induction false} DistinctCounts(u: string, list: seq<string>)
    requires Distinct(list)
    ensures Count(u, list) <= 1
  {
    if list != [] {
      DistinctCounts(u, list[1..]);
      if Same(u, list[0]) {
        CountIsZero(u, list[1..]);
        forall i | 0 <= i < |list[1..]|
          ensures !Same(u, list[1..][i])
        {
          assert !Same(list[0], list[i + 1]);
        }
      }
    }
  }

  // ---------------------------------------------------------------------------
  // The lists and their use.

  predicate IsId(s: string) {
    forall i :: 0 <= i < |s| ==> s[i] != NUL
  }

  /** A user table: ids are strings in buffers of fixed size. */
  ghost predicate UserTable(users: seq<string>) {
    users != [] && Short(users) && forall i :: 0 <= i < |users| ==> IsId(users[i])
  }

  lemma {:induction false} TakenIs(users: seq<string>, n: nat)
    requires n <= |users| && Short(users)
    ensures Short(Taken(users, n)) && forall x :: x in Taken(users, n) ==> HasAmbiguous(x)
  {
    if n > 0 {
      TakenIs(users, n - 1);
    }
  }

  lemma AmbiguousIff(s: string)
    ensures HasAmbiguous(s) <==> exists j :: 0 <= j < |s| && s[j] in "0Oo1IliL5Ss2Zz"
  {
    forall j | 0 <= j < |s|
      ensures s[j] in "0Oo1IliL5Ss2Zz" <==> ClassOf(s[j]) < 4
    {
      CharsAreClasses(s[j]);
    }
  }

  lemma {:induction false} TakenCounts(users: seq<string>, n: nat, x: string)
    requires n <= |users|
    ensures multiset(Taken(users, n))[x] == if HasAmbiguous(x) then multiset(users[..n])[x] else 0
  {
    if n > 0 {
      var before, y := users[..n - 1], users[n - 1];
      TakenCounts(users, n - 1, x);
      assert users[..n] == before + [y];
      CountFiltered(Taken(users, n - 1), before, y, x, HasAmbiguous(y), HasAmbiguous(x));
    }
  }

  lemma CountFiltered<T>(kept: seq<T>, all: seq<T>, y: T, x: T, keepY: bool, keepX: bool)
    requires multiset(kept)[x] == (if keepX then multiset(all)[x] else 0) && (x == y ==> keepX == keepY)
    ensures multiset(kept + (if keepY then [y] else []))[x] == if keepX then multiset(all + [y])[x] else 0
  {
    CountLast(all, y, x);
    CountLast(kept, y, x);
    assert kept + [] == kept;
  }

  lemma CountLast<T>(s: seq<T>, y: T, x: T)
    ensures multiset(s + [y])[x] == multiset(s)[x] + if x == y then 1 else 0
  {
  }

  /** The ids are those of the table with an ambiguous letter, each as often as it occurs there, but for
      the last slot. */
  ghost predicate ListsTable(ids: seq<string>, users: seq<string>)
    requires users != []
  {
    forall x: string ::
      multiset(ids)[x]
      == if exists j :: 0 <= j < |x| && x[j] in "0Oo1IliL5Ss2Zz" then multiset(users[..|users| - 1])[x] else 0
  }

  lemma SnapshotListsTable(users: seq<string>)
    requires users != []
    ensures ListsTable(Snapshot(users), users)
  {
    forall x: string
      ensures multiset(Snapshot(users))[x]
           == if exists j :: 0 <= j < |x| && x[j] in "0Oo1IliL5Ss2Zz" then multiset(users[..|users| - 1])[x] else 0
    {
      AmbiguousIff(x);
      TakenCounts(users, |users| - 1, x);
    }
  }

  lemma SnapshotHas(users: seq<string>, x: string)
    requires users != []
    ensures x in Snapshot(users) <==> HasAmbiguous(x) && x in users[..|users| - 1]
  {
    TakenCounts(users, |users| - 1, x);
    assert x in Snapshot(users) <==> x in multiset(Snapshot(users));
    assert x in users[..|users| - 1] <==> x in multiset(users[..|users| - 1]);
  }

  /** Some other id of the table, but for its last slot, has the canonical form of u. */
  predicate TakenInTable(u: string, users: seq<string>)
    requires users != []
  {
    exists i :: 0 <= i < |users| - 1 && !Same(u, users[i]) && Same(Canon(Trunc(u)), Canon(users[i]))
  }

  lemma TakingIsInTable(u: string, users: seq<string>)
    requires users != []
    ensures Taking(u, Snapshot(users)) <==> HasAmbiguous(Trunc(u)) && TakenInTable(u, users)
  {
    var ids := Snapshot(users);
    if Taking(u, ids) {
      var k :| 0 <= k < |ids| && !Same(u, ids[k]) && Same(Canon(Trunc(u)), Canon(ids[k]));
      SnapshotHas(users, ids[k]);
      CanonTells(Trunc(u), ids[k]);
      var i :| 0 <= i < |users| - 1 && users[..|users| - 1][i] == ids[k];
      assert users[i] == ids[k];
    }
    if HasAmbiguous(Trunc(u)) && TakenInTable(u, users) {
      var i :| 0 <= i < |users| - 1 && !Same(u, users[i]) && Same(Canon(Trunc(u)), Canon(users[i]));
      CanonTells(Trunc(u), users[i]);
      assert users[..|users| - 1][i] == users[i];
      SnapshotHas(users, users[i]);
      var k :| 0 <= k < |ids| && ids[k] == users[i];
    }
  }

  /** Ids with one canonical form have ambiguous letters in the same places. */
  lemma CanonTells(s: string, t: string)
    requires Same(Canon(s), Canon(t))
    ensures HasAmbiguous(s) <==> HasAmbiguous(t)
  {
    forall j | 0 <= j < |s|
      ensures ClassOf(s[j]) == ClassOf(t[j])
    {
      CanonKeepsClass(s, j);
      CanonKeepsClass(t, j);
      ClassIgnoresCase(Canon(s)[j], Canon(t)[j]);
    }
    ClassesAgree(s, t, 4);
  }

  /** No id is in the table twice, case aside; free slots have none. */
  ghost predicate DistinctIds(users: seq<string>) {
    forall i, j :: 0 <= i < j < |users| && users[i] != "" ==> !Same(users[i], users[j])
  }

  lemma {:induction false} TakenDistinct(users: seq<string>, n: nat)
    requires n <= |users| && DistinctIds(users)
    ensures Distinct(Taken(users, n))
    ensures forall x :: x in Taken(users, n) ==> exists i :: 0 <= i < n && users[i] == x && x != ""
  {
    if n > 0 {
      TakenDistinct(users, n - 1);
      var before, x := Taken(users, n - 1), users[n - 1];
      forall k | 0 <= k < |before|
        ensures !Same(before[k], x)
      {
        assert before[k] in before;
        var i :| 0 <= i < n - 1 && users[i] == before[k] && before[k] != "";
        assert !Same(users[i], users[n - 1]);
      }
      forall y | y in Taken(users, n)
        ensures exists i :: 0 <= i < n && users[i] == y && y != ""
      {
        if y in before {
          var i :| 0 <= i < n - 1 && users[i] == y && y != "";
          assert 0 <= i < n && users[i] == y;
        } else {
          assert users[n - 1] == y;
        }
      }
    }
  }

  lemma FindInTable(u: string, users: seq<string>)
    requires users != []
    ensures Taking(u, Snapshot(users)) <==> HasAmbiguous(Trunc(u)) && TakenInTable(u, users)
    ensures |u| <= 12 && TakenInTable(u, users) ==> HasAmbiguous(Trunc(u))
    ensures HasAmbiguous(Trunc(u)) ==> HasAmbiguous(u)
    ensures DistinctIds(users[..|users| - 1]) ==> Distinct(Snapshot(users))
  {
    TakingIsInTable(u, users);
    if |u| <= 12 && TakenInTable(u, users) {
      ShortIsInTable(u, users);
    }
    if HasAmbiguous(Trunc(u)) {
      var j :| 0 <= j < |Trunc(u)| && ClassOf(Trunc(u)[j]) < 4;
      assert u[j] == Trunc(u)[j];
    }
    if DistinctIds(users[..|users| - 1]) {
      TakenDistinct(users[..|users| - 1], |users| - 1);
      TakenOfPrefix(users, |users| - 1, |users| - 1);
    }
  }

  lemma {:induction false} TakenOfPrefix(users: seq<string>, n: nat, m: nat)
    requires m <= n <= |users|
    ensures Taken(users[..n], m) == Taken(users, m)
  {
    if m > 0 {
      TakenOfPrefix(users, n, m - 1);
    }
  }

  /** An id short enough to be one: the letter may be left out of the condition. */
  lemma ShortIsInTable(u: string, users: seq<string>)
    requires users != [] && |u| <= 12 && TakenInTable(u, users)
    ensures HasAmbiguous(Trunc(u))
  {
    var i :| 0 <= i < |users| - 1 && !Same(u, users[i]) && Same(Canon(Trunc(u)), Canon(users[i]));
    CanonTells(u, users[i]);
    PlainCanon(u);
    PlainCanon(users[i]);
  }

  lemma PlainCanon(s: string)
    ensures !HasAmbiguous(s) ==> Canon(s) == s
  {
  }

  lemma SnapshotIs(users: seq<string>)
    requires UserTable(users)
    ensures var ids := Snapshot(users);
            Short(ids) && forall i :: 0 <= i < |ids| ==> HasAmbiguous(ids[i])
  {
    TakenIs(users, |users| - 1);
  }

  lemma CanonsNext(list: seq<string>, x: string)
    ensures Canons(list + [x]) == Canons(list) + [Canon(x)]
  {
  }

  /** strlcpy into a fresh buffer, then build_unambiguous_userid. */
  method CanonOf(u: string) returns (r: string)
    requires IsId(u)
    ensures r == Canon(Trunc(u))
  {
    var w := Trunc(u);
    var uid := new char[IDLEN + 1](_ => NUL);
    for i := 0 to |w|
      invariant forall j :: 0 <= j < i ==> uid[j] == w[j]
      invariant forall j :: i <= j <= IDLEN ==> uid[j] == NUL
    {
      uid[i] := w[i];
    }
    assert uid[..|w|] == w;
    BuildUnambiguous(uid, |w|);
    r := uid[..|w|];
  }

  /** uid[strcspn(uid, ambchars)] is not the end. */
  method FindAmbiguous(u: string) returns (yes: bool)
    ensures yes <==> HasAmbiguous(u)
  {
    forall c: char
      ensures c in AMBCHARS <==> ClassOf(c) < 4
    {
      CharsAreClasses(c);
    }
    var pos := 0;
    while pos < |u| && u[pos] !in AMBCHARS
      invariant pos <= |u| && forall i :: 0 <= i < pos ==> u[i] !in AMBCHARS
    {
      pos := pos + 1;
    }
    yes := pos < |u|;
  }

  /** What the lists were last built from, and when. */
  datatype Cache = Cache(time: int, ids: seq<string>)

  ghost function Refresh(c: Cache, now: int, users: seq<string>): Cache
    requires users != []
  {
    if now < c.time + LIFETIME then c else Cache(now, Snapshot(users))
  }

  /** A query, with the clock and the user table as they are then. */
  datatype Query = Query(u: string, now: int, users: seq<string>)

  ghost predicate Sensible(q: Query) {
    q.u != [] && IsId(q.u) && UserTable(q.users)
  }

  ghost function Ask(c: Cache, q: Query): Cache
    requires Sensible(q)
  {
    if HasAmbiguous(q.u) then Refresh(c, q.now, q.users) else c
  }

  ghost function AskAll(c: Cache, qs: seq<Query>): Cache
    requires forall i :: 0 <= i < |qs| ==> Sensible(qs[i])
  {
    if qs == [] then c else Ask(AskAll(c, qs[..|qs| - 1]), qs[|qs| - 1])
  }

  /** The lists c serve a query at time now: they are not older than the lifetime. */
  predicate Current(c: Cache, now: int) {
    now < c.time + 3600
  }

  /** What a query is answered from, after any run: the initial lists, or the user table as it was at
      one of the queries of the run; and if the id asked for has an ambiguous letter, at a query less
      than the lifetime ago. */
  lemma {:induction false} AnswersComeFromAQuery(c: Cache, qs: seq<Query>)
    requires forall i :: 0 <= i < |qs| ==> Sensible(qs[i])
    ensures var d := AskAll(c, qs);
            && (d == c || exists j :: 0 <= j < |qs| && d == Cache(qs[j].now, Snapshot(qs[j].users)))
            && (qs != [] && HasAmbiguous(qs[|qs| - 1].u) ==> Current(d, qs[|qs| - 1].now))
  {
    if qs != [] {
      var before, last := qs[..|qs| - 1], qs[|qs| - 1];
      AnswersComeFromAQuery(c, before);
      var d := AskAll(c, before);
      if AskAll(c, qs) == d && d != c {
        var j :| 0 <= j < |before| && d == Cache(before[j].now, Snapshot(before[j].users));
        assert qs[j] == before[j];
      } else if AskAll(c, qs) != d {
        assert AskAll(c, qs) == Cache(last.now, Snapshot(last.users));
      }
    }
  }

  class Index {
    var unamb: seq<string>
    var orig: seq<string>
    var time: int
    ghost var ids: seq<string>

    ghost predicate Valid()
      reads this
    {
      && Sorted(unamb) && multiset(unamb) == multiset(Canons(ids))
      && Sorted(orig) && multiset(orig) == multiset(ids)
      && Short(ids) && forall i :: 0 <= i < |ids| ==> HasAmbiguous(ids[i])
    }

    ghost function Abs(): Cache
      reads this
    {
      Cache(time, ids)
    }

    constructor ()
      ensures Valid() && Abs() == Cache(0, [])
    {
      unamb, orig, time, ids := [], [], 0, [];
    }

    /** One slot of the user table. */
    method AddUser(uid: string)
      requires IsId(uid) && |uid| <= IDLEN && unamb == Canons(orig)
      modifies this`orig, this`unamb
      ensures orig == old(orig) + (if HasAmbiguous(uid) then [uid] else []) && unamb == Canons(orig)
    {
      var ambiguous := FindAmbiguous(uid);
      if ambiguous {
        var xuid := CanonOf(uid);
        CanonsNext(orig, uid);
        orig := orig + [uid];
        unamb := unamb + [xuid];
      }
    }

    /** reload_unambiguous_user_list. */
    method Reload(now: int, users: seq<string>)
      requires Valid() && UserTable(users)
      modifies this
      ensures Valid() && Abs() == Refresh(old(Abs()), now, users)
      ensures now >= old(time) + 3600 ==> ListsTable(ids, users)
      ensures now < old(time) + 3600 ==> ids == old(ids)
    {
      if now < time + LIFETIME {
        return;
      }
      Rebuild(now, users);
      SnapshotListsTable(users);
    }

    method Rebuild(now: int, users: seq<string>)
      requires UserTable(users)
      modifies this
      ensures Valid() && Abs() == Cache(now, Snapshot(users))
    {
      time := now;
      Gather(users);
      ids := orig;
      SnapshotIs(users);
      SortBoth();
    }

    /** The loop over all slots but the last. */
    method Gather(users: seq<string>)
      requires UserTable(users)
      modifies this`orig, this`unamb
      ensures orig == Snapshot(users) && unamb == Canons(orig)
    {
      unamb, orig := [], [];
      for i := 0 to |users| - 1
        invariant orig == Taken(users, i) && unamb == Canons(orig)
      {
        AddUser(users[i]);
      }
    }

    /** Lists of one id or none are sorted already. */
    method SortBoth()
      requires |unamb| == |orig|
      modifies this`unamb, this`orig
      ensures Sorted(unamb) && multiset(unamb) == multiset(old(unamb))
      ensures Sorted(orig) && multiset(orig) == multiset(old(orig))
    {
      if |unamb| > 1 {
        unamb := Sort(unamb);
        orig := Sort(orig);
      } else {
        ShortIsSorted(unamb);
        ShortIsSorted(orig);
      }
    }

    /** find_ambiguous_userid2.  It is 1 exactly if some other listed id has the canonical form of u, or
        u itself is listed twice. */
    method Find(u: string, now: int, users: seq<string>) returns (taken: bool)
      requires Valid() && u != [] && IsId(u) && UserTable(users)
      modifies this
      ensures Valid()
      ensures Abs() == if HasAmbiguous(u) then Refresh(old(Abs()), now, users) else old(Abs())
      ensures taken <==> Taking(u, ids) || Count(u, ids) >= 2
      ensures Distinct(ids) ==> (taken <==> Taking(u, ids))
      ensures now >= old(time) + 3600 && DistinctIds(users[..|users| - 1]) ==>
                (taken <==> HasAmbiguous(Trunc(u)) && TakenInTable(u, users))
      ensures now >= old(time) + 3600 && DistinctIds(users[..|users| - 1]) && |u| <= 12 ==>
                (taken <==> exists i :: 0 <= i < |users| - 1 && !Same(u, users[i]) && Same(Canon(u), Canon(users[i])))
    {
      FindInTable(u, users);
      var ambiguous := FindAmbiguous(u);
      if !ambiguous {
        PlainIdIsSafe(u, ids);
        return false;
      }
      Reload(now, users);
      if Distinct(ids) {
        DistinctCounts(u, ids);
      }
      taken := Probe(u);
    }

    /** The look into both lists. */
    method Probe(u: string) returns (taken: bool)
      requires Valid() && IsId(u)
      ensures taken <==> Taking(u, ids) || Count(u, ids) >= 2
    {
      var key := CanonOf(u);
      ProbeIs(u, ids);
      CountIgnoresOrder(key, unamb, Canons(ids));
      CountIgnoresOrder(u, orig, ids);
      var found, at := Search(key, unamb);
      SearchCounts(key, unamb, found, at);
      if !found {
        return false;
      }
      var listed, _ := Search(u, orig);
      SearchCounts(u, orig, listed, 0);
      if !listed {
        return true;
      }
      NeighboursDecide(key, unamb, at);
      if at > 0 {
        CompareIsSame(unamb[at - 1], key);
        if Compare(unamb[at - 1], key) == 0 {
          return true;
        }
      }
      if at + 1 < |unamb| {
        CompareIsSame(unamb[at + 1], key);
        if Compare(unamb[at + 1], key) == 0 {
          return true;
        }
      }
      return false;
    }
  }

  /** The answers to a run, from lists built as c says. */
  ghost function AnswersTo(c: Cache, qs: seq<Query>): (r: seq<bool>)
    requires forall i :: 0 <= i < |qs| ==> Sensible(qs[i])
    ensures |r| == |qs|
  {
    if qs == [] then []
    else
      var u, ids := qs[|qs| - 1].u, AskAll(c, qs).ids;
      AnswersTo(c, qs[..|qs| - 1]) + [Taking(u, ids) || Count(u, ids) >= 2]
  }

  method ServeOne(index: Index, qs: seq<Query>, answers: seq<bool>) returns (r: seq<bool>)
    requires qs != [] && forall i :: 0 <= i < |qs| ==> Sensible(qs[i])
    requires index.Valid() && index.Abs() == AskAll(Cache(0, []), qs[..|qs| - 1])
    requires answers == AnswersTo(Cache(0, []), qs[..|qs| - 1])
    modifies index
    ensures index.Valid() && index.Abs() == AskAll(Cache(0, []), qs) && r == AnswersTo(Cache(0, []), qs)
  {
    var q := qs[|qs| - 1];
    var answer := index.Find(q.u, q.now, q.users);
    r := answers + [answer];
  }

  /** Any run of queries on a new index. */
  method Serve(qs: seq<Query>) returns (answers: seq<bool>)
    requires forall i :: 0 <= i < |qs| ==> Sensible(qs[i])
    ensures answers == AnswersTo(Cache(0, []), qs)
  {
    var index := new Index();
    answers := [];
    assert qs[..|qs|] == qs;
    for i := 0 to |qs|
      invariant index.Valid() && fresh(index)
      invariant index.Abs() == AskAll(Cache(0, []), qs[..i]) && answers == AnswersTo(Cache(0, []), qs[..i])
    {
      assert qs[..i + 1][..i] == qs[..i];
      answers := ServeOne(index, qs[..i + 1], answers);
    }
  }

  lemma SearchCounts(key: string, list: seq<string>, found: bool, at: nat)
    requires found ==> exists i :: 0 <= i < |list| && Compare(key, list[i]) == 0
    requires !found ==> forall i :: 0 <= i < |list| ==> Compare(key, list[i]) != 0
    ensures found <==> Count(key, list) > 0
    ensures found && at < |list| && Compare(key, list[at]) == 0 ==> Same(key, list[at])
  {
    CountIsZero(key, list);
    forall i | 0 <= i < |list|
      ensures Compare(key, list[i]) == 0 <==> Same(key, list[i])
    {
      CompareIsSame(key, list[i]);
    }
  }
}
