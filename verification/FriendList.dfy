/** The friend list sent to a session: genfriendlist and reverse_friend_stat in
    daemon/utmpd/friend.cpp, with the flag values of include/common.h. */
module FriendList {
  import opened Basics
  import opened Relations
  import opened Friends

  const IRH: bv8 := 1  // I reject him
  const HRM: bv8 := 2  // he rejects me
  const IFH: bv8 := 8  // I friend him
  const HFM: bv8 := 16 // he friends me

  function Flag(on: bool, f: bv8): bv8 {
    if on then f else 0
  }

  /** How u stands to v, read off the declared lists only. */
  function Stat(s: Board, u: int, v: int): bv8
    requires |s.sessions| == |s.likes| == |s.hates| && 0 <= u < |s.sessions| && 0 <= v < |s.sessions|
  {
    Flag(v in s.likes[u], IFH) | Flag(v in s.hates[u], IRH) | Flag(u in s.likes[v], HFM) | Flag(u in s.hates[v], HRM)
  }

  /** reverse_friend_stat. */
  function Reverse(stat: bv8): bv8 {
    Flag(stat & IFH != 0, HFM) | Flag(stat & IRH != 0, HRM) | Flag(stat & HFM != 0, IFH) | Flag(stat & HRM != 0, IRH)
  }

  /** What u sees of v is what v sees of u, reversed. */
  lemma StatReverses(s: Board, u: int, v: int)
    requires s.Sized() && 0 <= u < |s.sessions| && 0 <= v < |s.sessions|
    ensures Stat(s, u, v) == Reverse(Stat(s, v, u))
    ensures Stat(s, u, v) != 0 <==> Stat(s, v, u) != 0
  {
  }

  // One word of the reply: eight bits of relation above twenty-four bits of slot number.
  const SLOT_RANGE := 0x100_0000

  function Word(stat: bv8, idx: int): int {
    stat as int * SLOT_RANGE + idx
  }

  lemma WordSplits(stat: bv8, idx: int)
    requires 0 <= idx < SLOT_RANGE
    ensures Word(stat, idx) / SLOT_RANGE == stat as int && Word(stat, idx) % SLOT_RANGE == idx
  {
  }

  datatype Entry = Entry(index: int, uid: int, friendstat: int, rfriendstat: int)

  function EntryOf(stat: bv8, v: int, i: int, index: int): Entry {
    Entry(i, v, Word(stat, i), Word(Reverse(stat), index))
  }

  // ---------------------------------------------------------------------------
  // The list that ought to be sent: users in increasing order, each with his sessions.

  function SessionEntries(l: seq<int>, stat: bv8, v: int, index: int, j: nat): seq<Entry>
    requires j <= |l|
    decreases |l| - j
  {
    if j == |l| then []
    else (if l[j] == index then [] else [EntryOf(stat, v, l[j], index)]) + SessionEntries(l, stat, v, index, j + 1)
  }

  /** The entries of one user. */
  function MineOf(s: Board, u: int, index: int, v: nat): seq<Entry>
    requires |s.sessions| == |s.likes| == |s.hates| && 0 <= u < |s.sessions| && v < |s.sessions|
  {
    if Stat(s, u, v) != 0 then SessionEntries(s.sessions[v], Stat(s, u, v), v, index, 0) else []
  }

  function Mines(s: Board, u: int, index: int): int -> seq<Entry>
    requires |s.sessions| == |s.likes| == |s.hates| && 0 <= u < |s.sessions|
  {
    v => if 0 <= v < |s.sessions| then MineOf(s, u, index, v) else []
  }

  /** The entries of users v to n - 1, user by user. */
  function InTurn(mine: int -> seq<Entry>, v: nat, n: nat): seq<Entry>
    requires v <= n
    decreases n - v
  {
    if v == n then [] else mine(v) + InTurn(mine, v + 1, n)
  }

  function FullList(s: Board, u: int, index: int, v: nat): seq<Entry>
    requires |s.sessions| == |s.likes| == |s.hates| && 0 <= u < |s.sessions| && v <= |s.sessions|
  {
    InTurn(Mines(s, u, index), v, |s.sessions|)
  }

  lemma {:induction false} SessionEntriesAre(l: seq<int>, stat: bv8, v: int, index: int, j: nat)
    requires j <= |l| && NoRepeat(l)
    ensures forall e :: e in SessionEntries(l, stat, v, index, j) <==>
              e.index in l[j..] && e.index != index && e == EntryOf(stat, v, e.index, index)
    ensures forall m, n :: 0 <= m < n < |SessionEntries(l, stat, v, index, j)| ==>
              SessionEntries(l, stat, v, index, j)[m].index != SessionEntries(l, stat, v, index, j)[n].index
    decreases |l| - j
  {
    if j < |l| {
      SessionEntriesAre(l, stat, v, index, j + 1);
      assert l[j..] == [l[j]] + l[j + 1..];
      var rest := SessionEntries(l, stat, v, index, j + 1);
      if l[j] != index {
        assert SessionEntries(l, stat, v, index, j) == [EntryOf(stat, v, l[j], index)] + rest;
        forall n | 0 <= n < |rest|
          ensures rest[n].index != l[j]
        {
          assert rest[n] in rest;
        }
      }
    }
  }

  function Indices(fs: seq<Entry>): (r: seq<int>)
    ensures |r| == |fs| && forall k :: 0 <= k < |fs| ==> r[k] == fs[k].index
  {
    seq(|fs|, k requires 0 <= k < |fs| => fs[k].index)
  }

  function Without(s: seq<int>, x: int): seq<int> {
    if s == [] then [] else (if s[0] == x then [] else [s[0]]) + Without(s[1..], x)
  }

  lemma {:induction false} WithoutNone(s: seq<int>, x: int)
    requires x !in s
    ensures Without(s, x) == s
  {
    if s != [] {
      WithoutNone(s[1..], x);
      assert [s[0]] + s[1..] == s;
    }
  }

  lemma {:induction false} WithoutSplits(a: seq<int>, b: seq<int>, x: int)
    ensures Without(a + b, x) == Without(a, x) + Without(b, x)
  {
    if a == [] {
      assert a + b == b && [] + Without(b, x) == Without(b, x);
    } else {
      WithoutSplits(a[1..], b, x);
      assert (a + b)[1..] == a[1..] + b && (a + b)[0] == a[0];
      Regroup(if a[0] == x then [] else [a[0]], Without(a[1..], x), Without(b, x));
    }
  }

  lemma WithoutOne(a: seq<int>, x: int, b: seq<int>)
    requires x !in a && x !in b
    ensures Without(a + ([x] + b), x) == a + b
  {
    WithoutSplits(a, [x] + b, x);
    WithoutNone(a, x);
    WithoutNone(b, x);
    assert ([x] + b)[1..] == b && [] + b == b;
  }

  lemma {:induction false} SessionsWithout(l: seq<int>, stat: bv8, v: int, index: int, j: nat)
    requires j <= |l|
    ensures Indices(SessionEntries(l, stat, v, index, j)) == Without(l[j..], index)
    decreases |l| - j
  {
    if j < |l| {
      SessionsWithout(l, stat, v, index, j + 1);
      IndicesNext(l[j], EntryOf(stat, v, l[j], index), SessionEntries(l, stat, v, index, j + 1));
      assert l[j..][0] == l[j] && l[j..][1..] == l[j + 1..];
    }
  }

  lemma IndicesNext(x: int, e: Entry, rest: seq<Entry>)
    requires e.index == x
    ensures Indices([e] + rest) == [x] + Indices(rest) && Indices([] + rest) == [] + Indices(rest)
  {
    assert [] + rest == rest;
  }

  /** Within a user the sessions come in the order of his list, without the caller's own. */
  lemma SessionsInOrder(l: seq<int>, stat: bv8, v: int, index: int)
    ensures index !in l ==> Indices(SessionEntries(l, stat, v, index, 0)) == l
    ensures forall a, b :: l == a + ([index] + b) && index !in a && index !in b ==>
              Indices(SessionEntries(l, stat, v, index, 0)) == a + b
  {
    SessionsWithout(l, stat, v, index, 0);
    assert l[0..] == l;
    if index !in l {
      WithoutNone(l, index);
    }
    forall a, b | l == a + ([index] + b) && index !in a && index !in b
      ensures Without(l, index) == a + b
    {
      WithoutOne(a, index, b);
    }
  }

  /** Entry e belongs in the list of u: its slot is live, is not the caller's own, and its holder is related to u. */
  ghost predicate Belongs(s: Board, u: int, index: int, e: Entry)
    requires s.Sized() && 0 <= u < |s.sessions|
  {
    && 0 <= e.index < |s.slots| && s.slots[e.index] != FREE && e.index != index
    && var v := s.slots[e.index];
       0 <= v < |s.sessions| && Stat(s, u, v) != 0 && e == EntryOf(Stat(s, u, v), v, e.index, index)
  }

  /** The list holds exactly the entries that belong, no slot twice, in order of uid. */
  lemma FullListIsExact(s: Board, u: int, index: int, v: nat)
    requires s.Consistent() && 0 <= u < |s.sessions| && v <= |s.sessions|
    ensures forall e :: e in FullList(s, u, index, v) <==> Belongs(s, u, index, e) && e.uid >= v
    ensures Ordered(FullList(s, u, index, v))
  {
    var ok, n := BelongsIn(s, u, index), |s.sessions|;
    MinesAreExact(s, u, index);
    SlotsTell(s, u, index);
    InTurnIsExact(ok, Mines(s, u, index), v, n);
    BelongsBelow(s, u, index, FullList(s, u, index, v), v);
  }

  ghost function BelongsIn(s: Board, u: int, index: int): Entry -> bool
    requires s.Sized() && 0 <= u < |s.sessions|
  {
    e => Belongs(s, u, index, e)
  }

  lemma BelongsBelow(s: Board, u: int, index: int, fs: seq<Entry>, v: nat)
    requires s.Sized() && 0 <= u < |s.sessions| && ListOf(BelongsIn(s, u, index), fs, v, |s.sessions|)
    ensures forall e :: e in fs <==> Belongs(s, u, index, e) && e.uid >= v
  {
  }

  lemma MinesAreExact(s: Board, u: int, index: int)
    requires s.Consistent() && 0 <= u < |s.sessions|
    ensures forall w {:trigger Mines(s, u, index)(w)} :: 0 <= w < |s.sessions| ==>
              ListOf(BelongsIn(s, u, index), Mines(s, u, index)(w), w, w + 1)
  {
    var ok, mine := BelongsIn(s, u, index), Mines(s, u, index);
    forall w | 0 <= w < |s.sessions|
      ensures ListOf(ok, mine(w), w, w + 1)
    {
      MineIsList(s, u, index, w, ok, mine(w));
    }
  }

  /** fs holds exactly the entries of users from lo to below hi that satisfy ok. */
  ghost predicate ListOf(ok: Entry -> bool, fs: seq<Entry>, lo: int, hi: int) {
    (forall e :: e in fs <==> ok(e) && lo <= e.uid < hi) && Ordered(fs)
  }

  lemma {:induction false} InTurnIsExact(ok: Entry -> bool, mine: int -> seq<Entry>, v: nat, n: nat)
    requires v <= n && forall w {:trigger mine(w)} :: 0 <= w < n ==> ListOf(ok, mine(w), w, w + 1)
    requires forall e, f :: ok(e) && ok(f) && e.index == f.index ==> e.uid == f.uid
    ensures ListOf(ok, InTurn(mine, v, n), v, n)
    decreases n - v
  {
    if v < n {
      InTurnIsExact(ok, mine, v + 1, n);
      ListsJoin(ok, v, v + 1, n, mine(v), InTurn(mine, v + 1, n));
    }
  }

  lemma SlotsTell(s: Board, u: int, index: int)
    requires s.Sized() && 0 <= u < |s.sessions|
    ensures var ok := BelongsIn(s, u, index);
            forall e, f :: ok(e) && ok(f) && e.index == f.index ==> e.uid == f.uid
  {
  }

  lemma ListsJoin(ok: Entry -> bool, lo: int, m: int, hi: int, a: seq<Entry>, b: seq<Entry>)
    requires lo <= m <= hi && ListOf(ok, a, lo, m) && ListOf(ok, b, m, hi)
    requires forall e, f :: ok(e) && ok(f) && e.index == f.index ==> e.uid == f.uid
    ensures ListOf(ok, a + b, lo, hi)
  {
    forall i, j | 0 <= i < |a| && 0 <= j < |b|
      ensures a[i].index != b[j].index && a[i].uid <= b[j].uid
    {
      assert a[i] in a && b[j] in b;
    }
    OrderedJoins(a, b);
  }

  lemma MineIsExact(s: Board, u: int, index: int, v: nat)
    requires s.Consistent() && 0 <= u < |s.sessions| && v < |s.sessions|
    ensures forall e :: e in MineOf(s, u, index, v) <==> Belongs(s, u, index, e) && e.uid == v
    ensures Ordered(MineOf(s, u, index, v))
  {
    var l, mine := s.sessions[v], MineOf(s, u, index, v);
    SessionEntriesAre(l, Stat(s, u, v), v, index, 0);
    assert l[0..] == l;
    forall e
      ensures e in mine <==> Belongs(s, u, index, e) && e.uid == v
    {
      if Belongs(s, u, index, e) && e.uid == v {
        assert s.HasSession(v, e.index);
      }
    }
    assert forall m :: 0 <= m < |mine| ==> mine[m] in mine;
  }

  lemma MineIsList(s: Board, u: int, index: int, v: nat, ok: Entry -> bool, mine: seq<Entry>)
    requires s.Consistent() && 0 <= u < |s.sessions| && v < |s.sessions|
    requires ok == BelongsIn(s, u, index) && mine == MineOf(s, u, index, v)
    ensures ListOf(ok, mine, v, v + 1)
  {
    MineIsExact(s, u, index, v);
    forall e
      ensures e in mine <==> ok(e) && v <= e.uid < v + 1
    {
      assert ok(e) == Belongs(s, u, index, e);
    }
  }

  /** No slot occurs twice, and the users come in order of uid. */
  ghost predicate Ordered(fs: seq<Entry>) {
    forall m, n :: 0 <= m < n < |fs| ==> fs[m].index != fs[n].index && fs[m].uid <= fs[n].uid
  }

  lemma OrderedJoins(a: seq<Entry>, b: seq<Entry>)
    requires Ordered(a) && Ordered(b)
    requires forall m, n :: 0 <= m < |a| && 0 <= n < |b| ==> a[m].index != b[n].index && a[m].uid <= b[n].uid
    ensures Ordered(a + b)
  {
  }

  /** The mutual view: whenever session i appears in the list of u's session index, then index
      appears in the list of i's holder, and each list carries the word of the other as the
      reverse relation. */
  lemma MutualView(s: Board, u: int, index: int, e: Entry)
    requires s.Consistent() && 0 <= u < |s.sessions| && 0 <= index < |s.slots| && s.slots[index] == u
    requires e in FullList(s, u, index, 0)
    ensures 0 <= e.uid < |s.sessions| && 0 <= e.index < |s.slots| && s.slots[e.index] == e.uid
    ensures Entry(index, u, e.rfriendstat, e.friendstat) in FullList(s, e.uid, e.index, 0)
  {
    FullListIsExact(s, u, index, 0);
    StatReverses(s, u, e.uid);
    StatReverses(s, e.uid, u);
    FullListIsExact(s, e.uid, e.index, 0);
    assert Belongs(s, e.uid, e.index, Entry(index, u, e.rfriendstat, e.friendstat));
  }

  // ---------------------------------------------------------------------------
  // The reply in plain numbers.

  /** A word of the reply: in its upper bits 8 if I like him, 1 if I hate him, 16 if he likes me and 2 if
      he hates me, and below 2^24 a slot number. */
  ghost predicate Says(word: int, slot: int, likes: bool, hates: bool, liked: bool, hated: bool) {
    word == 16777216 * ((if likes then 8 else 0) + (if hates then 1 else 0)
                        + (if liked then 16 else 0) + (if hated then 2 else 0)) + slot
  }

  lemma SaysIs(word: int, slot: int, likes: bool, hates: bool, liked: bool, hated: bool)
    requires Says(word, slot, likes, hates, liked, hated) && 0 <= slot < 16777216
    ensures word % 16777216 == slot
    ensures var f := word / 16777216;
            && (f / 8 % 2 == 1 <==> likes) && (f % 2 == 1 <==> hates)
            && (f / 16 % 2 == 1 <==> liked) && (f / 2 % 2 == 1 <==> hated)
            && f / 4 % 2 == 0 && 0 <= f < 32
  {
  }

  lemma FlagsSum(a: bool, b: bool, c: bool, d: bool)
    ensures (Flag(a, IFH) | Flag(b, IRH) | Flag(c, HFM) | Flag(d, HRM)) as int
         == (if a then 8 else 0) + (if b then 1 else 0) + (if c then 16 else 0) + (if d then 2 else 0)
  {
    var x := (if a then 8 else 0) + (if b then 1 else 0) + (if c then 16 else 0) + (if d then 2 else 0);
    assert Flag(a, IFH) | Flag(b, IRH) | Flag(c, HFM) | Flag(d, HRM) == x as bv8;
    assert (x as bv8) as int == x;
  }

  /** What is said of each entry of the list, and to whom. */
  ghost predicate SaidRightly(s: Board, u: int, index: int, e: Entry)
    requires s.Sized() && 0 <= u < |s.sessions|
  {
    && 0 <= e.uid < |s.sessions| && 0 <= e.index < |s.slots| && s.slots[e.index] == e.uid
    && var v := e.uid;
       && Says(e.friendstat, e.index, v in s.likes[u], v in s.hates[u], u in s.likes[v], u in s.hates[v])
       && Says(e.rfriendstat, index, u in s.likes[v], u in s.hates[v], v in s.likes[u], v in s.hates[u])
  }

  lemma ListIsSaidRightly(s: Board, u: int, index: int, e: Entry)
    requires s.Consistent() && 0 <= u < |s.sessions| && e in FullList(s, u, index, 0)
    ensures SaidRightly(s, u, index, e)
  {
    FullListIsExact(s, u, index, 0);
    var v := e.uid;
    FlagsSum(v in s.likes[u], v in s.hates[u], u in s.likes[v], u in s.hates[v]);
    FlagsSum(u in s.likes[v], u in s.hates[v], v in s.likes[u], v in s.hates[u]);
    StatReverses(s, v, u);
  }

  /** Slot i is in the list exactly if it is live, not the caller's own, and its holder and u like or hate
      each other one way or the other. */
  lemma ListedSlots(s: Board, u: int, index: int, i: int)
    requires s.Consistent() && 0 <= u < |s.sessions|
    ensures (exists e :: e in FullList(s, u, index, 0) && e.index == i)
            <==> 0 <= i < |s.slots| && s.slots[i] != FREE && i != index
                 && s.HasSession(s.slots[i], i)
                 && var v := s.slots[i];
                    v in s.likes[u] || v in s.hates[u] || u in s.likes[v] || u in s.hates[v]
  {
    FullListIsExact(s, u, index, 0);
    if 0 <= i < |s.slots| && s.slots[i] != FREE {
      var v := s.slots[i];
      assert s.HasSession(v, i);
      RelatedIsNonzero(v in s.likes[u], v in s.hates[u], u in s.likes[v], u in s.hates[v]);
      if i != index && Stat(s, u, v) != 0 {
        assert Belongs(s, u, index, EntryOf(Stat(s, u, v), v, i, index));
      }
    }
  }

  lemma RelatedIsNonzero(a: bool, b: bool, c: bool, d: bool)
    ensures Flag(a, IFH) | Flag(b, IRH) | Flag(c, HFM) | Flag(d, HRM) != 0 <==> a || b || c || d
  {
  }

  // ---------------------------------------------------------------------------
  // The work list: one single-flag entry per relation, sorted, then merged by user.

  datatype Result = Result(who: int, bits: bv8)

  ghost predicate IsFlag(f: bv8) {
    f == IFH || f == IRH || f == HFM || f == HRM
  }

  ghost predicate SingleFlags(w: seq<Result>) {
    forall r :: r in w ==> IsFlag(r.bits)
  }

  /** The flags that list w holds for user v. */
  ghost function Flags(w: seq<Result>, v: int): bv8 {
    Flag(Result(v, IFH) in w, IFH) | Flag(Result(v, IRH) in w, IRH)
    | Flag(Result(v, HFM) in w, HFM) | Flag(Result(v, HRM) in w, HRM)
  }

  ghost predicate SameMembers(a: seq<Result>, b: seq<Result>) {
    forall r :: r in a <==> r in b
  }

  ghost predicate SortedByWho(w: seq<Result>) {
    forall i, j :: 0 <= i < j < |w| ==> w[i].who <= w[j].who
  }

  ghost function Users(w: seq<Result>): set<int> {
    set r | r in w :: r.who
  }

  ghost predicate Increasing(m: seq<Result>) {
    forall i, j :: 0 <= i < j < |m| ==> m[i].who < m[j].who
  }

  ghost predicate HasFlagsOf(m: seq<Result>, w: seq<Result>) {
    forall i :: 0 <= i < |m| ==> m[i].bits == Flags(w, m[i].who)
  }

  /** m is strictly sorted and holds, for each user of w and no other, the union of his flags. */
  ghost predicate MergeOf(m: seq<Result>, w: seq<Result>) {
    Increasing(m) && HasFlagsOf(m, w) && Users(m) == Users(w)
  }

  method Collect(l: seq<Relation>, f: bv8, work: seq<Result>) returns (r: seq<Result>)
    ensures |r| == |work| + |l| && r[..|work|] == work
    ensures forall k :: 0 <= k < |l| ==> r[|work| + k] == Result(l[k].him, f)
  {
    r := work;
    for i := 0 to |l|
      invariant |r| == |work| + i && r[..|work|] == work
      invariant forall k :: 0 <= k < i ==> r[|work| + k] == Result(l[k].him, f)
    {
      r := r + [Result(l[i].him, f)];
    }
  }

  /** The four collecting loops of genfriendlist. */
  method CollectAll(like: seq<Relation>, hate: seq<Relation>, likeby: seq<Relation>, hateby: seq<Relation>)
    returns (w: seq<Result>)
    ensures SingleFlags(w)
    ensures forall v :: Result(v, IFH) in w <==> v in Names(like)
    ensures forall v :: Result(v, IRH) in w <==> v in Names(hate)
    ensures forall v :: Result(v, HFM) in w <==> v in Names(likeby)
    ensures forall v :: Result(v, HRM) in w <==> v in Names(hateby)
  {
    w := Collect(like, IFH, []);
    Collected(like, IFH, [], w);
    var w1 := Collect(hate, IRH, w);
    Collected(hate, IRH, w, w1);
    var w2 := Collect(likeby, HFM, w1);
    Collected(likeby, HFM, w1, w2);
    var w3 := Collect(hateby, HRM, w2);
    Collected(hateby, HRM, w2, w3);
    w := w3;
  }

  lemma Collected(l: seq<Relation>, f: bv8, work: seq<Result>, r: seq<Result>)
    requires |r| == |work| + |l| && r[..|work|] == work
    requires forall k :: 0 <= k < |l| ==> r[|work| + k] == Result(l[k].him, f)
    ensures forall x :: x in r <==> x in work || (x.bits == f && x.who in Names(l))
  {
    var added := r[|work|..];
    assert r == work + added;
    forall x
      ensures x in added <==> x.bits == f && x.who in Names(l)
    {
      if x in added {
        var k :| 0 <= k < |added| && added[k] == x;
        assert added[k] == r[|work| + k] && Names(l)[k] == x.who;
      }
      if x.bits == f && x.who in Names(l) {
        var k :| 0 <= k < |l| && Names(l)[k] == x.who;
        assert added[k] == r[|work| + k];
      }
    }
  }

  /** std::sort, known by its contract: sorted by user, same members; the order of equal users is
      left open. */
  method Sort(w: seq<Result>) returns (r: seq<Result>)
    ensures SortedByWho(r) && multiset(r) == multiset(w)
  {
    r := [];
    for i := 0 to |w|
      invariant SortedByWho(r) && multiset(r) == multiset(w[..i])
    {
      assert w[..i + 1] == w[..i] + [w[i]];
      r := Insert(r, w[i]);
    }
    assert w[..|w|] == w;
  }

  method Insert(r: seq<Result>, x: Result) returns (q: seq<Result>)
    requires SortedByWho(r)
    ensures SortedByWho(q) && multiset(q) == multiset(r) + multiset{x}
  {
    var k := 0;
    while k < |r| && r[k].who < x.who
      invariant 0 <= k <= |r| && forall j :: 0 <= j < k ==> r[j].who < x.who
    {
      k := k + 1;
    }
    q := r[..k] + [x] + r[k..];
    InsertedSorted(r, x, k, q);
    InsertedMembers(r, x, k);
  }

  lemma InsertedSorted(r: seq<Result>, x: Result, k: nat, q: seq<Result>)
    requires SortedByWho(r) && k <= |r| && q == r[..k] + [x] + r[k..]
    requires (forall j :: 0 <= j < k ==> r[j].who < x.who) && (k < |r| ==> x.who <= r[k].who)
    ensures SortedByWho(q)
  {
    assert forall j :: 0 <= j < |q| ==> q[j] == if j < k then r[j] else if j == k then x else r[j - 1];
  }

  lemma InsertedMembers<T>(r: seq<T>, x: T, k: nat)
    requires k <= |r|
    ensures multiset(r[..k] + [x] + r[k..]) == multiset(r) + multiset{x}
  {
    assert r == r[..k] + r[k..];
  }

  lemma FlagsGrow(w: seq<Result>, r: Result, v: int)
    requires IsFlag(r.bits)
    ensures Flags(w + [r], v) == if r.who == v then Flags(w, v) | r.bits else Flags(w, v)
  {
    assert forall f :: Result(v, f) in w + [r] <==> Result(v, f) in w || Result(v, f) == r;
    if r.who == v {
      FlagJoins(Result(v, IFH) in w, Result(v, IRH) in w, Result(v, HFM) in w, Result(v, HRM) in w, r.bits);
    }
  }

  lemma FlagJoins(a: bool, b: bool, c: bool, d: bool, f: bv8)
    requires IsFlag(f)
    ensures Flag(a || f == IFH, IFH) | Flag(b || f == IRH, IRH) | Flag(c || f == HFM, HFM) | Flag(d || f == HRM, HRM)
         == (Flag(a, IFH) | Flag(b, IRH) | Flag(c, HFM) | Flag(d, HRM)) | f
  {
  }

  lemma FlagsNonZero(w: seq<Result>, v: int)
    requires SingleFlags(w)
    ensures Flags(w, v) != 0 <==> v in Users(w)
  {
    if v in Users(w) {
      var r :| r in w && r.who == v;
      assert r == Result(v, r.bits);
    }
  }

  lemma UsersAppend(w: seq<Result>, r: Result)
    ensures Users(w + [r]) == Users(w) + {r.who}
  {
    assert forall x :: x in w + [r] <==> x in w || x == r;
    assert r in w + [r];
  }

  lemma UsersPrepend(r: Result, w: seq<Result>)
    ensures Users([r] + w) == {r.who} + Users(w)
  {
    assert forall x :: x in [r] + w <==> x == r || x in w;
    assert r in [r] + w;
  }

  lemma FlagsKept(m: seq<Result>, w: seq<Result>, r: Result)
    requires HasFlagsOf(m, w) && IsFlag(r.bits) && forall k :: 0 <= k < |m| ==> m[k].who < r.who
    ensures HasFlagsOf(m, w + [r])
  {
    forall k | 0 <= k < |m|
      ensures m[k].bits == Flags(w + [r], m[k].who)
    {
      FlagsGrow(w, r, m[k].who);
    }
  }

  lemma MergeSame(init: seq<Result>, last: Result, w: seq<Result>, r: Result)
    requires MergeOf(init + [last], w) && IsFlag(r.bits) && last.who == r.who
    ensures MergeOf(init + [Result(r.who, last.bits | r.bits)], w + [r])
  {
    var m, joined := init + [last], Result(r.who, last.bits | r.bits);
    assert forall k :: 0 <= k < |init| ==> m[k] == init[k] && m[k].who < m[|init|].who;
    assert m[|init|] == last;
    FlagsKept(init, w, r);
    FlagsGrow(w, r, r.who);
    UsersAppend(init, last);
    UsersAppend(init, joined);
    UsersAppend(w, r);
  }

  lemma MergeNew(m: seq<Result>, w: seq<Result>, r: Result)
    requires MergeOf(m, w) && SingleFlags(w) && IsFlag(r.bits)
    requires forall k :: 0 <= k < |m| ==> m[k].who < r.who
    ensures MergeOf(m + [r], w + [r])
  {
    assert r.who !in Users(m);
    FlagsNonZero(w, r.who);
    FlagsKept(m, w, r);
    FlagsGrow(w, r, r.who);
    UsersAppend(m, r);
    UsersAppend(w, r);
  }

  /** The work array in the middle of merging: a merged prefix, and the entries not yet read. */
  ghost predicate Merging(work: seq<Result>, w: seq<Result>, newn: int, i: int) {
    && 1 <= newn <= i <= |w| == |work|
    && work[i..] == w[i..]
    && MergeOf(work[..newn], w[..i]) && work[newn - 1].who == w[i - 1].who
  }

  lemma MergingStarts(w: seq<Result>)
    requires w != [] && SingleFlags(w)
    ensures Merging(w, w, 1, 1)
  {
    assert w[0] in w && w[..1] == [] + [w[0]];
    MergeNew([], [], w[0]);
  }

  lemma NotYetRead(work: seq<Result>, w: seq<Result>, newn: int, i: int)
    requires Merging(work, w, newn, i) && i < |w| && SingleFlags(w) && SortedByWho(w)
    ensures work[i] == w[i] && IsFlag(w[i].bits) && work[newn - 1].who <= w[i].who
  {
    assert work[i] == work[i..][0] == w[i..][0] && w[i] in w;
  }

  lemma JoinStep(work: seq<Result>, w: seq<Result>, newn: int, i: int)
    requires Merging(work, w, newn, i) && i < |w| && IsFlag(w[i].bits) && w[i].who == work[newn - 1].who
    ensures Merging(work[newn - 1 := Result(w[i].who, work[newn - 1].bits | w[i].bits)], w, newn, i + 1)
  {
    var init, last := work[..newn - 1], work[newn - 1];
    var work' := work[newn - 1 := Result(w[i].who, last.bits | w[i].bits)];
    assert work[..newn] == init + [last] && w[..i + 1] == w[..i] + [w[i]];
    MergeSame(init, last, w[..i], w[i]);
    assert work'[..newn] == init + [Result(w[i].who, last.bits | w[i].bits)];
    assert work'[i + 1..] == work[i..][1..] && w[i + 1..] == w[i..][1..];
  }

  lemma MoveStep(work: seq<Result>, w: seq<Result>, newn: int, i: int)
    requires Merging(work, w, newn, i) && i < |w| && SingleFlags(w) && work[newn - 1].who < w[i].who
    ensures Merging(work[newn := w[i]], w, newn + 1, i + 1)
  {
    var init, last := work[..newn - 1], work[newn - 1];
    var work' := work[newn := w[i]];
    assert work[..newn] == init + [last] && w[..i + 1] == w[..i] + [w[i]];
    LastIsLargest(init, last, w[i].who);
    assert w[i] in w && SingleFlags(w[..i]);
    MergeNew(work[..newn], w[..i], w[i]);
    assert work'[..newn + 1] == work[..newn] + [w[i]];
    assert work'[i + 1..] == work[i..][1..] && w[i + 1..] == w[i..][1..];
  }

  /** One turn of the merging loop. */
  method MergeOne(work: seq<Result>, newn: int, i: int, ghost w: seq<Result>) returns (work': seq<Result>, newn': int)
    requires Merging(work, w, newn, i) && i < |w| && SingleFlags(w) && SortedByWho(w)
    ensures Merging(work', w, newn', i + 1)
  {
    NotYetRead(work, w, newn, i);
    if work[i].who == work[newn - 1].who {
      JoinStep(work, w, newn, i);
      work' := work[newn - 1 := work[newn - 1].(bits := work[newn - 1].bits | work[i].bits)];
      newn' := newn;
    } else {
      MoveStep(work, w, newn, i);
      work' := work[newn := work[i]];
      newn' := newn + 1;
    }
  }

  /** The merging loop, in place: the merged prefix never catches up with the entry being read. */
  method Merge(w: seq<Result>) returns (m: seq<Result>)
    requires SingleFlags(w) && SortedByWho(w)
    ensures MergeOf(m, w)
  {
    if |w| == 0 {
      return [];
    }
    var work, newn := w, 1;
    MergingStarts(w);
    for i := 1 to |w|
      invariant Merging(work, w, newn, i)
    {
      work, newn := MergeOne(work, newn, i, w);
    }
    assert w[..|w|] == w;
    m := work[..newn];
  }

  lemma LastIsLargest(init: seq<Result>, last: Result, who: int)
    requires Increasing(init + [last]) && last.who < who
    ensures forall k :: 0 <= k < |init + [last]| ==> (init + [last])[k].who < who
  {
    var m := init + [last];
    assert m[|init|] == last;
    assert forall k :: 0 <= k < |init| ==> m[k].who < m[|init|].who;
  }

  // ---------------------------------------------------------------------------
  // Filling the reply.

  ghost predicate KnownUsers(s: Board, m: seq<Result>) {
    forall i :: 0 <= i < |m| ==> 0 <= m[i].who < |s.sessions|
  }

  ghost function MergedList(s: Board, m: seq<Result>, index: int): seq<Entry>
    requires KnownUsers(s, m)
  {
    if m == [] then []
    else SessionEntries(s.sessions[m[0].who], m[0].bits, m[0].who, index, 0) + MergedList(s, m[1..], index)
  }

  /** The users from v on with a nonzero stat, in increasing order. */
  ghost function Table(f: int -> bv8, v: nat, n: nat): (r: seq<Result>)
    requires v <= n
    ensures forall i :: 0 <= i < |r| ==> v <= r[i].who < n && r[i].bits == f(r[i].who)
    decreases n - v
  {
    if v == n then [] else if f(v) != 0 then [Result(v, f(v))] + Table(f, v + 1, n) else Table(f, v + 1, n)
  }

  /** m is strictly increasing and holds exactly the users from v on with a nonzero stat. */
  ghost predicate IsTable(f: int -> bv8, m: seq<Result>, v: nat, n: nat) {
    && Increasing(m)
    && (forall i :: 0 <= i < |m| ==> v <= m[i].who < n && m[i].bits == f(m[i].who))
    && (forall x {:trigger x in Users(m)} :: v <= x < n ==> (f(x) != 0 <==> x in Users(m)))
  }

  lemma TableHead(f: int -> bv8, m: seq<Result>, v: nat, n: nat)
    requires IsTable(f, m, v, n) && m != []
    ensures v <= m[0].who < n
  {
  }

  lemma TableLater(f: int -> bv8, m: seq<Result>, v: nat, n: nat)
    requires v < n && IsTable(f, m, v, n) && (m == [] || m[0].who != v)
    ensures f(v) == 0 && IsTable(f, m, v + 1, n)
  {
    assert forall i :: 0 < i < |m| ==> m[0].who < m[i].who;
    assert v !in Users(m);
  }

  lemma TableNext(f: int -> bv8, m: seq<Result>, v: nat, n: nat)
    requires v < n && IsTable(f, m, v, n) && m != [] && m[0].who == v
    ensures f(v) != 0 && m[0] == Result(v, f(v)) && IsTable(f, m[1..], v + 1, n)
  {
    var rest := m[1..];
    UsersPrepend(m[0], rest);
    assert m == [m[0]] + rest;
    assert v in Users(m);
    forall x {:trigger x in Users(rest)} | v + 1 <= x < n
      ensures f(x) != 0 <==> x in Users(rest)
    {
      assert x in Users(m) <==> x in {v} + Users(rest);
    }
    IncreasingTail(m, rest);
    forall i | 0 <= i < |rest|
      ensures v + 1 <= rest[i].who < n && rest[i].bits == f(rest[i].who)
    {
      assert rest[i] == m[i + 1] && m[0].who < m[i + 1].who;
    }
  }

  lemma IncreasingTail(m: seq<Result>, rest: seq<Result>)
    requires Increasing(m) && m != [] && rest == m[1..]
    ensures Increasing(rest)
  {
  }

  /** There is only one such list. */
  lemma {:induction false} TableIsUnique(f: int -> bv8, m: seq<Result>, v: nat, n: nat)
    requires v <= n && IsTable(f, m, v, n)
    ensures m == Table(f, v, n)
    decreases n - v
  {
    if v == n {
      if m != [] {
        TableHead(f, m, v, n);
      }
    } else if m == [] || m[0].who != v {
      TableLater(f, m, v, n);
      TableIsUnique(f, m, v + 1, n);
    } else {
      var rest := m[1..];
      TableNext(f, m, v, n);
      TableIsUnique(f, rest, v + 1, n);
      TableHeads(f, m, rest, v, n);
    }
  }

  lemma TableHeads(f: int -> bv8, m: seq<Result>, rest: seq<Result>, v: nat, n: nat)
    requires v < n && m != [] && rest == m[1..] && m[0] == Result(v, f(v)) && f(v) != 0 && rest == Table(f, v + 1, n)
    ensures m == Table(f, v, n)
  {
    assert m == [m[0]] + rest;
  }

  /** The relation of u to everybody, as a function. */
  ghost function StatOf(s: Board, u: int): int -> bv8
    requires s.Sized() && 0 <= u < |s.sessions|
  {
    x => if 0 <= x < |s.sessions| then Stat(s, u, x) else 0
  }

  lemma {:induction false} TableFillsFullList(s: Board, u: int, index: int, v: nat)
    requires s.Sized() && 0 <= u < |s.sessions| && v <= |s.sessions|
    ensures MergedList(s, Table(StatOf(s, u), v, |s.sessions|), index) == FullList(s, u, index, v)
    decreases |s.sessions| - v
  {
    var f, n := StatOf(s, u), |s.sessions|;
    if v < n {
      TableFillsFullList(s, u, index, v + 1);
      TableFillsOne(s, u, index, v, f(v), Table(f, v + 1, n));
      assert FullList(s, u, index, v) == MineOf(s, u, index, v) + FullList(s, u, index, v + 1);
    }
  }

  lemma TableFillsOne(s: Board, u: int, index: int, v: nat, stat: bv8, rest: seq<Result>)
    requires s.Sized() && 0 <= u < |s.sessions| && v < |s.sessions| && stat == Stat(s, u, v) && KnownUsers(s, rest)
    ensures KnownUsers(s, [Result(v, stat)] + rest)
    ensures MergedList(s, if stat != 0 then [Result(v, stat)] + rest else rest, index)
            == MineOf(s, u, index, v) + MergedList(s, rest, index)
  {
    MergedCons(s, Result(v, stat), rest, index);
    assert [] + MergedList(s, rest, index) == MergedList(s, rest, index);
  }

  lemma MergedCons(s: Board, r: Result, rest: seq<Result>, index: int)
    requires KnownUsers(s, rest) && 0 <= r.who < |s.sessions|
    ensures KnownUsers(s, [r] + rest)
    ensures MergedList(s, [r] + rest, index)
            == SessionEntries(s.sessions[r.who], r.bits, r.who, index, 0) + MergedList(s, rest, index)
  {
    assert ([r] + rest)[1..] == rest;
  }

  ghost predicate Filled(fs: seq<Entry>, full: seq<Entry>, rest: seq<Entry>, maxfs: int) {
    fs <= full && (|fs| < maxfs ==> fs + rest == full) && (|fs| == 0 || |fs| <= maxfs)
  }

  /** The inner filling loop: the sessions of one user. */
  method FillUser(l: seq<int>, stat: bv8, who: int, index: int, maxfs: int, before: seq<Entry>,
                  ghost full: seq<Entry>, ghost later: seq<Entry>)
    returns (fs: seq<Entry>)
    requires Filled(before, full, SessionEntries(l, stat, who, index, 0) + later, maxfs)
    ensures Filled(fs, full, later, maxfs)
  {
    fs := before;
    var j := 0;
    while j < |l| && |fs| < maxfs
      invariant 0 <= j <= |l|
      invariant Filled(fs, full, SessionEntries(l, stat, who, index, j) + later, maxfs)
    {
      if l[j] != index {
        ghost var e, rest := EntryOf(stat, who, l[j], index), SessionEntries(l, stat, who, index, j + 1);
        assert fs + (([e] + rest) + later) == (fs + [e]) + (rest + later);
        fs := fs + [EntryOf(stat, who, l[j], index)];
      } else {
        assert SessionEntries(l, stat, who, index, j) == SessionEntries(l, stat, who, index, j + 1);
      }
      j := j + 1;
    }
    assert SessionEntries(l, stat, who, index, |l|) + later == later;
  }

  function Take(l: seq<Entry>, max: int): seq<Entry> {
    l[..if max <= 0 then 0 else if max < |l| then max else |l|]
  }

  /** The two nested filling loops: the list in order, cut off at maxfs. */
  method Fill(s: Board, m: seq<Result>, index: int, maxfs: int) returns (fs: seq<Entry>)
    requires KnownUsers(s, m)
    ensures fs == Take(MergedList(s, m, index), maxfs)
  {
    ghost var full := MergedList(s, m, index);
    fs := [];
    assert m[0..] == m;
    var i := 0;
    while i < |m| && |fs| < maxfs
      invariant 0 <= i <= |m|
      invariant Filled(fs, full, MergedList(s, m[i..], index), maxfs)
    {
      assert m[i..][1..] == m[i + 1..];
      fs := FillUser(s.sessions[m[i].who], m[i].bits, m[i].who, index, maxfs, fs, full,
                     MergedList(s, m[i + 1..], index));
      i := i + 1;
    }
  }

  /** genfriendlist: the sessions of all users related to u, other than the caller's own slot, in
      order of uid, as many as fit. */
  method GenFriendList(ul: UserList, uid: int, index: int, maxfs: int) returns (fs: seq<Entry>)
    requires ul.Valid() && 0 <= uid < |ul.online|
    requires ul.utmp.Length <= SLOT_RANGE && 0 <= index < SLOT_RANGE
    ensures fs <= FullList(ul.Abs(), uid, index, 0)
    ensures var n := |FullList(ul.Abs(), uid, index, 0)|;
            |fs| == if maxfs <= 0 then 0 else if maxfs < n then maxfs else n
    ensures forall e :: e in fs ==> SaidRightly(ul.Abs(), uid, index, e)
  {
    var w := CollectAll(ul.like.fwd[uid], ul.hate.fwd[uid], ul.like.back[uid], ul.hate.back[uid]);
    var sorted := Sort(w);
    assert SameMembers(sorted, w) by {
      assert forall r :: r in sorted <==> r in multiset(sorted);
      assert forall r :: r in w <==> r in multiset(w);
    }
    var m := Merge(sorted);
    var s := Board(ul.utmp[..], ul.utmplist, AllNames(ul.like.fwd), AllNames(ul.hate.fwd));
    assert s == ul.Abs();
    WorkIsRelated(ul.like.fwd, ul.like.back, ul.hate.fwd, ul.hate.back, s, uid, w, sorted, m);
    TableIsUnique(StatOf(s, uid), m, 0, |s.sessions|);
    TableFillsFullList(s, uid, index, 0);
    fs := Fill(s, m, index, maxfs);
    forall e | e in fs
      ensures SaidRightly(s, uid, index, e)
    {
      ListIsSaidRightly(s, uid, index, e);
    }
  }

  /** The bijection of the relation lists turns the merged work list into the related users. */
  lemma WorkIsRelated(lf: Lists, lb: Lists, hf: Lists, hb: Lists, s: Board, u: int,
                      w: seq<Result>, sorted: seq<Result>, m: seq<Result>)
    requires Mirror(lf, lb) && Mirror(hf, hb) && |lf| == |hf| == |s.sessions|
    requires s.likes == AllNames(lf) && s.hates == AllNames(hf) && 0 <= u < |lf|
    requires SingleFlags(w) && SameMembers(sorted, w) && MergeOf(m, sorted)
    requires forall v :: Result(v, IFH) in w <==> v in Names(lf[u])
    requires forall v :: Result(v, IRH) in w <==> v in Names(hf[u])
    requires forall v :: Result(v, HFM) in w <==> v in Names(lb[u])
    requires forall v :: Result(v, HRM) in w <==> v in Names(hb[u])
    ensures s.Sized() && IsTable(StatOf(s, u), m, 0, |s.sessions|)
  {
    forall v | v in Names(lf[u]) || v in Names(hf[u]) || v in Names(lb[u]) || v in Names(hb[u])
      ensures 0 <= v < |s.sessions|
    {
      NamesInRange(lf, lb, u, v);
      NamesInRange(lb, lf, u, v);
      NamesInRange(hf, hb, u, v);
      NamesInRange(hb, hf, u, v);
    }
    forall v | 0 <= v < |s.sessions|
      ensures Flags(sorted, v) == Stat(s, u, v) && (Stat(s, u, v) != 0 <==> v in Users(m))
    {
      SameMultiplicity(lf, lb, v, u);
      SameMultiplicity(hf, hb, v, u);
      FlagsNonZero(sorted, v);
    }
    forall i | 0 <= i < |m|
      ensures 0 <= m[i].who < |s.sessions|
    {
      assert m[i] in m;
      assert m[i].who in Users(sorted);
      var r :| r in sorted && r.who == m[i].who;
      assert r == Result(r.who, r.bits) && r in w;
    }
  }

  lemma NamesInRange(a: Lists, b: Lists, u: int, v: int)
    requires Mirror(a, b) && 0 <= u < |a|
    ensures v in Names(a[u]) ==> 0 <= v < |a|
  {
    if v in Names(a[u]) {
      var k :| 0 <= k < |a[u]| && a[u][k].him == v;
      assert Answered(a[u][k], b, u, k);
    }
  }
}
