/** The user-id hash of util/uhash_loader.c: bucket chains threaded through two flat tables, hash_head
    (one cell per bucket) and next_in_hash (one cell per user slot).  A chain ends at -1; a chain of
    a damaged table may share its tail with another, hold slots of other buckets, or end in any
    number that is no slot. */
module UserHash {
  import opened Basics

  const END := -1
  const RESERVED := 1000   // slots with an invalid id that are admitted for new registrations
  const COMPARED := 11     // characters of a resident id that are compared, IDLEN - 1

  // ---------------------------------------------------------------------------
  // Chains as sequences.

  /** Starting from link first, the next-links visit the slots c one after the other. */
  ghost predicate Path(first: int, next: seq<int>, c: seq<int>) {
    && (forall i :: 0 <= i < |c| ==> 0 <= c[i] < |next|)
    && (c != [] ==> c[0] == first)
    && (forall i {:trigger next[c[i]]} :: 0 <= i < |c| - 1 ==> next[c[i]] == c[i + 1])
  }

  /** The link found after the last slot of c. */
  ghost function LinkAfter(first: int, next: seq<int>, c: seq<int>): int
    requires Path(first, next, c)
  {
    if c == [] then first else next[c[|c| - 1]]
  }

  /** c is the whole chain: the link after it is no slot. */
  ghost predicate Stops(first: int, next: seq<int>, c: seq<int>) {
    Path(first, next, c) && !(0 <= LinkAfter(first, next, c) < |next|)
  }

  /** c is a proper chain, ended by -1. */
  ghost predicate Chain(first: int, next: seq<int>, c: seq<int>) {
    Path(first, next, c) && LinkAfter(first, next, c) == END
  }

  lemma {:induction false} ChainUnique(first: int, next: seq<int>, c: seq<int>, d: seq<int>)
    requires Stops(first, next, c) && Stops(first, next, d)
    ensures c == d
    decreases |c|
  {
    if c != [] && d != [] {
      TailStops(first, next, c);
      TailStops(first, next, d);
      ChainUnique(next[first], next, c[1..], d[1..]);
      assert c == [first] + c[1..] && d == [first] + d[1..];
    }
  }

  lemma TailStops(first: int, next: seq<int>, c: seq<int>)
    requires Stops(first, next, c) && c != []
    ensures 0 <= first < |next| && Stops(next[first], next, c[1..])
  {
    var d := c[1..];
    forall i | 0 <= i < |d| - 1
      ensures next[d[i]] == d[i + 1]
    {
      assert next[c[i + 1]] == c[i + 1 + 1];
    }
    assert |c| > 1 ==> next[c[0]] == c[1];
  }

  lemma {:induction false} SuffixStops(first: int, next: seq<int>, c: seq<int>, i: nat)
    requires Stops(first, next, c) && i < |c|
    ensures Stops(c[i], next, c[i..])
    decreases i
  {
    if i > 0 {
      TailStops(first, next, c);
      SuffixStops(next[first], next, c[1..], i - 1);
      assert c[1..][i - 1..] == c[i..];
    } else {
      assert c[0..] == c;
    }
  }

  /** A chain that ends visits no slot twice. */
  lemma ChainNoRepeat(first: int, next: seq<int>, c: seq<int>)
    requires Stops(first, next, c)
    ensures NoRepeat(c)
  {
    forall i, j | 0 <= i < j < |c|
      ensures c[i] != c[j]
    {
      if c[i] == c[j] {
        SuffixStops(first, next, c, i);
        SuffixStops(first, next, c, j);
        ChainUnique(c[i], next, c[i..], c[j..]);
      }
    }
  }

  /** A chain does not notice changes to links it does not use. */
  lemma ChainFrame(first: int, next: seq<int>, next': seq<int>, c: seq<int>)
    requires Path(first, next, c) && |next'| == |next|
    requires forall i :: 0 <= i < |c| ==> next'[c[i]] == next[c[i]]
    ensures Path(first, next', c) && LinkAfter(first, next', c) == LinkAfter(first, next, c)
  {
  }

  /** Unlinking the slot that follows position i. */
  lemma SkipAt(first: int, next: seq<int>, c: seq<int>, i: nat)
    requires Stops(first, next, c) && i + 1 < |c|
    ensures Stops(first, next[c[i] := next[c[i + 1]]], c[..i + 1] + c[i + 2..])
    ensures LinkAfter(first, next[c[i] := next[c[i + 1]]], c[..i + 1] + c[i + 2..]) == LinkAfter(first, next, c)
  {
    var next', d := next[c[i] := next[c[i + 1]]], c[..i + 1] + c[i + 2..];
    ChainNoRepeat(first, next, c);
    forall k | 0 <= k < |d| - 1
      ensures next'[d[k]] == d[k + 1]
    {
      SkipLink(next, c, i, d, k);
    }
    if i + 2 < |c| {
      assert d[|d| - 1] == c[|c| - 1];
    }
  }

  lemma SkipLink(next: seq<int>, c: seq<int>, i: nat, d: seq<int>, k: nat)
    requires (forall j :: 0 <= j < |c| ==> 0 <= c[j] < |next|) && NoRepeat(c)
    requires forall j {:trigger next[c[j]]} :: 0 <= j < |c| - 1 ==> next[c[j]] == c[j + 1]
    requires i + 1 < |c| && d == c[..i + 1] + c[i + 2..] && k < |d| - 1
    ensures next[c[i] := next[c[i + 1]]][d[k]] == d[k + 1]
  {
    if k < i {
      assert next[c[k]] == c[k + 1] && c[k] != c[i];
    } else if k == i {
      assert next[c[i + 1]] == c[i + 1 + 1];
    } else {
      assert next[c[k + 1]] == c[k + 1 + 1] && c[i] != c[k + 1];
    }
  }

  ghost predicate OccursInside(c: seq<int>, x: int, i: int) {
    0 <= i < |c| - 1 && c[i] == x
  }

  /** The chain without the slot that follows x. */
  ghost function SkipAfter(c: seq<int>, x: int): seq<int> {
    if i :| OccursInside(c, x, i) then c[..i + 1] + c[i + 2..] else c
  }

  lemma SkipAfterAt(first: int, next: seq<int>, c: seq<int>, x: int, i: int)
    requires Stops(first, next, c) && OccursInside(c, x, i)
    ensures SkipAfter(c, x) == c[..i + 1] + c[i + 2..]
  {
    ChainNoRepeat(first, next, c);
    assert forall k :: OccursInside(c, x, k) ==> k == i;
  }

  /** Unlinking the slot after x shortens the chains that run through x, and damages none. */
  lemma SkipKeepsChains(first: int, next: seq<int>, c: seq<int>, x: int)
    requires Stops(first, next, c) && 0 <= x < |next| && 0 <= next[x] < |next|
    ensures Stops(first, next[x := next[next[x]]], SkipAfter(c, x))
    ensures forall y :: y in SkipAfter(c, x) ==> y in c
  {
    if i :| OccursInside(c, x, i) {
      SkipAfterAt(first, next, c, x, i);
      assert next[c[i]] == c[i + 1];
      SkipAt(first, next, c, i);
    } else {
      forall i | 0 <= i < |c| - 1
        ensures c[i] != x
      {
        assert !OccursInside(c, x, i);
      }
      ChainFrame(first, next, next[x := next[next[x]]], c);
    }
  }

  /** Replacing a link that is no slot by the end mark. */
  lemma EndKeepsChains(first: int, next: seq<int>, c: seq<int>, x: int)
    requires Stops(first, next, c) && 0 <= x < |next| && !(0 <= next[x] < |next|)
    ensures Stops(first, next[x := END], c)
    ensures c != [] && c[|c| - 1] == x ==> Chain(first, next[x := END], c)
  {
    var next' := next[x := END];
    forall i | 0 <= i < |c| - 1
      ensures next'[c[i]] == c[i + 1]
    {
      assert next[c[i]] == c[i + 1];
    }
  }

  // ---------------------------------------------------------------------------
  // The table.

  datatype Hash = Hash(bucketOf: string -> nat, isValid: string -> bool)

  /** hash_head, next_in_hash and userid, as values. */
  datatype Table = Table(hash: Hash, head: seq<int>, next: seq<int>, ids: seq<string>) {
    ghost predicate Sized() {
      |next| == |ids| && forall s :: hash.bucketOf(s) < |head|
    }

    ghost predicate Belongs(x: int, h: nat) {
      0 <= x < |ids| && hash.bucketOf(ids[x]) == h
    }

    /** The slots of c that belong to bucket h. */
    ghost function Own(h: nat, c: seq<int>): (r: seq<int>)
      ensures |r| <= |c|
    {
      if c == [] then [] else if Belongs(c[0], h) then [c[0]] + Own(h, c[1..]) else Own(h, c[1..])
    }

    ghost predicate Pure(h: nat, c: seq<int>) {
      forall x :: x in c ==> Belongs(x, h)
    }

    /** All chains end, possibly in a link that is no slot. */
    ghost predicate Terminating(chains: seq<seq<int>>) {
      |chains| == |head| && forall h :: 0 <= h < |head| ==> Stops(head[h], next, chains[h])
    }

    /** All chains end properly. */
    ghost predicate Ended(chains: seq<seq<int>>) {
      |chains| == |head| && forall h :: 0 <= h < |head| ==> Chain(head[h], next, chains[h])
    }

    ghost predicate CleanBucket(h: nat, c: seq<int>)
      requires h < |head|
    {
      Chain(head[h], next, c) && Pure(h, c)
    }

    /** Every chain is properly ended and holds only slots of its own bucket. */
    ghost predicate Clean(chains: seq<seq<int>>) {
      |chains| == |head| && forall h :: 0 <= h < |head| ==> CleanBucket(h, chains[h])
    }

    ghost predicate CanBeClean() {
      exists chains :: Clean(chains)
    }

    ghost predicate HasCell(p: Cell) {
      match p case Head(h) => 0 <= h < |head| case Next(x) => 0 <= x < |next|
    }

    ghost function Cell(p: Cell): int
      requires HasCell(p)
    {
      match p case Head(h) => head[h] case Next(x) => next[x]
    }

    ghost function Put(p: Cell, v: int): Table
      requires HasCell(p)
    {
      match p case Head(h) => this.(head := head[h := v]) case Next(x) => this.(next := next[x := v])
    }

    /** The cells this table may differ in from t once bucket h has been checked: the head of h and
        the links of slots that belong to h. */
    ghost predicate OnlyBucket(t: Table, h: nat) {
      && hash == t.hash && ids == t.ids && |head| == |t.head| && |next| == |t.next|
      && (forall g :: 0 <= g < |head| && g != h ==> head[g] == t.head[g])
      && (forall x :: 0 <= x < |next| && !Belongs(x, h) ==> next[x] == t.next[x])
    }
  }

  /** A link cell: the head of a bucket or the next-link of a slot. */
  datatype Cell = Head(h: int) | Next(x: int)

  ghost predicate Within(a: seq<seq<int>>, b: seq<seq<int>>) {
    |a| == |b| && forall g, y :: 0 <= g < |a| && y in a[g] ==> y in b[g]
  }

  /** Own keeps exactly the slots of the bucket, and their order. */
  lemma {:induction false} OwnIsPure(t: Table, h: nat, c: seq<int>)
    ensures t.Pure(h, t.Own(h, c))
    ensures forall x :: x in t.Own(h, c) <==> x in c && t.Belongs(x, h)
    ensures t.Pure(h, c) ==> t.Own(h, c) == c
  {
    if c != [] {
      OwnIsPure(t, h, c[1..]);
      assert c == [c[0]] + c[1..];
    }
  }

  lemma {:induction false} OwnSplits(t: Table, h: nat, a: seq<int>, b: seq<int>)
    ensures t.Own(h, a + b) == t.Own(h, a) + t.Own(h, b)
  {
    if a == [] {
      assert a + b == b && [] + t.Own(h, b) == t.Own(h, b);
    } else {
      OwnSplits(t, h, a[1..], b);
      assert (a + b)[1..] == a[1..] + b && (a + b)[0] == a[0];
      Regroup([a[0]], t.Own(h, a[1..]), t.Own(h, b));
    }
  }

  /** Of two slots of the bucket, the one met first in the chain found stays in front. */
  lemma OwnKeepsOrder(t: Table, h: nat, c: seq<int>, i: nat, j: nat)
    requires i < j < |c| && t.Belongs(c[i], h) && t.Belongs(c[j], h)
    ensures exists a, b :: t.Own(h, c) == a + b && c[i] in a && c[j] in b
  {
    var front, back := c[..i + 1], c[i + 1..];
    assert c == front + back && front[i] == c[i] && back[j - i - 1] == c[j];
    OwnSplits(t, h, front, back);
    OwnIsPure(t, h, front);
    OwnIsPure(t, h, back);
  }

  /** In a clean table no slot is reached from two buckets, nor twice from one. */
  lemma CleanReachesOnce(t: Table, chains: seq<seq<int>>, g: nat, h: nat, x: int)
    requires t.Clean(chains) && g < |t.head| && h < |t.head|
    requires x in chains[g] && x in chains[h]
    ensures g == h && NoRepeat(chains[g])
  {
    assert t.CleanBucket(g, chains[g]) && t.CleanBucket(h, chains[h]);
    ChainNoRepeat(t.head[g], t.next, chains[g]);
  }

  // ---------------------------------------------------------------------------
  // Checking one bucket.

  ghost function LinkCell(h: int, done: seq<int>): Cell {
    if done == [] then Head(h) else Next(done[|done| - 1])
  }

  /** Bucket h is being checked: its chain is done + rest, p is the cell that links the first slot of
      rest, and the table was t0 with chains chains0 to start with. */
  ghost predicate Checking(t0: Table, chains0: seq<seq<int>>, t: Table, chains: seq<seq<int>>,
                           h: nat, done: seq<int>, rest: seq<int>, p: Cell) {
    && t.Sized() && t.Terminating(chains) && h < |t.head|
    && t.OnlyBucket(t0, h) && Within(chains, chains0)
    && chains[h] == done + rest && t.Pure(h, done)
    && p == LinkCell(h, done)
    && t0.Own(h, chains0[h]) == done + t0.Own(h, rest)
  }

  /** What cell p holds is the link to rest. */
  lemma CellLinksRest(t0: Table, chains0: seq<seq<int>>, t: Table, chains: seq<seq<int>>,
                      h: nat, done: seq<int>, rest: seq<int>, p: Cell)
    requires Checking(t0, chains0, t, chains, h, done, rest, p)
    ensures p == LinkCell(h, done)
    ensures t.HasCell(p) && (p.Next? ==> t.Belongs(p.x, h))
    ensures rest != [] ==> t.Cell(p) == rest[0] && 0 <= rest[0] < |t.next|
    ensures rest == [] ==> !(0 <= t.Cell(p) < |t.next|)
  {
    var c := done + rest;
    assert Stops(t.head[h], t.next, c);
    if done != [] {
      assert c[|done| - 1] == done[|done| - 1] && done[|done| - 1] in done;
      if rest != [] {
        assert t.next[c[|done| - 1]] == c[|done|];
      }
    }
  }

  lemma CheckStarts(t: Table, chains: seq<seq<int>>, h: nat)
    requires t.Sized() && t.Terminating(chains) && h < |t.head|
    ensures Checking(t, chains, t, chains, h, [], chains[h], Head(h))
  {
    assert [] + chains[h] == chains[h] && [] + t.Own(h, chains[h]) == t.Own(h, chains[h]);
  }

  ghost function SkipAll(chains: seq<seq<int>>, x: int): seq<seq<int>> {
    seq(|chains|, g requires 0 <= g < |chains| => SkipAfter(chains[g], x))
  }

  /** The new chains after a misplaced slot is unlinked from bucket h. */
  ghost function Unlinked(chains: seq<seq<int>>, h: nat, rest: seq<int>, p: Cell): seq<seq<int>>
    requires h < |chains| && rest != []
  {
    match p case Head(_) => chains[h := rest[1..]] case Next(x) => SkipAll(chains, x)
  }

  lemma SkipAllKeeps(head: seq<int>, next: seq<int>, chains: seq<seq<int>>, x: int)
    requires |chains| == |head| && forall g :: 0 <= g < |head| ==> Stops(head[g], next, chains[g])
    requires 0 <= x < |next| && 0 <= next[x] < |next|
    ensures forall g :: 0 <= g < |head| ==> Stops(head[g], next[x := next[next[x]]], SkipAll(chains, x)[g])
    ensures Within(SkipAll(chains, x), chains)
  {
    forall g | 0 <= g < |chains|
      ensures Stops(head[g], next[x := next[next[x]]], SkipAfter(chains[g], x))
      ensures forall y :: y in SkipAfter(chains[g], x) ==> y in chains[g]
    {
      SkipKeepsChains(head[g], next, chains[g], x);
    }
  }

  lemma SkipAtRest(first: int, next: seq<int>, c: seq<int>, done: seq<int>, rest: seq<int>)
    requires Stops(first, next, c) && c == done + rest && done != [] && rest != []
    ensures SkipAfter(c, done[|done| - 1]) == done + rest[1..]
  {
    assert OccursInside(c, done[|done| - 1], |done| - 1);
    SkipAfterAt(first, next, c, done[|done| - 1], |done| - 1);
    assert c[..|done|] + c[|done| + 1..] == done + rest[1..];
  }

  lemma UnlinkChains(t: Table, chains: seq<seq<int>>, h: nat, done: seq<int>, rest: seq<int>, p: Cell)
    requires t.Terminating(chains) && h < |t.head| && chains[h] == done + rest && rest != []
    requires p == LinkCell(h, done)
    requires t.HasCell(p) && t.Cell(p) == rest[0] && 0 <= rest[0] < |t.next|
    ensures t.Put(p, t.next[rest[0]]).Terminating(Unlinked(chains, h, rest, p))
    ensures Within(Unlinked(chains, h, rest, p), chains)
    ensures Unlinked(chains, h, rest, p)[h] == done + rest[1..]
  {
    if p.Head? {
      assert done + rest == rest && done + rest[1..] == rest[1..];
      TailStops(t.head[h], t.next, chains[h]);
    } else {
      SkipAllKeeps(t.head, t.next, chains, p.x);
      SkipAtRest(t.head[h], t.next, chains[h], done, rest);
    }
  }

  /** A misplaced slot is unlinked. */
  lemma UnlinkStep(t0: Table, chains0: seq<seq<int>>, t: Table, chains: seq<seq<int>>,
                   h: nat, done: seq<int>, rest: seq<int>, p: Cell)
    requires Checking(t0, chains0, t, chains, h, done, rest, p)
    requires rest != [] && !t.Belongs(rest[0], h)
    ensures t.HasCell(p) && 0 <= rest[0] < |t.next|
    ensures Checking(t0, chains0, t.Put(p, t.next[rest[0]]), Unlinked(chains, h, rest, p), h, done, rest[1..], p)
  {
    CellLinksRest(t0, chains0, t, chains, h, done, rest, p);
    UnlinkChains(t, chains, h, done, rest, p);
    PutInBucket(t0, t, h, p, t.next[rest[0]]);
    assert t.Pure(h, done) ==> t.Put(p, t.next[rest[0]]).Pure(h, done);
    WithinTransitive(Unlinked(chains, h, rest, p), chains, chains0);
  }

  lemma PutInBucket(t0: Table, t: Table, h: nat, p: Cell, v: int)
    requires t.OnlyBucket(t0, h) && t.HasCell(p)
    requires match p case Head(g) => g == h case Next(x) => t.Belongs(x, h)
    ensures t.Put(p, v).OnlyBucket(t0, h)
  {
  }

  lemma WithinTransitive(a: seq<seq<int>>, b: seq<seq<int>>, c: seq<seq<int>>)
    requires Within(a, b) && Within(b, c)
    ensures Within(a, c)
  {
  }

  /** A slot of the right bucket is kept. */
  lemma KeepStep(t0: Table, chains0: seq<seq<int>>, t: Table, chains: seq<seq<int>>,
                 h: nat, done: seq<int>, rest: seq<int>, p: Cell)
    requires Checking(t0, chains0, t, chains, h, done, rest, p)
    requires rest != [] && t.Belongs(rest[0], h)
    ensures Checking(t0, chains0, t, chains, h, done + [rest[0]], rest[1..], Next(rest[0]))
  {
    assert done + rest == (done + [rest[0]]) + rest[1..];
    assert done + t0.Own(h, rest) == (done + [rest[0]]) + t0.Own(h, rest[1..]);
  }

  /** Bucket h has been checked: it holds exactly its own slots, in order, and is properly ended. */
  ghost predicate Checked(t0: Table, chains0: seq<seq<int>>, t: Table, chains: seq<seq<int>>, h: nat) {
    && t.Terminating(chains) && t.OnlyBucket(t0, h) && Within(chains, chains0)
    && h < |t.head| && t.CleanBucket(h, chains[h]) && chains[h] == t0.Own(h, chains0[h])
  }

  /** In other words. */
  lemma CheckedHolds(t0: Table, chains0: seq<seq<int>>, t: Table, chains: seq<seq<int>>, h: nat)
    requires Checked(t0, chains0, t, chains, h) && |t0.next| == |t0.ids|
    ensures Chain(t.head[h], t.next, chains[h])
    ensures forall x :: x in chains[h] <==> x in chains0[h] && t0.Belongs(x, h)
    ensures forall g :: 0 <= g < |t.head| && g != h ==> t.head[g] == t0.head[g]
    ensures forall x :: 0 <= x < |t.next| && t0.hash.bucketOf(t0.ids[x]) != h ==> t.next[x] == t0.next[x]
    ensures t.ids == t0.ids
  {
    OwnIsPure(t0, h, chains0[h]);
    forall x | 0 <= x < |t.next| && t0.hash.bucketOf(t0.ids[x]) != h
      ensures t.next[x] == t0.next[x]
    {
      assert !t.Belongs(x, h);
    }
  }

  /** The bucket is finished when its link leaves the table, once that link is made the end mark. */
  lemma FinishStep(t0: Table, chains0: seq<seq<int>>, t: Table, chains: seq<seq<int>>,
                   h: nat, done: seq<int>, rest: seq<int>, p: Cell)
    requires Checking(t0, chains0, t, chains, h, done, rest, p)
    requires t.HasCell(p) && !(0 <= t.Cell(p) < |t.next|)
    ensures Checked(t0, chains0, t.Put(p, END), chains, h)
    ensures t.Cell(p) == END ==> t.Put(p, END) == t
  {
    CellLinksRest(t0, chains0, t, chains, h, done, rest, p);
    assert done + rest == done;
    var t' := t.Put(p, END);
    if p.Next? {
      forall g | 0 <= g < |chains|
        ensures Stops(t.head[g], t'.next, chains[g])
      {
        EndKeepsChains(t.head[g], t.next, chains[g], p.x);
      }
      EndKeepsChains(t.head[h], t.next, chains[h], p.x);
    }
    assert t'.Pure(h, done) by {
      assert forall x :: t'.Belongs(x, h) <==> t.Belongs(x, h);
    }
  }

  /** Checking bucket h leaves the buckets already clean as they are. */
  lemma CleanBucketsStay(t: Table, t': Table, h: nat, g: nat, c: seq<int>, d: seq<int>)
    requires t.Sized() && t'.OnlyBucket(t, h) && g < |t.head| && g != h && t.CleanBucket(g, c)
    requires Stops(t'.head[g], t'.next, d)
    ensures d == c && t'.CleanBucket(g, c)
  {
    forall i | 0 <= i < |c|
      ensures t'.next[c[i]] == t.next[c[i]]
    {
      assert c[i] in c;
      assert t.Belongs(c[i], g);
      assert !t'.Belongs(c[i], h);
    }
    ChainFrame(t.head[g], t.next, t'.next, c);
    ChainUnique(t'.head[g], t'.next, c, d);
    assert forall x :: t'.Belongs(x, g) <==> t.Belongs(x, g);
  }

  // ---------------------------------------------------------------------------
  // The table that the repair leaves, as a function of the one it found.

  /** The slots own are linked one after the other, from cell p on, and the chain is ended. */
  ghost function LinkUp(t: Table, p: Cell, own: seq<int>): Table
    decreases |own|
  {
    if !t.HasCell(p) then t
    else if own == [] then t.Put(p, END)
    else LinkUp(t.Put(p, own[0]), Next(own[0]), own[1..])
  }

  /** What is left to do for bucket h, from cell p on, leads where the whole check leads. */
  ghost predicate Linking(t0: Table, c0: seq<int>, t: Table, h: nat, rest: seq<int>, p: Cell) {
    LinkUp(t, p, t0.Own(h, rest)) == LinkUp(t0, Head(h), t0.Own(h, c0))
  }

  /** Whatever cell p holds is written over. */
  lemma PutIsOverwritten(t: Table, p: Cell, v: int, own: seq<int>)
    requires t.HasCell(p)
    ensures LinkUp(t.Put(p, v), p, own) == LinkUp(t, p, own)
  {
    assert t.Put(p, v).HasCell(p);
    var w := if own == [] then END else own[0];
    match p
    case Head(h) => assert t.head[h := v][h := w] == t.head[h := w];
    case Next(x) => assert t.next[x := v][x := w] == t.next[x := w];
  }

  lemma LinkingUnlinks(t0: Table, c0: seq<int>, t: Table, h: nat, rest: seq<int>, p: Cell, v: int)
    requires Linking(t0, c0, t, h, rest, p) && t.HasCell(p) && rest != [] && !t0.Belongs(rest[0], h)
    ensures Linking(t0, c0, t.Put(p, v), h, rest[1..], p)
  {
    PutIsOverwritten(t, p, v, t0.Own(h, rest));
  }

  lemma LinkingKeeps(t0: Table, c0: seq<int>, t: Table, h: nat, rest: seq<int>, p: Cell)
    requires Linking(t0, c0, t, h, rest, p) && t.HasCell(p) && rest != [] && t0.Belongs(rest[0], h)
    requires t.Cell(p) == rest[0]
    ensures Linking(t0, c0, t, h, rest[1..], Next(rest[0]))
  {
    assert t.Put(p, rest[0]) == t;
    assert ([rest[0]] + t0.Own(h, rest[1..]))[1..] == t0.Own(h, rest[1..]);
  }

  lemma LinkingEnds(t0: Table, c0: seq<int>, t: Table, h: nat, p: Cell)
    requires Linking(t0, c0, t, h, [], p) && t.HasCell(p)
    ensures t.Put(p, END) == LinkUp(t0, Head(h), t0.Own(h, c0))
  {
  }

  /** checkhash of one bucket: what its chain, if it stops, holds of its own is linked up. */
  ghost function RepairBucket(t: Table, h: nat): Table
    requires h < |t.head|
  {
    if c :| Stops(t.head[h], t.next, c) then LinkUp(t, Head(h), t.Own(h, c)) else t
  }

  lemma RepairBucketIs(t: Table, h: nat, c: seq<int>)
    requires h < |t.head| && Stops(t.head[h], t.next, c)
    ensures RepairBucket(t, h) == LinkUp(t, Head(h), t.Own(h, c))
  {
    forall d | Stops(t.head[h], t.next, d)
      ensures d == c
    {
      ChainUnique(t.head[h], t.next, c, d);
    }
  }

  /** The first n buckets checked one after the other. */
  ghost function RepairedUpTo(t: Table, n: nat): Table {
    if n == 0 then t
    else
      var before := RepairedUpTo(t, n - 1);
      if n - 1 < |before.head| then RepairBucket(before, n - 1) else before
  }

  /** The repair of one bucket can cut a slot off from its own: where two buckets share the chain of
      slots 0 and 1, and each of them owns one slot, slot 1 is unlinked before its own bucket is looked
      at. */
  lemma RepairLosesExample()
    ensures var hash := Hash((s: string) => if s == ['x'] then 0 else 1, (s: string) => true);
            var ids := [['x'], ['y']];
            RepairedUpTo(Table(hash, [0, 0], [1, END], ids), 2) == Table(hash, [0, END], [END, END], ids)
  {
    var hash := Hash((s: string) => if s == ['x'] then 0 else 1, (s: string) => true);
    var ids := [['x'], ['y']];
    assert ['y'] != ['x'] by {
      assert ['y'][0] != ['x'][0];
    }
    var t := Table(hash, [0, 0], [1, END], ids);
    assert t.Own(0, [0, 1]) == [0] by {
      assert [0, 1][1..] == [1] && [1][1..] == [];
    }
    RepairBucketIs(t, 0, [0, 1]);
    var u := Table(hash, [0, 0], [END, END], ids);
    assert LinkUp(t.Put(Head(0), 0), Next(0), []) == u;
    assert RepairedUpTo(t, 1) == u by {
      assert RepairedUpTo(t, 0) == t && [0][1..] == [];
    }
    assert u.Own(1, [0]) == [] by {
      assert [0][1..] == [];
    }
    RepairBucketIs(u, 1, [0]);
  }

  /** There is only one way to read the chains of a table whose buckets are clean. */
  lemma CleanIsUnique(t: Table, chains: seq<seq<int>>, chains': seq<seq<int>>)
    requires t.Clean(chains) && t.Clean(chains')
    ensures chains == chains'
  {
    forall h | 0 <= h < |t.head|
      ensures chains[h] == chains'[h]
    {
      assert t.CleanBucket(h, chains[h]) && t.CleanBucket(h, chains'[h]);
      ChainUnique(t.head[h], t.next, chains[h], chains'[h]);
    }
  }

  /** The first n buckets have been checked, and no clean bucket has been touched. */
  ghost predicate PassedUpTo(t0: Table, chains0: seq<seq<int>>, t: Table, chains: seq<seq<int>>, n: nat) {
    && t.Sized() && t.Terminating(chains) && Within(chains, chains0) && n <= |t.head|
    && t.hash == t0.hash && t.ids == t0.ids && |t.head| == |t0.head| && |t.next| == |t0.next|
    && (forall h :: 0 <= h < n ==> t.CleanBucket(h, chains[h]))
    && (forall h :: 0 <= h < |t.head| && t0.CleanBucket(h, chains0[h]) ==>
          t.CleanBucket(h, chains[h]) && chains[h] == chains0[h])
  }

  lemma PassStep(t0: Table, chains0: seq<seq<int>>, t: Table, chains: seq<seq<int>>,
                 t': Table, chains': seq<seq<int>>, h: nat)
    requires PassedUpTo(t0, chains0, t, chains, h) && Checked(t, chains, t', chains', h)
    ensures PassedUpTo(t0, chains0, t', chains', h + 1)
  {
    forall g | 0 <= g < |t.head| && g != h && t.CleanBucket(g, chains[g])
      ensures t'.CleanBucket(g, chains'[g]) && chains'[g] == chains[g]
    {
      CleanBucketsStay(t, t', h, g, chains[g], chains'[g]);
    }
    OwnIsPure(t, h, chains[h]);
    forall g, y | 0 <= g < |chains'| && y in chains'[g]
      ensures y in chains0[g]
    {
      assert y in chains[g];
    }
  }

  // ---------------------------------------------------------------------------
  // Linking one slot.

  /** A resident id is taken to be unchanged if it agrees in the compared characters. */
  predicate Differs(resident: string, filed: string) {
    resident[..if |resident| < COMPARED then |resident| else COMPARED]
    != filed[..if |filed| < COMPARED then |filed| else COMPARED]
  }

  /** The comparison, character by character: eleven places, the ends of the ids included. */
  lemma DiffersIff(resident: string, filed: string)
    ensures !Differs(resident, filed) <==> Agree(resident, filed)
  {
    var a := resident[..if |resident| < COMPARED then |resident| else COMPARED];
    var b := filed[..if |filed| < COMPARED then |filed| else COMPARED];
    if Agree(resident, filed) {
      var k := Min(|a|, |b|);
      assert k < 11 ==> SamePlace(resident, filed, k);
      assert |a| == |b|;
      forall k | 0 <= k < |a|
        ensures a[k] == b[k]
      {
        assert SamePlace(resident, filed, k);
      }
    }
    if a == b {
      forall k | 0 <= k < 11
        ensures SamePlace(resident, filed, k)
      {
        if k < |a| {
          assert a[k] == b[k] && resident[k] == a[k] && filed[k] == b[k];
        }
      }
    }
  }

  /** Both ids have the same character at place k, or both have ended by then. */
  predicate SamePlace(a: string, b: string, k: nat) {
    (k < |a| <==> k < |b|) && (k < |a| && k < |b| ==> a[k] == b[k])
  }

  predicate Agree(a: string, b: string) {
    forall k :: 0 <= k < 11 ==> SamePlace(a, b, k)
  }

  /** Slot n goes to the end of bucket h, whose chain is c; the ids become ids'. */
  ghost function LinkLast(t: Table, h: nat, c: seq<int>, n: nat, ids': seq<string>): Table
    requires h < |t.head| && n < |t.next| && Path(t.head[h], t.next, c)
  {
    if c == [] then Table(t.hash, t.head[h := n], t.next[n := END], ids')
    else Table(t.hash, t.head, t.next[c[|c| - 1] := n][n := END], ids')
  }

  lemma LinkLastChain(t: Table, h: nat, c: seq<int>, n: nat, ids': seq<string>)
    requires h < |t.head| && n < |t.next| && Chain(t.head[h], t.next, c) && n !in c
    ensures var t' := LinkLast(t, h, c, n, ids');
            Chain(t'.head[h], t'.next, c + [n])
  {
    var t' := LinkLast(t, h, c, n, ids');
    ChainNoRepeat(t.head[h], t.next, c);
    var d := c + [n];
    forall i | 0 <= i < |d| - 1
      ensures t'.next[d[i]] == d[i + 1]
    {
      if i < |c| - 1 {
        assert t.next[c[i]] == c[i + 1];
      }
    }
  }

  /** Chains of other buckets that hold neither slot n nor the last slot of c are left as they are. */
  lemma LinkLastFrame(t: Table, h: nat, c: seq<int>, n: nat, ids': seq<string>, g: nat, d: seq<int>)
    requires h < |t.head| && n < |t.next| && Chain(t.head[h], t.next, c)
    requires g < |t.head| && g != h && Chain(t.head[g], t.next, d) && n !in d && forall x :: x in c ==> x !in d
    ensures var t' := LinkLast(t, h, c, n, ids');
            Chain(t'.head[g], t'.next, d)
  {
    var t' := LinkLast(t, h, c, n, ids');
    assert c != [] ==> c[|c| - 1] in c;
    forall i | 0 <= i < |d|
      ensures t'.next[d[i]] == t.next[d[i]]
    {
      assert d[i] in d;
    }
    ChainFrame(t.head[g], t.next, t'.next, d);
  }

  ghost predicate OnlyIdOf(t: Table, ids': seq<string>, n: nat) {
    n < |t.ids| == |ids'| && forall x :: 0 <= x < |ids'| && x != n ==> ids'[x] == t.ids[x]
  }

  ghost predicate Unlisted(chains: seq<seq<int>>, n: int) {
    forall g :: 0 <= g < |chains| ==> n !in chains[g]
  }

  function Position(c: seq<int>, n: int): (r: nat)
    requires n in c
    ensures r < |c| && c[r] == n && n !in c[..r]
  {
    if c[0] == n then 0 else 1 + Position(c[1..], n)
  }

  /** What becomes of a chain d once slot n is linked behind the last slot of c: it is cut off at n if
      it runs through it, and runs on to n if it shares its last slot with c. */
  ghost function Relink(d: seq<int>, c: seq<int>, n: int, own: bool): seq<int> {
    if n in d then d[..Position(d, n) + 1]
    else if own || (c != [] && d != [] && d[|d| - 1] == c[|c| - 1]) then d + [n]
    else d
  }

  lemma RelinkCuts(t: Table, h: nat, c: seq<int>, n: nat, ids': seq<string>, g: nat, d: seq<int>)
    requires h < |t.head| && n < |t.next| && Chain(t.head[h], t.next, c) && n !in c
    requires g < |t.head| && g != h && Chain(t.head[g], t.next, d) && n in d
    ensures var t' := LinkLast(t, h, c, n, ids');
            Chain(t'.head[g], t'.next, d[..Position(d, n) + 1])
  {
    var t', k := LinkLast(t, h, c, n, ids'), Position(d, n);
    var e := d[..k + 1];
    forall i | 0 <= i < |e| - 1
      ensures t'.next[e[i]] == e[i + 1]
    {
      assert d[i] == d[..k][i];
      assert t.next[d[i]] == d[i + 1];
    }
    assert e[|e| - 1] == n;
  }

  lemma RelinkExtends(t: Table, h: nat, c: seq<int>, n: nat, ids': seq<string>, g: nat, d: seq<int>)
    requires h < |t.head| && n < |t.next| && Chain(t.head[h], t.next, c)
    requires g < |t.head| && g != h && Chain(t.head[g], t.next, d) && n !in d
    requires c != [] && d != [] && d[|d| - 1] == c[|c| - 1]
    ensures var t' := LinkLast(t, h, c, n, ids');
            Chain(t'.head[g], t'.next, d + [n])
  {
    var t', e := LinkLast(t, h, c, n, ids'), d + [n];
    forall i | 0 <= i < |e| - 1
      ensures t'.next[e[i]] == e[i + 1]
    {
      assert d[i] in d;
      if i < |d| - 1 {
        assert t.next[d[i]] == d[i + 1];
      }
    }
  }

  lemma RelinkLeaves(t: Table, h: nat, c: seq<int>, n: nat, ids': seq<string>, g: nat, d: seq<int>)
    requires h < |t.head| && n < |t.next| && Chain(t.head[h], t.next, c)
    requires g < |t.head| && g != h && Chain(t.head[g], t.next, d) && n !in d
    requires c == [] || d == [] || d[|d| - 1] != c[|c| - 1]
    ensures var t' := LinkLast(t, h, c, n, ids');
            Chain(t'.head[g], t'.next, d)
  {
    var t' := LinkLast(t, h, c, n, ids');
    forall i | 0 <= i < |d|
      ensures t'.next[d[i]] == t.next[d[i]]
    {
      assert d[i] in d;
      if i < |d| - 1 {
        assert t.next[d[i]] == d[i + 1];
      }
    }
    ChainFrame(t.head[g], t.next, t'.next, d);
  }

  ghost function Relinked(chains: seq<seq<int>>, h: nat, n: int): (r: seq<seq<int>>)
    requires h < |chains|
    ensures |r| == |chains|
  {
    seq(|chains|, g requires 0 <= g < |chains| => Relink(chains[g], chains[h], n, g == h))
  }

  /** However its chains are entangled, a table whose chains end still has only chains that end when a
      slot is linked behind a chain that does not hold it. */
  lemma LinkLastEnds(t: Table, chains: seq<seq<int>>, h: nat, n: nat, ids': seq<string>)
    requires t.Ended(chains) && h < |t.head| && n < |t.next| && n !in chains[h]
    ensures LinkLast(t, h, chains[h], n, ids').Ended(Relinked(chains, h, n))
  {
    var t', c := LinkLast(t, h, chains[h], n, ids'), chains[h];
    forall g | 0 <= g < |t.head|
      ensures Chain(t'.head[g], t'.next, Relinked(chains, h, n)[g])
    {
      var d := chains[g];
      if g == h {
        LinkLastChain(t, h, c, n, ids');
      } else if n in d {
        RelinkCuts(t, h, c, n, ids', g, d);
      } else if c != [] && d != [] && d[|d| - 1] == c[|c| - 1] {
        RelinkExtends(t, h, c, n, ids', g, d);
      } else {
        RelinkLeaves(t, h, c, n, ids', g, d);
      }
    }
  }

  /** Slot n, whose id is now ids'[n], is linked at the end of bucket h. */
  lemma LinkLastClean(t: Table, chains: seq<seq<int>>, h: nat, n: nat, ids': seq<string>)
    requires t.Sized() && t.Clean(chains) && h < |t.head| && OnlyIdOf(t, ids', n)
    requires t.hash.bucketOf(ids'[n]) == h && Unlisted(chains, n)
    ensures LinkLast(t, h, chains[h], n, ids').Clean(chains[h := chains[h] + [n]])
  {
    var t', chains' := LinkLast(t, h, chains[h], n, ids'), chains[h := chains[h] + [n]];
    forall g | 0 <= g < |t'.head|
      ensures t'.CleanBucket(g, chains'[g])
    {
      assert t.CleanBucket(g, chains[g]) && t.CleanBucket(h, chains[h]);
      forall x | x in chains'[g]
        ensures t'.Belongs(x, g)
      {
        assert x != n ==> t.Belongs(x, g);
      }
      if g == h {
        LinkLastChain(t, h, chains[h], n, ids');
      } else {
        forall x | x in chains[h]
          ensures x !in chains[g]
        {
          assert t.Belongs(x, h) && !t.Belongs(x, g);
        }
        LinkLastFrame(t, h, chains[h], n, ids', g, chains[g]);
      }
    }
  }

  /** Linking slot n into a clean table keeps it clean if and only if n carries an id of that bucket
      and was linked nowhere before.  A slot whose id moved to another bucket while it was still
      linked in its old one, or an id that changed only beyond the compared characters, breaks the
      table. */
  lemma LinkLastCleanIff(t: Table, chains: seq<seq<int>>, h: nat, n: nat, ids': seq<string>)
    requires t.Sized() && t.Clean(chains) && h < |t.head| && OnlyIdOf(t, ids', n) && n !in chains[h]
    ensures LinkLast(t, h, chains[h], n, ids').CanBeClean()
            <==> t.hash.bucketOf(ids'[n]) == h && Unlisted(chains, n)
  {
    var t' := LinkLast(t, h, chains[h], n, ids');
    if t.hash.bucketOf(ids'[n]) == h && Unlisted(chains, n) {
      LinkLastClean(t, chains, h, n, ids');
    }
    if t'.CanBeClean() {
      var chains' :| t'.Clean(chains');
      assert t'.CleanBucket(h, chains'[h]) && t.CleanBucket(h, chains[h]);
      LinkLastChain(t, h, chains[h], n, ids');
      ChainUnique(t'.head[h], t'.next, chains'[h], chains[h] + [n]);
      assert n in chains'[h];
      assert t'.Belongs(n, h);
      forall g | 0 <= g < |chains|
        ensures n !in chains[g]
      {
        if n in chains[g] {
          assert t.CleanBucket(g, chains[g]) && t'.CleanBucket(g, chains'[g]);
          forall x | x in chains[h]
            ensures x !in chains[g]
          {
            assert t.Belongs(x, h) && !t.Belongs(x, g);
          }
          StillReached(t, h, chains[h], n, ids', g, chains[g], chains'[g]);
        }
      }
    }
  }

  /** A slot already linked in bucket g is still reached from there after it is linked in h as well. */
  lemma StillReached(t: Table, h: nat, c: seq<int>, n: nat, ids': seq<string>, g: nat, d: seq<int>, d': seq<int>)
    requires h < |t.head| && n < |t.next| && Chain(t.head[h], t.next, c) && n !in c
    requires g < |t.head| && Chain(t.head[g], t.next, d) && n in d && forall x :: x in c ==> x !in d
    requires var t' := LinkLast(t, h, c, n, ids'); Stops(t'.head[g], t'.next, d')
    ensures n in d'
  {
    var t' := LinkLast(t, h, c, n, ids');
    var k :| 0 <= k < |d| && d[k] == n;
    ChainNoRepeat(t.head[g], t.next, d);
    var e := d[..k + 1];
    forall i | 0 <= i < |e| - 1
      ensures t'.next[e[i]] == e[i + 1]
    {
      assert t.next[d[i]] == d[i + 1];
      assert d[i] in d && d[i] != d[k];
    }
    assert e[|e| - 1] == n;
    assert t'.head[g] == t.head[g] by {
      assert d[0] == t.head[g] && d[0] in d;
    }
    assert Stops(t'.head[g], t'.next, e);
    ChainUnique(t'.head[g], t'.next, d', e);
    assert n in e;
  }

  // ---------------------------------------------------------------------------
  // Which slots of the password file are admitted, and where they land.

  /** Records of invalid id among the first n. */
  function Invalid(hash: Hash, file: seq<string>, n: nat): nat
    requires n <= |file|
  {
    if n == 0 then 0 else Invalid(hash, file, n - 1) + if hash.isValid(file[n - 1]) then 0 else 1
  }

  /** Every record of valid id, and the first RESERVED of the others. */
  predicate Admitted(hash: Hash, file: seq<string>, n: nat)
    requires n < |file|
  {
    hash.isValid(file[n]) || Invalid(hash, file, n) < RESERVED
  }

  ghost function InvalidBelow(hash: Hash, file: seq<string>, n: nat): set<nat>
    requires n <= |file|
  {
    set k: nat | k < n && !hash.isValid(file[k])
  }

  lemma {:induction false} InvalidIs(hash: Hash, file: seq<string>, n: nat)
    requires n <= |file|
    ensures Invalid(hash, file, n) == |InvalidBelow(hash, file, n)|
  {
    if n > 0 {
      InvalidIs(hash, file, n - 1);
      var s := InvalidBelow(hash, file, n - 1);
      if hash.isValid(file[n - 1]) {
        assert InvalidBelow(hash, file, n) == s;
      } else {
        assert InvalidBelow(hash, file, n) == s + {n - 1};
      }
    } else {
      assert InvalidBelow(hash, file, 0) == {};
    }
  }

  /** A record is admitted if its id is valid, or if fewer than a thousand records in front of it are not. */
  lemma AdmittedIff(hash: Hash, file: seq<string>, n: nat)
    requires n < |file|
    ensures Admitted(hash, file, n)
            <==> hash.isValid(file[n]) || |set k: nat | k < n && !hash.isValid(file[k])| < 1000
  {
    InvalidIs(hash, file, n);
    assert InvalidBelow(hash, file, n) == set k: nat | k < n && !hash.isValid(file[k]);
  }

  ghost function AdmittedBelow(hash: Hash, file: seq<string>, n: nat): set<nat>
    requires n <= |file|
  {
    set k: nat | k < n && !hash.isValid(file[k]) && Admitted(hash, file, k)
  }

  lemma BelowNext(hash: Hash, file: seq<string>, n: nat)
    requires n < |file|
    ensures InvalidBelow(hash, file, n + 1) == InvalidBelow(hash, file, n) + (if hash.isValid(file[n]) then {} else {n})
    ensures AdmittedBelow(hash, file, n + 1)
         == AdmittedBelow(hash, file, n) + (if !hash.isValid(file[n]) && Admitted(hash, file, n) then {n} else {})
    ensures n !in InvalidBelow(hash, file, n) && n !in AdmittedBelow(hash, file, n)
  {
  }

  lemma {:induction false} AdmittedCount(hash: Hash, file: seq<string>, n: nat)
    requires n <= |file|
    ensures |AdmittedBelow(hash, file, n)| == Min(1000, |InvalidBelow(hash, file, n)|)
  {
    if n == 0 {
      assert AdmittedBelow(hash, file, 0) == {} && InvalidBelow(hash, file, 0) == {};
    } else {
      AdmittedCount(hash, file, n - 1);
      InvalidIs(hash, file, n - 1);
      BelowNext(hash, file, n - 1);
    }
  }

  /** Of the invalid ones, just the first thousand are admitted, or all, if there are not that many. */
  lemma ThousandAdmitted(hash: Hash, file: seq<string>, n: nat)
    requires n <= |file|
    ensures |set k: nat | k < n && !hash.isValid(file[k]) && Admitted(hash, file, k)|
         == Min(1000, |set k: nat | k < n && !hash.isValid(file[k])|)
  {
    AdmittedCount(hash, file, n);
    assert AdmittedBelow(hash, file, n) == set k: nat | k < n && !hash.isValid(file[k]) && Admitted(hash, file, k);
    assert InvalidBelow(hash, file, n) == set k: nat | k < n && !hash.isValid(file[k]);
  }

  /** The admitted slots below n that belong to bucket h and are not in base, in increasing order. */
  function Newcomers(hash: Hash, file: seq<string>, n: nat, h: nat, base: seq<int>): seq<int>
    requires n <= |file|
  {
    if n == 0 then []
    else if Admitted(hash, file, n - 1) && hash.bucketOf(file[n - 1]) == h && n - 1 !in base
    then Newcomers(hash, file, n - 1, h, base) + [n - 1]
    else Newcomers(hash, file, n - 1, h, base)
  }

  lemma {:induction false} NewcomersAre(hash: Hash, file: seq<string>, n: nat, h: nat, base: seq<int>, x: int)
    requires n <= |file|
    ensures x in Newcomers(hash, file, n, h, base) <==>
              0 <= x < n && Admitted(hash, file, x) && hash.bucketOf(file[x]) == h && x !in base
  {
    if n > 0 {
      NewcomersAre(hash, file, n - 1, h, base, x);
    }
  }

  ghost predicate Increasing(c: seq<int>) {
    forall i, j :: 0 <= i < j < |c| ==> c[i] < c[j]
  }

  /** They come in the order of the file. */
  lemma {:induction false} NewcomersInOrder(hash: Hash, file: seq<string>, n: nat, h: nat, base: seq<int>)
    requires n <= |file|
    ensures Increasing(Newcomers(hash, file, n, h, base))
  {
    if n > 0 {
      NewcomersInOrder(hash, file, n - 1, h, base);
      var c := Newcomers(hash, file, n - 1, h, base);
      forall i | 0 <= i < |c|
        ensures c[i] < n - 1
      {
        assert c[i] in c;
        NewcomersAre(hash, file, n - 1, h, base, c[i]);
      }
      LargestLast(c, n - 1);
    }
  }

  lemma LargestLast(c: seq<int>, x: int)
    requires Increasing(c) && forall i :: 0 <= i < |c| ==> c[i] < x
    ensures Increasing(c + [x])
  {
  }

  /** The id a slot has once its record has been entered. */
  function Resident(resident: string, filed: string, onfly: bool): string {
    if !onfly || Differs(resident, filed) then filed else resident
  }

  /** What the repair leaves in the chains: own slots only, and all of a clean bucket. */
  ghost predicate RepairedTo(t0: Table, chains0: seq<seq<int>>, mid: seq<seq<int>>) {
    && |mid| == |t0.head| && Within(mid, chains0)
    && (forall h :: 0 <= h < |mid| ==> t0.Pure(h, mid[h]))
    && (forall h :: 0 <= h < |mid| && t0.CleanBucket(h, chains0[h]) ==> mid[h] == chains0[h])
  }

  /** userec_add_to_uhash on slot n, when it is not skipped. */
  ghost function AddSlot(t: Table, chains: seq<seq<int>>, n: nat, id: string, onfly: bool): Table
    requires t.Sized() && t.Ended(chains) && n < |t.ids|
  {
    var h, ids' := t.hash.bucketOf(id), t.ids[n := Resident(t.ids[n], id, onfly)];
    if onfly && n in chains[h] then t.(ids := ids') else LinkLast(t, h, chains[h], n, ids')
  }

  /** The record of slot n can be entered on the fly: it hashes as the resident id did, or the slot is
      in no chain and takes over the id of the record. */
  ghost predicate Fits(hash: Hash, mid: seq<seq<int>>, ids: seq<string>, file: seq<string>, n: nat)
    requires n < |file| && n < |ids|
  {
    hash.bucketOf(ids[n]) == hash.bucketOf(file[n]) || (Differs(ids[n], file[n]) && Unlisted(mid, n))
  }

  ghost predicate AllFit(hash: Hash, mid: seq<seq<int>>, ids: seq<string>, file: seq<string>, n: nat, onfly: bool)
    requires n <= |file| && n <= |ids|
  {
    onfly ==> forall i :: 0 <= i < n && Admitted(hash, file, i) ==> Fits(hash, mid, ids, file, i)
  }

  /** The first n records have been entered over the ids ids0. */
  ghost predicate IdsEntered(t: Table, ids0: seq<string>, file: seq<string>, n: nat, onfly: bool) {
    && |t.ids| == |ids0| && n <= |file| && n <= |ids0|
    && (forall i :: 0 <= i < n && Admitted(t.hash, file, i) ==> t.ids[i] == Resident(ids0[i], file[i], onfly))
    && (forall i :: 0 <= i < n && !Admitted(t.hash, file, i) ==> t.ids[i] == ids0[i])
    && (forall i :: n <= i < |ids0| ==> t.ids[i] == ids0[i])
  }

  lemma IdsAgree(t: Table, ids0: seq<string>, file: seq<string>, n: nat, onfly: bool)
    requires IdsEntered(t, ids0, file, n, onfly)
    ensures forall i :: 0 <= i < n && Admitted(t.hash, file, i) ==>
              && Agree(t.ids[i], file[i])
              && t.ids[i] == if onfly && Agree(ids0[i], file[i]) then ids0[i] else file[i]
  {
    forall i | 0 <= i < n && Admitted(t.hash, file, i)
      ensures Agree(t.ids[i], file[i])
      ensures t.ids[i] == if onfly && Agree(ids0[i], file[i]) then ids0[i] else file[i]
    {
      assert t.ids[i] == Resident(ids0[i], file[i], onfly);
      DiffersIff(ids0[i], file[i]);
    }
  }

  /** The first n records of the file have been entered; mid is what the chains held before. */
  ghost predicate Filling(t: Table, chains: seq<seq<int>>, mid: seq<seq<int>>, file: seq<string>, n: nat, onfly: bool) {
    && t.Sized() && t.Clean(chains) && |mid| == |t.head| && n <= |file| && n <= |t.ids|
    && (forall h :: 0 <= h < |t.head| ==> chains[h] == mid[h] + Newcomers(t.hash, file, n, h, mid[h]))
    && (!onfly ==> forall h :: 0 <= h < |mid| ==> mid[h] == [])
  }

  /** A slot below n is found in a bucket it does not belong to. */
  ghost predicate Misplaced(t: Table, chains: seq<seq<int>>, n: nat) {
    exists m, g :: IsMisplaced(t, chains, n, m, g)
  }

  ghost predicate IsMisplaced(t: Table, chains: seq<seq<int>>, n: nat, m: int, g: int) {
    0 <= m < n && 0 <= g < |chains| && m in chains[g] && !t.Belongs(m, g)
  }

  lemma MisplacedIsNotClean(t: Table, chains: seq<seq<int>>, n: nat)
    requires t.Ended(chains) && Misplaced(t, chains, n)
    ensures !t.CanBeClean()
  {
    var m, g :| IsMisplaced(t, chains, n, m, g);
    if t.CanBeClean() {
      var clean :| t.Clean(clean);
      assert t.CleanBucket(g, clean[g]);
      ChainUnique(t.head[g], t.next, clean[g], chains[g]);
    }
  }

  lemma CleanIsEnded(t: Table, chains: seq<seq<int>>)
    requires t.Clean(chains)
    ensures t.Ended(chains)
  {
    forall h | 0 <= h < |t.head|
      ensures Chain(t.head[h], t.next, chains[h])
    {
      assert t.CleanBucket(h, chains[h]);
    }
  }

  /** Where slot n is before its own record is entered: where it was after the repair. */
  lemma ListedBefore(t: Table, chains: seq<seq<int>>, mid: seq<seq<int>>, file: seq<string>, n: nat, onfly: bool)
    requires Filling(t, chains, mid, file, n, onfly) && n < |file| && n < |t.ids|
    ensures forall g :: 0 <= g < |chains| ==> (n in chains[g] <==> n in mid[g])
    ensures forall g :: 0 <= g < |chains| && n in chains[g] ==> g == t.hash.bucketOf(t.ids[n])
  {
    forall g | 0 <= g < |chains|
      ensures n in chains[g] <==> n in mid[g]
      ensures n in chains[g] ==> g == t.hash.bucketOf(t.ids[n])
    {
      NewcomersAre(t.hash, file, n, g, mid[g], n);
      assert t.CleanBucket(g, chains[g]);
      if n in chains[g] {
        assert t.Belongs(n, g);
      }
    }
  }

  /** Slot n gets an id of the same bucket. */
  lemma RenameKeepsClean(t: Table, chains: seq<seq<int>>, n: nat, id: string)
    requires t.Clean(chains) && n < |t.ids| && t.hash.bucketOf(id) == t.hash.bucketOf(t.ids[n])
    ensures t.(ids := t.ids[n := id]).Clean(chains)
  {
    var t' := t.(ids := t.ids[n := id]);
    forall g | 0 <= g < |t.head|
      ensures t'.CleanBucket(g, chains[g])
    {
      assert t.CleanBucket(g, chains[g]);
      assert forall x :: t'.Belongs(x, g) <==> t.Belongs(x, g);
    }
  }

  ghost function ChainsAfter(t: Table, chains: seq<seq<int>>, mid: seq<seq<int>>, file: seq<string>,
        n: nat): seq<seq<int>>
    requires t.Sized() && |chains| == |mid| == |t.head| && n < |file|
  {
    var h := t.hash.bucketOf(file[n]);
    if n in mid[h] then chains else chains[h := chains[h] + [n]]
  }

  /** Entering one admitted record that fits. */
  lemma FillStep(t: Table, chains: seq<seq<int>>, mid: seq<seq<int>>, file: seq<string>, n: nat, onfly: bool)
    requires Filling(t, chains, mid, file, n, onfly) && n < |file| && n < |t.ids| && Admitted(t.hash, file, n)
    requires onfly ==> Fits(t.hash, mid, t.ids, file, n)
    ensures t.Ended(chains)
    ensures Filling(AddSlot(t, chains, n, file[n], onfly), ChainsAfter(t, chains, mid, file, n), mid, file,
          n + 1, onfly)
  {
    var h, id := t.hash.bucketOf(file[n]), Resident(t.ids[n], file[n], onfly);
    CleanIsEnded(t, chains);
    ListedBefore(t, chains, mid, file, n, onfly);
    if n in mid[h] {
      RenameKeepsClean(t, chains, n, id);
    } else {
      assert Unlisted(chains, n);
      LinkLastClean(t, chains, h, n, t.ids[n := id]);
      assert chains[h] + [n] == mid[h] + Newcomers(t.hash, file, n + 1, h, mid[h]);
    }
  }

  /** The chains after an admitted record has been entered on the fly into any table whose chains end. */
  ghost function AnyChainsAfter(t: Table, chains: seq<seq<int>>, id: string, n: nat): seq<seq<int>>
    requires t.Sized() && |chains| == |t.head|
  {
    var h := t.hash.bucketOf(id);
    if n in chains[h] then chains else Relinked(chains, h, n)
  }

  lemma AnyChainsEnd(t: Table, chains: seq<seq<int>>, id: string, n: nat)
    requires t.Sized() && t.Ended(chains) && n < |t.ids|
    ensures AddSlot(t, chains, n, id, true).Ended(AnyChainsAfter(t, chains, id, n))
  {
    var h := t.hash.bucketOf(id);
    if n !in chains[h] {
      LinkLastEnds(t, chains, h, n, t.ids[n := Resident(t.ids[n], id, true)]);
    }
  }

  /** A record that does not fit leaves its slot in a bucket where it does not belong. */
  lemma MisfitSpoils(t: Table, chains: seq<seq<int>>, mid: seq<seq<int>>, file: seq<string>, n: nat)
    requires Filling(t, chains, mid, file, n, true) && n < |file| && n < |t.ids| && t.Ended(chains)
    requires !Fits(t.hash, mid, t.ids, file, n)
    ensures Misplaced(AddSlot(t, chains, n, file[n], true), AnyChainsAfter(t, chains, file[n], n), n + 1)
  {
    var h, id := t.hash.bucketOf(file[n]), Resident(t.ids[n], file[n], true);
    var t', chains' := AddSlot(t, chains, n, file[n], true), AnyChainsAfter(t, chains, file[n], n);
    ListedBefore(t, chains, mid, file, n, true);
    assert n !in chains[h] && n in chains'[h];
    if t.hash.bucketOf(id) != h {
      assert IsMisplaced(t', chains', n + 1, n, h);
    } else {
      var g :| 0 <= g < |mid| && n in mid[g];
      assert n in chains[g] && n in chains'[g];
      assert IsMisplaced(t', chains', n + 1, n, g);
    }
  }

  /** A spoiled table stays spoiled: entering another record cuts a misplaced slot off only by
      misplacing its own. */
  lemma SpoiledStays(t: Table, chains: seq<seq<int>>, id: string, n: nat)
    requires t.Sized() && t.Ended(chains) && n < |t.ids| && Misplaced(t, chains, n)
    ensures Misplaced(AddSlot(t, chains, n, id, true), AnyChainsAfter(t, chains, id, n), n + 1)
  {
    var h := t.hash.bucketOf(id);
    var t', chains' := AddSlot(t, chains, n, id, true), AnyChainsAfter(t, chains, id, n);
    var m, g :| IsMisplaced(t, chains, n, m, g);
    if n in chains[h] {
      assert IsMisplaced(t', chains', n + 1, m, g);
    } else if k :| 0 <= k < |chains| && n in chains[k] {
      assert n in chains'[h] && n in chains'[k] && k != h;
      assert IsMisplaced(t', chains', n + 1, n, if t'.Belongs(n, h) then k else h);
    } else {
      assert m in chains'[g];
      assert IsMisplaced(t', chains', n + 1, m, g);
    }
  }

  /** A record that is skipped. */
  lemma SkipStep(t: Table, chains: seq<seq<int>>, mid: seq<seq<int>>, file: seq<string>, n: nat, onfly: bool)
    requires Filling(t, chains, mid, file, n, onfly) && n < |file| && n < |t.ids| && !Admitted(t.hash, file, n)
    ensures Filling(t, chains, mid, file, n + 1, onfly)
  {
  }

  /** The first n records have been entered into what the repair left.  If all of them fitted, the
      table is clean and complete; otherwise it is spoiled, but its chains still end. */
  ghost predicate Entering(t: Table, chains: seq<seq<int>>, mid: seq<seq<int>>, ids0: seq<string>,
                           file: seq<string>, n: nat, onfly: bool) {
    && t.Sized() && t.Ended(chains) && IdsEntered(t, ids0, file, n, onfly)
    && if AllFit(t.hash, mid, ids0, file, n, onfly) then Filling(t, chains, mid, file, n, onfly)
       else Misplaced(t, chains, n)
  }

  lemma EnteringStarts(t: Table, mid: seq<seq<int>>, file: seq<string>, onfly: bool)
    requires t.Sized() && t.Clean(mid) && (!onfly ==> forall h :: 0 <= h < |mid| ==> mid[h] == [])
    ensures Entering(t, mid, mid, t.ids, file, 0, onfly)
  {
    CleanIsEnded(t, mid);
    assert forall h :: 0 <= h < |mid| ==> mid[h] == mid[h] + Newcomers(t.hash, file, 0, h, mid[h]);
  }

  lemma AllFitNext(hash: Hash, mid: seq<seq<int>>, ids: seq<string>, file: seq<string>, n: nat, onfly: bool)
    requires n < |file| && n < |ids|
    ensures AllFit(hash, mid, ids, file, n + 1, onfly)
            <==> AllFit(hash, mid, ids, file, n, onfly) && (onfly && Admitted(hash, file, n) ==>
                  Fits(hash, mid, ids, file, n))
  {
  }

  lemma EnterStep(t: Table, chains: seq<seq<int>>, mid: seq<seq<int>>, ids0: seq<string>,
                  file: seq<string>, n: nat, onfly: bool) returns (chains': seq<seq<int>>)
    requires Entering(t, chains, mid, ids0, file, n, onfly) && n < |file| && n < |ids0| && Admitted(t.hash, file, n)
    ensures Entering(AddSlot(t, chains, n, file[n], onfly), chains', mid, ids0, file, n + 1, onfly)
  {
    AllFitNext(t.hash, mid, ids0, file, n, onfly);
    var t' := AddSlot(t, chains, n, file[n], onfly);
    assert IdsEntered(t', ids0, file, n + 1, onfly);
    if AllFit(t.hash, mid, ids0, file, n + 1, onfly) {
      FillStep(t, chains, mid, file, n, onfly);
      chains' := ChainsAfter(t, chains, mid, file, n);
      CleanIsEnded(t', chains');
    } else {
      chains' := AnyChainsAfter(t, chains, file[n], n);
      AnyChainsEnd(t, chains, file[n], n);
      if AllFit(t.hash, mid, ids0, file, n, onfly) {
        MisfitSpoils(t, chains, mid, file, n);
      } else {
        SpoiledStays(t, chains, file[n], n);
      }
    }
  }

  lemma EnterSkips(t: Table, chains: seq<seq<int>>, mid: seq<seq<int>>, ids0: seq<string>,
                   file: seq<string>, n: nat, onfly: bool)
    requires Entering(t, chains, mid, ids0, file, n, onfly) && n < |file| && n < |ids0| && !Admitted(t.hash, file, n)
    ensures Entering(t, chains, mid, ids0, file, n + 1, onfly)
  {
    AllFitNext(t.hash, mid, ids0, file, n, onfly);
    if AllFit(t.hash, mid, ids0, file, n, onfly) {
      SkipStep(t, chains, mid, file, n, onfly);
    } else {
      var m, g :| IsMisplaced(t, chains, n, m, g);
      assert IsMisplaced(t, chains, n + 1, m, g);
    }
  }

  /** After the last record the table is clean if and only if every admitted record fitted. */
  lemma EnteredCleanIff(t: Table, chains: seq<seq<int>>, mid: seq<seq<int>>, ids0: seq<string>,
                        file: seq<string>, n: nat, onfly: bool)
    requires Entering(t, chains, mid, ids0, file, n, onfly)
    ensures t.CanBeClean() <==> AllFit(t.hash, mid, ids0, file, n, onfly)
  {
    if !AllFit(t.hash, mid, ids0, file, n, onfly) {
      MisplacedIsNotClean(t, chains, n);
    }
  }

  lemma PassedIsRepaired(t0: Table, chains0: seq<seq<int>>, t: Table, mid: seq<seq<int>>)
    requires PassedUpTo(t0, chains0, t, mid, |t.head|)
    ensures RepairedTo(t0, chains0, mid)
  {
    forall h | 0 <= h < |mid|
      ensures t0.Pure(h, mid[h])
    {
      assert t.CleanBucket(h, mid[h]);
      assert forall x :: t.Belongs(x, h) <==> t0.Belongs(x, h);
    }
  }

  /** Records over matching ids always fit. */
  lemma MatchingIdsFit(hash: Hash, mid: seq<seq<int>>, ids: seq<string>, file: seq<string>, n: nat)
    requires n <= |file| && n <= |ids|
    requires forall i :: 0 <= i < n && Admitted(hash, file, i) ==> ids[i] == file[i]
    ensures AllFit(hash, mid, ids, file, n, true)
  {
  }

  /** A user renamed from x to y while still linked in the bucket of x spoils the table. */
  lemma RenamedExample()
    ensures var hash := Hash((s: string) => if s == ['y'] then 1 else 0, (s: string) => true);
            var t := Table(hash, [0, END], [END], [['x']]);
            t.Sized() && t.Clean([[0], []]) && !AddSlot(t, [[0], []], 0, ['y'], true).CanBeClean()
  {
    var hash := Hash((s: string) => if s == ['y'] then 1 else 0, (s: string) => true);
    var t, chains := Table(hash, [0, END], [END], [['x']]), [[0], []];
    assert t.CleanBucket(0, [0]) && t.CleanBucket(1, []);
    assert t.Clean(chains);
    assert ['x'] != ['y'] by {
      assert ['x'][0] != ['y'][0];
    }
    assert 0 in chains[0];
    LinkLastCleanIff(t, chains, 1, 0, [['y']]);
    assert t.ids[0 := Resident(['x'], ['y'], true)] == [['y']];
  }

  /** The records a second reload from the same file can put right: all but those that share the
      compared characters with the resident id and hash differently. */
  ghost predicate Repairable(hash: Hash, ids: seq<string>, file: seq<string>, n: nat)
    requires n <= |file| && n <= |ids|
  {
    forall i :: 0 <= i < n && Admitted(hash, file, i) ==>
      Differs(ids[i], file[i]) || hash.bucketOf(ids[i]) == hash.bucketOf(file[i])
  }

  /** An id whose twelfth character alone changed is not compared that far, and may hash differently. */
  lemma TwelfthCharacterExample(same: string, x: char, y: char, hash: Hash)
    requires |same| == COMPARED && hash.isValid(same + [y])
    requires hash.bucketOf(same + [x]) != hash.bucketOf(same + [y])
    ensures !Differs(same + [x], same + [y]) && !Repairable(hash, [same + [x]], [same + [y]], 1)
  {
    assert (same + [x])[..COMPARED] == same && (same + [y])[..COMPARED] == same;
    var ids, file := [same + [x]], [same + [y]];
    assert Admitted(hash, file, 0);
    assert ids[0] == same + [x] && file[0] == same + [y];
  }

  lemma SecondTimeFits(t: Table, mid: seq<seq<int>>, ids0: seq<string>, file: seq<string>, n: nat)
    requires IdsEntered(t, ids0, file, n, true)
    ensures AllFit(t.hash, mid, t.ids, file, n, true) <==> Repairable(t.hash, ids0, file, n)
  {
    forall i | 0 <= i < n && Admitted(t.hash, file, i)
      ensures Fits(t.hash, mid, t.ids, file, i)
              <==> Differs(ids0[i], file[i]) || t.hash.bucketOf(ids0[i]) == t.hash.bucketOf(file[i])
    {
      assert t.ids[i] == Resident(ids0[i], file[i], true);
    }
  }

  /** What a filled table is good for: every admitted record is found in its own bucket, in no other,
      and once; in a fresh table nothing else is found. */
  lemma FilledFinds(t: Table, chains: seq<seq<int>>, mid: seq<seq<int>>, file: seq<string>, n: nat, onfly: bool, x: nat)
    requires Filling(t, chains, mid, file, n, onfly) && x < n
    ensures Admitted(t.hash, file, x) ==>
              var h := t.hash.bucketOf(file[x]);
              && x in chains[h] && NoRepeat(chains[h])
              && forall g :: 0 <= g < |chains| && x in chains[g] ==> g == h
    ensures !onfly && !Admitted(t.hash, file, x) ==> Unlisted(chains, x)
  {
    forall g | 0 <= g < |chains|
      ensures x in chains[g] ==> NoRepeat(chains[g])
      ensures x in chains[g] <==> x in mid[g] || (Admitted(t.hash, file, x) && t.hash.bucketOf(file[x]) == g)
    {
      NewcomersAre(t.hash, file, n, g, mid[g], x);
      if x in chains[g] {
        CleanReachesOnce(t, chains, g, g, x);
      }
    }
    if Admitted(t.hash, file, x) {
      forall g | 0 <= g < |chains| && x in chains[g]
        ensures g == t.hash.bucketOf(file[x])
      {
        CleanReachesOnce(t, chains, g, t.hash.bucketOf(file[x]), x);
      }
    }
  }

  // ---------------------------------------------------------------------------
  // The hash itself.

  class UHash {
    const hash: Hash
    const head: array<int>      // hash_head
    const next: array<int>      // next_in_hash
    const userid: array<string>
    var number: nat

    constructor (hash: Hash, nBuckets: nat, maxUsers: nat)
      requires forall s :: hash.bucketOf(s) < nBuckets
      ensures Tab().Sized() && head != next && fresh(head) && fresh(next) && fresh(userid)
      ensures this.hash == hash && head.Length == nBuckets && next.Length == maxUsers
    {
      this.hash := hash;
      head := new int[nBuckets];
      next := new int[maxUsers];
      userid := new string[maxUsers](_ => "");
      number := 0;
    }

    ghost function Tab(): Table
      reads head, next, userid
    {
      Table(hash, head[..], next[..], userid[..])
    }

    method Read(p: Cell) returns (v: int)
      requires Tab().HasCell(p)
      ensures v == Tab().Cell(p)
    {
      match p
      case Head(h) => v := head[h];
      case Next(x) => v := next[x];
    }

    method Write(p: Cell, v: int)
      requires head != next && Tab().HasCell(p)
      modifies head, next
      ensures Tab() == old(Tab()).Put(p, v)
    {
      match p
      case Head(h) => head[h] := v;
      case Next(x) => next[x] := v;
      assert Tab().head == old(Tab()).Put(p, v).head;
      assert Tab().next == old(Tab()).Put(p, v).next;
    }

    /** One turn of the loop in checkhash, on a link that is a slot. */
    method CheckOne(h: nat, p: Cell, v: int, ghost t0: Table, ghost chains0: seq<seq<int>>,
                    ghost chains: seq<seq<int>>, ghost done: seq<int>, ghost rest: seq<int>)
      returns (p': Cell, ghost chains': seq<seq<int>>, ghost done': seq<int>)
      requires head != next && Checking(t0, chains0, Tab(), chains, h, done, rest, p)
      requires rest != [] && v == rest[0] && 0 <= v < next.Length && Tab().HasCell(p)
      requires h < |chains0| && Linking(t0, chains0[h], Tab(), h, rest, p) && v == Tab().Cell(p)
      modifies head, next
      ensures Checking(t0, chains0, Tab(), chains', h, done', rest[1..], p')
      ensures Linking(t0, chains0[h], Tab(), h, rest[1..], p')
    {
      if hash.bucketOf(userid[v]) != h {
        LinkingUnlinks(t0, chains0[h], Tab(), h, rest, p, next[v]);
        UnlinkStep(t0, chains0, Tab(), chains, h, done, rest, p);
        Write(p, next[v]);
        p', chains', done' := p, Unlinked(chains, h, rest, p), done;
      } else {
        KeepStep(t0, chains0, Tab(), chains, h, done, rest, p);
        LinkingKeeps(t0, chains0[h], Tab(), h, rest, p);
        p', chains', done' := Next(v), chains, done + [rest[0]];
      }
    }

    /** checkhash: bucket h keeps exactly its own slots, in order, and is properly ended.  Links are
        rewritten only in the head of h and in slots that belong to h. */
    method CheckHash(h: nat, ghost chains0: seq<seq<int>>) returns (ghost chains: seq<seq<int>>)
      requires head != next && Tab().Sized() && h < head.Length && Tab().Terminating(chains0)
      modifies head, next
      ensures Checked(old(Tab()), chains0, Tab(), chains, h) && Tab() == RepairBucket(old(Tab()), h)
    {
      RepairBucketIs(Tab(), h, chains0[h]);
      ghost var t0 := Tab();
      ghost var done, rest := [], chains0[h];
      chains := chains0;
      CheckStarts(t0, chains0, h);
      var p := Head(h);
      var v := head[h];
      while v != END
        invariant Checking(t0, chains0, Tab(), chains, h, done, rest, p)
        invariant Tab().HasCell(p) && v == Tab().Cell(p) && Linking(t0, chains0[h], Tab(), h, rest, p)
        decreases |rest|
      {
        CellLinksRest(t0, chains0, Tab(), chains, h, done, rest, p);
        if v < END || v >= next.Length {
          LinkingEnds(t0, chains0[h], Tab(), h, p);
          FinishStep(t0, chains0, Tab(), chains, h, done, rest, p);
          Write(p, END);
          return;
        }
        p, chains, done := CheckOne(h, p, v, t0, chains0, chains, done, rest);
        rest := rest[1..];
        CellLinksRest(t0, chains0, Tab(), chains, h, done, rest, p);
        v := Read(p);
      }
      CellLinksRest(t0, chains0, Tab(), chains, h, done, rest, p);
      LinkingEnds(t0, chains0[h], Tab(), h, p);
      FinishStep(t0, chains0, Tab(), chains, h, done, rest, p);
    }

    /** The first loop of fill_uhash on the fly. */
    method CheckAll(ghost chains0: seq<seq<int>>) returns (ghost chains: seq<seq<int>>)
      requires head != next && Tab().Sized() && Tab().Terminating(chains0)
      modifies head, next
      ensures PassedUpTo(old(Tab()), chains0, Tab(), chains, head.Length)
      ensures Tab() == RepairedUpTo(old(Tab()), head.Length)
    {
      ghost var t0 := Tab();
      chains := chains0;
      for h := 0 to head.Length
        invariant PassedUpTo(t0, chains0, Tab(), chains, h) && Tab() == RepairedUpTo(t0, h)
      {
        ghost var t, before := Tab(), chains;
        chains := CheckHash(h, before);
        PassStep(t0, chains0, t, before, Tab(), chains, h);
      }
    }

    /** userec_add_to_uhash for slot n; count is the number of invalid ids seen so far. */
    method AddToUhash(n: nat, id: string, onfly: bool, count: nat, ghost chains: seq<seq<int>>) returns (count': nat)
      requires head != next && Tab().Sized() && Tab().Ended(chains) && n < userid.Length
      modifies head, next, userid
      ensures count' == count + if hash.isValid(id) then 0 else 1
      ensures Tab() == if !hash.isValid(id) &&
            count >= RESERVED then old(Tab()) else AddSlot(old(Tab()), chains, n, id, onfly)
    {
      count' := count;
      if !hash.isValid(id) {
        count' := count' + 1;
        if count' > RESERVED {
          return;
        }
      }
      var h := hash.bucketOf(id);
      ghost var t0 := Tab();
      ghost var c := chains[h];
      if !onfly || Differs(userid[n], id) {
        userid[n] := id;
      }
      ghost var ids' := userid[..];
      var p := FindCell(h, n, onfly, c);
      if p.None? {
        return;
      }
      Write(p.value, n);
      Write(Next(n), END);
      assert Tab() == LinkLast(t0, h, c, n, ids');
    }

    /** The walk along bucket h: to the end, or until slot n is met on the fly. */
    method FindCell(h: nat, n: nat, onfly: bool, ghost c: seq<int>) returns (p: Option<Cell>)
      requires h < head.Length && Chain(head[h], next[..], c)
      ensures p == if onfly && n in c then None else Some(LinkCell(h, c))
      ensures p.Some? ==> Tab().HasCell(p.value)
    {
      var cell := Head(h);
      var v := head[h];
      ghost var k := 0;
      while v != END
        invariant 0 <= k <= |c| && cell == LinkCell(h, c[..k]) && Tab().HasCell(cell) && v == Tab().Cell(cell)
        invariant v == if k < |c| then c[k] else END
        invariant onfly ==> n !in c[..k]
        decreases |c| - k
      {
        if onfly && v == n {
          return None;
        }
        assert c[..k + 1] == c[..k] + [c[k]];
        assert k + 1 < |c| ==> next[..][c[k]] == c[k + 1];
        assert k + 1 == |c| ==> next[..][c[k]] == END;
        cell := Next(v);
        v := next[v];
        k := k + 1;
      }
      assert c[..|c|] == c;
      p := Some(cell);
    }

    /** The first loop of fill_uhash: repair every bucket, or empty them all. */
    method Prepare(onfly: bool, ghost chains0: seq<seq<int>>) returns (ghost mid: seq<seq<int>>)
      requires head != next && Tab().Sized() && (onfly ==> Tab().Terminating(chains0))
      modifies head, next
      ensures Tab().Sized() && Tab().Clean(mid)
      ensures onfly ==> PassedUpTo(old(Tab()), chains0, Tab(), mid, head.Length)
      ensures onfly ==> Tab() == RepairedUpTo(old(Tab()), head.Length)
      ensures !onfly ==> forall h :: 0 <= h < |mid| ==> mid[h] == []
    {
      if onfly {
        mid := CheckAll(chains0);
      } else {
        for h := 0 to head.Length
          invariant forall g :: 0 <= g < h ==> head[g] == END
          modifies head
        {
          head[h] := END;
        }
        mid := seq(head.Length, _ => []);
        assert forall h :: 0 <= h < head.Length ==> Tab().CleanBucket(h, mid[h]);
      }
    }

    /** One turn of the second loop of fill_uhash. */
    method EnterOne(n: nat, file: seq<string>, onfly: bool, count: nat, ghost mid: seq<seq<int>>,
                    ghost chains: seq<seq<int>>, ghost ids0: seq<string>)
      returns (count': nat, ghost chains': seq<seq<int>>)
      requires head != next && Entering(Tab(), chains, mid, ids0, file, n, onfly) && n < |file| && n < userid.Length
      requires count == Invalid(hash, file, n)
      modifies head, next, userid
      ensures Entering(Tab(), chains', mid, ids0, file, n + 1, onfly) && count' == Invalid(hash, file, n + 1)
    {
      ghost var t := Tab();
      count' := AddToUhash(n, file[n], onfly, count, chains);
      chains' := chains;
      if Admitted(hash, file, n) {
        chains' := EnterStep(t, chains, mid, ids0, file, n, onfly);
      } else {
        EnterSkips(t, chains, mid, ids0, file, n, onfly);
      }
    }

    /** fill_uhash, over any resident ids and any chains that stop.  From scratch the table then holds
        exactly the admitted records.  On the fly the chains are first repaired, then every admitted
        record is entered that is not listed yet; the result is clean if and only if each of them
        fitted. */
    method FillUhash(file: seq<string>, onfly: bool, ghost chains0: seq<seq<int>>)
      returns (ghost mid: seq<seq<int>>, ghost chains: seq<seq<int>>)
      requires head != next && Tab().Sized()
      requires onfly ==> Tab().Terminating(chains0)
      modifies this, head, next, userid
      ensures number == if |file| > userid.Length then userid.Length else |file|
      ensures Tab().Sized() && Tab().Ended(chains) && IdsEntered(Tab(), old(userid[..]), file, number, onfly)
      ensures forall n :: 0 <= n < number && Admitted(hash, file, n) ==>
                && Agree(userid[n], file[n])
                && userid[n] == if onfly && Agree(old(userid[n]), file[n]) then old(userid[n]) else file[n]
      ensures forall n :: 0 <= n < userid.Length && (n >= number || !Admitted(hash, file, n)) ==>
                userid[n] == old(userid[n])
      ensures onfly ==> RepairedUpTo(old(Tab()), head.Length).Clean(mid) && RepairedTo(old(Tab()), chains0, mid)
      ensures !onfly ==> mid == seq(head.Length, _ => [])
      ensures Tab().CanBeClean() <==> AllFit(hash, mid, old(userid[..]), file, number, onfly)
      ensures Tab().CanBeClean() ==> Filling(Tab(), chains, mid, file, number, onfly)
    {
      ghost var ids0 := userid[..];
      mid := Prepare(onfly, chains0);
      if onfly {
        PassedIsRepaired(old(Tab()), chains0, Tab(), mid);
      }
      EnteringStarts(Tab(), mid, file, onfly);
      var fd := |file|;
      if fd > userid.Length {
        fd := userid.Length;
      }
      chains := EnterAll(fd, file, onfly, mid, ids0);
      EnteredCleanIff(Tab(), chains, mid, ids0, file, fd, onfly);
      IdsAgree(Tab(), ids0, file, fd, onfly);
      number := fd;
    }

    /** The second loop of fill_uhash. */
    method EnterAll(fd: nat, file: seq<string>, onfly: bool, ghost mid: seq<seq<int>>, ghost ids0: seq<string>)
      returns (ghost chains: seq<seq<int>>)
      requires head != next && fd <= |file| && fd <= userid.Length
      requires Entering(Tab(), mid, mid, ids0, file, 0, onfly)
      modifies head, next, userid
      ensures Entering(Tab(), chains, mid, ids0, file, fd, onfly)
    {
      chains := mid;
      var count := 0;
      for n := 0 to fd
        invariant count == Invalid(hash, file, n)
        invariant Entering(Tab(), chains, mid, ids0, file, n, onfly)
        modifies head, next, userid
      {
        count, chains := EnterOne(n, file, onfly, count, mid, chains, ids0);
      }
    }

    /** Two reloads from the same file.  What the first one spoiled the second one repairs: the table is
        clean if and only if every record that left its resident id in place hashes as that id does. */
    method ReloadTwice(file: seq<string>, ghost chains0: seq<seq<int>>)
      requires head != next && Tab().Sized() && Tab().Terminating(chains0)
      modifies this, head, next, userid
      ensures number == if |file| > userid.Length then userid.Length else |file|
      ensures Tab().CanBeClean() <==> Repairable(hash, old(userid[..]), file, number)
    {
      ghost var mid, chains := FillUhash(file, true, chains0);
      ghost var t := Tab();
      ghost var mid', chains' := FillUhash(file, true, chains);
      SecondTimeFits(t, mid', old(userid[..]), file, number);
    }
  }
}
