/** The additive-feedback random generator of common/diet/random.c: a circular table of words with a
    front and a rear pointer, whose position is packed into the word in front of the table whenever
    the generator is put aside. */
module Random {
  import opened Basics

  const MAX_TYPES := 5
  const WORD := 0x1_0000_0000
  const MODULUS := 2147483647   // 2^31 - 1
  const MULTIPLIER := 16807

  // random_poly_info
  function Deg(kind: nat): nat {
    if kind == 1 then 7 else if kind == 2 then 15 else if kind == 3 then 31 else if kind == 4 then 63 else 0
  }

  function Sep(kind: nat): nat {
    if kind == 1 then 3 else if kind == 2 then 1 else if kind == 3 then 3 else if kind == 4 then 1 else 0
  }

  /** Words of state behind the header. */
  function TableSize(kind: nat): nat {
    if kind == 0 then 1 else Deg(kind)
  }

  // ---------------------------------------------------------------------------
  // Seeding: a linear congruential sequence without overflow.

  /** One turn of the filling loop, the division and remainder of a nonnegative long. */
  function Schrage(word: int): int {
    var w := MULTIPLIER * (word % 127773) - 2836 * (word / 127773);
    if w < 0 then w + MODULUS else w
  }

  /** It multiplies by 16807 modulo 2^31 - 1, and nothing on the way exceeds 31 bits in magnitude. */
  lemma SchrageMultiplies(word: nat)
    requires word < WORD
    ensures 0 <= Schrage(word) < MODULUS
    ensures Schrage(word) == MULTIPLIER * word % MODULUS
    ensures MULTIPLIER * (word % 127773) < 0x8000_0000 && 2836 * (word / 127773) < 0x8000_0000
  {
    var hi, lo := word / 127773, word % 127773;
    var w := MULTIPLIER * lo - 2836 * hi;
    assert word == 127773 * hi + lo;
    assert MULTIPLIER * word == MODULUS * hi + w;
    if w < 0 {
      ModIs(MULTIPLIER * word, hi - 1, w + MODULUS);
    } else {
      ModIs(MULTIPLIER * word, hi, w);
    }
  }

  lemma ModIs(x: int, q: int, r: int)
    requires x == MODULUS * q + r && 0 <= r < MODULUS
    ensures x % MODULUS == r
  {
  }

  function Pow(b: nat, e: nat): nat {
    if e == 0 then 1 else b * Pow(b, e - 1)
  }

  lemma ModMul(a: nat, b: nat)
    ensures a * (b % MODULUS) % MODULUS == a * b % MODULUS
  {
    var q, r := b / MODULUS, b % MODULUS;
    assert b == MODULUS * q + r;
    var q', r' := a * r / MODULUS, a * r % MODULUS;
    assert a * b == MODULUS * (a * q) + a * r;
    assert a * b == MODULUS * (a * q + q') + r';
    ModIs(a * b, a * q + q', r');
  }

  /** The table after the filling loop. */
  function Filled(seed: nat, n: nat): (r: seq<int>)
    ensures |r| == n + 1 && r[0] == seed
  {
    if n == 0 then [seed] else var s := Filled(seed, n - 1); s + [Schrage(s[n - 1])]
  }

  ghost predicate LehmerWord(seed: nat, i: nat, x: int) {
    && 0 <= x < WORD
    && (i == 0 ==> x == seed)
    && (i > 0 ==> x == Pow(MULTIPLIER, i) * seed % MODULUS && (x == 0 <==> seed % MODULUS == 0))
  }

  /** Word i of the table is 16807^i times the seed, modulo 2^31 - 1; words are zero only for seeds
      that are multiples of the modulus. */
  lemma {:induction false} FilledIsPower(seed: nat, n: nat)
    requires seed < WORD
    ensures forall i :: 0 <= i <= n ==> LehmerWord(seed, i, Filled(seed, n)[i])
  {
    if n > 0 {
      FilledIsPower(seed, n - 1);
      var before := Filled(seed, n - 1);
      NextLehmerWord(seed, n, before[n - 1]);
      assert forall i :: 0 <= i < n ==> Filled(seed, n)[i] == before[i];
    }
  }

  lemma NextLehmerWord(seed: nat, n: nat, x: int)
    requires n > 0 && seed < WORD && LehmerWord(seed, n - 1, x)
    ensures LehmerWord(seed, n, Schrage(x))
  {
    SchrageMultiplies(x);
    NonZeroStays(x);
    if n == 1 {
      PowOne(MULTIPLIER);
    } else {
      PowerStep(seed, n, x);
      SmallModulus(x);
    }
  }

  lemma PowOne(b: nat)
    ensures Pow(b, 1) == b
  {
    assert Pow(b, 0) == 1;
  }

  lemma SmallModulus(x: int)
    requires 0 <= x < MODULUS
    ensures x % MODULUS == x
  {
  }

  lemma PowerStep(seed: nat, n: nat, x: int)
    requires n > 0 && x == Pow(MULTIPLIER, n - 1) * seed % MODULUS
    ensures MULTIPLIER * x % MODULUS == Pow(MULTIPLIER, n) * seed % MODULUS
  {
    var p := Pow(MULTIPLIER, n - 1);
    ModMul(MULTIPLIER, p * seed);
    assert MULTIPLIER * (p * seed) == Pow(MULTIPLIER, n) * seed;
  }

  lemma {:induction false} FilledExtends(seed: nat, m: nat, n: nat)
    requires 0 < m <= n
    ensures Filled(seed, n)[m] == Schrage(Filled(seed, n)[m - 1])
  {
    if m < n {
      FilledExtends(seed, m, n - 1);
    }
  }

  /** 16807 has the inverse 1407677000 modulo 2^31 - 1. */
  lemma NonZeroStays(x: nat)
    ensures MULTIPLIER * x % MODULUS == 0 <==> x % MODULUS == 0
  {
    ModMul(MULTIPLIER, x);
    if MULTIPLIER * x % MODULUS == 0 {
      var q := MULTIPLIER * x / MODULUS;
      assert MULTIPLIER * x == MODULUS * q;
      assert 1407677000 * MULTIPLIER == MODULUS * 11017 + 1;
      assert 1407677000 * (MULTIPLIER * x) == MODULUS * (11017 * x) + x;
      assert x == MODULUS * (1407677000 * q - 11017 * x);
      ModIs(x, 1407677000 * q - 11017 * x, 0);
    }
  }

  // ---------------------------------------------------------------------------
  // The circular table of any degree: a rear pointer, and a front pointer sep places ahead of it.

  ghost predicate IsCircle(table: seq<int>, rear: nat, sep: nat) {
    0 < sep < |table| && rear < |table| && forall i :: 0 <= i < |table| ==> 0 <= table[i] < WORD
  }

  function Front(rear: nat, sep: nat, deg: nat): nat {
    Wrap(rear + sep, deg)
  }

  /** The word at the front pointer becomes the sum of both, and both pointers move on. */
  function Turn(table: seq<int>, rear: nat, sep: nat): (r: (seq<int>, nat, int))
    requires IsCircle(table, rear, sep)
    ensures IsCircle(r.0, r.1, sep) && |r.0| == |table|
  {
    var f := Front(rear, sep, |table|);
    var val := (table[f] + table[rear]) % WORD;
    (table[f := val], Wrap(rear + 1, |table|), val)
  }

  /** The front pointer and the rear pointer never wrap in the same call. */
  lemma NeverWrapTogether(rear: nat, sep: nat, deg: nat)
    requires 0 < sep < deg && rear < deg
    ensures Front(Wrap(rear + 1, deg), sep, deg) == Wrap(Front(rear, sep, deg) + 1, deg)
    ensures !(Front(rear, sep, deg) + 1 >= deg && rear + 1 >= deg)
  {
  }

  /** The table read from the oldest word, at the front pointer, to the newest. */
  function Window(table: seq<int>, rear: nat, sep: nat): (w: seq<int>)
    requires IsCircle(table, rear, sep)
    ensures |w| == |table|
  {
    var f := Front(rear, sep, |table|);
    table[f..] + table[..f]
  }

  /** A turn drops the oldest word and adds the sum of it and the word sep places back. */
  lemma TurnShifts(table: seq<int>, rear: nat, sep: nat)
    requires IsCircle(table, rear, sep)
    ensures var (w, deg) := (Window(table, rear, sep), |table|);
            var (table', rear', val) := Turn(table, rear, sep);
            val == (w[0] + w[deg - sep]) % WORD && Window(table', rear', sep) == w[1..] + [val]
  {
    var (table', rear', val) := Turn(table, rear, sep);
    var f := Front(rear, sep, |table|);
    NeverWrapTogether(rear, sep, |table|);
    assert Window(table, rear, sep)[|table| - sep] == table[rear];
    if f + 1 < |table| {
      assert table'[f + 1..] == table[f..][1..] && table'[..f + 1] == table[..f] + [val];
    } else {
      assert table'[0..] + table'[..0] == table[..f] + [val];
      assert Window(table, rear, sep)[1..] == table[..f];
    }
  }

  /** The linear recurrence: x(t) = x(t - deg) + x(t - sep) modulo 2^32, from deg initial words. */
  function X(init: seq<int>, sep: nat, t: nat): int
    requires 0 < sep < |init|
  {
    if t < |init| then init[t] else (X(init, sep, t - |init|) + X(init, sep, t - sep)) % WORD
  }

  ghost predicate IsStretch(w: seq<int>, init: seq<int>, sep: nat, n: nat)
    requires 0 < sep < |init|
  {
    |w| == |init| && forall j :: 0 <= j < |w| ==> w[j] == X(init, sep, n + j)
  }

  lemma StretchShifts(w: seq<int>, init: seq<int>, sep: nat, n: nat)
    requires 0 < sep < |init| && IsStretch(w, init, sep, n)
    ensures var val := (w[0] + w[|w| - sep]) % WORD;
            val == X(init, sep, n + |init|) && IsStretch(w[1..] + [val], init, sep, n + 1)
  {
    assert w[0] == X(init, sep, n) && w[|w| - sep] == X(init, sep, n + |init| - sep);
  }

  /** n turns: the table, the rear pointer and the sums. */
  function Turns(table: seq<int>, rear: nat, sep: nat, n: nat): (r: (seq<int>, nat, seq<int>))
    requires IsCircle(table, rear, sep)
    ensures IsCircle(r.0, r.1, sep) && |r.0| == |table| && |r.2| == n
  {
    if n == 0 then (table, rear, [])
    else
      var (t, r, sums) := Turns(table, rear, sep, n - 1);
      var (t', r', val) := Turn(t, r, sep);
      (t', r', sums + [val])
  }

  ghost predicate AreSums(sums: seq<int>, init: seq<int>, sep: nat)
    requires 0 < sep < |init|
  {
    forall i :: 0 <= i < |sums| ==> sums[i] == X(init, sep, |init| + i)
  }

  lemma TurnStretches(table: seq<int>, rear: nat, sep: nat, init: seq<int>, n: nat)
    requires IsCircle(table, rear, sep) && |init| == |table| && IsStretch(Window(table, rear, sep), init, sep, n)
    ensures var (table', rear', val) := Turn(table, rear, sep);
            val == X(init, sep, n + |init|) && IsStretch(Window(table', rear', sep), init, sep, n + 1)
  {
    TurnShifts(table, rear, sep);
    StretchShifts(Window(table, rear, sep), init, sep, n);
  }

  /** The window holds x(n) onwards, and the sums are what it held after its first words. */
  ghost predicate Reached(table: seq<int>, rear: nat, sums: seq<int>, sep: nat, init: seq<int>, n: nat) {
    && IsCircle(table, rear, sep) && |init| == |table| && |sums| == n
    && IsStretch(Window(table, rear, sep), init, sep, n) && AreSums(sums, init, sep)
  }

  lemma ReachedNext(table: seq<int>, rear: nat, sums: seq<int>, sep: nat, init: seq<int>, n: nat)
    requires Reached(table, rear, sums, sep, init, n)
    ensures var (t, r, val) := Turn(table, rear, sep);
            Reached(t, r, sums + [val], sep, init, n + 1)
  {
    TurnStretches(table, rear, sep, init, n);
    SumsGrow(sums, init, sep, Turn(table, rear, sep).2);
  }

  lemma {:induction false} TurnsStretch(table: seq<int>, rear: nat, sep: nat, init: seq<int>, n: nat)
    requires Reached(table, rear, [], sep, init, 0)
    ensures var (t, r, sums) := Turns(table, rear, sep, n);
            Reached(t, r, sums, sep, init, n)
  {
    if n > 0 {
      TurnsStretch(table, rear, sep, init, n - 1);
      var (t, r, sums) := Turns(table, rear, sep, n - 1);
      ReachedNext(t, r, sums, sep, init, n - 1);
    }
  }

  /** The circular two-pointer table computes the recurrence: after n turns it holds x(n) to
      x(n + deg - 1), and sum number i was x(deg + i). */
  lemma TurnsAreRecurrence(table: seq<int>, rear: nat, sep: nat, n: nat)
    requires IsCircle(table, rear, sep)
    ensures var (t, r, sums) := Turns(table, rear, sep, n);
            var init := Window(table, rear, sep);
            IsStretch(Window(t, r, sep), init, sep, n) && AreSums(sums, init, sep)
  {
    StretchStarts(Window(table, rear, sep), sep);
    TurnsStretch(table, rear, sep, Window(table, rear, sep), n);
  }

  lemma StretchStarts(init: seq<int>, sep: nat)
    requires 0 < sep < |init|
    ensures IsStretch(init, init, sep, 0) && AreSums([], init, sep)
  {
  }

  lemma SumsGrow(sums: seq<int>, init: seq<int>, sep: nat, val: int)
    requires 0 < sep < |init| && AreSums(sums, init, sep) && val == X(init, sep, |sums| + |init|)
    ensures AreSums(sums + [val], init, sep)
  {
  }

  lemma ModNext(x: nat, d: nat)
    requires d > 0
    ensures (x + 1) % d == Wrap(x % d + 1, d)
  {
    var q, r := x / d, x % d;
    assert x == d * q + r;
    if r + 1 < d {
      DivUnique(x + 1, d, q, r + 1);
    } else {
      assert d * (q + 1) == d * q + d;
      DivUnique(x + 1, d, q + 1, 0);
    }
  }

  lemma RearMovesOn(table: seq<int>, rear: nat, sep: nat, n: nat)
    requires IsCircle(table, rear, sep) && n > 0
    ensures Turns(table, rear, sep, n).1 == Wrap(Turns(table, rear, sep, n - 1).1 + 1, |table|)
  {
  }

  /** The rear pointer has moved n places around; after a multiple of deg turns it is back. */
  lemma {:induction false} TurnsMoveRear(table: seq<int>, rear: nat, sep: nat, n: nat)
    requires IsCircle(table, rear, sep)
    ensures Turns(table, rear, sep, n).1 == (rear + n) % |table|
  {
    if n == 0 {
      DivUnique(rear, |table|, 0, rear);
    } else {
      TurnsMoveRear(table, rear, sep, n - 1);
      RearMovesOn(table, rear, sep, n);
      ModNext(rear + n - 1, |table|);
    }
  }

  /** The pointers are back where they were after n turns if and only if n is a number of rounds. */
  lemma PointersReturn(table: seq<int>, rear: nat, sep: nat, n: nat)
    requires IsCircle(table, rear, sep)
    ensures Turns(table, rear, sep, n).1 == rear <==> n % |table| == 0
  {
    TurnsMoveRear(table, rear, sep, n);
    RoundsReturn(rear, |table|, n);
  }

  lemma RoundsReturn(rear: nat, deg: nat, n: nat)
    requires rear < deg
    ensures (rear + n) % deg == rear <==> n % deg == 0
  {
    SumModulus(rear, deg, n, n / deg, n % deg);
  }

  lemma SumModulus(rear: nat, deg: nat, n: nat, q: nat, r: nat)
    requires rear < deg && r < deg && n == deg * q + r
    ensures (rear + n) % deg == Wrap(rear + r, deg)
  {
    if rear + r < deg {
      DivUnique(rear + n, deg, q, rear + r);
    } else {
      assert deg * (q + 1) == deg * q + deg;
      DivUnique(rear + n, deg, q + 1, rear + r - deg);
    }
  }

  // ---------------------------------------------------------------------------
  // One generator.

  datatype Gen = Gen(kind: nat, rear: nat, table: seq<int>)

  ghost predicate GoodGen(g: Gen) {
    && g.kind < MAX_TYPES && |g.table| == TableSize(g.kind)
    && (forall i :: 0 <= i < |g.table| ==> 0 <= g.table[i] < WORD)
    && (if g.kind == 0 then g.rear == 0 else g.rear < Deg(g.kind))
  }

  /** One number drawn. */
  function Step(g: Gen): (r: (Gen, int))
    requires GoodGen(g)
    ensures GoodGen(r.0) && r.0.kind == g.kind
  {
    if g.kind == 0 then
      var val := (g.table[0] * 1103515245 + 12345) % 0x8000_0000;
      (g.(table := [val]), val)
    else
      var (table, rear, val) := Turn(g.table, g.rear, Sep(g.kind));
      (Gen(g.kind, rear, table), val / 2)
  }

  /** n numbers drawn. */
  function Run(g: Gen, n: nat): (r: (Gen, seq<int>))
    requires GoodGen(g)
    ensures GoodGen(r.0) && |r.1| == n && r.0.kind == g.kind
  {
    if n == 0 then (g, [])
    else
      var (g', outs) := Run(g, n - 1);
      (Step(g').0, outs + [Step(g').1])
  }

  lemma {:induction false} RunIsTurns(g: Gen, n: nat)
    requires GoodGen(g) && g.kind > 0
    ensures var (t, r, sums) := Turns(g.table, g.rear, Sep(g.kind), n);
            Run(g, n).0 == Gen(g.kind, r, t) && forall i :: 0 <= i < n ==> Run(g, n).1[i] == sums[i] / 2
  {
    if n > 0 {
      RunIsTurns(g, n - 1);
    }
  }

  /** Number i drawn from a generator of kind 1 to 4 is x(deg + i) of its recurrence, without the
      lowest bit. */
  lemma DrawsAreRecurrence(g: Gen, n: nat)
    requires GoodGen(g) && g.kind > 0
    ensures var init := Window(g.table, g.rear, Sep(g.kind));
            forall i :: 0 <= i < n ==> Run(g, n).1[i] == X(init, Sep(g.kind), |init| + i) / 2
  {
    RunIsTurns(g, n);
    TurnsAreRecurrence(g.table, g.rear, Sep(g.kind), n);
    ghost var sums := Turns(g.table, g.rear, Sep(g.kind), n).2;
    assert AreSums(sums, Window(g.table, g.rear, Sep(g.kind)), Sep(g.kind));
  }

  /** What the seed makes of the table, before the warm-up. */
  function Planted(kind: nat, seed: nat): (g: Gen)
    requires kind < MAX_TYPES && seed < WORD
    ensures GoodGen(g)
  {
    var s := if seed == 0 then 1 else seed;
    FilledIsPower(s, TableSize(kind) - 1);
    Gen(kind, 0, Filled(s, TableSize(kind) - 1))
  }

  /** The generator that __srandom_r leaves behind: the table warmed up for 10 * deg steps. */
  function Seeded(kind: nat, seed: nat): (g: Gen)
    requires kind < MAX_TYPES && seed < WORD
    ensures GoodGen(g) && g.kind == kind
  {
    Run(Planted(kind, seed), 10 * Deg(kind)).0
  }

  /** The warm-up leaves the rear pointer where it was put. */
  lemma SeededAtStart(kind: nat, seed: nat)
    requires kind < MAX_TYPES && seed < WORD
    ensures Seeded(kind, seed).rear == 0
  {
    if kind > 0 {
      var g, n := Planted(kind, seed), 10 * Deg(kind);
      RunIsTurns(g, n);
      PointersReturn(g.table, 0, Sep(kind), n);
    }
  }

  // ---------------------------------------------------------------------------
  // The numbers that a seed gives, in plain arithmetic.

  /** Word i of the sequence behind a generator of degree deg and separation sep: first the powers of
      16807, then the first sep words again, then the sums. */
  ghost predicate WordIs(r: nat -> int, deg: nat, sep: nat, i: nat)
    requires 0 < sep < deg
  {
    && (1 <= i < deg ==> r(i) == 16807 * r(i - 1) % 2147483647)
    && (deg <= i < deg + sep ==> r(i) == r(i - deg))
    && (i >= deg + sep ==> r(i) == (r(i - deg) + r(i - sep)) % 4294967296)
  }

  lemma {:induction false} FilledWords(r: nat -> int, deg: nat, sep: nat, seed: nat, i: nat)
    requires 0 < sep < deg && seed < WORD && i < deg && r(0) == seed && forall j :: WordIs(r, deg, sep, j)
    ensures Filled(seed, deg - 1)[i] == r(i)
  {
    if i > 0 {
      FilledWords(r, deg, sep, seed, i - 1);
      FilledExtends(seed, i, deg - 1);
      FilledIsPower(seed, deg - 1);
      assert LehmerWord(seed, i - 1, Filled(seed, deg - 1)[i - 1]);
      SchrageMultiplies(Filled(seed, deg - 1)[i - 1]);
      assert WordIs(r, deg, sep, i);
    }
  }

  lemma {:induction false} WindowWords(r: nat -> int, deg: nat, sep: nat, init: seq<int>, base: nat, t: nat)
    requires 0 < sep < deg == |init| && sep <= base && forall j :: WordIs(r, deg, sep, j)
    requires forall j :: 0 <= j < deg ==> init[j] == r(base + j)
    ensures X(init, sep, t) == r(base + t)
    decreases t
  {
    if t >= deg {
      WindowWords(r, deg, sep, init, base, t - deg);
      WindowWords(r, deg, sep, init, base, t - sep);
      assert WordIs(r, deg, sep, base + t);
      assert base + (t - deg) == base + t - deg && base + (t - sep) == base + t - sep;
    }
  }

  /** What __srandom_r and __random_r give together: the degrees are 7, 15, 31 and 63, the separations 3,
      1, 3 and 1, seed 0 stands for 1, and number i is word 11 * deg + sep + i without its lowest bit. */
  lemma SeededStream(kind: nat, seed: nat, deg: nat, sep: nat, r: nat -> int, n: nat, i: nat)
    requires seed < 4294967296 && i < n
    requires (kind, deg, sep) in {(1, 7, 3), (2, 15, 1), (3, 31, 3), (4, 63, 1)}
    requires r(0) == (if seed == 0 then 1 else seed) && forall j :: WordIs(r, deg, sep, j)
    ensures Run(Seeded(kind, seed), n).1[i] == r(11 * deg + sep + i) / 2
  {
    var g := Seeded(kind, seed);
    SeededAtStart(kind, seed);
    var w, base := Window(g.table, g.rear, sep), sep + 10 * deg;
    DrawsAreRecurrence(g, n);
    forall j | 0 <= j < deg
      ensures w[j] == r(base + j)
    {
      SeededWindow(kind, seed, deg, sep, r, j);
    }
    WindowWords(r, deg, sep, w, base, deg + i);
    assert base + (deg + i) == 11 * deg + sep + i;
  }

  lemma SeededWindow(kind: nat, seed: nat, deg: nat, sep: nat, r: nat -> int, j: nat)
    requires seed < WORD && 0 < kind < MAX_TYPES && deg == Deg(kind) && sep == Sep(kind) && j < deg
    requires r(0) == (if seed == 0 then 1 else seed) && forall j :: WordIs(r, deg, sep, j)
    ensures var g := Seeded(kind, seed); Window(g.table, g.rear, sep)[j] == r(sep + 10 * deg + j)
  {
    var g, m := Planted(kind, seed), 10 * deg;
    var init := Window(g.table, 0, sep);
    forall j | 0 <= j < deg
      ensures init[j] == r(sep + j)
    {
      WindowStarts(r, deg, sep, g.table, r(0), j);
    }
    WindowWords(r, deg, sep, init, sep, m + j);
    WarmedWindow(g, Run(g, m).0, init, sep, m, j);
  }

  lemma WarmedWindow(g: Gen, h: Gen, init: seq<int>, sep: nat, m: nat, j: nat)
    requires GoodGen(g) && g.kind > 0 && j < Deg(g.kind) && sep == Sep(g.kind)
    requires init == Window(g.table, g.rear, sep) && h == Run(g, m).0
    ensures Window(h.table, h.rear, sep)[j] == X(init, sep, m + j)
  {
    RunIsTurns(g, m);
    TurnsAreRecurrence(g.table, g.rear, sep, m);
  }

  lemma WindowStarts(r: nat -> int, deg: nat, sep: nat, table: seq<int>, seed: nat, j: nat)
    requires 0 < sep < deg && seed < WORD && j < deg && r(0) == seed && forall j :: WordIs(r, deg, sep, j)
    requires table == Filled(seed, deg - 1) && IsCircle(table, 0, sep)
    ensures Window(table, 0, sep)[j] == r(sep + j)
  {
    if sep + j < deg {
      FilledWords(r, deg, sep, seed, sep + j);
    } else {
      FilledWords(r, deg, sep, seed, sep + j - deg);
      assert WordIs(r, deg, sep, sep + j);
    }
  }

  /** The linear generator of kind 0: number i is word i + 1 of its sequence, which starts at the seed. */
  ghost predicate LinearWordIs(r: nat -> int, i: nat) {
    r(i + 1) == (1103515245 * r(i) + 12345) % 2147483648
  }

  lemma {:induction false} LinearStream(seed: nat, r: nat -> int, n: nat)
    requires seed < 4294967296
    requires r(0) == (if seed == 0 then 1 else seed) && forall j :: LinearWordIs(r, j)
    ensures forall i :: 0 <= i < n ==> Run(Seeded(0, seed), n).1[i] == r(i + 1)
    ensures Run(Seeded(0, seed), n).0 == Gen(0, 0, [r(n)])
  {
    if n > 0 {
      LinearStream(seed, r, n - 1);
      assert LinearWordIs(r, n - 1);
    } else {
      assert Filled(r(0), 0) == [r(0)];
    }
  }

  /** Its lowest bit alternates. */
  lemma LowBitAlternates(r: nat -> int, i: nat)
    requires LinearWordIs(r, i)
    ensures r(i + 1) % 2 != r(i) % 2
  {
    Modulus31(1103515245 * r(i) + 12345);
    OddChanges(r(i), 1103515245 * r(i) + 12345, (1103515245 * r(i) + 12345) / 2147483648, r(i + 1));
  }

  lemma Modulus31(x: int)
    ensures x % 2147483648 == x - 2147483648 * (x / 2147483648)
  {
  }

  lemma OddChanges(v: int, x: int, q: int, y: int)
    requires x == 1103515245 * v + 12345 && y == x - 2147483648 * q
    ensures y % 2 != v % 2
  {
    Parity(y, v + 1, 551757622 * v + 6172 - 1073741824 * q);
  }

  lemma Parity(a: int, b: int, k: int)
    requires a == b + 2 * k
    ensures a % 2 == b % 2
  {
  }

  // ---------------------------------------------------------------------------
  // Several generators, one of them in use.

  datatype Op<K> = Draw | Switch(to: K)

  ghost predicate AllGood<K>(gens: map<K, Gen>) {
    forall k :: k in gens ==> GoodGen(gens[k])
  }

  ghost predicate InRange<K>(ops: seq<Op<K>>, gens: map<K, Gen>) {
    forall i :: 0 <= i < |ops| && ops[i].Switch? ==> ops[i].to in gens
  }

  /** One operation: the generators, the one in use, and the numbers drawn, each with its generator. */
  ghost function MixStep<K>(gens: map<K, Gen>, cur: K, outs: seq<(K, int)>, op: Op<K>)
        : (r: (map<K, Gen>, K, seq<(K, int)>))
    requires AllGood(gens) && cur in gens && (op.Switch? ==> op.to in gens)
    ensures AllGood(r.0) && r.0.Keys == gens.Keys && r.1 in gens
  {
    match op
    case Draw => (gens[cur := Step(gens[cur]).0], cur, outs + [(cur, Step(gens[cur]).1)])
    case Switch(to) => (gens, to, outs)
  }

  ghost function Mixed<K>(gens: map<K, Gen>, cur: K, ops: seq<Op<K>>): (r: (map<K, Gen>, K, seq<(K, int)>))
    requires AllGood(gens) && cur in gens && InRange(ops, gens)
    ensures AllGood(r.0) && r.0.Keys == gens.Keys && r.1 in gens
  {
    if ops == [] then (gens, cur, [])
    else
      var (g, c, outs) := Mixed(gens, cur, ops[..|ops| - 1]);
      MixStep(g, c, outs, ops[|ops| - 1])
  }

  /** The numbers drawn from generator k. */
  ghost function StreamOf<K>(outs: seq<(K, int)>, k: K): seq<int> {
    if outs == [] then []
    else
      var before := StreamOf(outs[..|outs| - 1], k);
      if outs[|outs| - 1].0 == k then before + [outs[|outs| - 1].1] else before
  }

  /** Non-interference: whatever the interleaving, every generator gives the stream it would give
      alone, and stands where it would stand alone. */
  lemma {:induction false} StreamsAreAlone<K>(gens: map<K, Gen>, cur: K, ops: seq<Op<K>>, k: K)
    requires AllGood(gens) && cur in gens && InRange(ops, gens) && k in gens
    ensures var (g, c, outs) := Mixed(gens, cur, ops);
            var alone := StreamOf(outs, k);
            Run(gens[k], |alone|) == (g[k], alone)
  {
    if ops != [] {
      var before := ops[..|ops| - 1];
      StreamsAreAlone(gens, cur, before, k);
      var (g, c, outs) := Mixed(gens, cur, before);
      if ops[|ops| - 1].Draw? {
        StreamGrows(outs, (c, Step(g[c]).1), k);
        if c == k {
          RunGrows(gens[k], StreamOf(outs, k), g[k]);
        }
      }
    }
  }

  lemma StreamGrows<K>(outs: seq<(K, int)>, o: (K, int), k: K)
    ensures StreamOf(outs + [o], k) == if o.0 == k then StreamOf(outs, k) + [o.1] else StreamOf(outs, k)
  {
    assert (outs + [o])[..|outs|] == outs;
  }

  lemma RunGrows(start: Gen, outs: seq<int>, g: Gen)
    requires GoodGen(start) && GoodGen(g) && Run(start, |outs|) == (g, outs)
    ensures Run(start, |outs| + 1) == (Step(g).0, outs + [Step(g).1])
  {
  }

  // ---------------------------------------------------------------------------
  // State arrays: a header word, then the table.

  /** What the header of a generator that is put aside holds. */
  function Pack(kind: nat, rear: nat): nat {
    if kind == 0 then 0 else MAX_TYPES * rear + kind
  }

  lemma PackDecodes(kind: nat, rear: nat)
    requires kind < MAX_TYPES
    ensures Pack(kind, rear) % MAX_TYPES == kind
    ensures kind > 0 ==> Pack(kind, rear) / MAX_TYPES == rear
    ensures kind == 0 ==> Pack(kind, rear) / MAX_TYPES == 0
  {
  }

  /** The generator that a header and table stand for. */
  function Saved(w: seq<int>): Gen
    requires HasTable(w)
  {
    Gen(w[0] % MAX_TYPES, w[0] / MAX_TYPES, w[1..1 + TableSize(w[0] % MAX_TYPES)])
  }

  predicate HasTable(w: seq<int>) {
    |w| > 0 && w[0] >= 0 && |w| > TableSize(w[0] % MAX_TYPES)
  }

  ghost predicate GoodSaved(w: seq<int>) {
    HasTable(w) && GoodGen(Saved(w))
  }

  /** A generator that is left n draws after its header was written is restored from it if and only if
      it is of kind 0 or its rear pointer has gone around a whole number of times. */
  lemma StaleHeaderIff(w: seq<int>, n: nat, w': seq<int>)
    requires GoodSaved(w) && HasTable(w') && w'[0] == w[0]
    requires var g := Run(Saved(w), n).0; w'[1..1 + TableSize(g.kind)] == g.table
    ensures Saved(w') == Run(Saved(w), n).0 <==> w[0] % MAX_TYPES == 0 || n % Deg(w[0] % MAX_TYPES) == 0
  {
    var g := Saved(w);
    if g.kind > 0 {
      RunIsTurns(g, n);
      PointersReturn(g.table, g.rear, Sep(g.kind), n);
    }
  }

  /** One draw is enough for a table generator not to be restored. */
  lemma StaleHeaderExample(w: seq<int>)
    requires GoodSaved(w) && w[0] % MAX_TYPES > 0
    ensures Saved([w[0]] + Step(Saved(w)).0.table) != Step(Saved(w)).0
  {
    var g := Step(Saved(w)).0;
    assert Run(Saved(w), 0).0 == Saved(w);
    assert ([w[0]] + g.table)[1..] == g.table;
    StaleHeaderIff(w, 1, [w[0]] + g.table);
  }

  /** BREAK_0 to BREAK_4: the kind chosen for an array of n bytes. */
  function KindFor(n: nat): nat
    requires n >= 8
  {
    if n >= 128 then (if n < 256 then 3 else 4) else if n < 32 then 0 else if n < 64 then 1 else 2
  }

  /** It is the largest kind whose header and table, in words of four bytes, fit into n bytes. */
  lemma KindForIsLargest(n: nat)
    requires n >= 8
    ensures KindFor(n) <= 4 && 4 * (1 + TableSize(KindFor(n))) <= n
    ensures forall k :: KindFor(n) < k <= 4 ==> n < 4 * (1 + TableSize(k))
  {
  }

  class RandomData {
    var state: array<int>   // with the header word in front
    var fptr: nat
    var rptr: nat
    var kind: nat
    var deg: nat
    var sep: nat

    /** __initstate_r on a new structure. */
    constructor (seed: nat, a: array<int>, n: nat)
      requires seed < WORD && 8 <= n <= 4 * a.Length
      modifies a
      ensures Valid({a}) && state == a && Live() == Seeded(KindFor(n), seed)
    {
      state := a;
      new;
      Plant(seed, a, KindFor(n));
    }

    /** The generator in use. */
    ghost function Live(): Gen
      requires state.Length > TableSize(kind)
      reads this, state
    {
      Gen(kind, if kind == 0 then 0 else rptr, state[1..1 + TableSize(kind)])
    }

    /** The pointers suit the table. */
    ghost predicate Usable()
      reads this, state
    {
      && kind < MAX_TYPES && deg == Deg(kind) && sep == Sep(kind)
      && state.Length > TableSize(kind) && GoodGen(Live())
      && (kind > 0 ==> fptr == Front(rptr, sep, deg))
    }

    /** The header of the array in use tells its kind; where it puts the rear pointer may be out of date. */
    ghost predicate HeaderFits()
      reads this, state
    {
      GoodSaved(state[..]) && state[0] % MAX_TYPES == kind
    }

    /** All of the state arrays, the one in use among them. */
    ghost predicate Valid(arrays: set<array<int>>)
      reads this, state, arrays
    {
      && state in arrays && Usable() && HeaderFits()
      && forall a :: a in arrays ==> GoodSaved(a[..])
    }

    ghost function GenOf(a: array<int>): Gen
      requires state.Length > TableSize(kind) && HasTable(a[..])
      reads this, state, a
    {
      if a == state then Live() else Saved(a[..])
    }

    /** The generators the arrays stand for. */
    ghost function Gens(arrays: set<array<int>>): (r: map<array<int>, Gen>)
      requires Valid(arrays)
      reads this, state, arrays
      ensures AllGood(r) && r.Keys == arrays
    {
      map a | a in arrays :: GenOf(a)
    }

    /** __random_r. */
    method Random() returns (result: int)
      requires Usable()
      modifies this`fptr, this`rptr, state
      ensures Usable() && state[0] == old(state[0])
      ensures old(HeaderFits()) ==> HeaderFits()
      ensures (Live(), result) == Step(old(Live()))
    {
      if kind == 0 {
        result := DrawLinear();
      } else {
        result := DrawTable();
      }
      if old(HeaderFits()) {
        HeaderStays(old(state[..]), state[..], Live());
      }
    }

    method DrawLinear() returns (result: int)
      requires Usable() && kind == 0
      modifies state
      ensures Usable() && state[0] == old(state[0])
      ensures (Live(), result) == Step(old(Live()))
    {
      result := (state[1] * 1103515245 + 12345) % 0x8000_0000;
      state[1] := result;
      assert Live().table == [result];
    }

    method DrawTable() returns (result: int)
      requires Usable() && kind > 0
      modifies this`fptr, this`rptr, state
      ensures Usable() && state[0] == old(state[0])
      ensures (Live(), result) == Step(old(Live()))
    {
      ghost var g := Live();
      assert g.table[fptr] == state[1 + fptr] && g.table[rptr] == state[1 + rptr];
      var val := (state[1 + fptr] + state[1 + rptr]) % WORD;
      state[1 + fptr] := val;
      assert state[1..1 + TableSize(kind)] == g.table[fptr := val];
      result := val / 2;
      AdvancePointers();
    }

    static lemma HeaderStays(was: seq<int>, now: seq<int>, g: Gen)
      requires GoodSaved(was) && |now| == |was| && now[0] == was[0] && was[0] % MAX_TYPES == g.kind
      requires GoodGen(g) && g.table == now[1..1 + TableSize(g.kind)]
      ensures GoodSaved(now) && now[0] % MAX_TYPES == g.kind
    {
    }

    /** The pointer steps of __random_r, which test the rear pointer only if the front one has not wrapped. */
    method AdvancePointers()
      requires 0 < sep < deg && rptr < deg && fptr == Front(rptr, sep, deg)
      modifies this`fptr, this`rptr
      ensures rptr == Wrap(old(rptr) + 1, deg) && fptr == Front(rptr, sep, deg)
    {
      NeverWrapTogether(rptr, sep, deg);
      fptr := fptr + 1;
      if fptr >= deg {
        fptr := 0;
        rptr := rptr + 1;
      } else {
        rptr := rptr + 1;
        if rptr >= deg {
          rptr := 0;
        }
      }
    }

    /** The filling loop of __srandom_r. */
    method Fill(s: nat)
      requires kind < MAX_TYPES && deg == Deg(kind) && state.Length > TableSize(kind) && s < WORD
      modifies state
      ensures state[0] == old(state[0]) && state[1..1 + TableSize(kind)] == Filled(s, TableSize(kind) - 1)
    {
      ghost var n: nat := TableSize(kind) - 1;
      state[1] := s;
      FilledIsPower(s, n);
      assert LehmerWord(s, 0, Filled(s, n)[0]);
      var word := s;
      var i := 1;
      while i < deg
        invariant 1 <= i <= TableSize(kind) && word == Filled(s, n)[i - 1]
        invariant forall j :: 1 <= j < 1 + i ==> state[j] == Filled(s, n)[j - 1]
        invariant state[0] == old(state[0])
      {
        FilledExtends(s, i, n);
        word := Schrage(word);
        state[1 + i] := word;
        i := i + 1;
      }
    }

    /** The discarding loop of __srandom_r. */
    method WarmUp()
      requires Usable()
      modifies this`fptr, this`rptr, state
      ensures Usable() && state[0] == old(state[0]) && Live() == Run(old(Live()), 10 * deg).0
    {
      var kc := 10 * deg;
      Discard(kc);
    }

    method Discard(n: nat)
      requires Usable()
      modifies this`fptr, this`rptr, state
      ensures Usable() && state[0] == old(state[0]) && Live() == Run(old(Live()), n).0
      ensures old(HeaderFits()) ==> HeaderFits()
    {
      var kc := n;
      ghost var start := Live();
      while kc > 0
        invariant 0 <= kc <= n && Usable() && state[0] == old(state[0])
        invariant old(HeaderFits()) ==> HeaderFits()
        invariant Live() == Run(start, n - kc).0
        modifies this`fptr, this`rptr, state
      {
        kc := kc - 1;
        var discard := Random();
      }
    }

    /** __srandom_r: fill the table from the seed, set the pointers, warm up. */
    method Srandom(seed: nat)
      requires kind < MAX_TYPES && deg == Deg(kind) && sep == Sep(kind) && state.Length > TableSize(kind) && seed < WORD
      modifies this`fptr, this`rptr, state
      ensures Usable() && Live() == Seeded(kind, seed) && state[0] == old(state[0])
      ensures kind > 0 ==> rptr == 0
    {
      Fill(if seed == 0 then 1 else seed);
      if kind == 0 {
        assert Live() == Planted(kind, seed);
        return;
      }
      fptr, rptr := sep, 0;
      assert Live() == Planted(kind, seed);
      WarmUp();
      SeededAtStart(kind, seed);
    }

    /** __setstate_r, on an array that holds a generator: the pointer of the old one is saved, the
        pointers of the new one are restored, and no generator moves. */
    method SetState(a: array<int>, ghost arrays: set<array<int>>)
      requires Valid(arrays) && a in arrays
      modifies this, state
      ensures state == a && Valid(arrays) && Gens(arrays) == old(Gens(arrays)) && Saved(state[..]) == Live()
    {
      ghost var before := Gens(arrays);
      SaveAmong(arrays);
      RestorePointers(a);
      GensAre(arrays, before);
    }

    lemma GensAre(arrays: set<array<int>>, gens: map<array<int>, Gen>)
      requires Valid(arrays) && gens.Keys == arrays && Saved(state[..]) == Live()
      requires forall b :: b in arrays ==> Saved(b[..]) == gens[b]
      ensures Gens(arrays) == gens
    {
    }

    /** The first step of __setstate_r, seen among all arrays: now each header is up to date. */
    method SaveAmong(ghost arrays: set<array<int>>)
      requires Valid(arrays)
      modifies state
      ensures Usable() && HeaderFits() && forall b :: b in arrays ==>
            GoodSaved(b[..]) && Saved(b[..]) == old(Gens(arrays))[b]
    {
      ghost var before := Gens(arrays);
      SavePointer();
      forall b | b in arrays && b != state
        ensures GoodSaved(b[..]) && Saved(b[..]) == before[b]
      {
        assert b[..] == old(b[..]);
      }
    }

    /** The rest of __setstate_r. */
    method RestorePointers(a: array<int>)
      requires GoodSaved(a[..])
      modifies this
      ensures state == a && Usable() && HeaderFits() && Live() == Saved(a[..])
    {
      kind := a[0] % MAX_TYPES;
      deg, sep := Deg(kind), Sep(kind);
      if kind != 0 {
        var rear := a[0] / MAX_TYPES;
        rptr := rear;
        assert rear == Saved(a[..]).rear < deg;
        fptr := (rear + sep) % deg;
        FrontByModulus(rear, sep, deg);
      }
      state := a;
      assert Live().table == Saved(a[..]).table;
    }

    /** The first step of __setstate_r. */
    method SavePointer()
      requires Usable() && HeaderFits()
      modifies state
      ensures GoodSaved(state[..]) && Saved(state[..]) == Live() == old(Live()) && Usable()
    {
      PackDecodes(kind, rptr);
      state[0] := if kind == 0 then 0 else MAX_TYPES * rptr + kind;
      assert state[1..1 + TableSize(kind)] == old(state[1..1 + TableSize(kind)]);
      assert Saved(state[..]).table == state[1..1 + TableSize(kind)];
    }

    static lemma FrontByModulus(rear: nat, sep: nat, deg: nat)
      requires 0 < sep < deg && rear < deg
      ensures (rear + sep) % deg == Front(rear, sep, deg)
    {
      if rear + sep < deg {
        DivUnique(rear + sep, deg, 0, rear + sep);
      } else {
        DivUnique(rear + sep, deg, 1, rear + sep - deg);
      }
    }

    /** The part of __initstate_r behind the choice of a kind. */
    method Plant(seed: nat, a: array<int>, k: nat)
      requires k < MAX_TYPES && a.Length > TableSize(k) && seed < WORD
      modifies this, a
      ensures state == a && Usable() && HeaderFits() && Live() == Seeded(k, seed)
    {
      kind, deg, sep := k, Deg(k), Sep(k);
      state := a;
      Srandom(seed);
      state[0] := if kind != 0 then MAX_TYPES * rptr + kind else 0;
      PackDecodes(kind, 0);
      assert state[1..1 + TableSize(kind)] == Seeded(k, seed).table;
      assert Saved(state[..]).table == Seeded(k, seed).table;
    }

    /** __initstate_r, on a new array or one that holds a generator already, even the one in use.  The
        generator in use before is not put aside first: if it is not the one replaced, it survives
        exactly if its header happens to be up to date. */
    method InitState(seed: nat, a: array<int>, n: nat, ghost arrays: set<array<int>>) returns (ok: bool)
      requires Valid(arrays) && seed < WORD && n <= 4 * a.Length
      modifies this, a
      ensures ok <==> n >= 8
      ensures !ok ==> Valid(arrays) && state == old(state) && Gens(arrays) == old(Gens(arrays))
      ensures ok ==> state == a && Valid(arrays + {a}) && Live() == Seeded(KindFor(n), seed)
      ensures ok ==> forall b :: b in arrays && b != old(state) && b != a ==> GenOf(b) == old(GenOf(b))
      ensures ok && a != old(state) ==>
                (GenOf(old(state)) == old(Live()) <==> old(state[0]) == Pack(old(kind), old(rptr)))
    {
      if n < 8 {
        return false;
      }
      HeaderUpToDate(state[..], kind, rptr);
      var k := if n >= 128 then (if n < 256 then 3 else 4) else if n < 32 then 0 else if n < 64 then 1 else 2;
      Plant(seed, a, k);
      assert forall b :: b in arrays && b != a ==> b[..] == old(b[..]);
      return true;
    }

    /** What a caller sees of it: after m draws since the generator in use was last put aside, seeding
        another array loses it, unless it is of kind 0 or m is a multiple of its degree. */
    method SaveDrawInit(m: nat, seed: nat, a: array<int>, n: nat, ghost arrays: set<array<int>>) returns (ghost g: Gen)
      requires Valid(arrays) && a != state && seed < WORD && 8 <= n <= 4 * a.Length
      modifies this, state, a
      ensures g == Run(old(Live()), m).0 && Valid(arrays + {a})
      ensures GenOf(old(state)) == g <==> old(kind) == 0 || m % Deg(old(kind)) == 0
    {
      SaveAndDraw(m, arrays);
      g := Live();
      HeaderUpToDate(state[..], kind, rptr);
      var ok := InitState(seed, a, n, arrays);
    }

    /** The generator in use is put aside and taken up again, and then drawn from. */
    method SaveAndDraw(m: nat, ghost arrays: set<array<int>>)
      requires Valid(arrays)
      modifies this, state
      ensures Valid(arrays) && state == old(state) && kind == old(kind) && Live() == Run(old(Live()), m).0
      ensures Saved(state[..]) == Live() <==> kind == 0 || m % Deg(kind) == 0
    {
      assert Gens(arrays)[state] == Live();
      SetState(state, arrays);
      assert Gens(arrays)[state] == Live();
      ghost var w := state[..];
      Discard(m);
      StaleHeaderIff(w, m, state[..]);
    }

    static lemma HeaderUpToDate(w: seq<int>, kind: nat, rear: nat)
      requires GoodSaved(w) && w[0] % MAX_TYPES == kind
      ensures Saved(w) == Gen(kind, if kind == 0 then 0 else rear, w[1..1 + TableSize(kind)])
            <==> w[0] == Pack(kind, rear)
    {
    }

    /** A draw moves the generator in use and no other. */
    method DrawOne(ghost arrays: set<array<int>>) returns (r: int)
      requires Valid(arrays)
      modifies this`fptr, this`rptr, state
      ensures Valid(arrays)
      ensures Gens(arrays) == old(Gens(arrays))[state := Step(old(Live())).0] && r == Step(old(Live())).1
    {
      ghost var before := Gens(arrays);
      r := Random();
      forall b | b in arrays && b != state
        ensures GoodSaved(b[..]) && Saved(b[..]) == before[b]
      {
        assert b[..] == old(b[..]);
      }
      OneChanged(before, Gens(arrays), state);
    }

    static lemma OneChanged<K, V>(was: map<K, V>, now: map<K, V>, k: K)
      requires k in was && now.Keys == was.Keys && forall j :: j in was && j != k ==> now[j] == was[j]
      ensures now == was[k := now[k]]
    {
    }

    method ServeOne(op: Op<array<int>>, outs: seq<(array<int>, int)>, ghost arrays: set<array<int>>)
      returns (outs': seq<(array<int>, int)>)
      requires Valid(arrays) && (op.Switch? ==> op.to in arrays)
      modifies this, arrays
      ensures Valid(arrays)
      ensures (Gens(arrays), state, outs') == MixStep(old(Gens(arrays)), old(state), outs, op)
    {
      outs' := outs;
      assert Gens(arrays)[state] == Live();
      match op
      case Draw =>
        var r := DrawOne(arrays);
        outs' := outs + [(state, r)];
      case Switch(to) =>
        SetState(to, arrays);
    }

    /** The last operation of a run. */
    method ServeLast(ops: seq<Op<array<int>>>, outs: seq<(array<int>, int)>, ghost arrays: set<array<int>>,
                     ghost gens: map<array<int>, Gen>, ghost cur: array<int>)
      returns (outs': seq<(array<int>, int)>)
      requires ops != [] && Valid(arrays) && AllGood(gens) && cur in gens && InRange(ops, gens) && gens.Keys == arrays
      requires Stands(gens, cur, ops[..|ops| - 1], Gens(arrays), state, outs)
      modifies this, arrays
      ensures Valid(arrays)
      ensures Stands(gens, cur, ops, Gens(arrays), state, outs')
    {
      outs' := ServeOne(ops[|ops| - 1], outs, arrays);
    }

    /** Any interleaving of draws and switches. */
    method Serve(ops: seq<Op<array<int>>>, ghost arrays: set<array<int>>) returns (outs: seq<(array<int>, int)>)
      requires Valid(arrays) && InRange(ops, Gens(arrays))
      modifies this, arrays
      ensures Valid(arrays)
      ensures (Gens(arrays), state, outs) == Mixed(old(Gens(arrays)), old(state), ops)
    {
      outs := [];
      ghost var gens, cur := Gens(arrays), state;
      RunSoFar(gens, cur, ops);
      for i := 0 to |ops|
        invariant Valid(arrays) && Stands(gens, cur, ops[..i], Gens(arrays), state, outs)
      {
        outs := ServeLast(ops[..i + 1], outs, arrays, gens, cur);
      }
    }
  }

  /** Where a run stands. */
  ghost predicate Stands<K>(gens: map<K, Gen>, cur: K, ops: seq<Op<K>>, g: map<K, Gen>, c: K, outs: seq<(K, int)>)
    requires AllGood(gens) && cur in gens
  {
    InRange(ops, gens) && (g, c, outs) == Mixed(gens, cur, ops)
  }

  lemma RunSoFar<K>(gens: map<K, Gen>, cur: K, ops: seq<Op<K>>)
    requires AllGood(gens) && cur in gens && InRange(ops, gens)
    ensures Stands(gens, cur, ops[..0], gens, cur, []) && ops[..|ops|] == ops
    ensures forall i {:trigger ops[..i]} :: 0 < i <= |ops| ==>
          InRange(ops[..i], gens) && ops[..i][..i - 1] == ops[..i - 1]
  {
  }
}
