/** The stream converters between Big5 and UTF-8: mbbsd/convert.c, a byte at a time, and the
    whole-string one of daemon/boardd/strings.cpp.  The code tables are arbitrary. */
module Convert {
  import opened Basics
  import opened Utf8
  import RingBuffer

  type Table = Ucs -> Ucs

  // ---------------------------------------------------------------------------
  // Any machine that turns bytes into bytes.

  type Machine<!S> = (S, Byte) -> (S, seq<Byte>)

  /** The state after some bytes, and everything put out. */
  function Fold<S>(m: Machine<S>, x: S, s: seq<Byte>): (S, seq<Byte>)
    decreases |s|
  {
    if s == [] then (x, [])
    else
      var first := m(x, s[0]);
      var rest := Fold(m, first.0, s[1..]);
      (rest.0, first.1 + rest.1)
  }

  lemma FoldOne<S>(m: Machine<S>, x: S, c: Byte)
    ensures Fold(m, x, [c]) == m(x, c)
  {
    var r := m(x, c);
    assert [c][1..] == [] && r.1 + [] == r.1;
    assert Fold(m, r.0, []) == (r.0, []);
  }

  /** Chunk independence: handling a and then b is handling a + b. */
  lemma {:induction false} FoldAppends<S>(m: Machine<S>, x: S, a: seq<Byte>, b: seq<Byte>)
    ensures var r := Fold(m, x, a); var q := Fold(m, r.0, b);
            Fold(m, x, a + b) == (q.0, r.1 + q.1)
    decreases |a|
  {
    if a == [] {
      var q := Fold(m, x, b);
      assert [] + b == b && [] + q.1 == q.1;
    } else {
      var first := m(x, a[0]);
      FoldAppends(m, first.0, a[1..], b);
      var r := Fold(m, first.0, a[1..]);
      var q := Fold(m, r.0, b);
      assert (a + b)[1..] == a[1..] + b && (a + b)[0] == a[0];
      assert first.1 + (r.1 + q.1) == (first.1 + r.1) + q.1;
    }
  }

  // ---------------------------------------------------------------------------
  // The two machines.

  function Pair(hi: Byte, lo: Byte): Ucs {
    ((hi as Ucs) << 8) | (lo as Ucs)
  }

  function Hi(u: Ucs): Byte { (u >> 8) as Byte }
  function Lo(u: Ucs): Byte { (u & 0xFF) as Byte }

  lemma PairParts(hi: Byte, lo: Byte, u: Ucs)
    ensures Hi(u) == hi && Lo(u) == lo <==> u == Pair(hi, lo)
  {
    PartsOf(hi, lo);
    PairOf(u);
  }

  lemma PartsOf(hi: Byte, lo: Byte)
    ensures Hi(Pair(hi, lo)) == hi && Lo(Pair(hi, lo)) == lo
  {
  }

  lemma PairOf(u: Ucs)
    ensures Pair(Hi(u), Lo(u)) == u
  {
  }

  /** Big5 to UTF-8; the state is the byte waiting for its trail, or NUL. */
  function EncodeOne(b2u: Table, lead: Byte, c: Byte): (Byte, seq<Byte>) {
    if lead != 0 then (0, Utf(b2u(Pair(lead, c))))
    else if c < 0x80 then (0, [c])
    else (c, [])
  }

  function Encoder(b2u: Table): Machine<Byte> {
    (lead, c) => EncodeOne(b2u, lead, c)
  }

  function At(s: seq<Byte>, i: nat): Byte {
    if i < |s| then s[i] else 0
  }

  /** UTF-8 to Big5; the state is the bytes gathered so far. */
  function DecodeOne(u2b: Table, trail: seq<Byte>, c: Byte): (seq<Byte>, seq<Byte>) {
    var t := trail + [c];
    if trail == [] then (if c < 0x80 then ([], [c]) else (t, []))
    else if Announced(t[0]) > |t| then (t, [])
    else var u := u2b(UcsOf(t[0], At(t, 1), At(t, 2))); ([], [Hi(u), Lo(u)])
  }

  function Decoder(u2b: Table): Machine<seq<Byte>> {
    (trail, c) => DecodeOne(u2b, trail, c)
  }

  /** What is gathered between bytes: a first byte that is no character by itself, and one more byte
      only if three are announced. */
  predicate Gathered(trail: seq<Byte>) {
    |trail| <= 2 && (|trail| >= 1 ==> trail[0] >= 0x80) && (|trail| == 2 ==> Announced(trail[0]) == 3)
  }

  // ---------------------------------------------------------------------------
  // There and back.

  /** What reading gives for a written pair. */
  function Echo(b2u: Table, u2b: Table, hi: Byte, lo: Byte): (r: seq<Byte>)
    ensures 1 <= |r| <= 2
  {
    var u := b2u(Pair(hi, lo));
    if u < 0x80 then [u as Byte] else [Hi(u2b(u)), Lo(u2b(u))]
  }

  lemma ReadAscii(u2b: Table, u: Ucs)
    requires u < 0x80
    ensures Fold(Decoder(u2b), [], Utf(u)) == ([], [u as Byte])
  {
    assert Utf(u) == [u as Byte];
    FoldOne(Decoder(u2b), [], u as Byte);
  }

  lemma ReadWide(u2b: Table, w: seq<Byte>, u: Ucs)
    requires 2 <= |w| <= 3 && w[0] >= 0x80 && Announced(w[0]) == |w| && UcsOf(w[0], w[1], At(w, 2)) == u
    ensures Fold(Decoder(u2b), [], w) == ([], [Hi(u2b(u)), Lo(u2b(u))])
  {
    if |w| == 2 {
      assert w == [w[0], w[1]];
      ReadTwo(u2b, w[0], w[1], u);
    } else {
      assert w == [w[0], w[1], w[2]];
      ReadThree(u2b, w[0], w[1], w[2], u);
    }
  }

  lemma ReadTwo(u2b: Table, a: Byte, b: Byte, u: Ucs)
    requires a >= 0x80 && Announced(a) == 2 && UcsOf(a, b, 0) == u
    ensures Fold(Decoder(u2b), [], [a, b]) == ([], [Hi(u2b(u)), Lo(u2b(u))])
  {
    DecodeSteps(u2b, [], a, 0);
    DecodeSteps(u2b, [a], b, u);
    SecondLast(Decoder(u2b), [], [a], [], a, b, [Hi(u2b(u)), Lo(u2b(u))]);
  }

  lemma ReadThree(u2b: Table, a: Byte, b: Byte, c: Byte, u: Ucs)
    requires a >= 0x80 && Announced(a) == 3 && UcsOf(a, b, c) == u
    ensures Fold(Decoder(u2b), [], [a, b, c]) == ([], [Hi(u2b(u)), Lo(u2b(u))])
  {
    var m := Decoder(u2b);
    DecodeSteps(u2b, [], a, 0);
    DecodeSteps(u2b, [a], b, 0);
    assert [a] + [b] == [a, b];
    SecondLast(m, [], [a], [a, b], a, b, []);
    DecodeSteps(u2b, [a, b], c, u);
    ThirdLast(m, [], [a, b], [], [a, b], c, [Hi(u2b(u)), Lo(u2b(u))]);
    assert [a, b] + [c] == [a, b, c];
  }

  lemma ThirdLast<S>(m: Machine<S>, x: S, y: S, z: S, s: seq<Byte>, c: Byte, out: seq<Byte>)
    requires Fold(m, x, s) == (y, []) && m(y, c) == (z, out)
    ensures Fold(m, x, s + [c]) == (z, out)
  {
    FoldOne(m, y, c);
    FoldAppends(m, x, s, [c]);
    assert [] + out == out;
  }

  /** A byte that cannot be first swallows the byte behind it: both become what the table has for a question
      mark. */
  lemma StrayPair(u2b: Table, a: Byte, c: Byte)
    requires 0x80 <= a < 0xC0
    ensures Fold(Decoder(u2b), [], [a, c]) == ([], [Hi(u2b(0x3F)), Lo(u2b(0x3F))])
  {
    StrayByte(a, c);
    assert [] + [a] == [a];
    var t := [a] + [c];
    assert t[0] == a && t[1] == c;
    SecondLast(Decoder(u2b), [], [a], [], a, c, [Hi(u2b(0x3F)), Lo(u2b(0x3F))]);
  }

  lemma StrayByte(a: Byte, c: Byte)
    requires 0x80 <= a < 0xC0
    ensures Announced(a) == 1 && UcsOf(a, c, 0) == 0x3F
  {
  }

  lemma DecodeSteps(u2b: Table, trail: seq<Byte>, c: Byte, u: Ucs)
    ensures trail == [] && c >= 0x80 ==> DecodeOne(u2b, trail, c) == ([c], [])
    ensures trail != [] && Announced(trail[0]) > |trail| + 1 ==> DecodeOne(u2b, trail, c) == (trail + [c], [])
    ensures |trail| == 1 && Announced(trail[0]) == 2 && u == UcsOf(trail[0], c, 0)
            ==> DecodeOne(u2b, trail, c) == ([], [Hi(u2b(u)), Lo(u2b(u))])
    ensures |trail| == 2 && Announced(trail[0]) == 3 && u == UcsOf(trail[0], trail[1], c)
            ==> DecodeOne(u2b, trail, c) == ([], [Hi(u2b(u)), Lo(u2b(u))])
  {
    var t := trail + [c];
    assert forall i :: 0 <= i < |trail| ==> t[i] == trail[i];
    assert t[|trail|] == c;
    assert trail == [] ==> t == [c];
  }

  lemma SecondLast<S>(m: Machine<S>, x: S, y: S, z: S, a: Byte, b: Byte, out: seq<Byte>)
    requires m(x, a) == (y, []) && m(y, b) == (z, out)
    ensures Fold(m, x, [a, b]) == (z, out)
  {
    FoldOne(m, x, a);
    FoldOne(m, y, b);
    FoldAppends(m, x, [a], [b]);
    assert [a] + [b] == [a, b] && [] + out == out;
  }

  lemma WideUtf(u: Ucs)
    requires u >= 0x80
    ensures var w := Utf(u);
            2 <= |w| <= 3 && w[0] >= 0x80 && Announced(w[0]) == |w| && UcsOf(w[0], w[1], At(w, 2)) == u
  {
    UcsOfUtf(u, 0, 0);
  }

  lemma ReadUtf(b2u: Table, u2b: Table, hi: Byte, lo: Byte)
    ensures Fold(Decoder(u2b), [], Utf(b2u(Pair(hi, lo)))) == ([], Echo(b2u, u2b, hi, lo))
  {
    var u := b2u(Pair(hi, lo));
    if u < 0x80 {
      ReadAscii(u2b, u);
    } else {
      WideUtf(u);
      ReadWide(u2b, Utf(u), u);
    }
  }

  type Echoes = (Byte, Byte) -> seq<Byte>

  function Echoing(b2u: Table, u2b: Table): Echoes {
    (hi, lo) => Echo(b2u, u2b, hi, lo)
  }

  /** The lead byte left without its trail at the end of s, or NUL. */
  function Dangling(s: seq<Byte>): (r: Byte)
    ensures r != 0 ==> s != [] && r == s[|s| - 1] && r >= 0x80
    decreases |s|
  {
    if s == [] then 0
    else if s[0] < 0x80 then Dangling(s[1..])
    else if |s| == 1 then s[0]
    else Dangling(s[2..])
  }

  /** What comes back for s, ASCII bytes as they are and pairs through e. */
  function Echoed(e: Echoes, s: seq<Byte>): seq<Byte>
    decreases |s|
  {
    if s == [] then []
    else if s[0] < 0x80 then [s[0]] + Echoed(e, s[1..])
    else if |s| == 1 then []
    else e(s[0], s[1]) + Echoed(e, s[2..])
  }

  /** Every pair of s satisfies good. */
  predicate AllPairs(good: (Byte, Byte) -> bool, s: seq<Byte>)
    decreases |s|
  {
    if s == [] then true
    else if s[0] < 0x80 then AllPairs(good, s[1..])
    else if |s| == 1 then true
    else good(s[0], s[1]) && AllPairs(good, s[2..])
  }

  lemma EncodeAscii(b2u: Table, s: seq<Byte>)
    requires s != [] && s[0] < 0x80
    ensures var r := Fold(Encoder(b2u), 0, s[1..]);
            Fold(Encoder(b2u), 0, s) == (r.0, [s[0]] + r.1)
  {
  }

  lemma EncodePair(b2u: Table, s: seq<Byte>)
    requires |s| >= 2 && s[0] >= 0x80
    ensures var r := Fold(Encoder(b2u), 0, s[2..]);
            Fold(Encoder(b2u), 0, s) == (r.0, Utf(b2u(Pair(s[0], s[1]))) + r.1)
  {
    var m := Encoder(b2u);
    var r := Fold(m, 0, s[2..]);
    assert s[1..][1..] == s[2..] && s[1..][0] == s[1];
    assert m(0, s[0]) == (s[0], []);
    var w := Utf(b2u(Pair(s[0], s[1])));
    assert m(s[0], s[1]) == (0, w);
    assert Fold(m, s[0], s[1..]) == (r.0, w + r.1);
    assert [] + (w + r.1) == w + r.1;
  }

  lemma EncodeLone(b2u: Table, c: Byte)
    requires c >= 0x80
    ensures Fold(Encoder(b2u), 0, [c]) == (c, [])
  {
    FoldOne(Encoder(b2u), 0, c);
  }

  /** The encoder is left waiting exactly by a dangling lead byte. */
  lemma {:induction false} EncoderEnds(b2u: Table, s: seq<Byte>)
    ensures Fold(Encoder(b2u), 0, s).0 == Dangling(s)
    decreases |s|
  {
    if s == [] {
    } else if s[0] < 0x80 {
      EncodeAscii(b2u, s);
      EncoderEnds(b2u, s[1..]);
    } else if |s| == 1 {
      assert s == [s[0]];
      EncodeLone(b2u, s[0]);
    } else {
      EncodePair(b2u, s);
      EncoderEnds(b2u, s[2..]);
    }
  }

  /** Reading what was written gives the echo of every part in order, and ends between characters. */
  lemma {:induction false} ReadsEcho(b2u: Table, u2b: Table, s: seq<Byte>)
    ensures Fold(Decoder(u2b), [], Fold(Encoder(b2u), 0, s).1) == ([], Echoed(Echoing(b2u, u2b), s))
    decreases |s|
  {
    var m := Encoder(b2u);
    if s == [] {
    } else if s[0] < 0x80 {
      EncodeAscii(b2u, s);
      ReadsEcho(b2u, u2b, s[1..]);
      FoldOne(Decoder(u2b), [], s[0]);
      FoldAppends(Decoder(u2b), [], [s[0]], Fold(m, 0, s[1..]).1);
    } else if |s| == 1 {
      assert s == [s[0]];
      EncodeLone(b2u, s[0]);
    } else {
      EncodePair(b2u, s);
      ReadsEcho(b2u, u2b, s[2..]);
      ReadUtf(b2u, u2b, s[0], s[1]);
      FoldAppends(Decoder(u2b), [], Utf(b2u(Pair(s[0], s[1]))), Fold(m, 0, s[2..]).1);
    }
  }

  /** s without a dangling lead byte. */
  function Whole(s: seq<Byte>): seq<Byte> {
    if Dangling(s) == 0 then s else s[..|s| - 1]
  }

  lemma WholeOf(s: seq<Byte>, k: nat)
    requires k <= |s| && Dangling(s) == Dangling(s[k..])
    ensures Whole(s) == s[..k] + Whole(s[k..])
  {
  }

  /** The echo is never longer than the text, and the same only if every pair echoes as itself. */
  lemma {:induction false} EchoedIs(e: Echoes, s: seq<Byte>)
    requires forall hi, lo :: 1 <= |e(hi, lo)| <= 2
    ensures |Echoed(e, s)| <= |Whole(s)|
    ensures Echoed(e, s) == Whole(s) <==> AllPairs((hi, lo) => e(hi, lo) == [hi, lo], s)
    decreases |s|
  {
    if s == [] {
    } else if s[0] < 0x80 {
      EchoedIs(e, s[1..]);
      WholeOf(s, 1);
      SameParts([s[0]], Echoed(e, s[1..]), s[..1], Whole(s[1..]));
    } else if |s| == 1 {
    } else {
      EchoedIs(e, s[2..]);
      WholeOf(s, 2);
      SameParts(e(s[0], s[1]), Echoed(e, s[2..]), s[..2], Whole(s[2..]));
      assert s[..2] == [s[0], s[1]];
    }
  }

  /** The code tables take the pair there and back, through something that is not ASCII. */
  predicate GoodPair(b2u: Table, u2b: Table, hi: Byte, lo: Byte) {
    var p := Pair(hi, lo);
    b2u(p) >= 0x80 && u2b(b2u(p)) == p
  }

  lemma EchoIsGood(b2u: Table, u2b: Table, hi: Byte, lo: Byte)
    ensures Echo(b2u, u2b, hi, lo) == [hi, lo] <==> GoodPair(b2u, u2b, hi, lo)
  {
    PairParts(hi, lo, u2b(b2u(Pair(hi, lo))));
  }

  lemma {:induction false} AllPairsSame(p: (Byte, Byte) -> bool, q: (Byte, Byte) -> bool, s: seq<Byte>)
    requires forall hi, lo :: p(hi, lo) == q(hi, lo)
    ensures AllPairs(p, s) == AllPairs(q, s)
    decreases |s|
  {
    if s == [] {
    } else if s[0] < 0x80 {
      AllPairsSame(p, q, s[1..]);
    } else if |s| > 1 {
      AllPairsSame(p, q, s[2..]);
    }
  }

  /** Round trip, on every byte stream: reading what was written gives back all of it but a dangling
      lead byte, with nothing pending, exactly when the tables agree on each of its pairs. */
  lemma RoundTrip(b2u: Table, u2b: Table, s: seq<Byte>)
    ensures var back := Fold(Decoder(u2b), [], Fold(Encoder(b2u), 0, s).1);
            && back.0 == []
            && (back.1 == Whole(s) <==> AllPairs((hi, lo) => GoodPair(b2u, u2b, hi, lo), s))
  {
    var e := Echoing(b2u, u2b);
    ReadsEcho(b2u, u2b, s);
    EchoedIs(e, s);
    forall hi, lo
      ensures (e(hi, lo) == [hi, lo]) == GoodPair(b2u, u2b, hi, lo)
    {
      EchoIsGood(b2u, u2b, hi, lo);
    }
    AllPairsSame((hi, lo) => e(hi, lo) == [hi, lo], (hi, lo) => GoodPair(b2u, u2b, hi, lo), s);
  }

  // ---------------------------------------------------------------------------
  // The converters themselves, writing into a ring buffer and ignoring what no longer fits.

  /** The queue q of a buffer of the given capacity after the bytes of out are added one by one. */
  function OfferAll(cap: int, q: seq<Byte>, out: seq<Byte>): (r: seq<Byte>)
    requires |q| <= cap
    ensures |r| <= cap
  {
    q + out[..if |q| + |out| <= cap then |out| else cap - |q|]
  }

  lemma OfferAllTwice(cap: int, q: seq<Byte>, a: seq<Byte>, b: seq<Byte>)
    requires |q| <= cap
    ensures OfferAll(cap, OfferAll(cap, q, a), b) == OfferAll(cap, q, a + b)
  {
    if |q| + |a| <= cap {
      assert a[..|a|] == a;
      assert (a + b)[..if |q + a| + |b| <= cap then |a + b| else cap - |q|]
          == a + b[..if |q + a| + |b| <= cap then |b| else cap - |q + a|];
    } else {
      assert (a + b)[..cap - |q|] == a[..cap - |q|];
      assert b[..0] == [];
    }
  }

  lemma OfferNone(cap: int, q: seq<Byte>)
    requires |q| <= cap
    ensures OfferAll(cap, q, []) == q
  {
  }

  /** vbuf_add with its result ignored. */
  method AddIgnoring(v: RingBuffer.VBuf, c: Byte)
    requires v.Valid()
    modifies v`tail, v.buf
    ensures v.Valid() && v.Contents() == OfferAll(v.Capacity(), old(v.Contents()), [c])
  {
    var ok := v.Add(c);
  }

  method AddPair(v: RingBuffer.VBuf, u: Ucs)
    requires v.Valid()
    modifies v`tail, v.buf
    ensures v.Valid() && v.Contents() == OfferAll(v.Capacity(), old(v.Contents()), [Hi(u), Lo(u)])
  {
    OfferAllTwice(v.Capacity(), v.Contents(), [Hi(u)], [Lo(u)]);
    assert [Hi(u)] + [Lo(u)] == [Hi(u), Lo(u)];
    AddIgnoring(v, Hi(u));
    AddIgnoring(v, Lo(u));
  }

  /** convert_write_utf8, with its two static buffers. */
  class Writer {
    const utf8: array<Byte>
    var c0: Byte
    var c1: Byte

    ghost predicate Valid() {
      utf8.Length == 4
    }

    constructor ()
      ensures Valid() && c1 == 0 && fresh(utf8)
    {
      utf8 := new Byte[4];
      c0, c1 := 0, 0;
    }

    /** One byte; 1 unless it is held back for its trail. */
    method Write(v: RingBuffer.VBuf, b2u: Table, c: Byte) returns (n: nat)
      requires Valid() && v.Valid() && v.buf != utf8
      modifies this`c0, this`c1, utf8, v`tail, v.buf
      ensures v.Valid() && c1 == EncodeOne(b2u, old(c1), c).0
      ensures v.Contents() == OfferAll(v.Capacity(), old(v.Contents()), EncodeOne(b2u, old(c1), c).1)
      ensures n == if c1 == 0 then 1 else 0
    {
      if c1 != 0 {
        c0 := c;
        var len := Ucs2Utf(b2u(Pair(c1, c0)), utf8);
        PutAll(v, len);
        c1 := 0;
        return 1;
      }
      if c < 0x80 {
        AddIgnoring(v, c);
        return 1;
      }
      OfferNone(v.Capacity(), v.Contents());
      c1 := c;
      return 0;
    }

    /** The loop over the bytes of one character. */
    method PutAll(v: RingBuffer.VBuf, len: nat)
      requires Valid() && v.Valid() && v.buf != utf8 && len <= 3
      modifies v`tail, v.buf
      ensures v.Valid() && v.Contents() == OfferAll(v.Capacity(), old(v.Contents()), utf8[..len])
    {
      ghost var w, q := utf8[..len], v.Contents();
      OfferNone(v.Capacity(), q);
      assert w[..0] == [] && w[..len] == w;
      for i := 0 to len
        invariant v.Valid() && utf8[..len] == w
        invariant v.Contents() == OfferAll(v.Capacity(), q, w[..i])
      {
        AddIgnoring(v, utf8[i]);
        OfferAllTwice(v.Capacity(), q, w[..i], [w[i]]);
        assert w[..i + 1] == w[..i] + [w[i]];
      }
    }

    /** A whole text written a byte at a time. */
    method WriteAll(v: RingBuffer.VBuf, b2u: Table, s: seq<Byte>)
      requires Valid() && v.Valid() && v.buf != utf8
      modifies this`c0, this`c1, utf8, v`tail, v.buf
      ensures v.Valid() && c1 == Fold(Encoder(b2u), old(c1), s).0
      ensures v.Contents() == OfferAll(v.Capacity(), old(v.Contents()), Fold(Encoder(b2u), old(c1), s).1)
    {
      ghost var m, x, q := Encoder(b2u), c1, v.Contents();
      OfferNone(v.Capacity(), q);
      assert s[..|s|] == s;
      for i := 0 to |s|
        invariant v.Valid() && c1 == Fold(m, x, s[..i]).0
        invariant v.Contents() == OfferAll(v.Capacity(), q, Fold(m, x, s[..i]).1)
      {
        ghost var y := c1;
        var n := Write(v, b2u, s[i]);
        FoldNext(m, x, s, i);
        OfferAllTwice(v.Capacity(), q, Fold(m, x, s[..i]).1, m(y, s[i]).1);
      }
    }
  }

  lemma FoldNext<S>(m: Machine<S>, x: S, s: seq<Byte>, i: nat)
    requires i < |s|
    ensures var r := Fold(m, x, s[..i]); var o := m(r.0, s[i]);
            Fold(m, x, s[..i + 1]) == (o.0, r.1 + o.1)
  {
    assert s[..i + 1] == s[..i] + [s[i]];
    FoldAppends(m, x, s[..i], [s[i]]);
    FoldOne(m, Fold(m, x, s[..i]).0, s[i]);
  }

  /** convert_read_utf8, with its static trail buffer; what earlier characters left beyond ctrail
      stays there. */
  class Reader {
    const trail: array<Byte>
    var ctrail: nat

    ghost predicate Valid()
      reads this, trail
    {
      trail.Length == 6 && ctrail <= 2 && Gathered(trail[..ctrail])
    }

    constructor ()
      ensures Valid() && ctrail == 0 && fresh(trail)
    {
      trail := new Byte[6];
      ctrail := 0;
    }

    /** One turn of the loop; returns what is added to the count of bytes written. */
    method ReadOne(v: RingBuffer.VBuf, u2b: Table, c: Byte) returns (n: nat)
      requires Valid() && v.Valid() && v.buf != trail
      modifies this`ctrail, trail, v`tail, v.buf
      ensures Valid() && v.Valid()
      ensures trail[..ctrail] == DecodeOne(u2b, old(trail[..ctrail]), c).0
      ensures v.Contents() == OfferAll(v.Capacity(), old(v.Contents()), DecodeOne(u2b, old(trail[..ctrail]), c).1)
      ensures n == |DecodeOne(u2b, old(trail[..ctrail]), c).1|
    {
      ghost var t := trail[..ctrail];
      OfferNone(v.Capacity(), v.Contents());
      if ctrail > 0 {
        trail[ctrail] := c;
        ctrail := ctrail + 1;
        assert trail[..ctrail] == t + [c];
        var u, len := Utf2Ucs(trail);
        if len > ctrail {
          return 0;
        }
        NoMoreNeeded(trail[0], trail[1], trail[2], ctrail);
        AddPair(v, u2b(u));
        ctrail := 0;
        return 2;
      }
      if c < 0x80 {
        AddIgnoring(v, c);
        return 1;
      }
      trail[0] := c;
      ctrail := 1;
      return 0;
    }

    /** The whole call. */
    method Read(v: RingBuffer.VBuf, u2b: Table, s: seq<Byte>) returns (written: nat)
      requires Valid() && v.Valid() && v.buf != trail
      modifies this`ctrail, trail, v`tail, v.buf
      ensures Valid() && v.Valid()
      ensures trail[..ctrail] == Fold(Decoder(u2b), old(trail[..ctrail]), s).0
      ensures v.Contents() == OfferAll(v.Capacity(), old(v.Contents()), Fold(Decoder(u2b), old(trail[..ctrail]), s).1)
      ensures written == |Fold(Decoder(u2b), old(trail[..ctrail]), s).1|
    {
      ghost var m, x, q := Decoder(u2b), trail[..ctrail], v.Contents();
      OfferNone(v.Capacity(), q);
      assert s[..|s|] == s;
      written := 0;
      for i := 0 to |s|
        invariant Valid() && v.Valid() && trail[..ctrail] == Fold(m, x, s[..i]).0
        invariant v.Contents() == OfferAll(v.Capacity(), q, Fold(m, x, s[..i]).1)
        invariant written == |Fold(m, x, s[..i]).1|
      {
        ghost var y := trail[..ctrail];
        var n := ReadOne(v, u2b, s[i]);
        written := written + n;
        FoldNext(m, x, s, i);
        OfferAllTwice(v.Capacity(), q, Fold(m, x, s[..i]).1, m(y, s[i]).1);
      }
    }

    /** Any chunking is read as the whole would be. */
    method ReadChunks(v: RingBuffer.VBuf, u2b: Table, chunks: seq<seq<Byte>>)
      requires Valid() && v.Valid() && v.buf != trail
      modifies this`ctrail, trail, v`tail, v.buf
      ensures Valid() && v.Valid()
      ensures trail[..ctrail] == Fold(Decoder(u2b), old(trail[..ctrail]), Joined(chunks)).0
      ensures v.Contents()
              == OfferAll(v.Capacity(), old(v.Contents()), Fold(Decoder(u2b), old(trail[..ctrail]), Joined(chunks)).1)
    {
      ghost var m, x, q := Decoder(u2b), trail[..ctrail], v.Contents();
      OfferNone(v.Capacity(), q);
      assert chunks[..|chunks|] == chunks;
      for i := 0 to |chunks|
        invariant Valid() && v.Valid() && trail[..ctrail] == Fold(m, x, Joined(chunks[..i])).0
        invariant v.Contents() == OfferAll(v.Capacity(), q, Fold(m, x, Joined(chunks[..i])).1)
      {
        ghost var y := trail[..ctrail];
        var n := Read(v, u2b, chunks[i]);
        assert chunks[..i + 1] == chunks[..i] + [chunks[i]];
        JoinedNext(chunks[..i], chunks[i]);
        FoldAppends(m, x, Joined(chunks[..i]), chunks[i]);
        OfferAllTwice(v.Capacity(), q, Fold(m, x, Joined(chunks[..i])).1, Fold(m, y, chunks[i]).1);
      }
    }
  }

  /** Bytes past the announced length play no part. */
  lemma NoMoreNeeded(a: Byte, b: Byte, c: Byte, have: nat)
    requires 2 <= have <= 3 && Announced(a) <= have
    ensures UcsOf(a, b, c) == UcsOf(a, b, if have > 2 then c else 0)
  {
  }

  /** Two entries of the Big5 tables: A2CC is read as U+5341, which is written as A451. */
  lemma RoundTripExample(b2u: Table, u2b: Table)
    requires b2u(0xA2CC) == 0x5341 && u2b(0x5341) == 0xA451
    ensures Fold(Decoder(u2b), [], Fold(Encoder(b2u), 0, [0xA2, 0xCC]).1).1 == [0xA4, 0x51]
  {
    var s: seq<Byte> := [0xA2, 0xCC];
    assert Pair(0xA2, 0xCC) == 0xA2CC && Hi(0xA451) == 0xA4 && Lo(0xA451) == 0x51;
    ReadsEcho(b2u, u2b, s);
    assert Echoed(Echoing(b2u, u2b), s[2..]) == [];
    assert Echo(b2u, u2b, 0xA2, 0xCC) == [0xA4, 0x51];
  }

  lemma {:induction false} EncodedLength(b2u: Table, s: seq<Byte>)
    ensures |Fold(Encoder(b2u), 0, s).1| <= 3 * |s|
    decreases |s|
  {
    if s == [] {
    } else if s[0] < 0x80 {
      EncodeAscii(b2u, s);
      EncodedLength(b2u, s[1..]);
    } else if |s| == 1 {
      assert s == [s[0]];
      EncodeLone(b2u, s[0]);
    } else {
      EncodePair(b2u, s);
      EncodedLength(b2u, s[2..]);
    }
  }

  lemma OfferFits(cap: int, out: seq<Byte>)
    requires |out| <= cap
    ensures OfferAll(cap, [], out) == out
  {
    assert out[..|out|] == out;
  }

  ghost predicate Cuts(cut: seq<Byte> -> seq<seq<Byte>>) {
    forall t :: Joined(cut(t)) == t
  }

  /** A text written by a new writer into a buffer with room. */
  method WriteOut(b2u: Table, s: seq<Byte>) returns (wire: seq<Byte>)
    ensures wire == Fold(Encoder(b2u), 0, s).1
  {
    var w := new Writer();
    var v := new RingBuffer.VBuf(3 * |s| + 2);
    w.WriteAll(v, b2u, s);
    EncodedLength(b2u, s);
    OfferFits(v.Capacity(), Fold(Encoder(b2u), 0, s).1);
    wire := [];
    var n := v.Size();
    if n > 0 {
      var ok, block := v.GetBlk(n);
      wire := block;
    }
  }

  /** From a new writer to a new reader, cut anywhere on the way, into an empty buffer with room: no
      character is left open, and the text arrives, but for a lone lead byte at its end, if and only
      if the tables agree on each of its pairs. */
  method Transmit(b2u: Table, u2b: Table, s: seq<Byte>, cut: seq<Byte> -> seq<seq<Byte>>, v: RingBuffer.VBuf)
      returns (r: Reader)
    requires Cuts(cut) && v.Valid() && v.Contents() == [] && |s| <= v.Capacity()
    modifies v`tail, v.buf
    ensures fresh(r) && r.Valid() && r.ctrail == 0 && v.Valid()
    ensures v.Contents() == Whole(s) <==> AllPairs((hi, lo) => GoodPair(b2u, u2b, hi, lo), s)
  {
    var wire := WriteOut(b2u, s);
    r := new Reader();
    assert r.trail[..0] == [];
    r.ReadChunks(v, u2b, cut(wire));
    RoundTrip(b2u, u2b, s);
    ReadsEcho(b2u, u2b, s);
    EchoedIs(Echoing(b2u, u2b), s);
    OfferFits(v.Capacity(), Fold(Decoder(u2b), [], wire).1);
  }

  // ---------------------------------------------------------------------------
  // The whole-string encoder.

  /** What the byte-at-a-time encoder makes of a text, and a question mark for a lead byte left alone. */
  function StringUtf(b2u: Table, s: seq<Byte>): seq<Byte> {
    Fold(Encoder(b2u), 0, s).1 + (if Dangling(s) == 0 then [] else [QUESTION])
  }

  /** The result by its first character. */
  lemma StringUtfStep(b2u: Table, s: seq<Byte>)
    ensures s == [] ==> StringUtf(b2u, s) == []
    ensures s != [] && s[0] < 0x80 ==> StringUtf(b2u, s) == [s[0]] + StringUtf(b2u, s[1..])
    ensures |s| == 1 && s[0] >= 0x80 ==> StringUtf(b2u, s) == [QUESTION]
    ensures |s| >= 2 && s[0] >= 0x80 ==> StringUtf(b2u, s) == Utf(b2u(Pair(s[0], s[1]))) + StringUtf(b2u, s[2..])
  {
    if s == [] {
    } else if s[0] < 0x80 {
      EncodeAscii(b2u, s);
    } else if |s| == 1 {
      assert s == [s[0]];
      EncodeLone(b2u, s[0]);
    } else {
      EncodePair(b2u, s);
    }
  }

  /** One turn of the loop on what is left of the string: the bytes appended, and how far it moves on. */
  method StringTurn(b2u: Table, big5: array<Byte>, cs: array<Byte>, p: nat, ghost rest: seq<Byte>)
      returns (out: seq<Byte>, k: nat, stop: bool)
    requires rest != [] && p + |rest| < big5.Length && big5[p + |rest|] == 0 && cs.Length == 4 && cs != big5
    requires big5[p] == rest[0] && (|rest| > 1 ==> big5[p + 1] == rest[1] != 0)
    modifies cs
    ensures 1 <= k <= |rest|
    ensures StringUtf(b2u, rest) == if stop then out else out + StringUtf(b2u, rest[k..])
  {
    StringUtfStep(b2u, rest);
    if big5[p] < 0x80 {
      return [big5[p]], 1, false;
    }
    if big5[p + 1] == 0 {
      return [QUESTION], 1, true;
    }
    var len := Ucs2Utf(b2u(Pair(big5[p], big5[p + 1])), cs);
    return cs[..len], 2, false;
  }

  /** strings::b2u, on the bytes up to the first NUL: it agrees with the byte-at-a-time encoder, except
      that it writes a question mark, and stops, at a lead byte with nothing behind it. */
  method StringToUtf8(b2u: Table, big5: array<Byte>) returns (utf8: seq<Byte>)
    requires 0 in big5[..]
    ensures var s := big5[..RingBuffer.Find(big5[..], 0)];
            utf8 == Fold(Encoder(b2u), 0, s).1 + (if Fold(Encoder(b2u), 0, s).0 == 0 then [] else [QUESTION])
  {
    ghost var n := RingBuffer.Find(big5[..], 0);
    ghost var s := big5[..n];
    EncoderEnds(b2u, s);
    utf8 := [];
    var cs := new Byte[4];
    var p := 0;
    var more := true;
    OngoingStarts(b2u, s);
    while more && big5[p] != 0
      invariant p <= n && IsString(big5, s) && (more ==> Ongoing(b2u, s, p, utf8))
      invariant !more ==> utf8 == StringUtf(b2u, s)
      decreases more, n - p
      modifies cs
    {
      p, utf8, more := StringStep(b2u, big5, cs, p, utf8, s);
    }
    if more {
      OngoingEnds(b2u, s, utf8);
    }
  }

  /** The string s is at the start of the buffer. */
  ghost predicate IsString(big5: array<Byte>, s: seq<Byte>)
    reads big5
  {
    |s| < big5.Length && big5[|s|] == 0 && forall i {:trigger big5[i]} :: 0 <= i < |s| ==> big5[i] == s[i] != 0
  }

  method StringStep(b2u: Table, big5: array<Byte>, cs: array<Byte>, p: nat, utf8: seq<Byte>, ghost s: seq<Byte>)
      returns (p': nat, utf8': seq<Byte>, more: bool)
    requires p < |s| && IsString(big5, s) && Ongoing(b2u, s, p, utf8) && cs.Length == 4 && cs != big5
    modifies cs
    ensures p < p' <= |s|
    ensures if more then Ongoing(b2u, s, p', utf8') else utf8' == StringUtf(b2u, s)
  {
    var out, k, stop := StringTurn(b2u, big5, cs, p, s[p..]);
    OngoingNext(b2u, s, p, utf8, out, k, stop);
    p', utf8', more := p + k, utf8 + out, !stop;
  }

  /** utf8 is the beginning of the result, and the rest comes from position p on. */
  ghost predicate Ongoing(b2u: Table, s: seq<Byte>, p: nat, utf8: seq<Byte>) {
    p <= |s| && StringUtf(b2u, s) == utf8 + StringUtf(b2u, s[p..])
  }

  lemma OngoingStarts(b2u: Table, s: seq<Byte>)
    ensures Ongoing(b2u, s, 0, [])
  {
    assert s[0..] == s && [] + StringUtf(b2u, s) == StringUtf(b2u, s);
  }

  lemma OngoingNext(b2u: Table, s: seq<Byte>, p: nat, utf8: seq<Byte>, out: seq<Byte>, k: nat, stop: bool)
    requires Ongoing(b2u, s, p, utf8) && k <= |s| - p
    requires StringUtf(b2u, s[p..]) == if stop then out else out + StringUtf(b2u, s[p..][k..])
    ensures if stop then StringUtf(b2u, s) == utf8 + out else Ongoing(b2u, s, p + k, utf8 + out)
  {
    assert s[p..][k..] == s[p + k..];
    var rest := StringUtf(b2u, s[p + k..]);
    assert utf8 + (out + rest) == (utf8 + out) + rest;
  }

  lemma OngoingEnds(b2u: Table, s: seq<Byte>, utf8: seq<Byte>)
    requires Ongoing(b2u, s, |s|, utf8)
    ensures utf8 == StringUtf(b2u, s)
  {
    assert s[|s|..] == [];
    StringUtfStep(b2u, []);
  }
}
