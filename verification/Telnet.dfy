/** The server side of the TELNET protocol in common/sys/telnet.c (command codes of RFC 854): a byte
    machine that takes commands out of the input in place, refuses options it does not know, and
    reports window size and terminal type. */
module Telnet {
  import opened Basics

  type Byte = x: int | 0 <= x < 256

  const IAC: Byte := 255
  const DONT: Byte := 254
  const DO: Byte := 253
  const WONT: Byte := 252
  const WILL: Byte := 251
  const SB: Byte := 250
  const AYT: Byte := 246
  const SE: Byte := 240

  const TELOPT_BINARY: Byte := 0
  const TELOPT_ECHO: Byte := 1
  const TELOPT_SGA: Byte := 3
  const TELOPT_TTYPE: Byte := 24
  const TELOPT_NAWS: Byte := 31

  const MAXLEN := 32   // TELNET_IAC_MAXLEN

  datatype IacState = IacNone | IacCommand | IacWaitOpt | IacWaitSe | IacProcessOpt

  /** What the handler does to the outside: the calls of its callbacks. */
  datatype Effect = Reply(bytes: seq<Byte>) | SendAyt | Resize(w: int, h: int) | TermType(name: seq<Byte>)

  /** A context as a value. */
  datatype Ctx = Ctx(state: IacState, quote: bool, optReq: Byte, buf: seq<Byte>, buflen: nat) {
    /** What holds between any two bytes. */
    predicate Good() {
      && |buf| == MAXLEN
      && (state == IacNone || state == IacWaitOpt || state == IacWaitSe)
      && (state == IacWaitSe ==> buflen < MAXLEN)
    }
  }

  // ---------------------------------------------------------------------------
  // Any machine that takes bytes one by one, keeps some of them, and has effects.

  datatype Outcome<C> = Outcome(ctx: C, handled: bool, effects: seq<Effect>)

  /** The context after some bytes, the bytes left as data, and all effects. */
  datatype Result<C> = Result(ctx: C, data: seq<Byte>, effects: seq<Effect>)

  function Then<C>(r: Result<C>, q: Result<C>): Result<C> {
    Result(q.ctx, r.data + q.data, r.effects + q.effects)
  }

  lemma ThenAssociates<C>(a: Result<C>, b: Result<C>, c: Result<C>)
    ensures Then(Then(a, b), c) == Then(a, Then(b, c))
  {
    assert a.data + b.data + c.data == a.data + (b.data + c.data);
    assert a.effects + b.effects + c.effects == a.effects + (b.effects + c.effects);
  }

  lemma ThenNothing<C>(r: Result<C>)
    ensures forall x :: Then(Result(x, [], []), r) == r
    ensures Then(r, Result(r.ctx, [], [])) == r
  {
    assert [] + r.data == r.data && r.data + [] == r.data;
    assert [] + r.effects == r.effects && r.effects + [] == r.effects;
  }

  function One<C>(step: (C, Byte) -> Outcome<C>, x: C, c: Byte): Result<C> {
    var o := step(x, c);
    Result(o.ctx, if o.handled then [] else [c], o.effects)
  }

  function RunWith<C>(step: (C, Byte) -> Outcome<C>, x: C, s: seq<Byte>): (r: Result<C>)
    ensures |r.data| <= |s|
    decreases |s|
  {
    if s == [] then Result(x, [], []) else Then(One(step, x, s[0]), RunWith(step, One(step, x, s[0]).ctx, s[1..]))
  }

  lemma {:induction false} RunAppends<C>(step: (C, Byte) -> Outcome<C>, x: C, a: seq<Byte>, b: seq<Byte>)
    ensures RunWith(step, x, a + b) == Then(RunWith(step, x, a), RunWith(step, RunWith(step, x, a).ctx, b))
    decreases |a|
  {
    if a == [] {
      var r := RunWith(step, x, b);
      assert [] + b == b && [] + r.data == r.data && [] + r.effects == r.effects;
    } else {
      var first := One(step, x, a[0]);
      var y := first.ctx;
      RunAppends(step, y, a[1..], b);
      ThenAssociates(first, RunWith(step, y, a[1..]), RunWith(step, RunWith(step, y, a[1..]).ctx, b));
      assert (a + b)[1..] == a[1..] + b && (a + b)[0] == a[0];
    }
  }

  lemma RunOne<C>(step: (C, Byte) -> Outcome<C>, x: C, c: Byte)
    ensures RunWith(step, x, [c]) == One(step, x, c)
  {
    var r := One(step, x, c);
    assert [c][1..] == [] && r.data + [] == r.data && r.effects + [] == r.effects;
  }

  /** A byte that is handled in silence only changes the context. */
  lemma RunSilent<C>(step: (C, Byte) -> Outcome<C>, x: C, y: C, c: Byte, s: seq<Byte>)
    requires step(x, c) == Outcome(y, true, [])
    ensures RunWith(step, x, [c] + s) == RunWith(step, y, s)
  {
    var r := RunWith(step, y, s);
    assert ([c] + s)[1..] == s && [] + r.data == r.data && [] + r.effects == r.effects;
  }

  /** The chunks handled one after the other. */
  function RunChunks<C>(step: (C, Byte) -> Outcome<C>, x: C, chunks: seq<seq<Byte>>): Result<C>
    decreases |chunks|
  {
    if chunks == [] then Result(x, [], [])
    else
      var r := RunWith(step, x, chunks[0]);
      Then(r, RunChunks(step, r.ctx, chunks[1..]))
  }

  lemma {:induction false} ChunksJoin<C>(step: (C, Byte) -> Outcome<C>, x: C, chunks: seq<seq<Byte>>)
    ensures RunChunks(step, x, chunks) == RunWith(step, x, Joined(chunks))
    decreases |chunks|
  {
    if chunks != [] {
      ChunksJoin(step, RunWith(step, x, chunks[0]).ctx, chunks[1..]);
      RunAppends(step, x, chunks[0], Joined(chunks[1..]));
    }
  }

  // ---------------------------------------------------------------------------
  // The TELNET handler.

  /** Options whose use this server declared itself. */
  predicate OwnOption(c: Byte) {
    c == TELOPT_TTYPE || c == TELOPT_NAWS || c == TELOPT_SGA || c == TELOPT_ECHO || c == TELOPT_BINARY
  }

  function Answer(req: Byte, c: Byte): seq<Effect> {
    if OwnOption(c) then []
    else if req == DO then [Reply([IAC, WONT, c])]
    else if req == WILL then [Reply([IAC, DONT, c])]
    else []
  }

  function Pair(high: Byte, low: Byte): int {
    256 * (high as int) + low as int
  }

  /** What the end of a subnegotiation reports, from a buffer of which buflen bytes are new. */
  function Report(buf: seq<Byte>, buflen: nat): seq<Effect> {
    if |buf| != MAXLEN || buflen > MAXLEN then []
    else if buf[0] == TELOPT_NAWS then [Resize(Pair(buf[1], buf[2]), Pair(buf[3], buf[4]))]
    else if buf[0] == TELOPT_TTYPE && buflen > 2 then [TermType(buf[2..buflen])]
    else []
  }

  /** The byte after an IAC outside of any command. */
  function HandleCommand(x: Ctx, c: Byte): Outcome<Ctx> {
    if c == AYT then Outcome(x, true, [SendAyt])
    else if c == DONT || c == DO || c == WONT || c == WILL then Outcome(x.(optReq := c, state := IacWaitOpt), true, [])
    else if c == SB then Outcome(x.(state := IacWaitSe, buflen := 0), true, [])
    else Outcome(x, true, [])
  }

  /** A byte of a subnegotiation; the one that fills the buffer ends it and is left as data. */
  function HandleSub(x: Ctx, c: Byte): Outcome<Ctx> {
    if x.buflen >= |x.buf| then Outcome(x, true, [])
    else
      var y := x.(buf := x.buf[x.buflen := c], buflen := x.buflen + 1);
      if y.buflen == MAXLEN then Outcome(y.(state := IacNone), false, []) else Outcome(y, true, [])
  }

  /** telnet_handler between bytes: an IAC is held back, and the byte after it is taken as quoted. */
  function Handle(x: Ctx, c: Byte): Outcome<Ctx> {
    if c == IAC && !x.quote then Outcome(x.(quote := true), true, [])
    else
      var y := x.(quote := false);
      match x.state
      case IacWaitOpt => Outcome(y.(state := IacNone), true, Answer(x.optReq, c))
      case IacWaitSe =>
        if x.quote && c == SE then Outcome(y.(state := IacNone), true, Report(x.buf, x.buflen)) else HandleSub(y, c)
      case _ => if x.quote then HandleCommand(y.(state := IacNone), c) else Outcome(y, false, [])
  }

  lemma HandleStaysGood(x: Ctx, c: Byte)
    requires x.Good()
    ensures Handle(x, c).ctx.Good()
  {
  }

  function Run(x: Ctx, s: seq<Byte>): Result<Ctx> {
    RunWith(Handle, x, s)
  }

  /** Between any two bytes of any stream the context is good: no command is half read but an option
      or a subnegotiation, and the option buffer has room. */
  lemma {:induction false} RunStaysGood(x: Ctx, s: seq<Byte>)
    requires x.Good()
    ensures Run(x, s).ctx.Good()
    decreases |s|
  {
    if s != [] {
      HandleStaysGood(x, s[0]);
      RunStaysGood(Handle(x, s[0]).ctx, s[1..]);
    }
  }

  /** Any way of cutting a stream into chunks gives the same data, effects and final context. */
  lemma ChunkIndependence(x: Ctx, chunks: seq<seq<Byte>>)
    ensures RunChunks(Handle, x, chunks) == Run(x, Joined(chunks))
  {
    ChunksJoin(Handle, x, chunks);
  }

  predicate AtRest(x: Ctx) {
    |x.buf| == MAXLEN && x.state == IacNone && !x.quote
  }

  /** Without an IAC, and outside of any command, everything is data and nothing happens. */
  lemma {:induction false} PlainText(x: Ctx, s: seq<Byte>)
    requires AtRest(x) && IAC !in s
    ensures Run(x, s) == Result(x, s, [])
    decreases |s|
  {
    if s != [] {
      PlainText(x, s[1..]);
      assert Handle(x, s[0]) == Outcome(x, false, []);
      assert [s[0]] + s[1..] == s;
    }
  }

  // ---------------------------------------------------------------------------
  // Well-formed input, item by item (RFC 854 "TELNET COMMAND STRUCTURE", RFC 855).

  datatype Item =
    | Data(c: Byte)
    | DoubledIac
    | Command(c: Byte)
    | Option(verb: Byte, opt: Byte)
    | Sub(payload: seq<Byte>)

  predicate WellFormed(i: Item) {
    match i
    case Data(c) => c != IAC
    case DoubledIac => true
    case Command(c) => c != IAC && c != SB && c != DO && c != DONT && c != WILL && c != WONT
    case Option(verb, _) => verb == DO || verb == DONT || verb == WILL || verb == WONT
    case Sub(payload) => 1 <= |payload| < MAXLEN
  }

  function Quoted(c: Byte): seq<Byte> {
    if c == IAC then [IAC, IAC] else [c]
  }

  function AllQuoted(s: seq<Byte>): seq<Byte> {
    if s == [] then [] else Quoted(s[0]) + AllQuoted(s[1..])
  }

  function Render(i: Item): seq<Byte> {
    match i
    case Data(c) => [c]
    case DoubledIac => [IAC, IAC]
    case Command(c) => [IAC, c]
    case Option(verb, opt) => [IAC, verb] + Quoted(opt)
    case Sub(payload) => [IAC, SB] + AllQuoted(payload) + [IAC, SE]
  }

  function RenderAll(items: seq<Item>): seq<Byte> {
    if items == [] then [] else Render(items[0]) + RenderAll(items[1..])
  }

  /** The option buffer after a payload was stored at its start. */
  function Stored(buf: seq<Byte>, payload: seq<Byte>): seq<Byte>
    requires |payload| <= |buf|
  {
    payload + buf[|payload|..]
  }

  /** What one item means. */
  function Meaning(x: Ctx, i: Item): Result<Ctx>
    requires |x.buf| == MAXLEN && WellFormed(i)
  {
    match i
    case Data(c) => Result(x, [c], [])
    case DoubledIac => Result(x, [], [])
    case Command(c) => Result(x, [], if c == AYT then [SendAyt] else [])
    case Option(verb, opt) => Result(x.(optReq := verb), [], Answer(verb, opt))
    case Sub(payload) =>
      var buf := Stored(x.buf, payload);
      Result(x.(buf := buf, buflen := |payload|), [], Report(buf, |payload|))
  }

  function MeaningAll(x: Ctx, items: seq<Item>): Result<Ctx>
    requires |x.buf| == MAXLEN && forall k :: 0 <= k < |items| ==> WellFormed(items[k])
    decreases |items|
  {
    if items == [] then Result(x, [], [])
    else
      var r := Meaning(x, items[0]);
      Then(r, MeaningAll(r.ctx, items[1..]))
  }

  /** One payload byte, doubled if it is an IAC, goes to the option buffer. */
  lemma PayloadByte(x: Ctx, c: Byte, s: seq<Byte>)
    requires x.Good() && x.state == IacWaitSe && !x.quote && x.buflen + 1 < MAXLEN
    ensures Run(x, Quoted(c) + s) == Run(x.(buf := x.buf[x.buflen := c], buflen := x.buflen + 1), s)
  {
    var y := x.(buf := x.buf[x.buflen := c], buflen := x.buflen + 1);
    if c == IAC {
      var q := x.(quote := true);
      assert [IAC, IAC] + s == [IAC] + ([IAC] + s);
      RunSilent(Handle, x, q, IAC, [IAC] + s);
      RunSilent(Handle, q, y, IAC, s);
    } else {
      RunSilent(Handle, x, y, c, s);
    }
  }

  /** The context once a payload has been stored behind what is already there. */
  function Collected(x: Ctx, s: seq<Byte>): Ctx
    requires x.buflen + |s| <= |x.buf|
  {
    x.(buf := x.buf[..x.buflen] + s + x.buf[x.buflen + |s|..], buflen := x.buflen + |s|)
  }

  /** A quoted payload is collected byte by byte. */
  lemma {:induction false} PayloadIsStored(x: Ctx, s: seq<Byte>, t: seq<Byte>)
    requires x.Good() && x.state == IacWaitSe && !x.quote && x.buflen + |s| < MAXLEN
    ensures Run(x, AllQuoted(s) + t) == Run(Collected(x, s), t)
    decreases |s|
  {
    if s == [] {
      assert x.buf[..x.buflen] + s + x.buf[x.buflen..] == x.buf && AllQuoted(s) + t == t;
    } else {
      var y := x.(buf := x.buf[x.buflen := s[0]], buflen := x.buflen + 1);
      Regroup(Quoted(s[0]), AllQuoted(s[1..]), t);
      PayloadByte(x, s[0], AllQuoted(s[1..]) + t);
      PayloadIsStored(y, s[1..], t);
      CollectedNext(x, y, s);
    }
  }

  lemma CollectedNext(x: Ctx, y: Ctx, s: seq<Byte>)
    requires s != [] && x.buflen + |s| <= |x.buf|
    requires y == x.(buf := x.buf[x.buflen := s[0]], buflen := x.buflen + 1)
    ensures Collected(y, s[1..]) == Collected(x, s)
  {
    StoreShifts(x.buf, x.buflen, s);
  }

  lemma StoreShifts(buf: seq<Byte>, n: nat, s: seq<Byte>)
    requires s != [] && n + |s| <= |buf|
    ensures var buf' := buf[n := s[0]];
            buf'[..n + 1] + s[1..] + buf'[n + 1 + |s[1..]|..] == buf[..n] + s + buf[n + |s|..]
  {
    var buf' := buf[n := s[0]];
    assert buf'[..n + 1] == buf[..n] + [s[0]] && s == [s[0]] + s[1..];
    assert buf'[n + 1 + |s[1..]|..] == buf[n + |s|..];
  }

  lemma CommandMeans(x: Ctx, c: Byte)
    requires AtRest(x) && WellFormed(Command(c))
    ensures Run(x, [IAC, c]) == Meaning(x, Command(c))
  {
    var q := x.(quote := true);
    assert [IAC, c] == [IAC] + [c];
    RunSilent(Handle, x, q, IAC, [c]);
    RunOne(Handle, q, c);
  }

  lemma OptionMeans(x: Ctx, verb: Byte, opt: Byte)
    requires AtRest(x) && WellFormed(Option(verb, opt))
    ensures Run(x, Render(Option(verb, opt))) == Meaning(x, Option(verb, opt))
  {
    var q, y := x.(quote := true), x.(optReq := verb, state := IacWaitOpt);
    assert [IAC, verb] + Quoted(opt) == [IAC] + ([verb] + Quoted(opt));
    RunSilent(Handle, x, q, IAC, [verb] + Quoted(opt));
    RunSilent(Handle, q, y, verb, Quoted(opt));
    if opt == IAC {
      assert [IAC, IAC] == [IAC] + [IAC];
      RunSilent(Handle, y, y.(quote := true), IAC, [IAC]);
      RunOne(Handle, y.(quote := true), IAC);
    } else {
      RunOne(Handle, y, opt);
    }
  }

  lemma SubOpens(x: Ctx, s: seq<Byte>)
    requires AtRest(x)
    ensures Run(x, [IAC, SB] + s) == Run(x.(state := IacWaitSe, buflen := 0), s)
  {
    var q, y := x.(quote := true), x.(state := IacWaitSe, buflen := 0);
    assert [IAC, SB] + s == [IAC] + ([SB] + s);
    RunSilent(Handle, x, q, IAC, [SB] + s);
    RunSilent(Handle, q, y, SB, s);
  }

  lemma SubCloses(x: Ctx)
    requires x.state == IacWaitSe && !x.quote
    ensures Run(x, [IAC, SE]) == Result(x.(state := IacNone), [], Report(x.buf, x.buflen))
  {
    var q := x.(quote := true);
    assert [IAC, SE] == [IAC] + [SE];
    RunSilent(Handle, x, q, IAC, [SE]);
    RunOne(Handle, q, SE);
  }

  /** The bytes s take the machine from x to y in silence, whatever follows. */
  ghost predicate Leads<C>(step: (C, Byte) -> Outcome<C>, x: C, s: seq<Byte>, y: C) {
    forall rest :: RunWith(step, x, s + rest) == RunWith(step, y, rest)
  }

  lemma LeadsOn<C>(step: (C, Byte) -> Outcome<C>, x: C, s: seq<Byte>, y: C, t: seq<Byte>, z: C)
    requires Leads(step, x, s, y) && Leads(step, y, t, z)
    ensures forall rest :: RunWith(step, x, s + (t + rest)) == RunWith(step, z, rest)
  {
  }

  lemma SubOpensAny(x: Ctx)
    requires AtRest(x)
    ensures Leads(Handle, x, [IAC, SB], x.(state := IacWaitSe, buflen := 0))
  {
    forall rest
      ensures RunWith(Handle, x, [IAC, SB] + rest) == RunWith(Handle, x.(state := IacWaitSe, buflen := 0), rest)
    {
      SubOpens(x, rest);
    }
  }

  lemma CollectedAtStart(y: Ctx, payload: seq<Byte>)
    requires y.buflen == 0 && |payload| <= |y.buf|
    ensures Collected(y, payload) == y.(buf := Stored(y.buf, payload), buflen := |payload|)
  {
    assert y.buf[..0] + payload + y.buf[0 + |payload|..] == Stored(y.buf, payload);
  }

  lemma PayloadLeads(x: Ctx, s: seq<Byte>, z: Ctx)
    requires x.Good() && x.state == IacWaitSe && !x.quote && x.buflen + |s| < MAXLEN && z == Collected(x, s)
    ensures Leads(Handle, x, AllQuoted(s), z)
  {
    forall rest
      ensures RunWith(Handle, x, AllQuoted(s) + rest) == RunWith(Handle, z, rest)
    {
      PayloadIsStored(x, s, rest);
    }
  }

  /** An opened subnegotiation whose payload fits collects it. */
  lemma SubStored(x: Ctx, payload: seq<Byte>, rest: seq<Byte>)
    requires AtRest(x) && |payload| < MAXLEN
    ensures Run(x, [IAC, SB] + (AllQuoted(payload) + rest))
         == Run(x.(state := IacWaitSe, buf := Stored(x.buf, payload), buflen := |payload|), rest)
  {
    var y := x.(state := IacWaitSe, buflen := 0);
    var z := y.(buf := Stored(x.buf, payload), buflen := |payload|);
    SubOpensAny(x);
    CollectedAtStart(y, payload);
    PayloadLeads(y, payload, z);
    LeadsOn(Handle, x, [IAC, SB], y, AllQuoted(payload), z);
  }

  lemma SubMeans(x: Ctx, payload: seq<Byte>)
    requires AtRest(x) && WellFormed(Sub(payload))
    ensures Run(x, Render(Sub(payload))) == Meaning(x, Sub(payload))
  {
    assert Render(Sub(payload)) == [IAC, SB] + (AllQuoted(payload) + [IAC, SE]);
    SubStored(x, payload, [IAC, SE]);
    SubCloses(x.(state := IacWaitSe, buf := Stored(x.buf, payload), buflen := |payload|));
  }

  /** Parsing one rendered item gives its meaning. */
  lemma ItemMeans(x: Ctx, i: Item)
    requires AtRest(x) && WellFormed(i)
    ensures Run(x, Render(i)) == Meaning(x, i)
  {
    match i
    case Data(c) => RunOne(Handle, x, c);
    case DoubledIac =>
      assert [IAC, IAC] == [IAC] + [IAC];
      RunSilent(Handle, x, x.(quote := true), IAC, [IAC]);
      RunOne(Handle, x.(quote := true), IAC);
    case Command(c) => CommandMeans(x, c);
    case Option(verb, opt) => OptionMeans(x, verb, opt);
    case Sub(payload) => SubMeans(x, payload);
  }

  /** Parsing any rendered list of items gives their meanings, in order. */
  lemma {:induction false} ParseRender(x: Ctx, items: seq<Item>)
    requires AtRest(x) && forall k :: 0 <= k < |items| ==> WellFormed(items[k])
    ensures Run(x, RenderAll(items)) == MeaningAll(x, items) && AtRest(MeaningAll(x, items).ctx)
    decreases |items|
  {
    if items != [] {
      ItemMeans(x, items[0]);
      ParseRender(Meaning(x, items[0]).ctx, items[1..]);
      RunAppends(Handle, x, Render(items[0]), RenderAll(items[1..]));
    }
  }

  /** An option code 255 that is not doubled swallows the byte after it, as the option. */
  lemma UndoubledOption(x: Ctx, verb: Byte, c: Byte)
    requires AtRest(x) && WellFormed(Option(verb, c))
    ensures Run(x, [IAC, verb, IAC, c]) == Meaning(x, Option(verb, c))
  {
    var q, y := x.(quote := true), x.(optReq := verb, state := IacWaitOpt);
    assert [IAC, verb, IAC, c] == [IAC] + ([verb] + ([IAC] + [c]));
    RunSilent(Handle, x, q, IAC, [verb] + ([IAC] + [c]));
    RunSilent(Handle, q, y, verb, [IAC] + [c]);
    RunSilent(Handle, y, y.(quote := true), IAC, [c]);
    RunOne(Handle, y.(quote := true), c);
  }

  // ---------------------------------------------------------------------------
  // On the wire, in the numbers of RFC 854: 255 IAC, 254 DONT, 253 DO, 252 WONT, 251 WILL, 250 SB,
  // 246 AYT, 240 SE; of RFC 1073, 31 for the window size; of RFC 1091, 24 for the terminal type.

  /** DO is refused with WONT and WILL with DONT, for every option but BINARY, ECHO, SUPPRESS-GO-AHEAD,
      TERMINAL-TYPE and NAWS; WONT and DONT are never answered. */
  lemma NegotiationOnTheWire(x: Ctx, c: Byte)
    requires AtRest(x)
    ensures var known := c == 0 || c == 1 || c == 3 || c == 24 || c == 31;
            var opt := if c == 255 then [255, 255] else [c];
            && Run(x, [255, 253] + opt).effects == (if known then [] else [Reply([255, 252, c])])
            && Run(x, [255, 251] + opt).effects == (if known then [] else [Reply([255, 254, c])])
            && Run(x, [255, 252] + opt).effects == [] && Run(x, [255, 254] + opt).effects == []
  {
    OptionMeans(x, 253, c);
    OptionMeans(x, 251, c);
    OptionMeans(x, 252, c);
    OptionMeans(x, 254, c);
    assert Quoted(c) == if c == 255 then [255, 255] else [c];
  }

  /** Of the commands of two bytes only AYT has an effect, and none of them is data. */
  lemma CommandOnTheWire(x: Ctx, c: Byte)
    requires AtRest(x) && c < 250
    ensures Run(x, [255, c]) == Result(x, [], if c == 246 then [SendAyt] else [])
  {
    CommandMeans(x, c);
  }

  /** Inside of a subnegotiation an IAC that is not doubled is passed over, unless SE follows. */
  lemma QuotedOnTheWire(x: Ctx, c: Byte)
    requires x.Good() && x.state == IacWaitSe && !x.quote && x.buflen + 1 < 32 && c != 240
    ensures Run(x, [255, c]) == Result(x.(buf := x.buf[x.buflen := c], buflen := x.buflen + 1), [], [])
  {
    assert [255, c] == [255] + [c];
    RunSilent(Handle, x, x.(quote := true), 255, [c]);
    RunOne(Handle, x.(quote := true), c);
  }

  /** The doubled IAC is dropped. */
  lemma DoubledOnTheWire(x: Ctx)
    requires AtRest(x)
    ensures Run(x, [255, 255]) == Result(x, [], [])
  {
    ItemMeans(x, DoubledIac);
  }

  /** The window size is two numbers of two bytes, the more significant byte first. */
  lemma SizeOnTheWire(x: Ctx, a: Byte, b: Byte, c: Byte, d: Byte)
    requires AtRest(x) && a < 255 && b < 255 && c < 255 && d < 255
    ensures var r := Run(x, [255, 250, 31, a, b, c, d, 255, 240]);
            r.data == [] && r.effects == [Resize(256 * a + b, 256 * c + d)]
  {
    PlainSub(x, [31, a, b, c, d], [255, 250, 31, a, b, c, d, 255, 240]);
  }

  /** The terminal type is what follows the 24 and one more byte, if anything does. */
  lemma TypeOnTheWire(x: Ctx, how: Byte, name: seq<Byte>)
    requires AtRest(x) && how < 255 && 0 < |name| < 30 && 255 !in name
    ensures var r := Run(x, [255, 250, 24, how] + name + [255, 240]);
            r.data == [] && r.effects == [TermType(name)]
  {
    PlainSub(x, [24, how] + name, [255, 250, 24, how] + name + [255, 240]);
    assert ([24, how] + name)[2..] == name;
  }

  lemma PlainSub(x: Ctx, payload: seq<Byte>, wire: seq<Byte>)
    requires AtRest(x) && 0 < |payload| < 32 && (payload[0] == 31 ==> |payload| >= 5)
    requires (forall k :: 0 <= k < |payload| ==> payload[k] != 255) && wire == [255, 250] + payload + [255, 240]
    ensures Run(x, wire).data == [] && Run(x, wire).effects == Announced(payload)
  {
    PlainQuoted(payload);
    assert Render(Sub(payload)) == wire;
    SubReadIff(x, payload);
  }

  lemma {:induction false} PlainQuoted(s: seq<Byte>)
    requires forall k :: 0 <= k < |s| ==> s[k] != IAC
    ensures AllQuoted(s) == s
  {
    if s != [] {
      PlainQuoted(s[1..]);
      assert [s[0]] + s[1..] == s;
    }
  }

  // ---------------------------------------------------------------------------
  // Subnegotiations of any length.

  lemma {:induction false} AllQuotedConcat(s: seq<Byte>, t: seq<Byte>)
    ensures AllQuoted(s + t) == AllQuoted(s) + AllQuoted(t)
  {
    if s == [] {
      assert s + t == t;
    } else {
      AllQuotedConcat(s[1..], t);
      assert (s + t)[1..] == s[1..] + t;
      Regroup(Quoted(s[0]), AllQuoted(s[1..]), AllQuoted(t));
    }
  }

  function WithoutIac(s: seq<Byte>): seq<Byte> {
    if s == [] then [] else (if s[0] == IAC then [] else [s[0]]) + WithoutIac(s[1..])
  }

  /** Quoted bytes outside of any command. */
  lemma {:induction false} QuotedAtRest(x: Ctx, s: seq<Byte>)
    requires AtRest(x)
    ensures Run(x, AllQuoted(s)) == Result(x, WithoutIac(s), [])
  {
    if s != [] {
      var i := if s[0] == IAC then DoubledIac else Data(s[0]);
      ItemMeans(x, i);
      QuotedAtRest(x, s[1..]);
      assert Render(i) == Quoted(s[0]);
      RunAppends(Handle, x, Quoted(s[0]), AllQuoted(s[1..]));
    }
  }

  /** The payload that just fills the option buffer. */
  lemma FullSubLeaks(x: Ctx, payload: seq<Byte>)
    requires AtRest(x) && |payload| == MAXLEN
    ensures var r := Run(x, [IAC, SB] + AllQuoted(payload));
            r.data == [payload[MAXLEN - 1]] && r.effects == [] && AtRest(r.ctx)
  {
    var init, last := payload[..MAXLEN - 1], payload[MAXLEN - 1];
    assert payload == init + [last];
    AllQuotedConcat(init, [last]);
    OneQuoted(last);
    SubStored(x, init, Quoted(last));
    LastByteLeaks(x.(state := IacWaitSe, buf := Stored(x.buf, init), buflen := MAXLEN - 1), last);
  }

  lemma OneQuoted(c: Byte)
    ensures AllQuoted([c]) == Quoted(c)
  {
    assert [c][1..] == [];
  }

  /** A subnegotiation that fills the option buffer is given up there: the byte that fills it and
      everything behind, but for the IACs, leaks as data, and nothing is reported. */
  lemma OversizedSubLeaks(x: Ctx, payload: seq<Byte>)
    requires AtRest(x) && |payload| >= MAXLEN
    ensures var r := Run(x, Render(Sub(payload)));
            r.data == [payload[MAXLEN - 1]] + WithoutIac(payload[MAXLEN..]) && r.effects == [] && AtRest(r.ctx)
  {
    var a, b := payload[..MAXLEN], payload[MAXLEN..];
    assert payload == a + b;
    AllQuotedConcat(a, b);
    FullSubLeaks(x, a);
    OversizedParts(x, [IAC, SB] + AllQuoted(a), b);
    RenderInTwo([IAC, SB], AllQuoted(a), AllQuoted(b), [IAC, SE]);
  }

  lemma RenderInTwo<T>(open: seq<T>, a: seq<T>, b: seq<T>, close: seq<T>)
    ensures open + (a + b) + close == (open + a) + (b + close)
  {
  }

  /** The quoted bytes b and the closing IAC SE, behind something that ends outside of any command. */
  lemma OversizedParts(x: Ctx, first: seq<Byte>, b: seq<Byte>)
    requires Run(x, first).effects == [] && AtRest(Run(x, first).ctx)
    ensures var y := Run(x, first).ctx;
            Run(x, first + (AllQuoted(b) + [IAC, SE])) == Result(y, Run(x, first).data + WithoutIac(b), [])
  {
    var y := Run(x, first).ctx;
    QuotedAtRest(y, b);
    CommandMeans(y, SE);
    RunQuietly(Handle, y, AllQuoted(b), [IAC, SE]);
    RunQuietly(Handle, x, first, AllQuoted(b) + [IAC, SE]);
    assert WithoutIac(b) + [] == WithoutIac(b);
  }

  lemma RunQuietly<C>(step: (C, Byte) -> Outcome<C>, x: C, s: seq<Byte>, t: seq<Byte>)
    requires RunWith(step, x, s).effects == [] && RunWith(step, RunWith(step, x, s).ctx, t).effects == []
    ensures var r := RunWith(step, x, s); var q := RunWith(step, r.ctx, t);
            RunWith(step, x, s + t) == Result(q.ctx, r.data + q.data, [])
  {
    RunAppends(step, x, s, t);
  }

  /** What a payload announces by itself. */
  function Announced(payload: seq<Byte>): seq<Effect> {
    if |payload| >= 5 && payload[0] == TELOPT_NAWS
    then [Resize(Pair(payload[1], payload[2]), Pair(payload[3], payload[4]))]
    else if |payload| > 2 && payload[0] == TELOPT_TTYPE then [TermType(payload[2..])]
    else []
  }

  /** A payload that is read for what it is: it does not fill the option buffer, an empty one does not
      follow a window size, and a window size is complete. */
  predicate ReadWell(x: Ctx, payload: seq<Byte>)
    requires AtRest(x)
  {
    && |payload| < 32
    && (if payload == [] then x.buf[0] != 31 else payload[0] == 31 ==> |payload| >= 5)
  }

  lemma StoredReport(x: Ctx, payload: seq<Byte>)
    requires AtRest(x) && |payload| < MAXLEN
    ensures Report(Stored(x.buf, payload), |payload|) == Announced(payload) <==> ReadWell(x, payload)
  {
    var buf := Stored(x.buf, payload);
    assert buf[..|payload|] == payload;
    if payload != [] {
      assert buf[0] == payload[0];
      assert |payload| > 2 ==> buf[2..|payload|] == payload[2..];
    }
  }

  /** For every payload: nothing of it is passed on as data, and what is reported is what it announces,
      if and only if it is read well. */
  lemma SubReadIff(x: Ctx, payload: seq<Byte>)
    requires AtRest(x)
    ensures var r := Run(x, Render(Sub(payload)));
            && (r.data == [] <==> |payload| < 32)
            && (r.data == [] && r.effects == Announced(payload) <==> ReadWell(x, payload))
            && AtRest(r.ctx)
  {
    if |payload| < MAXLEN {
      assert Render(Sub(payload)) == [IAC, SB] + (AllQuoted(payload) + [IAC, SE]);
      SubStored(x, payload, [IAC, SE]);
      SubCloses(x.(state := IacWaitSe, buf := Stored(x.buf, payload), buflen := |payload|));
      StoredReport(x, payload);
    } else {
      OversizedSubLeaks(x, payload);
    }
  }

  lemma EmptySubReports(x: Ctx)
    requires AtRest(x)
    ensures Run(x, Render(Sub([]))).effects == Report(x.buf, 0)
  {
    assert Render(Sub([])) == [IAC, SB] + [IAC, SE];
    SubOpens(x, [IAC, SE]);
    SubCloses(x.(state := IacWaitSe, buflen := 0));
  }

  lemma StoredStarts(buf: seq<Byte>, payload: seq<Byte>)
    requires |payload| <= |buf|
    ensures |Stored(buf, payload)| == |buf| && forall k :: 0 <= k < |payload| ==> Stored(buf, payload)[k] == payload[k]
  {
  }

  /** After the size 80 x 24, an empty subnegotiation reports that size again. */
  lemma EmptySubExample(x: Ctx)
    requires AtRest(x)
    ensures var y := Run(x, Render(Sub([TELOPT_NAWS, 0, 80, 0, 24]))).ctx;
            AtRest(y) && Run(y, Render(Sub([]))).effects == [Resize(80, 24)]
  {
    var size := [TELOPT_NAWS, 0, 80, 0, 24];
    SubMeans(x, size);
    EmptySubReports(x.(buf := Stored(x.buf, size), buflen := |size|));
    SizeReported(Stored(x.buf, size), x.buf);
  }

  lemma SizeReported(buf: seq<Byte>, before: seq<Byte>)
    requires |before| == MAXLEN && buf == Stored(before, [TELOPT_NAWS, 0, 80, 0, 24])
    ensures |buf| == MAXLEN && Report(buf, 0) == [Resize(80, 24)]
  {
    StoredStarts(before, [TELOPT_NAWS, 0, 80, 0, 24]);
  }

  lemma LastByteLeaks(x: Ctx, c: Byte)
    requires |x.buf| == MAXLEN && x.state == IacWaitSe && !x.quote && x.buflen == MAXLEN - 1
    ensures var r := Run(x, Quoted(c));
            r.data == [c] && r.effects == [] && AtRest(r.ctx)
  {
    if c == IAC {
      assert [IAC, IAC] == [IAC] + [IAC];
      RunSilent(Handle, x, x.(quote := true), IAC, [IAC]);
      RunOne(Handle, x.(quote := true), IAC);
    } else {
      RunOne(Handle, x, c);
    }
  }

  // ---------------------------------------------------------------------------
  // Refusals cannot loop.

  /** The negotiation replies among the effects, as the other side receives them. */
  function Replies(effects: seq<Effect>): seq<Byte> {
    if effects == [] then []
    else (if effects[0].Reply? then effects[0].bytes else []) + Replies(effects[1..])
  }

  predicate Refusal(s: seq<Byte>) {
    |s| == 3 && s[0] == IAC && (s[1] == WONT || s[1] == DONT)
  }

  predicate OnlyRefuses(effects: seq<Effect>) {
    forall k :: 0 <= k < |effects| && effects[k].Reply? ==> Refusal(effects[k].bytes)
  }

  lemma HandleOnlyRefuses(x: Ctx, c: Byte)
    ensures OnlyRefuses(Handle(x, c).effects)
  {
  }

  /** Every reply is a refusal. */
  lemma {:induction false} RunOnlyRefuses(x: Ctx, s: seq<Byte>)
    ensures OnlyRefuses(Run(x, s).effects)
    decreases |s|
  {
    if s != [] {
      HandleOnlyRefuses(x, s[0]);
      RunOnlyRefuses(Handle(x, s[0]).ctx, s[1..]);
    }
  }

  /** Where a handler can be between two refusals: at rest, or, after an option 255, holding an IAC
      back inside or outside of a refused option. */
  predicate Quiet(x: Ctx) {
    || x.state == IacNone
    || (x.state == IacWaitOpt && x.quote && (x.optReq == WONT || x.optReq == DONT))
  }

  /** The first two bytes of a refusal. */
  lemma RefusalVerb(x: Ctx, verb: Byte)
    requires Quiet(x) && (verb == WONT || verb == DONT)
    ensures var y := Handle(x, IAC).ctx;
            && Handle(x, IAC).effects == [] && Handle(y, verb).effects == []
            && var z := Handle(y, verb).ctx;
               !z.quote && (z.state == IacNone || (z.state == IacWaitOpt && z.optReq == verb))
  {
  }

  /** The last byte of a refusal. */
  lemma RefusalOption(x: Ctx, c: Byte)
    requires !x.quote && (x.state == IacNone || (x.state == IacWaitOpt && (x.optReq == WONT || x.optReq == DONT)))
    ensures Handle(x, c).effects == [] && Quiet(Handle(x, c).ctx)
  {
  }

  lemma RefusalStaysQuiet(x: Ctx, s: seq<Byte>)
    requires Quiet(x) && Refusal(s)
    ensures Run(x, s).effects == [] && Quiet(Run(x, s).ctx)
  {
    var y := Handle(x, IAC).ctx;
    var z := Handle(y, s[1]).ctx;
    RefusalVerb(x, s[1]);
    RefusalOption(z, s[2]);
    assert s == [IAC] + ([s[1]] + [s[2]]);
    RunOne(Handle, x, IAC);
    RunOne(Handle, y, s[1]);
    RunOne(Handle, z, s[2]);
    RunAppends(Handle, y, [s[1]], [s[2]]);
    RunAppends(Handle, x, [IAC], [s[1]] + [s[2]]);
  }

  lemma {:induction false} RefusalsStayQuiet(x: Ctx, effects: seq<Effect>)
    requires Quiet(x) && OnlyRefuses(effects)
    ensures Run(x, Replies(effects)).effects == []
    decreases |effects|
  {
    if effects != [] {
      var first, rest := effects[0], Replies(effects[1..]);
      if first.Reply? {
        RefusalStaysQuiet(x, first.bytes);
        RunAppends(Handle, x, first.bytes, rest);
        RefusalsStayQuiet(Run(x, first.bytes).ctx, effects[1..]);
      } else {
        assert Replies(effects) == rest;
        RefusalsStayQuiet(x, effects[1..]);
      }
    }
  }

  /** Whatever stream one handler is fed, a second one that is fed only its negotiation replies does
      nothing at all: two servers of this kind cannot keep answering each other. */
  lemma RefusalCannotLoop(x: Ctx, s: seq<Byte>, y: Ctx)
    requires AtRest(y)
    ensures Run(y, Replies(Run(x, s).effects)).effects == []
  {
    RunOnlyRefuses(x, s);
    RefusalsStayQuiet(y, Run(x, s).effects);
  }

  // ---------------------------------------------------------------------------
  // The context itself.

  class TelnetCtx {
    var iacState: IacState
    var iacQuote: bool
    var iacOptReq: Byte
    const iacBuf: array<Byte>
    var iacBuflen: nat
    var calls: seq<Effect>   // the callbacks made so far

    ghost function Abs(): Ctx
      reads this, iacBuf
    {
      Ctx(iacState, iacQuote, iacOptReq, iacBuf[..], iacBuflen)
    }

    /** telnet_ctx_init. */
    constructor ()
      ensures AtRest(Abs()) && Abs().Good() && calls == [] && fresh(iacBuf)
    {
      iacState, iacQuote, iacOptReq, iacBuflen := IacNone, false, 0, 0;
      iacBuf := new Byte[MAXLEN](_ => 0);
      calls := [];
    }

    /** telnet_handler; true if the byte was handled. */
    method Handler(c: Byte) returns (handled: bool)
      requires Abs().Good()
      modifies this, iacBuf
      ensures var o := Handle(old(Abs()), c);
              Abs() == o.ctx && handled == o.handled && calls == old(calls) + o.effects
    {
      if c == IAC && !iacQuote {
        iacQuote := true;
        return true;
      }
      if iacQuote {
        if iacState == IacNone {
          iacState := IacCommand;
        }
        if iacState == IacWaitSe && c == SE {
          iacState := IacProcessOpt;
        }
        iacQuote := false;
      }
      match iacState {
        case IacNone =>
          return false;
        case IacCommand =>
          iacState := IacNone;
          if c == AYT {
            calls := calls + [SendAyt];
          } else if c == DONT || c == DO || c == WONT || c == WILL {
            iacOptReq := c;
            iacState := IacWaitOpt;
          } else if c == SB {
            iacState := IacWaitSe;
            iacBuflen := 0;
          }
          return true;
        case IacWaitOpt =>
          iacState := IacNone;
          if !OwnOption(c) && (iacOptReq == WILL || iacOptReq == DO) {
            var verb := DONT;
            if iacOptReq == DO {
              verb := WONT;
            }
            calls := calls + [Reply([IAC, verb, c])];
          }
          return true;
        case IacWaitSe =>
          iacBuf[iacBuflen] := c;
          iacBuflen := iacBuflen + 1;
          assert iacBuf[..] == old(iacBuf[..])[iacBuflen - 1 := c];
          if iacBuflen == MAXLEN {
            iacState := IacNone;
            return false;
          }
          return true;
        case IacProcessOpt =>
          iacState := IacNone;
          if iacBuf[0] == TELOPT_NAWS {
            calls := calls + [Resize(Pair(iacBuf[1], iacBuf[2]), Pair(iacBuf[3], iacBuf[4]))];
          } else if iacBuf[0] == TELOPT_TTYPE && iacBuflen > 2 {
            calls := calls + [TermType(iacBuf[2..iacBuflen])];
          }
          return true;
      }
    }

    /** telnet_process: the first size bytes of buf are compacted in place to the data among them; -1
        tells that there was none. */
    method Process(buf: array<Byte>, size: int) returns (r: int)
      requires Abs().Good() && size <= buf.Length && buf != iacBuf
      modifies this, iacBuf, buf
      ensures Abs().Good()
      ensures size <= 0 ==> r == size && Abs() == old(Abs()) && calls == old(calls) && buf[..] == old(buf[..])
      ensures size > 0 ==>
                var o := Run(old(Abs()), old(buf[..size]));
                && Abs() == o.ctx && calls == old(calls) + o.effects
                && r == (if o.data == [] then -1 else |o.data|)
                && buf[..] == o.data + old(buf[|o.data|..])
    {
      if size <= 0 {
        return size;
      }
      ghost var x, s := Abs(), buf[..size];
      if iacState == IacNone && !iacQuote {
        var plain := Prescan(buf, size);
        if plain {
          PlainText(x, s);
          return size;
        }
      }
      var kept := Compact(buf, size);
      assert old(buf[..])[kept..] == old(buf[kept..]);
      r := if kept == 0 then -1 else kept;
    }

    /** telnet_process on a buffer that holds just the given bytes; what it leaves there as data. */
    method ProcessOne(chunk: seq<Byte>) returns (data: seq<Byte>)
      requires Abs().Good()
      modifies this, iacBuf
      ensures Abs().Good()
      ensures var o := Run(old(Abs()), chunk);
              Abs() == o.ctx && calls == old(calls) + o.effects && data == o.data
    {
      var buf := new Byte[|chunk|](i requires 0 <= i < |chunk| => chunk[i]);
      assert buf[..|chunk|] == chunk;
      var n := Process(buf, |chunk|);
      if n <= 0 {
        assert chunk == [] ==> calls + [] == calls;
        data := [];
      } else {
        data := buf[..n];
      }
    }

    /** Successive calls on the chunks of a stream do what one call on the whole stream does. */
    method ProcessChunks(chunks: seq<seq<Byte>>) returns (data: seq<Byte>)
      requires Abs().Good()
      modifies this, iacBuf
      ensures Abs().Good()
      ensures var o := Run(old(Abs()), Joined(chunks));
              Abs() == o.ctx && calls == old(calls) + o.effects && data == o.data
    {
      ghost var x, before := Abs(), calls;
      ghost var sofar := Result(x, [], []);
      data := [];
      ThenNothing(RunChunks(Handle, x, chunks));
      assert chunks[0..] == chunks && before + [] == before;
      for i := 0 to |chunks|
        invariant Abs().Good() && Abs() == sofar.ctx && calls == before + sofar.effects && data == sofar.data
        invariant Then(sofar, RunChunks(Handle, sofar.ctx, chunks[i..])) == RunChunks(Handle, x, chunks)
      {
        ghost var o := Run(Abs(), chunks[i]);
        assert chunks[i..][1..] == chunks[i + 1..] && chunks[i..][0] == chunks[i];
        ThenAssociates(sofar, o, RunChunks(Handle, o.ctx, chunks[i + 1..]));
        assert (before + sofar.effects) + o.effects == before + (sofar.effects + o.effects);
        var more := ProcessOne(chunks[i]);
        data := data + more;
        sofar := Then(sofar, o);
      }
      assert chunks[|chunks|..] == [];
      ThenNothing(sofar);
      ChunkIndependence(x, chunks);
    }

    /** memchr for an IAC. */
    method Prescan(buf: array<Byte>, size: nat) returns (plain: bool)
      requires size <= buf.Length
      ensures plain <==> IAC !in buf[..size]
    {
      for i := 0 to size
        invariant forall k :: 0 <= k < i ==> buf[k] != IAC
      {
        if buf[i] == IAC {
          assert buf[..size][i] == IAC;
          return false;
        }
      }
      return true;
    }

    /** The slow loop of telnet_process. */
    method Compact(buf: array<Byte>, size: nat) returns (kept: nat)
      requires Abs().Good() && size <= buf.Length && buf != iacBuf
      modifies this, iacBuf, buf
      ensures Abs().Good()
      ensures Compacting(Run(old(Abs()), old(buf[..size])), Abs(), old(calls), calls, kept, buf[..], old(buf[..]))
    {
      ghost var x, s, was, before := Abs(), buf[..size], buf[..], calls;
      kept := 0;
      assert s[..0] == [] && before + [] == before && [] + was == was;
      for i := 0 to size
        invariant 0 <= kept <= i && Abs().Good()
        invariant Compacting(Run(x, s[..i]), Abs(), before, calls, kept, buf[..], was)
      {
        kept := CompactOne(buf, i, kept, x, s, before, was);
      }
      assert s[..size] == s;
    }

    /** One turn of the slow loop. */
    method CompactOne(buf: array<Byte>, i: nat, kept: nat, ghost x: Ctx, ghost s: seq<Byte>,
                      ghost before: seq<Effect>, ghost was: seq<Byte>)
      returns (kept': nat)
      requires Abs().Good() && buf != iacBuf && i < |s| <= buf.Length == |was| && s == was[..|s|]
      requires kept <= i && Compacting(Run(x, s[..i]), Abs(), before, calls, kept, buf[..], was)
      modifies this, iacBuf, buf
      ensures Abs().Good() && kept' <= i + 1
      ensures Compacting(Run(x, s[..i + 1]), Abs(), before, calls, kept', buf[..], was)
    {
      ghost var o, h := Run(x, s[..i]), Handle(Abs(), s[i]);
      assert buf[i] == buf[..][i] == s[i];
      assert Run(x, s[..i + 1]) == Then(o, One(Handle, o.ctx, s[i])) by {
        assert s[..i + 1] == s[..i] + [s[i]];
        RunAppends(Handle, x, s[..i], [s[i]]);
        RunOne(Handle, o.ctx, s[i]);
      }
      HandleStaysGood(Abs(), s[i]);
      CompactStep(o, h, s[i], before, kept, buf[..], was);
      var handled := Handler(buf[i]);
      kept' := kept;
      if !handled {
        buf[kept] := buf[i];
        kept' := kept + 1;
      }
    }
  }

  /** The buffer in the middle of compaction: the kept bytes, then what was there before. */
  ghost predicate Compacting(o: Result<Ctx>, x: Ctx, before: seq<Effect>, calls: seq<Effect>, kept: nat,
                             buf: seq<Byte>, was: seq<Byte>) {
    && x == o.ctx && calls == before + o.effects && kept == |o.data| <= |was|
    && buf == o.data + was[kept..]
  }

  lemma CompactStep(o: Result<Ctx>, h: Outcome<Ctx>, c: Byte, before: seq<Effect>, kept: nat, buf: seq<Byte>,
        was: seq<Byte>)
    requires kept == |o.data| < |was| && buf == o.data + was[kept..]
    ensures (before + o.effects) + h.effects == before + (o.effects + h.effects)
    ensures buf[kept := c] == (o.data + [c]) + was[kept + 1..]
    ensures o.data + [] == o.data
  {
  }
}
