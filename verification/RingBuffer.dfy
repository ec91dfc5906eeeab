/** The virtual ring buffer of common/sys/vbuf.c (macros in include/cmsys.h): a fixed allocation of
    which one byte is always unused, with head and tail positions that wrap around. */
module RingBuffer {
  import opened Basics

  const NUL: Byte := 0

  /** The int results of the C functions: a byte, or EOF. */
  datatype Got = Eof | Got(c: Byte)

  /** The count bytes that start at position h of the circle b. */
  function Ring(b: seq<Byte>, h: nat, count: nat): (r: seq<Byte>)
    requires h < |b| && count <= |b|
    ensures |r| == count && forall k {:trigger r[k]} :: 0 <= k < count ==> r[k] == b[Wrap(h + k, |b|)]
  {
    seq(count, k requires 0 <= k < count => b[Wrap(h + k, |b|)])
  }

  /** The position of the first c, or the length. */
  function Find(s: seq<Byte>, c: Byte): (r: nat)
    ensures r <= |s| && c !in s[..r] && (r < |s| ==> s[r] == c)
  {
    if s == [] then 0 else if s[0] == c then 0 else 1 + Find(s[1..], c)
  }

  /** There is only one first position. */
  lemma {:induction false} FindIs(s: seq<Byte>, c: Byte, r: nat)
    requires r <= |s| && (forall k :: 0 <= k < r ==> s[k] != c) && (r < |s| ==> s[r] == c)
    ensures Find(s, c) == r
  {
    if r > 0 {
      FindIs(s[1..], c, r - 1);
    }
  }

  function Reversed<T>(s: seq<T>): (r: seq<T>)
    ensures |r| == |s| && forall k {:trigger r[k]} :: 0 <= k < |s| ==> r[k] == s[|s| - 1 - k]
  {
    seq(|s|, k requires 0 <= k < |s| => s[|s| - 1 - k])
  }

  /** s with the bytes from begin to end in reverse. */
  function ReversePart<T>(s: seq<T>, begin: nat, end: nat): (r: seq<T>)
    requires begin <= end <= |s|
    ensures |r| == |s|
  {
    s[..begin] + Reversed(s[begin..end]) + s[end..]
  }

  /** vbuf_reverse on positions begin to end of the array. */
  method ReverseInPlace(a: array<Byte>, begin: nat, end: nat)
    requires begin <= end <= a.Length
    modifies a
    ensures a[..] == ReversePart(old(a[..]), begin, end)
  {
    ghost var was := a[..];
    var i, j := begin, end;
    while i < j
      invariant begin <= i <= j + 1 && j <= end && i - begin == end - j
      invariant forall k :: 0 <= k < begin ==> a[k] == was[k]
      invariant forall k :: begin <= k < i ==> a[k] == was[begin + end - 1 - k]
      invariant forall k :: i <= k < j ==> a[k] == was[k]
      invariant forall k :: j <= k < end ==> a[k] == was[begin + end - 1 - k]
      invariant forall k :: end <= k < a.Length ==> a[k] == was[k]
    {
      j := j - 1;
      var c := a[j];
      a[j] := a[i];
      a[i] := c;
      i := i + 1;
    }
    ReversePartIs(was, a[..], begin, end);
  }

  lemma ReversePartIs<T>(s: seq<T>, r: seq<T>, begin: nat, end: nat)
    requires begin <= end <= |s| == |r|
    requires forall k :: 0 <= k < begin ==> r[k] == s[k]
    requires forall k :: begin <= k < end ==> r[k] == s[begin + end - 1 - k]
    requires forall k :: end <= k < |s| ==> r[k] == s[k]
    ensures r == ReversePart(s, begin, end)
  {
    assert r[..begin] == s[..begin] && r[end..] == s[end..];
    assert r[begin..end] == Reversed(s[begin..end]);
    assert r == r[..begin] + r[begin..end] + r[end..];
  }

  /** s with n bytes copied from src down to dst. */
  function MovePart<T>(s: seq<T>, dst: nat, src: nat, n: nat): (r: seq<T>)
    requires dst <= src && src + n <= |s|
    ensures |r| == |s|
  {
    s[..dst] + s[src..src + n] + s[dst + n..]
  }

  /** memmove within one array, towards the front. */
  method MoveWithin(a: array<Byte>, dst: nat, src: nat, n: nat)
    requires dst <= src && src + n <= a.Length
    modifies a
    ensures a[..] == MovePart(old(a[..]), dst, src, n)
  {
    ghost var was := a[..];
    for k := 0 to n
      invariant forall i :: 0 <= i < dst ==> a[i] == was[i]
      invariant forall i :: dst <= i < dst + k ==> a[i] == was[src - dst + i]
      invariant forall i :: dst + k <= i < a.Length ==> a[i] == was[i]
    {
      a[dst + k] := a[src + k];
    }
    MovePartIs(was, a[..], dst, src, n);
  }

  lemma MovePartIs<T>(s: seq<T>, r: seq<T>, dst: nat, src: nat, n: nat)
    requires dst <= src && src + n <= |s| == |r|
    requires forall k :: 0 <= k < dst ==> r[k] == s[k]
    requires forall k :: dst <= k < dst + n ==> r[k] == s[src - dst + k]
    requires forall k :: dst + n <= k < |s| ==> r[k] == s[k]
    ensures r == MovePart(s, dst, src, n)
  {
    assert r[..dst] == s[..dst] && r[dst + n..] == s[dst + n..];
    assert r[dst..dst + n] == s[src..src + n];
    assert r == r[..dst] + r[dst..dst + n] + r[dst + n..];
  }

  lemma ReversePiece<T>(a: seq<T>, m: seq<T>, c: seq<T>)
    ensures ReversePart(a + m + c, |a|, |a| + |m|) == a + Reversed(m) + c
  {
    var s := a + m + c;
    assert s[..|a|] == a && s[|a|..|a| + |m|] == m && s[|a| + |m|..] == c;
  }

  /** Two reversed pieces, joined and reversed as a whole, have changed places. */
  lemma ReverseSwaps<T>(a: seq<T>, b: seq<T>)
    ensures Reversed(Reversed(a) + Reversed(b)) == b + a
  {
  }

  /** Both pieces of a wrapped buffer reversed, the upper one moved down, a NUL, the whole reversed. */
  ghost function Straightened(b: seq<Byte>, t: nat, h: nat): seq<Byte>
    requires t < h < |b|
  {
    var n, sz := |b|, t + |b| - h;
    var moved := MovePart(ReversePart(ReversePart(b, 0, t), h, n), t, h, n - h);
    ReversePart(moved[sz := NUL], 0, sz)
  }

  lemma BothReversed(b: seq<Byte>, t: nat, h: nat)
    requires t < h < |b|
    ensures ReversePart(ReversePart(b, 0, t), h, |b|) == (Reversed(b[..t]) + b[t..h]) + Reversed(b[h..])
  {
    var lower, gap, upper := b[..t], b[t..h], b[h..];
    var r := Reversed(lower);
    assert b == [] + lower + (gap + upper);
    ReversePiece([], lower, gap + upper);
    assert [] + r + (gap + upper) == (r + gap) + upper + [];
    ReversePiece(r + gap, upper, []);
    assert (r + gap) + Reversed(upper) + [] == (r + gap) + Reversed(upper);
  }

  lemma UpperMoved<T>(r: seq<T>, gap: seq<T>, u: seq<T>, x: T)
    requires gap != []
    ensures var moved := MovePart((r + gap) + u, |r|, |r + gap|, |u|);
            var sz := |r| + |u|;
            moved[sz := x] == [] + (r + u) + ([x] + moved[sz + 1..])
  {
    var all := (r + gap) + u;
    assert all[..|r|] == r && all[|r + gap|..|r + gap| + |u|] == u;
  }

  /** The queue now starts at the front of the allocation. */
  lemma StraightenedIs(b: seq<Byte>, t: nat, h: nat)
    requires t < h < |b|
    ensures var sz := t + |b| - h;
            Straightened(b, t, h)[..sz] == b[h..] + b[..t] && Straightened(b, t, h)[sz] == NUL
  {
    BothReversed(b, t, h);
    JoinedAndReversed((Reversed(b[..t]) + b[t..h]) + Reversed(b[h..]), Reversed(b[..t]), b[t..h],
          Reversed(b[h..]), NUL);
    ReverseSwaps(b[..t], b[h..]);
  }

  lemma JoinedAndReversed<T>(b2: seq<T>, r: seq<T>, gap: seq<T>, u: seq<T>, x: T)
    requires gap != [] && b2 == (r + gap) + u
    ensures var sz := |r| + |u|;
            var s := ReversePart(MovePart(b2, |r|, |r| + |gap|, |u|)[sz := x], 0, sz);
            s[..sz] == Reversed(r + u) && s[sz] == x
  {
    var sz := |r| + |u|;
    UpperMoved(r, gap, u, x);
    var moved := MovePart(b2, |r|, |r| + |gap|, |u|);
    ReverseFront(moved[sz := x], r + u, x, moved[sz + 1..]);
  }

  lemma ReverseFront<T>(s: seq<T>, both: seq<T>, x: T, rest: seq<T>)
    requires s == [] + both + ([x] + rest)
    ensures ReversePart(s, 0, |both|)[..|both|] == Reversed(both) && ReversePart(s, 0, |both|)[|both|] == x
  {
    ReversePiece([], both, [x] + rest);
    FrontIs(Reversed(both), x, rest);
  }

  lemma FrontIs<T>(m: seq<T>, x: T, c: seq<T>)
    ensures var s := [] + m + ([x] + c);
            s[..|m|] == m && s[|m|] == x
  {
  }

  lemma RingAtFront(b: seq<Byte>, sz: nat)
    requires sz < |b|
    ensures Ring(b, 0, sz) == b[..sz]
  {
  }

  lemma RingIs(b: seq<Byte>, t: nat, h: nat)
    requires t < h < |b|
    ensures Ring(b, h, t + |b| - h) == b[h..] + b[..t]
  {
  }

  /** The first sz bytes of the queue lie in two pieces: up to the end of the allocation, and from its start. */
  lemma RingInTwo(b: seq<Byte>, h: nat, count: nat, sz: nat)
    requires h < |b| && sz <= count <= |b|
    ensures var rw := Min(sz, |b| - h); Ring(b, h, count)[..sz] == b[h..h + rw] + b[..sz - rw]
  {
  }

  lemma RingDrop(b: seq<Byte>, h: nat, count: nat, k: nat)
    requires h < |b| && k <= count < |b|
    ensures Ring(b, h, count)[k..] == Ring(b, Wrap(h + k, |b|), count - k)
  {
  }

  /** What vbuf_getstr leaves in the caller's string, which has room for room bytes: everything up to
      and including the NUL, if there is one within reach.  Otherwise the string is cut short, and
      unless the queue was exactly one byte shorter than the room, its last byte is lost to the NUL. */
  function StringOut(q: seq<Byte>, room: nat): seq<Byte>
    requires q != [] && room > 0
  {
    var m := Min(room, |q|);
    if Find(q, NUL) < m then q[..Find(q, NUL) + 1]
    else if m == room - 1 then q[..m] + [NUL]
    else q[..m - 1] + [NUL]
  }

  /** What vbuf_getstr leaves in the queue. */
  function StringRest(q: seq<Byte>, room: nat): seq<Byte> {
    var m := Min(room, |q|);
    if Find(q, NUL) < m then q[Find(q, NUL) + 1..] else q[m..]
  }

  lemma {:induction false} BeyondFind(q: seq<Byte>, n: nat)
    requires n <= |q| && forall k :: 0 <= k < n ==> q[k] != NUL
    ensures Find(q, NUL) >= n
  {
    if n > 0 {
      BeyondFind(q[1..], n - 1);
    }
  }

  /** No NUL within reach: s is all that was popped. */
  lemma StringCut(q: seq<Byte>, room: nat, s: seq<Byte>)
    requires 0 < |s| == Min(room, |q|) && s <= q && forall k :: 0 <= k < |s| ==> q[k] != NUL
    ensures StringRest(q, room) == q[|s|..]
    ensures StringOut(q, room) == if |s| == room - 1 then s + [NUL] else s[|s| - 1 := NUL]
  {
    BeyondFind(q, |s|);
    assert s == q[..|s|];
    assert s[|s| - 1 := NUL] == q[..|s| - 1] + [NUL];
  }

  /** The string delivered is all that left the queue, as it is or with a NUL put behind it, if and only
      if a NUL was within reach or the queue was exactly one byte shorter than the room: otherwise a
      byte is lost. */
  lemma StringDeliveredIff(q: seq<Byte>, room: nat)
    requires q != [] && room > 0
    ensures var popped := q[..|q| - |StringRest(q, room)|];
            && popped + StringRest(q, room) == q
            && (StringOut(q, room) == popped || StringOut(q, room) == popped + [NUL]
                <==> Find(q, NUL) < Min(room, |q|) || |q| == room - 1)
  {
    var m := Min(room, |q|);
    if Find(q, NUL) < m {
      TailLeft(q, Find(q, NUL) + 1);
    } else {
      TailLeft(q, m);
      if m != room - 1 {
        NotWithin(q, m - 1);
        LastOverwritten(q, m);
      }
    }
  }

  lemma TailLeft<T>(q: seq<T>, k: nat)
    requires k <= |q|
    ensures q[..|q| - |q[k..]|] == q[..k] && q[..k] + q[k..] == q
  {
  }

  lemma LastOverwritten(q: seq<Byte>, m: nat)
    requires 0 < m <= |q| && q[m - 1] != NUL
    ensures q[..m - 1] + [NUL] != q[..m] && q[..m - 1] + [NUL] != q[..m] + [NUL]
  {
    assert (q[..m - 1] + [NUL])[m - 1] == NUL && q[..m][m - 1] == q[m - 1];
    assert |q[..m - 1] + [NUL]| == m && |q[..m] + [NUL]| == m + 1;
  }

  lemma NotWithin(q: seq<Byte>, k: nat)
    requires k < Find(q, NUL)
    ensures q[k] != NUL
  {
    assert q[k] in q[..Find(q, NUL)];
  }

  /** Byte for byte, where k is the position of the first NUL, or the length if there is none. */
  lemma StringOutIs(q: seq<Byte>, room: nat, k: nat)
    requires q != [] && room > 0 && k <= |q| && (forall i :: 0 <= i < k ==> q[i] != 0) && (k < |q| ==> q[k] == 0)
    ensures k < |q| && k < room ==> StringOut(q, room) == q[..k + 1] && StringRest(q, room) == q[k + 1..]
    ensures k == |q| && |q| < room - 1 ==> StringOut(q, room) == q[..|q| - 1] + [0] && StringRest(q, room) == []
    ensures k == |q| && |q| == room - 1 ==> StringOut(q, room) == q + [0] && StringRest(q, room) == []
    ensures k >= room ==> StringOut(q, room) == q[..room - 1] + [0] && StringRest(q, room) == q[room..]
  {
    FindIs(q, NUL, k);
    assert q[..|q|] == q;
  }

  /** A queue of two bytes read into room for two: the second byte is lost. */
  lemma StringLostExample()
    ensures StringOut([1, 2], 2) == [1, NUL] && StringRest([1, 2], 2) == []
  {
    var q: seq<Byte> := [1, 2];
    FindIs(q, NUL, 2);
    assert q[..1] + [NUL] == [1, NUL];
  }

  const RWSZ_ALL := 0
  const RWSZ_MIN := -1

  /** How many bytes a transfer is for: RWSZ_ALL and RWSZ_MIN stand for all there are. */
  function Wanted(size: int, avail: nat): int {
    if size == 0 || size == -1 then avail else size
  }

  /** When a transfer of moved bytes out of avail stops after calls calls, the last of which failed or
      did not, and what it returns: an impossible amount takes no call; otherwise there is a call
      whenever one is allowed, and the end comes when the amount is reached, a call has failed, the
      minimal try has been made, or no more calls are allowed. */
  ghost predicate Stopped(size: int, avail: nat, limit: nat, ret: int, moved: nat, calls: nat, failed: bool) {
    var want := Wanted(size, avail);
    && ret == (if failed then -1 else 0)
    && calls <= limit
    && (if want < 1 || want > avail then calls == 0 && !failed
        else && (limit > 0 ==> calls > 0)
             && (size == -1 ==> calls <= 1)
             && (moved == want || failed || (size == -1 && calls == 1) || calls == limit))
  }

  /** One call of a reader: the sizes of the two pieces of free space it is told, and its answer. */
  datatype ReadCall = ReadCall(room0: nat, room1: nat, answer: Option<seq<Byte>>)

  /** All that was delivered. */
  function Delivered(trace: seq<ReadCall>): seq<Byte> {
    if trace == [] then []
    else
      var last := trace[|trace| - 1].answer;
      Delivered(trace[..|trace| - 1]) + (if last.Some? then last.value else [])
  }

  ghost predicate ReadFailed(trace: seq<ReadCall>) {
    trace != [] && trace[|trace| - 1].answer == None
  }

  /** Call i is told of the space that is still wanted, up to the end of the allocation of n bytes and
      from its start, behind a queue of q bytes from position head on; the answer is the reader's own,
      and no call follows one that failed. */
  ghost predicate ReadAsTold(trace: seq<ReadCall>, i: nat, reader: (nat, nat, nat) -> Option<seq<Byte>>,
                             want: int, head: nat, q: nat, n: nat)
    requires i < |trace|
  {
    var call, before := trace[i], |Delivered(trace[..i])|;
    && before < want && call.room0 + call.room1 == want - before
    && call.room0 == Min(want - before, n - Wrap(head + q + before, n))
    && call.answer == reader(call.room0, call.room1, i)
    && (call.answer == None ==> i == |trace| - 1)
  }

  /** One call of a writer: the two pieces it is offered, and how many bytes it says it took. */
  datatype WriteCall = WriteCall(piece0: seq<Byte>, piece1: seq<Byte>, answer: int)

  /** How many bytes were taken. */
  function TakenBy(trace: seq<WriteCall>): nat {
    if trace == [] then 0
    else
      var last := trace[|trace| - 1].answer;
      TakenBy(trace[..|trace| - 1]) + (if last < 0 then 0 else last)
  }

  ghost predicate WriteFailed(trace: seq<WriteCall>) {
    trace != [] && trace[|trace| - 1].answer < 0
  }

  /** Call i is offered what is still wanted of the queue, cut at the end of the allocation of n bytes. */
  ghost predicate WriteAsTold(trace: seq<WriteCall>, i: nat, writer: (seq<Byte>, seq<Byte>, nat) -> int,
                              want: int, head: nat, q: seq<Byte>, n: nat)
    requires i < |trace|
  {
    var call, before := trace[i], TakenBy(trace[..i]);
    && before < want <= |q| && call.piece0 + call.piece1 == q[before..want]
    && |call.piece0| == Min(want - before, n - Wrap(head + before, n))
    && call.answer == writer(call.piece0, call.piece1, i)
    && (call.answer < 0 ==> i == |trace| - 1)
  }

  /** A writer never takes more than it is offered, a reader never delivers more than fits. */
  ghost predicate WriterOk(writer: (seq<Byte>, seq<Byte>, nat) -> int) {
    forall a, b, i :: writer(a, b, i) <= |a| + |b|
  }

  ghost predicate ReaderOk(reader: (nat, nat, nat) -> Option<seq<Byte>>) {
    forall a: nat, b: nat, i: nat :: reader(a, b, i).Some? ==> |reader(a, b, i).value| <= a + b
  }

  /** The queue of a wrapped buffer, once it is straightened. */
  lemma StraightenedRing(b: seq<Byte>, t: nat, h: nat, now: seq<Byte>, sz: nat)
    requires t < h < |b| && sz == t + |b| - h && now == Straightened(b, t, h) && |now| == |b|
    ensures Ring(now, 0, sz) == Ring(b, h, sz) && now[sz] == NUL
  {
    StraightenedIs(b, t, h);
    RingIs(b, t, h);
    RingAtFront(now, sz);
  }

  /** The calls so far, and what they moved. */
  ghost predicate Writing(trace: seq<WriteCall>, writer: (seq<Byte>, seq<Byte>, nat) -> int,
                          want: int, head: nat, q: seq<Byte>, n: nat, taken: seq<Byte>) {
    && |taken| == TakenBy(trace) && want <= |q|
    && forall i :: 0 <= i < |trace| ==> WriteAsTold(trace, i, writer, want, head, q, n)
  }

  lemma WritingNext(trace: seq<WriteCall>, writer: (seq<Byte>, seq<Byte>, nat) -> int, want: int, head: nat,
                    q: seq<Byte>, n: nat, taken: seq<Byte>, call: WriteCall, piece: seq<Byte>, left: seq<Byte>)
    requires Writing(trace, writer, want, head, q, n, taken) && !WriteFailed(trace) && |taken| < want
    requires q == taken + (piece + left) && |piece| == (if call.answer < 0 then 0 else call.answer)
    requires call.piece0 + call.piece1 == (piece + left)[..want - |taken|]
    requires |call.piece0| == Min(want - |taken|, n - Wrap(head + |taken|, n))
    requires call.answer == writer(call.piece0, call.piece1, |trace|)
    ensures Writing(trace + [call], writer, want, head, q, n, taken + piece) && (taken + piece) + left == q
    ensures WriteFailed(trace + [call]) <==> call.answer < 0
  {
    var next := trace + [call];
    assert next[..|trace|] == trace;
    Regroup(taken, piece, left);
    assert q[|taken|..want] == (piece + left)[..want - |taken|];
    forall i | 0 <= i < |next|
      ensures WriteAsTold(next, i, writer, want, head, q, n)
    {
      assert next[..i] == trace[..i];
      if i < |trace| {
        assert WriteAsTold(trace, i, writer, want, head, q, n);
      }
    }
  }

  ghost predicate Reading(trace: seq<ReadCall>, reader: (nat, nat, nat) -> Option<seq<Byte>>,
                          want: int, head: nat, q: nat, n: nat, received: seq<Byte>) {
    && received == Delivered(trace)
    && forall i :: 0 <= i < |trace| ==> ReadAsTold(trace, i, reader, want, head, q, n)
  }

  lemma ReadingNext(trace: seq<ReadCall>, reader: (nat, nat, nat) -> Option<seq<Byte>>, want: int, head: nat,
                    q: nat, n: nat, received: seq<Byte>, call: ReadCall)
    requires Reading(trace, reader, want, head, q, n, received) && !ReadFailed(trace) && |received| < want
    requires call.room0 + call.room1 == want - |received|
    requires call.room0 == Min(want - |received|, n - Wrap(head + q + |received|, n))
    requires call.answer == reader(call.room0, call.room1, |trace|)
    ensures Reading(trace + [call], reader, want, head, q, n,
                    received + if call.answer.Some? then call.answer.value else [])
    ensures call.answer == None ==> Reading(trace + [call], reader, want, head, q, n, received)
    ensures ReadFailed(trace + [call]) <==> call.answer == None
  {
    var next := trace + [call];
    assert next[..|trace|] == trace;
    assert received + [] == received;
    forall i | 0 <= i < |next|
      ensures ReadAsTold(next, i, reader, want, head, q, n)
    {
      assert next[..i] == trace[..i];
      if i < |trace| {
        assert ReadAsTold(trace, i, reader, want, head, q, n);
      }
    }
  }

  class VBuf {
    const buf: array<Byte>
    var head: nat
    var tail: nat

    ghost predicate Valid()
      reads this
    {
      buf.Length > 1 && head < buf.Length && tail < buf.Length
    }

    /** vbuf_new. */
    constructor (size: nat)
      requires size > 1
      ensures Valid() && Contents() == [] && Capacity() == size - 1 && fresh(buf)
      ensures head == tail == 0
    {
      buf := new Byte[size];
      head, tail := 0, 0;
    }

    function Capacity(): int {
      buf.Length - 1
    }

    /** vbuf_size. */
    function Size(): (r: nat)
      requires Valid()
      reads this
      ensures r <= Capacity()
    {
      if tail >= head then tail - head else buf.Length - head + tail
    }

    /** vbuf_space. */
    function Space(): nat
      requires Valid()
      reads this
    {
      Capacity() - Size()
    }

    /** The queue this buffer stands for. */
    ghost function Contents(): (r: seq<Byte>)
      requires Valid()
      reads this, buf
      ensures |r| == Size()
    {
      Ring(buf[..], head, Size())
    }

    /** vbuf_clear. */
    method Clear()
      requires Valid()
      modifies this
      ensures Valid() && Contents() == []
    {
      head, tail := 0, 0;
    }

    /** vbuf_add. */
    method Add(c: Byte) returns (ok: bool)
      requires Valid()
      modifies this`tail, buf
      ensures Valid()
      ensures ok <==> |old(Contents())| < Capacity()
      ensures Contents() == if ok then old(Contents()) + [c] else old(Contents())
      ensures tail == if ok then Wrap(old(tail) + 1, buf.Length) else old(tail)
    {
      if Space() == 0 {
        return false;
      }
      buf[tail] := c;
      tail := tail + 1;
      if tail == buf.Length {
        tail := 0;
      }
      assert Contents() == old(Contents()) + [c];
      return true;
    }

    /** vbuf_pop. */
    method Pop() returns (r: Got)
      requires Valid()
      modifies this`head
      ensures Valid()
      ensures old(Contents()) == [] ==> r == Eof && Contents() == []
      ensures old(Contents()) != [] ==> r == Got(old(Contents())[0]) && Contents() == old(Contents())[1..]
      ensures head == if old(Contents()) == [] then old(head) else Wrap(old(head) + 1, buf.Length)
    {
      if head == tail {
        return Eof;
      }
      r := Got(buf[head]);
      head := head + 1;
      if head == buf.Length {
        head := 0;
      }
      assert Contents() == old(Contents())[1..];
    }

    /** vbuf_pop, on a buffer known not to be empty. */
    method PopByte() returns (b: Byte)
      requires Valid() && Contents() != []
      modifies this`head
      ensures Valid() && [b] + Contents() == old(Contents())
    {
      ghost var q := Contents();
      var r := Pop();
      assert [q[0]] + q[1..] == q;
      b := r.c;
    }

    /** vbuf_popn.  Dropping more than there is works only where the new head is clamped. */
    method PopN(n: nat)
      requires Valid()
      modifies this`head
      ensures Valid()
      ensures Contents() == old(Contents())[Min(n, |old(Contents())|)..]
              <==> n <= |old(Contents())| || tail < old(head) || old(head) + n >= buf.Length + tail
      ensures head == if old(head) + n < buf.Length then old(head) + n else Min(old(head) + n - buf.Length, tail)
    {
      var h := head + n;
      if h >= buf.Length {
        h := h - buf.Length;
        if h > tail {
          h := tail;
        }
      }
      head := h;
      if n <= |old(Contents())| {
        assert Contents() == old(Contents())[n..];
      }
    }

    /** vbuf_peekat.  It is right exactly for an empty buffer, past the capacity, in an unwrapped
        buffer up to the physical end, and in the second part of a wrapped one. */
    method PeekAt(i: nat) returns (r: Got)
      requires Valid()
      ensures var c := Contents();
              r == (if i < |c| then Got(c[i]) else Eof)
              <==> c == [] || i >= Capacity() || (head <= tail <==> head + i < buf.Length)
    {
      var s := head + i;
      if head == tail || i >= Capacity() {
        return Eof;
      }
      if s < tail {
        return Got(buf[s]);
      }
      if s >= buf.Length {
        s := s - buf.Length;
      }
      if s < tail {
        return Got(buf[s]);
      }
      return Eof;
    }

    /** vbuf_strchr: the position of the first c in the queue. */
    method StrChr(c: Byte) returns (r: int)
      requires Valid()
      ensures var q := Contents();
              r == if Find(q, c) < |q| then Find(q, c) else -1
    {
      if head == tail {
        return -1;
      }
      ghost var q := Contents();
      var s := head;
      var d := if tail < head then buf.Length else tail;
      while s < d
        invariant head <= s <= d
        invariant forall k :: 0 <= k < s - head ==> q[k] != c
      {
        if buf[s] == c {
          FindIs(q, c, s - head);
          return s - head;
        }
        s := s + 1;
      }
      if tail > head {
        FindIs(q, c, |q|);
        return -1;
      }
      s := 0;
      while s < tail
        invariant 0 <= s <= tail
        invariant forall k :: 0 <= k < buf.Length - head + s ==> q[k] != c
      {
        if buf[s] == c {
          FindIs(q, c, buf.Length - head + s);
          return buf.Length - head + s;
        }
        s := s + 1;
      }
      FindIs(q, c, |q|);
      return -1;
    }

    // VBUF_TAIL_SZ and VBUF_HEAD_SZ: what can be read at the head, or written at the tail, in one piece.

    function TailSz(): int
      reads this
    {
      if tail >= head then tail - head else buf.Length - head
    }

    function HeadSz(): int
      reads this
    {
      if head > tail then head - tail else buf.Length - tail
    }

    /** One phase of vbuf_getblk. */
    method CopyOut(n: nat) returns (data: seq<Byte>)
      requires Valid() && n <= TailSz()
      modifies this`head
      ensures Valid()
      ensures |data| == n && data + Contents() == old(Contents())
      ensures old(head) + n == buf.Length ==> head == 0
      ensures old(head) + n < buf.Length ==> head == old(head) + n
    {
      data := buf[head..head + n];
      head := head + n;
      if head == buf.Length {
        head := 0;
      }
      assert data + Contents() == old(Contents());
    }

    /** vbuf_getblk: all or nothing. */
    method GetBlk(n: nat) returns (ok: bool, data: seq<Byte>)
      requires Valid()
      modifies this`head
      ensures Valid()
      ensures ok <==> 0 < n <= |old(Contents())|
      ensures ok ==> |data| == n && data + Contents() == old(Contents())
      ensures !ok ==> Contents() == old(Contents()) && data == []
    {
      data := [];
      if n == 0 || Size() < n {
        return false, [];
      }
      var sz := n;
      ghost var q := Contents();
      assert [] + q == q;
      var i := 0;
      while sz > 0 && i < 2
        invariant 0 <= i <= 2 && 0 <= sz <= n && Valid()
        invariant |data| == n - sz && data + Contents() == q
        invariant i == 1 ==> sz == 0 || head == 0
        invariant i == 2 ==> sz == 0
        decreases 2 - i
      {
        var rw := TailSz();
        if rw > sz {
          rw := sz;
        }
        ghost var c := Contents();
        var piece := CopyOut(rw);
        assert data + c == (data + piece) + Contents();
        data := data + piece;
        sz := sz - rw;
        i := i + 1;
      }
      return true, data;
    }

    /** One phase of vbuf_putblk. */
    method CopyIn(data: seq<Byte>)
      requires Valid() && |data| <= HeadSz() && |data| <= Space()
      modifies this`tail, buf
      ensures Valid() && Contents() == old(Contents()) + data
      ensures old(tail) + |data| == buf.Length ==> tail == 0
      ensures old(tail) + |data| < buf.Length ==> tail == old(tail) + |data|
    {
      forall k | 0 <= k < |data| {
        buf[tail + k] := data[k];
      }
      tail := tail + |data|;
      if tail == buf.Length {
        tail := 0;
      }
      assert Contents() == old(Contents()) + data;
    }

    /** vbuf_putblk: all or nothing. */
    method PutBlk(data: seq<Byte>) returns (ok: bool)
      requires Valid()
      modifies this`tail, buf
      ensures Valid()
      ensures ok <==> data != [] && |old(Contents())| + |data| <= Capacity()
      ensures Contents() == if ok then old(Contents()) + data else old(Contents())
      ensures !ok ==> buf[..] == old(buf[..]) && tail == old(tail)
    {
      if |data| == 0 || Space() < |data| {
        return false;
      }
      ghost var q := Contents();
      var done := 0;
      var i := 0;
      while done < |data| && i < 2
        invariant 0 <= i <= 2 && 0 <= done <= |data| && Valid()
        invariant Contents() == q + data[..done] && |data| - done <= Space()
        invariant i == 1 ==> done == |data| || (tail == 0 && head > 0)
        invariant i == 2 ==> done == |data|
        decreases 2 - i
      {
        var rw := HeadSz();
        if rw > |data| - done {
          rw := |data| - done;
        }
        CopyIn(data[done..done + rw]);
        assert data[..done + rw] == data[..done] + data[done..done + rw];
        done := done + rw;
        i := i + 1;
      }
      assert data[..|data|] == data;
      return true;
    }

    /** vbuf_putstr of a string and its NUL. */
    method PutStr(s: seq<Byte>) returns (ok: bool)
      requires Valid() && NUL !in s
      modifies this`tail, buf
      ensures Valid()
      ensures ok <==> |old(Contents())| + |s| + 1 <= Capacity()
      ensures Contents() == if ok then old(Contents()) + s + [NUL] else old(Contents())
    {
      if Space() < |s| + 1 {
        return false;
      }
      ghost var q := Contents();
      ok := PutBlk(s + [NUL]);
      assert q + (s + [NUL]) == q + s + [NUL];
    }

    /** vbuf_getstr, for a caller's string of room bytes; NULL on an empty buffer. */
    method GetStr(room: nat) returns (r: Option<seq<Byte>>)
      requires Valid() && room > 0
      modifies this`head
      ensures Valid()
      ensures old(Contents()) == [] ==> r == None && Contents() == []
      ensures old(Contents()) != [] ==>
                r == Some(StringOut(old(Contents()), room)) && Contents() == StringRest(old(Contents()), room)
    {
      if head == tail {
        return None;
      }
      ghost var q := Contents();
      var s, left, whole := PopString(room);
      if whole {
        FindIs(q, NUL, |s| - 1);
        return Some(s);
      }
      StringCut(q, room, s);
      if |s| < room && left == 0 {
        return Some(s + [NUL]);
      }
      return Some(s[|s| - 1 := NUL]);
    }

    /** The loop of vbuf_getstr: pop until a NUL, the end of the room, or the end of the queue; left is
        the room counter when it stops. */
    method PopString(room: nat) returns (s: seq<Byte>, left: nat, whole: bool)
      requires Valid() && room > 0 && Contents() != []
      modifies this`head
      ensures Valid() && s + Contents() == old(Contents()) && s != []
      ensures forall k :: 0 <= k < |s| - 1 ==> s[k] != NUL
      ensures whole <==> s[|s| - 1] == NUL
      ensures |s| <= room && (!whole ==> |s| == Min(room, |old(Contents())|))
      ensures !whole && |s| < room ==> left == room - |s| - 1
    {
      ghost var q := Contents();
      s, left := [], room;
      assert [] + q == q;
      while left > 0
        invariant Valid() && |s| + left == room && s + Contents() == q
        invariant forall k :: 0 <= k < |s| ==> s[k] != NUL
        decreases left
      {
        left := left - 1;
        if head == tail {
          return s, left, false;
        }
        var b := PopByte();
        Regroup(s, [b], Contents());
        s := s + [b];
        if b == NUL {
          return s, left, true;
        }
      }
      return s, left, false;
    }

    /** vbuf_cstr: the queue is unchanged, it now lies in one piece from the returned position, and a
        NUL follows it inside the allocation. */
    method CStr() returns (r: Option<nat>)
      requires Valid()
      modifies this, buf
      ensures Valid() && Contents() == old(Contents())
      ensures r == None <==> old(Contents()) == []
      ensures r.Some? ==> r.value == head && head + Size() == tail < buf.Length
      ensures r.Some? ==> buf[head..tail] == old(Contents()) && buf[tail] == NUL
    {
      ghost var q := Contents();
      if head == tail {
        return None;
      }
      if tail > head {
        buf[tail] := NUL;
        assert Contents() == q && buf[head..tail] == q;
        return Some(head);
      }
      Straighten();
      assert buf[head..tail] == q;
      return Some(0);
    }

    /** The wrapped case of vbuf_cstr: two reversals, a move, a NUL, and a reversal of the whole. */
    method Straighten()
      requires Valid() && tail < head
      modifies this, buf
      ensures head == 0 && tail == old(Size()) < buf.Length && buf[tail] == NUL
      ensures Valid() && Contents() == old(Contents())
    {
      var sz := Size();
      StraightenBytes(tail, head, sz);
      head := 0;
      tail := sz;
      StraightenedRing(old(buf[..]), old(tail), old(head), buf[..], sz);
    }

    /** The bytes of it, with the old positions t and h. */
    method StraightenBytes(t: nat, h: nat, sz: nat)
      requires t < h < buf.Length && sz == t + buf.Length - h
      modifies buf
      ensures buf[..] == Straightened(old(buf[..]), t, h)
    {
      ReverseInPlace(buf, 0, t);
      ReverseInPlace(buf, h, buf.Length);
      MoveWithin(buf, t, h, buf.Length - h);
      ghost var moved := buf[..];
      buf[sz] := NUL;
      assert buf[..] == moved[sz := NUL];
      ReverseInPlace(buf, 0, sz);
    }

    // -------------------------------------------------------------------------
    // Transfers.  The writer and the reader are arbitrary; each call is numbered.

    /** vbuf_general_write, seen after at most limit calls of the writer.  The writer is offered the
        wanted bytes in two pieces and says how many it took, or that it failed; taken is all it took. */
    method GeneralWrite(size: int, writer: (seq<Byte>, seq<Byte>, nat) -> int, limit: nat)
      returns (ret: int, taken: seq<Byte>, ghost trace: seq<WriteCall>)
      requires Valid()
      requires WriterOk(writer)
      modifies this`head
      ensures Valid()
      ensures taken + Contents() == old(Contents()) && |taken| == TakenBy(trace)
      ensures var q := old(Contents());
              trace != [] ==> Writing(trace, writer, Wanted(size, |q|), old(head), q, buf.Length, taken)
      ensures Stopped(size, |old(Contents())|, limit, ret, |taken|, |trace|, WriteFailed(trace))
    {
      taken, trace, ret := [], [], 0;
      ghost var q := Contents();
      assert [] + q == q;
      var sz, isMin := size, size == RWSZ_MIN;
      if size == RWSZ_ALL || size == RWSZ_MIN {
        sz := Size();
      }
      if sz < 1 || Size() < sz {
        return;
      }
      var calls := 0;
      ghost var want, h := sz, head;
      while sz > 0 && ret == 0 && !(isMin && calls > 0) && calls < limit
        invariant Valid() && Written(trace, writer, want, h, q, taken)
        invariant 0 <= sz == want - |taken| && calls == |trace| <= limit
        invariant ret == (if WriteFailed(trace) then -1 else 0) && (isMin ==> calls <= 1)
        decreases limit - calls
      {
        var took;
        took, taken, trace := WriteTurn(sz, writer, calls, trace, want, h, q, taken);
        calls := calls + 1;
        if took < 0 {
          ret := -1;
        } else {
          sz := sz - took;
        }
      }
    }

    /** Where a transfer to a writer stands. */
    ghost predicate Written(trace: seq<WriteCall>, writer: (seq<Byte>, seq<Byte>, nat) -> int,
                            want: int, h: nat, q: seq<Byte>, taken: seq<Byte>)
      requires Valid()
      reads this, buf
    {
      && Writing(trace, writer, want, h, q, buf.Length, taken)
      && taken + Contents() == q && h + |taken| < 2 * buf.Length && head == Wrap(h + |taken|, buf.Length)
    }

    /** One turn of the writing loop. */
    method WriteTurn(sz: nat, writer: (seq<Byte>, seq<Byte>, nat) -> int, calls: nat, ghost trace: seq<WriteCall>,
                     ghost want: int, ghost h: nat, ghost q: seq<Byte>, taken: seq<Byte>)
      returns (took: int, taken': seq<Byte>, ghost trace': seq<WriteCall>)
      requires Valid() && Written(trace, writer, want, h, q, taken) && !WriteFailed(trace)
      requires calls == |trace| && 1 <= sz == want - |taken| && WriterOk(writer) && h < buf.Length && |q| < buf.Length
      modifies this`head
      ensures Valid() && Written(trace', writer, want, h, q, taken')
      ensures |trace'| == |trace| + 1 && (WriteFailed(trace') <==> took < 0)
      ensures took <= sz && |taken'| == |taken| + (if took < 0 then 0 else took)
    {
      ghost var call;
      var piece;
      took, piece, call := WriteOnce(sz, writer, calls);
      WritingNext(trace, writer, want, h, q, buf.Length, taken, call, piece, Contents());
      trace' := trace + [call];
      taken' := taken + piece;
    }

    /** The first sz bytes of the queue, as the two pieces of an iovec. */
    method Offer(sz: nat) returns (iov0: seq<Byte>, iov1: seq<Byte>)
      requires Valid() && 1 <= sz <= Size()
      ensures iov0 + iov1 == Contents()[..sz] && |iov0| == Min(sz, buf.Length - head)
    {
      var rw := TailSz();
      if rw > sz {
        rw := sz;
      }
      iov0, iov1 := buf[head..head + rw], buf[..sz - rw];
      RingInTwo(buf[..], head, Size(), sz);
      assert iov0 == buf[..][head..head + rw] && iov1 == buf[..][..sz - rw];
    }

    /** The head moves past n bytes of the queue. */
    method Advance(n: nat)
      requires Valid() && n <= Size()
      modifies this`head
      ensures Valid() && Contents() == old(Contents())[n..] && head == Wrap(old(head) + n, buf.Length)
    {
      RingDrop(buf[..], head, Size(), n);
      head := head + n;
      if head >= buf.Length {
        head := head - buf.Length;
      }
    }

    /** One call of the writer. */
    method WriteOnce(sz: nat, writer: (seq<Byte>, seq<Byte>, nat) -> int, call: nat)
      returns (took: int, piece: seq<Byte>, ghost made: WriteCall)
      requires Valid() && 1 <= sz <= Size()
      requires WriterOk(writer)
      modifies this`head
      ensures Valid() && took <= sz && piece + Contents() == old(Contents())
      ensures |piece| == (if took < 0 then 0 else took) && head == Wrap(old(head) + |piece|, buf.Length)
      ensures made.answer == took == writer(made.piece0, made.piece1, call)
      ensures made.piece0 + made.piece1 == old(Contents())[..sz] && |made.piece0| == Min(sz, buf.Length - old(head))
    {
      ghost var c := Contents();
      var iov0, iov1 := Offer(sz);
      took := writer(iov0, iov1, call);
      made := WriteCall(iov0, iov1, took);
      assert |iov0 + iov1| == sz;
      piece := (iov0 + iov1)[..if took < 0 then 0 else took];
      if took >= 0 {
        Advance(took);
        assert piece == c[..took];
        assert c[..took] + c[took..] == c;
      } else {
        assert piece + c == c;
      }
    }

    /** The reader's bytes go to the two pieces of free space. */
    method Scatter(data: seq<Byte>)
      requires Valid() && |data| <= Space()
      modifies this`tail, buf
      ensures Valid() && Contents() == old(Contents()) + data
    {
      var rw := HeadSz();
      if rw > |data| {
        rw := |data|;
      }
      ghost var q := Contents();
      CopyIn(data[..rw]);
      CopyIn(data[rw..]);
      assert q + data[..rw] + data[rw..] == q + data;
    }

    /** vbuf_general_read, seen after at most limit calls of the reader.  The reader is told the sizes
        of the two pieces and delivers bytes for them, or fails; received is all it delivered. */
    method GeneralRead(size: int, reader: (nat, nat, nat) -> Option<seq<Byte>>, limit: nat)
      returns (ret: int, received: seq<Byte>, ghost trace: seq<ReadCall>)
      requires Valid()
      requires ReaderOk(reader)
      modifies this`tail, buf
      ensures Valid()
      ensures Contents() == old(Contents()) + received && received == Delivered(trace)
      ensures var q := |old(Contents())|;
              Reading(trace, reader, Wanted(size, Capacity() - q), head, q, buf.Length, received)
      ensures Stopped(size, Capacity() - |old(Contents())|, limit, ret, |received|, |trace|, ReadFailed(trace))
    {
      received, trace, ret := [], [], 0;
      ghost var q := Contents();
      assert q + [] == q;
      var sz, isMin := size, size == RWSZ_MIN;
      if size == RWSZ_ALL || size == RWSZ_MIN {
        sz := Space();
      }
      if sz < 1 || Space() < sz {
        return;
      }
      var calls := 0;
      var want := sz;
      while sz > 0 && ret == 0 && !(isMin && calls > 0) && calls < limit
        invariant Valid() && Contents() == q + received
        invariant Reading(trace, reader, want, head, |q|, buf.Length, received)
        invariant 0 <= sz == want - |received| && |q| + want <= Capacity() && calls == |trace| <= limit
        invariant ret == (if ReadFailed(trace) then -1 else 0) && (isMin ==> calls <= 1)
        decreases limit - calls
      {
        var ok;
        ok, received, trace := ReadTurn(sz, reader, calls, trace, want, q, received);
        calls := calls + 1;
        sz := want - |received|;
        if !ok {
          ret := -1;
        }
      }
    }

    /** One turn of the reading loop. */
    method ReadTurn(sz: nat, reader: (nat, nat, nat) -> Option<seq<Byte>>, calls: nat, ghost trace: seq<ReadCall>,
                    ghost want: int, ghost q: seq<Byte>, received: seq<Byte>)
      returns (ok: bool, received': seq<Byte>, ghost trace': seq<ReadCall>)
      requires Valid() && Contents() == q + received && calls == |trace| && !ReadFailed(trace)
      requires Reading(trace, reader, want, head, |q|, buf.Length, received)
      requires 1 <= sz == want - |received| && |q| + want <= Capacity() && ReaderOk(reader)
      modifies this`tail, buf
      ensures Valid() && Contents() == q + received' && |received'| <= want
      ensures Reading(trace', reader, want, head, |q|, buf.Length, received')
      ensures |trace'| == |trace| + 1 && (ReadFailed(trace') <==> !ok)
    {
      ghost var call;
      var got;
      got, call := ReadOnce(sz, reader, calls);
      ReadingNext(trace, reader, want, head, |q|, buf.Length, received, call);
      var piece := if got.Some? then got.value else [];
      Regroup(q, received, piece);
      ok, received', trace' := got.Some?, received + piece, trace + [call];
    }

    /** One call of the reader. */
    method ReadOnce(sz: nat, reader: (nat, nat, nat) -> Option<seq<Byte>>, call: nat)
      returns (got: Option<seq<Byte>>, ghost made: ReadCall)
      requires Valid() && 1 <= sz <= Space()
      requires ReaderOk(reader)
      modifies this`tail, buf
      ensures Valid() && Contents() == old(Contents()) + (if got.Some? then got.value else [])
      ensures got.Some? ==> |got.value| <= sz
      ensures made.answer == got == reader(made.room0, made.room1, call) && made.room0 + made.room1 == sz
      ensures made.room0 == Min(sz, buf.Length - Wrap(head + |old(Contents())|, buf.Length))
    {
      var rw := HeadSz();
      if rw > sz {
        rw := sz;
      }
      got := reader(rw, sz - rw, call);
      made := ReadCall(rw, sz - rw, got);
      if got.Some? {
        Scatter(got.value);
      } else {
        assert Contents() + [] == Contents();
      }
    }

    // -------------------------------------------------------------------------

    /** One operation of a mix. */
    method Perform(op: Op) returns (out: Out)
      requires Valid() && Sensible(Contents(), op)
      modifies this, buf
      ensures Valid()
      ensures (Contents(), out) == Fifo(old(Contents()), Capacity(), op)
    {
      ghost var q := Contents();
      match op
      case AddOp(c) =>
        var ok := Add(c);
        out := Done(ok);
      case PopOp =>
        var r := Pop();
        out := Bytes(if r.Got? then [r.c] else []);
      case PopNOp(n) =>
        PopN(n);
        out := Done(true);
      case PutBlkOp(s) =>
        var ok := PutBlk(s);
        out := Done(ok);
      case GetBlkOp(n) =>
        var ok, data := GetBlk(n);
        assert ok ==> data == (data + Contents())[..n] && Contents() == (data + Contents())[n..];
        assert n == 0 ==> q[0..] == q && q[..0] == [];
        out := Bytes(data);
      case PutStrOp(s) =>
        var ok := PutStr(s);
        assert q + s + [NUL] == q + (s + [NUL]);
        out := Done(ok);
      case GetStrOp(room) =>
        var r := GetStr(room);
        out := Bytes(if r.Some? then r.value else []);
      case StrChrOp(c) =>
        var r := StrChr(c);
        out := Position(r);
    }

    /** Any mix of operations behaves like the bounded queue. */
    method PerformAll(ops: seq<Op>) returns (outs: seq<Out>)
      requires Valid() && AllSensible(Contents(), Capacity(), ops)
      modifies this, buf
      ensures Valid()
      ensures (Contents(), outs) == FifoRun(old(Contents()), Capacity(), ops)
    {
      outs := [];
      ghost var q := Contents();
      for i := 0 to |ops|
        invariant Valid() && (Contents(), outs) == FifoRun(q, Capacity(), ops[..i])
      {
        assert ops[..i + 1][..i] == ops[..i];
        var out := Perform(ops[i]);
        outs := outs + [out];
      }
      assert ops[..|ops|] == ops;
    }
  }


  // ---------------------------------------------------------------------------
  // The bounded queue every mix of operations behaves like.

  datatype Op =
    | AddOp(c: Byte) | PopOp | PopNOp(n: nat)
    | PutBlkOp(s: seq<Byte>) | GetBlkOp(n: nat)
    | PutStrOp(s: seq<Byte>) | GetStrOp(room: nat)
    | StrChrOp(c: Byte)

  datatype Out = Done(ok: bool) | Bytes(data: seq<Byte>) | Position(at: int)

  /** Drop no more than there is; strings contain no NUL and are asked for with some room. */
  predicate Sensible(q: seq<Byte>, op: Op) {
    match op
    case PopNOp(n) => n <= |q|
    case PutStrOp(s) => NUL !in s
    case GetStrOp(room) => room > 0
    case _ => true
  }

  function Put(q: seq<Byte>, cap: int, s: seq<Byte>): (seq<Byte>, Out) {
    if s != [] && |q| + |s| <= cap then (q + s, Done(true)) else (q, Done(false))
  }

  function Fifo(q: seq<Byte>, cap: int, op: Op): (seq<Byte>, Out) {
    match op
    case AddOp(c) => Put(q, cap, [c])
    case PopOp => if q == [] then (q, Bytes([])) else (q[1..], Bytes([q[0]]))
    case PopNOp(n) => (q[Min(n, |q|)..], Done(true))
    case PutBlkOp(s) => Put(q, cap, s)
    case GetBlkOp(n) => if n <= |q| then (q[n..], Bytes(q[..n])) else (q, Bytes([]))
    case PutStrOp(s) => Put(q, cap, s + [NUL])
    case GetStrOp(room) => if q == [] || room == 0 then (q, Bytes([]))
          else (StringRest(q, room), Bytes(StringOut(q, room)))
    case StrChrOp(c) => (q, Position(if Find(q, c) < |q| then Find(q, c) else -1))
  }

  function FifoRun(q: seq<Byte>, cap: int, ops: seq<Op>): (r: (seq<Byte>, seq<Out>))
    ensures |r.1| == |ops|
  {
    if ops == [] then (q, [])
    else
      var (q', outs) := FifoRun(q, cap, ops[..|ops| - 1]);
      var (q'', out) := Fifo(q', cap, ops[|ops| - 1]);
      (q'', outs + [out])
  }

  /** Every operation is sensible when its turn comes. */
  ghost predicate AllSensible(q: seq<Byte>, cap: int, ops: seq<Op>) {
    forall i :: 0 <= i < |ops| ==> Sensible(FifoRun(q, cap, ops[..i]).0, ops[i])
  }

  /** The bytes an operation put in. */
  function Entered(op: Op, out: Out): seq<Byte> {
    match op
    case AddOp(c) => if out == Done(true) then [c] else []
    case PutBlkOp(s) => if out == Done(true) then s else []
    case PutStrOp(s) => if out == Done(true) then s + [NUL] else []
    case _ => []
  }

  function AllEntered(ops: seq<Op>, outs: seq<Out>): seq<Byte>
    requires |ops| == |outs|
  {
    if ops == [] then []
    else AllEntered(ops[..|ops| - 1], outs[..|ops| - 1]) + Entered(ops[|ops| - 1], outs[|ops| - 1])
  }

  lemma StringRestIsSuffix(q: seq<Byte>, room: nat)
    requires q != [] && room > 0
    ensures exists k :: 0 <= k <= |q| && StringRest(q, room) == q[k..]
  {
    var m := Min(room, |q|);
    assert StringRest(q, room) == q[if Find(q, NUL) < m then Find(q, NUL) + 1 else m..];
  }

  /** One operation appends what it put in, and takes only from the front. */
  lemma FifoMoves(q: seq<Byte>, cap: int, op: Op) returns (k: nat)
    requires |q| <= cap
    ensures var (q', out) := Fifo(q, cap, op);
            k <= |q| && q' == q[k..] + Entered(op, out) && |q'| <= cap
  {
    match op
    case PopOp => k := if q == [] then 0 else 1;
    case PopNOp(n) => k := Min(n, |q|);
    case GetBlkOp(n) => k := if n <= |q| then n else 0;
    case GetStrOp(room) =>
      if q == [] || room == 0 {
        k := 0;
      } else {
        StringRestIsSuffix(q, room);
        var i :| 0 <= i <= |q| && StringRest(q, room) == q[i..];
        k := i;
      }
    case _ => k := 0;
  }

  lemma MovesCompose<T>(q: seq<T>, entered: seq<T>, e: seq<T>, k0: nat, k1: nat, q1: seq<T>, q2: seq<T>)
    requires k0 <= |q| + |entered| && q1 == (q + entered)[k0..]
    requires k1 <= |q1| && q2 == q1[k1..] + e
    ensures q2 == (q + (entered + e))[k0 + k1..]
  {
    assert q + (entered + e) == (q + entered) + e;
  }

  lemma EnteredNext(ops: seq<Op>, outs: seq<Out>, op: Op, out: Out)
    requires |ops| == |outs|
    ensures AllEntered(ops + [op], outs + [out]) == AllEntered(ops, outs) + Entered(op, out)
  {
    assert (ops + [op])[..|ops|] == ops && (outs + [out])[..|outs|] == outs;
  }

  lemma ConservesNext(q: seq<Byte>, cap: int, ops: seq<Op>, op: Op, outs: seq<Out>, q1: seq<Byte>,
        k0: nat) returns (k: nat)
    requires |ops| == |outs| && |q1| <= cap
    requires k0 <= |q| + |AllEntered(ops, outs)| && q1 == (q + AllEntered(ops, outs))[k0..]
    ensures var (q2, out) := Fifo(q1, cap, op);
            var entered := AllEntered(ops + [op], outs + [out]);
            |q2| <= cap && k <= |q| + |entered| && q2 == (q + entered)[k..]
  {
    var (q2, out) := Fifo(q1, cap, op);
    var k1 := FifoMoves(q1, cap, op);
    EnteredNext(ops, outs, op, out);
    MovesCompose(q, AllEntered(ops, outs), Entered(op, out), k0, k1, q1, q2);
    k := k0 + k1;
  }

  /** Over any run the queue stays within its capacity, and what it holds in the end is a tail of
      what it held at first followed by everything that was put in: nothing is lost, duplicated or
      reordered on the way through. */
  lemma {:induction false} FifoConserves(q: seq<Byte>, cap: int, ops: seq<Op>) returns (k: nat)
    requires |q| <= cap
    ensures var (q', outs) := FifoRun(q, cap, ops);
            && |q'| <= cap
            && k <= |q| + |AllEntered(ops, outs)| && q' == (q + AllEntered(ops, outs))[k..]
    decreases |ops|
  {
    if ops == [] {
      k := 0;
      assert q + [] == q;
    } else {
      var before, op := ops[..|ops| - 1], ops[|ops| - 1];
      var (q1, outs) := FifoRun(q, cap, before);
      var k0 := FifoConserves(q, cap, before);
      k := ConservesNext(q, cap, before, op, outs, q1, k0);
      assert before + [op] == ops;
    }
  }

  /** Dropping two bytes of one leaves three: the byte that was put in comes back, behind two that never
      were. */
  method PopNExample() returns (v: VBuf)
    ensures fresh(v) && v.Valid() && v.Capacity() == 3 && |v.Contents()| == 3 && v.Contents()[2] == 7
  {
    v := new VBuf(4);
    var ok := v.Add(7);
    assert v.Contents()[0] == 7;
    v.PopN(2);
  }

  /** In a wrapped buffer the first byte is not seen. */
  method PeekAtExample() returns (v: VBuf, r: Got)
    ensures fresh(v) && v.Valid() && v.Contents() == [8] && r != Got(8)
  {
    v := new VBuf(2);
    var ok := v.Add(7);
    var seven := v.Pop();
    ok := v.Add(8);
    r := v.PeekAt(0);
  }
}
