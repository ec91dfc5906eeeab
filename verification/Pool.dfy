/** The recycled buffers of daemon/utmpd/friend.cpp: myvector, a growing and shrinking vector, over
    freelist, which keeps released power-of-two buffers for the next vector that wants one. */
module Pool {

  const SLOTS := 8   // 2^0 .. 2^7
  const KEEP := 64   // buffers kept per slot
  const MAX_BYTES := 65536

  function Pow2(k: nat): (r: nat)
    ensures r >= 1
  {
    if k == 0 then 1 else 2 * Pow2(k - 1)
  }

  predicate IsPow2(n: nat) {
    n == 1 || (n > 1 && n % 2 == 0 && IsPow2(n / 2))
  }

  function Log2(n: nat): nat {
    if n <= 1 then 0 else 1 + Log2(n / 2)
  }

  lemma {:induction false} Log2Exact(n: nat)
    requires IsPow2(n)
    ensures Pow2(Log2(n)) == n
  {
    if n != 1 {
      Log2Exact(n / 2);
    }
  }

  lemma {:induction false} Log2Bound(n: nat, k: nat)
    requires 0 < n < Pow2(k) && k > 0
    ensures Log2(n) < k
  {
    if n > 1 {
      Log2Bound(n / 2, k - 1);
    }
  }

  lemma {:induction false} Pow2Monotone(j: nat, k: nat)
    requires j < k
    ensures 2 * Pow2(j) <= Pow2(k)
  {
    if j + 1 < k {
      Pow2Monotone(j, k - 1);
    }
  }

  // ---------------------------------------------------------------------------
  // How much room a vector takes.

  /** Double until size fits. */
  function Grow(room: nat, size: nat): nat
    requires room > 0
    decreases if room < size then size - room else 0
  {
    if room < size then Grow(2 * room, size) else room
  }

  /** Halve while half is still more than size. */
  function Shrink(room: nat, size: nat): nat {
    if room / 2 > size then Shrink(room / 2, size) else room
  }

  function Max(a: nat, b: nat): nat {
    if a < b then b else a
  }

  /** The room resizefor settles on for a nonzero size. */
  function NewRoom(room: nat, size: nat, minRoom: nat): nat
    requires minRoom > 0
  {
    Shrink(Grow(if room == 0 then minRoom else room, size), Max(size, minRoom))
  }

  lemma DoubleIsPow2(n: nat)
    requires IsPow2(n)
    ensures IsPow2(2 * n) && 2 * n > n
  {
    assert (2 * n) / 2 == n && (2 * n) % 2 == 0;
  }

  lemma {:induction false} GrowFits(room: nat, size: nat)
    requires IsPow2(room)
    ensures IsPow2(Grow(room, size)) && room <= Grow(room, size) && size <= Grow(room, size)
    ensures room >= size ==> Grow(room, size) == room
    ensures room < size ==> Grow(room, size) < 2 * size
    decreases if room < size then size - room else 0
  {
    if room < size {
      DoubleIsPow2(room);
      GrowFits(2 * room, size);
    }
  }

  lemma {:induction false} ShrinkFits(room: nat, size: nat)
    requires IsPow2(room) && size <= room && size > 0
    ensures IsPow2(Shrink(room, size)) && size <= Shrink(room, size) && Shrink(room, size) / 2 <= size
    ensures room / 2 > size ==> Shrink(room, size) > size
    ensures Shrink(room, size) <= room
  {
    if room / 2 > size {
      ShrinkFits(room / 2, size);
    }
  }

  ghost predicate GoodRoom(room: nat, n: nat, minRoom: nat) {
    IsPow2(room) && minRoom <= room && n <= room && room / 2 <= Max(n, minRoom)
  }

  /** The new room is a power of two that holds the elements and is not more than half empty beyond
      the minimum; a room that is already good is left alone, so no buffer is moved. */
  lemma NewRoomIsGood(room: nat, size: nat, minRoom: nat)
    requires IsPow2(minRoom) && size > 0 && (room == 0 || (IsPow2(room) && minRoom <= room))
    ensures GoodRoom(NewRoom(room, size, minRoom), size, minRoom)
    ensures room > 0 && GoodRoom(room, size, minRoom) ==> NewRoom(room, size, minRoom) == room
    ensures room > 0 && room < size ==> NewRoom(room, size, minRoom) < 2 * size
    ensures room > 0 && room / 2 > Max(size, minRoom) ==> NewRoom(room, size, minRoom) > Max(size, minRoom)
  {
    var start := if room == 0 then minRoom else room;
    GrowFits(start, size);
    ShrinkFits(Grow(start, size), Max(size, minRoom));
  }

  /** The two loops of resizefor. */
  method SettleRoom(room: nat, size: nat, minRoom: nat) returns (r: nat)
    requires minRoom > 0
    ensures r == NewRoom(room, size, minRoom)
  {
    r := if room == 0 then minRoom else room;
    ghost var start: nat := r;
    while r < size
      invariant r > 0 && Grow(r, size) == Grow(start, size)
      decreases size - r
    {
      r := r * 2;
    }
    var floor := if size < minRoom then minRoom else size;
    while r / 2 > floor
      invariant Shrink(r, floor) == NewRoom(room, size, minRoom)
    {
      r := r / 2;
    }
  }

  // ---------------------------------------------------------------------------

  lemma {:induction false} SmallPower(k: nat)
    requires k < SLOTS
    ensures IsPow2(Pow2(k)) && Pow2(k) < 256
  {
    if k > 0 {
      SmallPower(k - 1);
      DoubleIsPow2(Pow2(k - 1));
      Pow2Monotone(k, SLOTS);
      assert Pow2(SLOTS) == 256;
    }
  }

  lemma {:induction false} SetOfSeq<X>(s: seq<X>)
    requires forall i, j :: 0 <= i < j < |s| ==> s[i] != s[j]
    ensures |set i | 0 <= i < |s| :: s[i]| == |s|
  {
    if s != [] {
      var front, last := s[..|s| - 1], s[|s| - 1];
      SetOfSeq(front);
      var all, before := set i | 0 <= i < |s| :: s[i], set i | 0 <= i < |front| :: front[i];
      forall x
        ensures x in all <==> x in before + {last}
      {
        if x in before {
          var i :| 0 <= i < |front| && front[i] == x;
          assert s[i] == x;
        }
        if x in all {
          var i :| 0 <= i < |s| && s[i] == x;
          assert i < |front| ==> front[i] == x;
        }
      }
      assert all == before + {last};
      assert last !in before;
    }
  }

  class Freelist<T(0)> {
    const elemSize: nat
    var list: seq<seq<array<T>>>

    constructor (elemSize: nat)
      ensures Valid() && Pooled() == {} && this.elemSize == elemSize
    {
      this.elemSize := elemSize;
      list := seq(SLOTS, _ => []);
    }

    ghost function Pooled(): set<array<T>>
      reads this
    {
      set k, i | 0 <= k < |list| && 0 <= i < |list[k]| :: list[k][i]
    }

    /** Slot k keeps at most KEEP buffers, each of capacity exactly 2^k, and none is kept twice. */
    ghost predicate Valid()
      reads this
    {
      && |list| == SLOTS
      && (forall k :: 0 <= k < SLOTS ==> |list[k]| <= KEEP && (list[k] != [] ==> elemSize * Pow2(k) < MAX_BYTES))
      && (forall k, i :: 0 <= k < SLOTS && 0 <= i < |list[k]| ==> list[k][i].Length == Pow2(k))
      && (forall k, i, j :: 0 <= k < SLOTS && 0 <= i < j < |list[k]| ==> list[k][i] != list[k][j])
    }

    predicate Recyclable(n: nat) {
      n < 256 && IsPow2(n) && elemSize * n < MAX_BYTES
    }

    /** The buffers of n elements. */
    static ghost function OfSize(s: set<array<T>>, n: nat): set<array<T>> {
      set q | q in s && q.Length == n
    }

    /** A buffer of n elements would be kept: sizes are powers of two below 256, of less than 64K bytes,
        and there are at most 64 of a size. */
    ghost predicate Keeps(n: nat)
      reads this
    {
      n < 256 && IsPow2(n) && elemSize * n < 65536 && |OfSize(Pooled(), n)| < 64
    }

    method SlotOf(n: nat) returns (slot: nat)
      requires 0 < n < 256 && IsPow2(n)
      ensures slot < SLOTS && Pow2(slot) == n
    {
      var t: nat := n;
      slot := 0;
      while t > 1
        invariant IsPow2(t) && slot + Log2(t) == Log2(n)
      {
        t := t / 2;
        slot := slot + 1;
      }
      Log2Exact(n);
      assert Pow2(8) == 256;
      Log2Bound(n, 8);
    }

    /** A buffer for n elements: one that was kept, if there is one, else a new one. */
    method Alloc(n: nat) returns (p: array<T>)
      requires Valid() && n > 0
      modifies this
      ensures Valid() && p.Length == n
      ensures fresh(p) || p in old(Pooled())
      ensures fresh(p) <==> forall q :: q in old(Pooled()) ==> q.Length != n
      ensures Pooled() == old(Pooled()) - {p} && forall m :: m != n ==> Keeps(m) == old(Keeps(m))
      ensures p !in Pooled()
    {
      WhereKept(n);
      ghost var before := Pooled();
      if Recyclable(n) {
        var slot := SlotOf(n);
        if |list[slot]| > 0 {
          p := list[slot][|list[slot]| - 1];
          list := list[slot := list[slot][..|list[slot]| - 1]];
          TopGone(old(list), list, slot);
          OthersKept(before, p, n);
          return;
        }
      }
      p := new T[n];
      assert p !in Pooled();
    }

    lemma OthersKept(before: set<array<T>>, p: array<T>, n: nat)
      requires p.Length == n && Pooled() == before - {p}
      ensures forall m :: m != n ==> OfSize(Pooled(), m) == OfSize(before, m)
    {
    }

    /** The buffers of n elements are all in one slot. */
    lemma WhereKept(n: nat)
      requires Valid() && n > 0
      ensures forall q :: q in Pooled() && q.Length == n ==> Recyclable(n)
      ensures forall k :: 0 <= k < SLOTS && Pow2(k) == n ==>
                OfSize(Pooled(), n) == (set i | 0 <= i < |list[k]| :: list[k][i])
      ensures (exists k :: 0 <= k < SLOTS && Pow2(k) == n && list[k] == []) ==>
                forall q :: q in Pooled() ==> q.Length != n
    {
      forall q | q in Pooled() && q.Length == n
        ensures Recyclable(n)
      {
        var k, i :| 0 <= k < |list| && 0 <= i < |list[k]| && list[k][i] == q;
        SmallPower(k);
      }
      forall k | 0 <= k < SLOTS && Pow2(k) == n
        ensures OfSize(Pooled(), n) == (set i | 0 <= i < |list[k]| :: list[k][i])
      {
        OneSlot(n, k);
      }
      if k :| 0 <= k < SLOTS && Pow2(k) == n && list[k] == [] {
        OneSlot(n, k);
      }
    }

    lemma OneSlot(n: nat, k: nat)
      requires Valid() && k < SLOTS && Pow2(k) == n
      ensures forall j, i :: 0 <= j < SLOTS && 0 <= i < |list[j]| && list[j][i].Length == n ==> j == k
    {
      forall j, i | 0 <= j < SLOTS && 0 <= i < |list[j]| && list[j][i].Length == n
        ensures j == k
      {
        if j < k {
          Pow2Monotone(j, k);
        } else if k < j {
          Pow2Monotone(k, j);
        }
      }
    }

    /** Taking the top of one slot removes just that buffer. */
    static lemma TopGone(before: seq<seq<array<T>>>, after: seq<seq<array<T>>>, slot: nat)
      requires |before| == SLOTS && slot < SLOTS && |before[slot]| > 0
      requires after == before[slot := before[slot][..|before[slot]| - 1]]
      requires forall k, i :: 0 <= k < SLOTS && 0 <= i < |before[k]| ==> before[k][i].Length == Pow2(k)
      requires forall k, i, j :: 0 <= k < SLOTS && 0 <= i < j < |before[k]| ==> before[k][i] != before[k][j]
      ensures (set k, i | 0 <= k < |after| && 0 <= i < |after[k]| :: after[k][i])
           == (set k, i | 0 <= k < |before| &&
                 0 <= i < |before[k]| :: before[k][i]) - {before[slot][|before[slot]| - 1]}
    {
      var top := before[slot][|before[slot]| - 1];
      forall k, i | 0 <= k < SLOTS && 0 <= i < |after[k]|
        ensures after[k][i] != top
      {
        if k < slot {
          Pow2Monotone(k, slot);
        } else if slot < k {
          Pow2Monotone(slot, k);
        }
      }
      forall k, i | 0 <= k < SLOTS && 0 <= i < |before[k]| && before[k][i] != top
        ensures 0 <= i < |after[k]| && after[k][i] == before[k][i]
      {
      }
    }

    /** Keep the buffer if there is space for it, else give it back to the system. */
    method Free(p: array<T>, n: nat)
      requires Valid() && p.Length == n > 0 && p !in Pooled()
      modifies this
      ensures Valid()
      ensures Pooled() == if old(Keeps(n)) then old(Pooled()) + {p} else old(Pooled())
    {
      if Recyclable(n) {
        var slot := SlotOf(n);
        WhereKept(n);
        SetOfSeq(list[slot]);
        if |list[slot]| < KEEP {
          assert forall i :: 0 <= i < |list[slot]| ==> list[slot][i] in Pooled();
          list := list[slot := list[slot] + [p]];
          assert list[slot][|list[slot]| - 1] == p;
          assert forall k, i :: 0 <= k < SLOTS && 0 <= i < |old(list)[k]| ==> list[k][i] == old(list)[k][i];
        }
      }
    }
  }

  /** All vectors over one pool: nobody's buffer is pooled, and nobody shares a buffer. */
  ghost predicate Separate<T(0)>(pool: Freelist<T>, vectors: set<Vector<T>>)
    reads pool, vectors
  {
    && pool.Valid()
    && (forall v :: v in vectors ==> v.Valid() && v.pool == pool && (v.base != null ==> v.base !in pool.Pooled()))
    && (forall v, w :: v in vectors && w in vectors && v != w && v.base != null ==> v.base != w.base)
  }

  class Vector<T(0)> {
    const pool: Freelist<T>
    const minRoom: nat
    var base: array?<T>
    var room: nat
    var n: nat

    constructor (pool: Freelist<T>, minRoom: nat)
      requires IsPow2(minRoom)
      ensures Valid() && Items() == [] && this.pool == pool && this.minRoom == minRoom && base == null
    {
      this.pool := pool;
      this.minRoom := minRoom;
      base := null;
      room := 0;
      n := 0;
    }

    ghost predicate Valid()
      reads this
    {
      && IsPow2(minRoom)
      && (base == null ==> room == 0 == n)
      && (base != null ==> base.Length == room && GoodRoom(room, n, minRoom))
    }

    ghost function Items(): seq<T>
      requires Valid()
      reads this, base
    {
      if base == null then [] else base[..n]
    }

    /** The part of resizefor that moves the elements to a buffer of the new room. */
    method Move(origroom: nat)
      requires pool.Valid() && room > 0 && n <= room
      requires base == null ==> n == 0
      requires base != null ==> base.Length == origroom > 0 && n <= origroom && base !in pool.Pooled()
      modifies this`base, pool, pool.Pooled()
      ensures pool.Valid()
      ensures base != null && base.Length == room && base !in pool.Pooled()
      ensures pool.Pooled() <= old(pool.Pooled()) + (if old(base) == null then {} else {old(base)})
      ensures old(base) != null ==> base[..n] == old(base[..n])
      ensures fresh(base) || base in old(pool.Pooled())
      ensures old(base) != null && room != origroom ==> (old(base) in pool.Pooled() <==> old(pool.Keeps(origroom)))
    {
      var tmp := pool.Alloc(room);
      if n > 0 {
        forall i | 0 <= i < n {
          tmp[i] := base[i];
        }
      }
      if base != null {
        assert tmp[..n] == old(base[..n]);
        pool.Free(base, origroom);
      }
      base := tmp;
    }

    /** resizefor, called with n <= size when the elements no longer suit the room. */
    method ResizeFor(size: nat)
      requires pool.Valid() && IsPow2(minRoom) && n <= size
      requires base == null ==> room == 0 == n
      requires base != null ==> base.Length == room && IsPow2(room) && minRoom <= room && n <= room
      requires base != null ==> base !in pool.Pooled()
      modifies this`base, this`room, pool, pool.Pooled()
      ensures pool.Valid()
      ensures size == 0 ==> base == null && room == 0
      ensures size > 0 ==> base != null && base.Length == room == NewRoom(old(room), size, minRoom) && size <= room
      ensures base != null ==> base !in pool.Pooled()
      ensures pool.Pooled() <= old(pool.Pooled()) + (if old(base) == null then {} else {old(base)})
      ensures size > 0 && old(base) != null ==> base[..n] == old(base[..n])
      ensures base == null || base == old(base) || fresh(base) || base in old(pool.Pooled())
      ensures old(base) != null && base != old(base) ==>
                (old(base) in pool.Pooled() <==> old(pool.Keeps(room)))
    {
      if size == 0 {
        if base != null {
          pool.Free(base, room);
        }
        base := null;
        room := 0;
      } else {
        var origroom := room;
        NewRoomIsGood(room, size, minRoom);
        room := SettleRoom(room, size, minRoom);
        if room != origroom || base == null {
          Move(origroom);
        }
      }
    }

    /** This vector's buffer is in no other vector's hands, nor in the pool. */
    ghost predicate Apart(vectors: set<Vector<T>>)
      reads this, pool, vectors
    {
      base != null ==> base !in pool.Pooled() && forall v :: v in vectors && v != this ==> v.base != base
    }

    /** resizefor among the vectors that share the pool: the others do not notice. */
    method ResizeAmong(size: nat, ghost vectors: set<Vector<T>>)
      requires this !in vectors && Separate(pool, vectors) && Apart(vectors)
      requires IsPow2(minRoom) && n <= size
      requires base == null ==> room == 0 == n
      requires base != null ==> base.Length == room && IsPow2(room) && minRoom <= room && n <= room
      modifies this`base, this`room, pool, pool.Pooled()
      ensures Separate(pool, vectors) && Apart(vectors)
      ensures forall v :: v in vectors ==> v.base == old(v.base) && v.n == old(v.n) && v.Items() == old(v.Items())
      ensures size == 0 ==> base == null && room == 0
      ensures size > 0 ==> base != null && base.Length == room && GoodRoom(room, size, minRoom)
      ensures size > 0 && old(base) != null ==> base[..n] == old(base[..n])
      ensures base == null || base == old(base) || fresh(base) || base in old(pool.Pooled())
    {
      if size > 0 {
        NewRoomIsGood(room, size, minRoom);
      }
      ResizeFor(size);
    }

    /** append. */
    method Append(data: T, ghost vectors: set<Vector<T>>) returns (pos: nat)
      requires this in vectors && Separate(pool, vectors)
      modifies this, base, pool, pool.Pooled()
      ensures Separate(pool, vectors)
      ensures Items() == old(Items()) + [data] && pos == |old(Items())|
      ensures forall v :: v in vectors && v != this ==>
            v.base == old(v.base) && v.n == old(v.n) && v.Items() == old(v.Items())
    {
      ghost var items, others := Items(), vectors - {this};
      if room < n + 1 {
        ResizeAmong(n + 1, others);
      }
      assert base[..n] == items;
      Put(data, others);
      pos := n - 1;
      Joined(pool, vectors, this);
    }

    /** The store of append, once there is room. */
    method Put(data: T, ghost vectors: set<Vector<T>>)
      requires this !in vectors && Separate(pool, vectors) && Apart(vectors) && IsPow2(minRoom)
      requires base != null && base.Length == room && GoodRoom(room, n + 1, minRoom)
      modifies this`n, base
      ensures Valid() && Separate(pool, vectors) && Apart(vectors) && n == old(n) + 1
      ensures base[..n] == old(base[..n]) + [data]
      ensures forall v :: v in vectors ==> v.Items() == old(v.Items())
    {
      base[n] := data;
      n := n + 1;
    }

    /** pop_back. */
    method PopBack(ghost vectors: set<Vector<T>>)
      requires this in vectors && Separate(pool, vectors) && Items() != []
      modifies this, pool, pool.Pooled()
      ensures Separate(pool, vectors)
      ensures Items() == old(Items())[..|old(Items())| - 1]
      ensures forall v :: v in vectors && v != this ==>
            v.base == old(v.base) && v.n == old(v.n) && v.Items() == old(v.Items())
    {
      ghost var items, others := Items(), vectors - {this};
      n := n - 1;
      assert base[..n] == items[..n];
      ResizeAmong(n, others);
      Joined(pool, vectors, this);
    }

    /** clear. */
    method Clear(ghost vectors: set<Vector<T>>)
      requires this in vectors && Separate(pool, vectors)
      modifies this, pool, pool.Pooled()
      ensures Separate(pool, vectors) && Items() == [] && base == null
      ensures forall v :: v in vectors && v != this ==>
            v.base == old(v.base) && v.n == old(v.n) && v.Items() == old(v.Items())
    {
      n := 0;
      ResizeAmong(0, vectors - {this});
      Joined(pool, vectors, this);
    }
  }

  lemma Joined<T(0)>(pool: Freelist<T>, vectors: set<Vector<T>>, v: Vector<T>)
    requires v in vectors && v.pool == pool && v.Valid() && Separate(pool, vectors - {v}) && v.Apart(vectors - {v})
    ensures Separate(pool, vectors)
  {
  }
}
