/** Login and logout of the online-friend engine, in daemon/utmpd/friend.cpp: the slot table, the
    sessions of each user, and the two relation families they keep up to date. */
module Friends {
  import opened Basics
  import opened Relations

  const FREE := -1

  // ---------------------------------------------------------------------------
  // The engine as a value: who holds each slot, and per user the slots he holds (in the order the
  // linear list keeps them), the users he likes and the users he hates.

  datatype Board = Board(slots: seq<int>, sessions: seq<seq<int>>, likes: seq<seq<int>>, hates: seq<seq<int>>) {
    ghost predicate Sized() {
      |sessions| == |likes| == |hates|
    }

    /** Slot i holds u exactly when i occurs in u's sessions, and it occurs once; a user without
        a session declares nothing. */
    ghost predicate Consistent() {
      && Sized()
      && (forall i {:trigger slots[i]} :: 0 <= i < |slots| && slots[i] != FREE ==> HasSession(slots[i], i))
      && (forall u, i {:trigger i in sessions[u]} :: 0 <= u < |sessions| && i in sessions[u] ==>
            0 <= i < |slots| && slots[i] == u)
      && (forall u :: 0 <= u < |sessions| ==> NoRepeat(sessions[u]))
      && (forall u :: 0 <= u < |sessions| ==> sessions[u] != [] || (likes[u] == [] && hates[u] == []))
    }

    ghost predicate HasSession(u: int, i: int) {
      0 <= u < |sessions| && i in sessions[u]
    }
  }

  function Repeat<T>(n: nat, x: T): (r: seq<T>)
    ensures |r| == n && forall k :: 0 <= k < n ==> r[k] == x
  {
    seq(n, _ => x)
  }

  function EmptyBoard(nSlots: nat, nUsers: nat): Board {
    Board(Repeat(nSlots, FREE), Repeat(nUsers, []), Repeat(nUsers, []), Repeat(nUsers, []))
  }

  /** The users a likehim array asks for: entries up to the zero terminator, those that are no uid skipped. */
  function Wanted(a: seq<int>, nUsers: nat, i: nat): (r: seq<int>)
    requires i <= |a|
    ensures forall v :: v in r ==> 1 <= v < nUsers
    decreases |a| - i
  {
    if i == |a| || a[i] == 0 then []
    else if 0 >= a[i] || a[i] >= nUsers then Wanted(a, nUsers, i + 1)
    else [a[i]] + Wanted(a, nUsers, i + 1)
  }

  /** The users the hate loop adds.  Its range test looks at likehim[i], not at hatehim[i]. */
  function HateAdded(hate: seq<int>, like: seq<int>, nUsers: nat, i: nat): seq<int>
    requires i <= |hate| <= |like|
    decreases |hate| - i
  {
    if i == |hate| || hate[i] == 0 then []
    else if 0 >= hate[i] || like[i] >= nUsers then HateAdded(hate, like, nUsers, i + 1)
    else [hate[i]] + HateAdded(hate, like, nUsers, i + 1)
  }

  /** No entry from i on up to the terminator sends the hate loop to a user that does not exist. */
  ghost predicate HateInRange(hate: seq<int>, like: seq<int>, nUsers: nat, i: nat)
    requires i <= |hate| <= |like|
    decreases |hate| - i
  {
    i < |hate| && hate[i] != 0 ==>
      (hate[i] > 0 && like[i] < nUsers ==> hate[i] < nUsers) && HateInRange(hate, like, nUsers, i + 1)
  }

  /** From i on, for every positive entry up to the terminator, the test on likehim agrees with the test on hatehim. */
  ghost predicate TestsAgree(hate: seq<int>, like: seq<int>, nUsers: nat, i: nat)
    requires i <= |hate| <= |like|
    decreases |hate| - i
  {
    i < |hate| && hate[i] != 0 ==>
      (hate[i] > 0 ==> (hate[i] < nUsers <==> like[i] < nUsers)) && TestsAgree(hate, like, nUsers, i + 1)
  }

  ghost predicate AreUids(l: seq<int>, nUsers: nat) {
    forall v :: v in l ==> 1 <= v < nUsers
  }

  lemma {:induction false} InRangeAdds(hate: seq<int>, like: seq<int>, nUsers: nat, i: nat)
    requires i <= |hate| <= |like|
    ensures HateInRange(hate, like, nUsers, i) <==> AreUids(HateAdded(hate, like, nUsers, i), nUsers)
    decreases |hate| - i
  {
    if i < |hate| && hate[i] != 0 {
      InRangeAdds(hate, like, nUsers, i + 1);
      var all, rest := HateAdded(hate, like, nUsers, i), HateAdded(hate, like, nUsers, i + 1);
      if 0 >= hate[i] || like[i] >= nUsers {
        assert all == rest;
      } else {
        assert all == [hate[i]] + rest;
        assert hate[i] in all && forall v :: v in rest ==> v in all;
      }
    }
  }

  lemma {:induction false} HateAddedNoLonger(hate: seq<int>, like: seq<int>, nUsers: nat, i: nat)
    requires i <= |hate| <= |like| && HateInRange(hate, like, nUsers, i)
    ensures |HateAdded(hate, like, nUsers, i)| <= |Wanted(hate, nUsers, i)|
    ensures |HateAdded(hate, like, nUsers, i)| == |Wanted(hate, nUsers, i)| ==> TestsAgree(hate, like, nUsers, i)
    decreases |hate| - i
  {
    if i < |hate| && hate[i] != 0 {
      HateAddedNoLonger(hate, like, nUsers, i + 1);
    }
  }

  lemma {:induction false} AgreeingTestsAddWanted(hate: seq<int>, like: seq<int>, nUsers: nat, i: nat)
    requires i <= |hate| <= |like| && TestsAgree(hate, like, nUsers, i)
    ensures HateAdded(hate, like, nUsers, i) == Wanted(hate, nUsers, i)
    decreases |hate| - i
  {
    if i < |hate| && hate[i] != 0 {
      AgreeingTestsAddWanted(hate, like, nUsers, i + 1);
    }
  }

  /** The hate loop adds exactly the valid ids of hatehim if and only if the test on the wrong
      array happens to agree with the right one on every positive entry. */
  lemma HateAddedExactly(hate: seq<int>, like: seq<int>, nUsers: nat)
    requires |hate| <= |like|
    ensures HateAdded(hate, like, nUsers, 0) == Wanted(hate, nUsers, 0) <==> TestsAgree(hate, like, nUsers, 0)
  {
    if TestsAgree(hate, like, nUsers, 0) {
      AgreeingTestsAddWanted(hate, like, nUsers, 0);
    }
    if HateAdded(hate, like, nUsers, 0) == Wanted(hate, nUsers, 0) {
      InRangeAdds(hate, like, nUsers, 0);
      HateAddedNoLonger(hate, like, nUsers, 0);
    }
  }

  /** A bad entry in likehim makes the engine forget a perfectly good entry of hatehim. */
  lemma HateDroppedExample()
    ensures Wanted([7], 100, 0) == [7] && HateAdded([7], [5000], 100, 0) == []
  {
    assert Wanted([7], 100, 1) == [];
    assert HateAdded([7], [5000], 100, 1) == [];
  }

  /** The terminator of a is at z, or there is none and z is its length. */
  ghost predicate EndsAt(a: seq<int>, z: nat) {
    z <= |a| && (forall k :: 0 <= k < z ==> a[k] != 0) && (z < |a| ==> a[z] == 0)
  }

  /** The positions from i to below z that satisfy p. */
  ghost function Places(p: int -> bool, i: int, z: int): set<int> {
    set k | i <= k < z && p(k)
  }

  lemma PlacesNext(p: int -> bool, i: int, z: int)
    ensures i < z ==> |Places(p, i, z)| == |Places(p, i + 1, z)| + if p(i) then 1 else 0
    ensures i >= z ==> |Places(p, i, z)| == 0
  {
    if i < z {
      assert Places(p, i, z) == Places(p, i + 1, z) + (if p(i) then {i} else {});
    } else {
      assert Places(p, i, z) == {};
    }
  }

  lemma {:induction false} WantedPlaces(a: seq<int>, nUsers: nat, z: nat, x: int, i: nat, p: int -> bool)
    requires EndsAt(a, z) && i <= z
    requires forall k {:trigger p(k)} :: 0 <= k < z ==> p(k) == (a[k] == x && 0 < x < nUsers)
    ensures multiset(Wanted(a, nUsers, i))[x] == |Places(p, i, z)|
    decreases z - i
  {
    PlacesNext(p, i, z);
    if i < z {
      WantedPlaces(a, nUsers, z, x, i + 1, p);
      CountMaybe(a[i], Wanted(a, nUsers, i + 1), x, 0 < a[i] < nUsers);
    }
  }

  lemma {:induction false} HatePlaces(hate: seq<int>, like: seq<int>, nUsers: nat, z: nat, x: int, i: nat,
                                      p: int -> bool)
    requires |hate| <= |like| && EndsAt(hate, z) && i <= z
    requires forall k {:trigger p(k)} :: 0 <= k < z ==> p(k) == (hate[k] == x && x > 0 && like[k] < nUsers)
    ensures multiset(HateAdded(hate, like, nUsers, i))[x] == |Places(p, i, z)|
    decreases z - i
  {
    PlacesNext(p, i, z);
    if i < z {
      HatePlaces(hate, like, nUsers, z, x, i + 1, p);
      CountMaybe(hate[i], HateAdded(hate, like, nUsers, i + 1), x, hate[i] > 0 && like[i] < nUsers);
    }
  }

  /** How often the like loop enters x: as often as x stands in front of the terminator, if x is a uid. */
  lemma WantedCounts(a: seq<int>, nUsers: nat, z: nat, x: int)
    requires EndsAt(a, z)
    ensures multiset(Wanted(a, nUsers, 0))[x] == |set k | 0 <= k < z && a[k] == x && 0 < x < nUsers|
  {
    var p := k => 0 <= k < |a| && a[k] == x && 0 < x < nUsers;
    WantedPlaces(a, nUsers, z, x, 0, p);
    assert Places(p, 0, z) == set k | 0 <= k < z && a[k] == x && 0 < x < nUsers;
  }

  /** How often the hate loop enters x: as often as x stands in front of the terminator of its array, at a
      place where the like array has no entry beyond the user table. */
  lemma HateCounts(hate: seq<int>, like: seq<int>, nUsers: nat, z: nat, x: int)
    requires |hate| <= |like| && EndsAt(hate, z)
    ensures multiset(HateAdded(hate, like, nUsers, 0))[x]
         == |set k | 0 <= k < z && hate[k] == x && x > 0 && like[k] < nUsers|
  {
    var p := k => 0 <= k < |hate| && hate[k] == x && x > 0 && like[k] < nUsers;
    HatePlaces(hate, like, nUsers, z, x, 0, p);
    assert Places(p, 0, z) == set k | 0 <= k < z && hate[k] == x && x > 0 && like[k] < nUsers;
  }

  lemma CountMaybe<T>(y: T, s: seq<T>, x: T, kept: bool)
    ensures multiset(if kept then [y] + s else s)[x] == multiset(s)[x] + if kept && y == x then 1 else 0
  {
  }

  function IndexOf(l: seq<int>, x: int): (r: nat)
    ensures r <= |l| && (r < |l| ==> l[r] == x) && x !in l[..r]
  {
    if l == [] then 0 else if l[0] == x then 0 else 1 + IndexOf(l[1..], x)
  }

  /** The linear list without slot idx: the last session takes its place. */
  function Remove(l: seq<int>, idx: int): seq<int> {
    var k := IndexOf(l, idx);
    if k < |l| then l[k := l[|l| - 1]][..|l| - 1] else l
  }

  lemma RemoveElements(l: seq<int>, idx: int)
    requires idx in l && NoRepeat(l)
    ensures |Remove(l, idx)| == |l| - 1 && NoRepeat(Remove(l, idx))
    ensures forall x :: x in Remove(l, idx) <==> x in l && x != idx
  {
    var k := IndexOf(l, idx);
    assert k < |l|;
    var r := Remove(l, idx);
    assert forall j :: 0 <= j < |r| ==> r[j] == if j == k then l[|l| - 1] else l[j];
    forall x | x in l && x != idx
      ensures x in r
    {
      var j :| 0 <= j < |l| && l[j] == x;
      assert r[if j == |l| - 1 then k else j] == x;
    }
  }

  // ---------------------------------------------------------------------------
  // Each event, as a function on the value.

  ghost predicate SlotOwned(s: Board, idx: int) {
    0 <= idx < |s.slots| && s.slots[idx] != FREE
  }

  ghost function Logout(s: Board, idx: int): Board
    requires s.Consistent() && SlotOwned(s, idx)
  {
    var u := s.slots[idx];
    assert s.HasSession(u, idx);
    var left := Remove(s.sessions[u], idx);
    Board(s.slots[idx := FREE], s.sessions[u := left],
          if left == [] then s.likes[u := []] else s.likes,
          if left == [] then s.hates[u := []] else s.hates)
  }

  lemma LogoutKeeps(s: Board, idx: int)
    requires s.Consistent() && SlotOwned(s, idx)
    ensures Logout(s, idx).Consistent()
  {
    var u := s.slots[idx];
    assert s.HasSession(u, idx);
    RemoveElements(s.sessions[u], idx);
    var s' := Logout(s, idx);
    forall i | 0 <= i < |s'.slots| && s'.slots[i] != FREE
      ensures s'.HasSession(s'.slots[i], i)
    {
      assert s.HasSession(s.slots[i], i);
    }
  }

  /** Whoever holds the slot is logged out. */
  ghost function Evict(s: Board, idx: int): (r: Board)
    requires s.Consistent() && 0 <= idx < |s.slots|
    ensures r.Consistent() && r.slots == s.slots[idx := FREE] && |r.sessions| == |s.sessions|
  {
    if s.slots[idx] != FREE then LogoutKeeps(s, idx); Logout(s, idx) else s
  }

  /** User u takes the free slot idx; his newest lists replace the old ones. */
  ghost function Place(s: Board, u: int, idx: int, likes: seq<int>, hates: seq<int>): Board
    requires s.Sized() && 0 <= u < |s.sessions| && 0 <= idx < |s.slots|
  {
    Board(s.slots[idx := u], s.sessions[u := s.sessions[u] + [idx]], s.likes[u := likes], s.hates[u := hates])
  }

  lemma PlaceKeeps(s: Board, u: int, idx: int, likes: seq<int>, hates: seq<int>)
    requires s.Consistent() && 0 <= u < |s.sessions| && 0 <= idx < |s.slots| && s.slots[idx] == FREE
    ensures Place(s, u, idx, likes, hates).Consistent()
  {
    assert idx !in s.sessions[u];
    var s' := Place(s, u, idx, likes, hates);
    forall i | 0 <= i < |s'.slots| && s'.slots[i] != FREE
      ensures s'.HasSession(s'.slots[i], i)
    {
      assert i != idx ==> s.HasSession(s.slots[i], i);
    }
  }

  ghost function Login(s: Board, u: int, idx: int, like: seq<int>, hate: seq<int>): (r: Board)
    requires s.Consistent() && 0 <= u < |s.sessions| && 0 <= idx < |s.slots| && |hate| <= |like|
    ensures r.Consistent() && |r.slots| == |s.slots| && |r.sessions| == |s.sessions|
  {
    var n := |s.sessions|;
    PlaceKeeps(Evict(s, idx), u, idx, Wanted(like, n, 0), HateAdded(hate, like, n, 0));
    Place(Evict(s, idx), u, idx, Wanted(like, n, 0), HateAdded(hate, like, n, 0))
  }

  /** The order of the sessions, which decides what is cut off a list that does not fit: a new session goes
      to the end, and the last one takes the place of one that is left. */
  lemma SessionOrder(s: Board, u: int, idx: int, like: seq<int>, hate: seq<int>)
    requires s.Consistent() && 0 <= u < |s.sessions| && 0 <= idx < |s.slots| && |hate| <= |like|
    ensures var r := Login(s, u, idx, like, hate);
            s.slots[idx] == FREE ==> r.sessions == s.sessions[u := s.sessions[u] + [idx]]
    ensures var r, v := Login(s, u, idx, like, hate), s.slots[idx];
            v != FREE && v != u ==>
              && s.HasSession(v, idx) && r.sessions[u] == s.sessions[u] + [idx]
              && (forall a, b :: s.sessions[v] == a + [idx] + b ==>
                    r.sessions[v] == if b == [] then a else a + [b[|b| - 1]] + b[..|b| - 1])
              && forall w :: 0 <= w < |s.sessions| && w != u && w != v ==> r.sessions[w] == s.sessions[w]
    ensures s.slots[idx] == u ==>
              forall a, b :: s.sessions[u] == a + [idx] + b ==>
                Login(s, u, idx, like, hate).sessions[u]
                == (if b == [] then a else a + [b[|b| - 1]] + b[..|b| - 1]) + [idx]
  {
    var v := s.slots[idx];
    if v != FREE {
      assert s.HasSession(v, idx);
      forall a, b | s.sessions[v] == a + [idx] + b
        ensures Remove(s.sessions[v], idx) == if b == [] then a else a + [b[|b| - 1]] + b[..|b| - 1]
      {
        RemoveSwaps(s.sessions[v], a, idx, b);
      }
    }
  }

  lemma RemoveSwaps(l: seq<int>, a: seq<int>, idx: int, b: seq<int>)
    requires NoRepeat(l) && l == a + [idx] + b
    ensures Remove(l, idx) == if b == [] then a else a + [b[|b| - 1]] + b[..|b| - 1]
  {
    var k := IndexOf(l, idx);
    assert l[|a|] == idx && idx in l;
    assert k == |a|;
    if b != [] {
      assert l[|l| - 1] == b[|b| - 1];
    }
  }

  lemma SessionHasSlot(s: Board, u: int)
    requires s.Consistent() && 0 <= u < |s.sessions| && s.sessions[u] != []
    ensures exists i :: 0 <= i < |s.slots| && s.slots[i] == u
  {
    var i := s.sessions[u][0];
    assert i in s.sessions[u];
    assert 0 <= i < |s.slots| && s.slots[i] == u;
  }

  lemma NobodyHome(s: Board)
    requires s.Consistent() && forall i :: 0 <= i < |s.slots| ==> s.slots[i] == FREE
    ensures s == EmptyBoard(|s.slots|, |s.sessions|)
  {
    forall u | 0 <= u < |s.sessions|
      ensures s.sessions[u] == []
    {
      if s.sessions[u] != [] {
        SessionHasSlot(s, u);
      }
    }
  }

  // ---------------------------------------------------------------------------
  // Whole runs: the state is a closed form of the history.

  datatype Event = LoginEvent(uid: int, idx: int, like: seq<int>, hate: seq<int>) | LogoutAllEvent

  /** What the daemon is sent: uids and slots in range, arrays of the fixed sizes, and hate
      entries that do not lead the engine outside its user table. */
  ghost predicate Admissible(e: Event, nSlots: nat, nUsers: nat) {
    e.LoginEvent? ==>
      && 1 <= e.uid < nUsers && 0 <= e.idx < nSlots
      && |e.hate| <= |e.like| && HateInRange(e.hate, e.like, nUsers, 0)
  }

  ghost predicate AllAdmissible(events: seq<Event>, nSlots: nat, nUsers: nat) {
    forall k :: 0 <= k < |events| ==> Admissible(events[k], nSlots, nUsers)
  }

  ghost function Step(s: Board, e: Event): (r: Board)
    requires s.Consistent() && Admissible(e, |s.slots|, |s.sessions|)
    ensures r.Consistent() && |r.slots| == |s.slots| && |r.sessions| == |s.sessions|
  {
    match e
    case LoginEvent(u, idx, like, hate) =>
      Login(s, u, idx, like, hate)
    case LogoutAllEvent =>
      EmptyBoard(|s.slots|, |s.sessions|)
  }

  ghost function Run(s: Board, events: seq<Event>): (r: Board)
    requires s.Consistent() && AllAdmissible(events, |s.slots|, |s.sessions|)
    ensures r.Consistent() && |r.slots| == |s.slots| && |r.sessions| == |s.sessions|
  {
    if events == [] then s else Step(Run(s, events[..|events| - 1]), events[|events| - 1])
  }

  /** Who last logged in at slot i, if that was after the last logout of everybody. */
  ghost function Holder(events: seq<Event>, i: int): int {
    if events == [] then FREE else
    match events[|events| - 1]
    case LoginEvent(u, idx, _, _) => if idx == i then u else Holder(events[..|events| - 1], i)
    case LogoutAllEvent => FREE
  }

  /** The lists user u brought at his last login. */
  ghost function LastBrought(events: seq<Event>, u: int): (seq<int>, seq<int>) {
    if events == [] then ([], []) else
    match events[|events| - 1]
    case LoginEvent(w, _, like, hate) => if w == u then (like, hate) else LastBrought(events[..|events| - 1], u)
    case LogoutAllEvent => ([], [])
  }

  lemma {:induction false} BroughtSized(events: seq<Event>, nSlots: nat, nUsers: nat, u: int)
    requires AllAdmissible(events, nSlots, nUsers)
    ensures |LastBrought(events, u).1| <= |LastBrought(events, u).0|
  {
    if events != [] {
      BroughtSized(events[..|events| - 1], nSlots, nUsers, u);
      assert Admissible(events[|events| - 1], nSlots, nUsers);
    }
  }

  ghost predicate ClosedForm(r: Board, events: seq<Event>, nSlots: nat, nUsers: nat)
    requires AllAdmissible(events, nSlots, nUsers)
  {
    && r.Consistent() && |r.slots| == nSlots && |r.sessions| == nUsers
    && (forall i :: 0 <= i < nSlots ==> r.slots[i] == Holder(events, i))
    && (forall u {:trigger r.likes[u]} :: 0 <= u < nUsers && r.sessions[u] != [] ==>
          (BroughtSized(events, nSlots, nUsers, u);
           var (like, hate) := LastBrought(events, u);
           r.likes[u] == Wanted(like, nUsers, 0) && r.hates[u] == HateAdded(hate, like, nUsers, 0)))
  }

  /** A login touches only the slot taken and the lists of the newcomer; the user who lost the slot
      either still has another session and keeps his lists, or has none left. */
  lemma LoginEffect(s: Board, u: int, idx: int, like: seq<int>, hate: seq<int>, w: int)
    requires s.Consistent() && 0 <= u < |s.sessions| && 0 <= idx < |s.slots| && |hate| <= |like|
    requires 0 <= w < |s.sessions|
    ensures var r, n := Login(s, u, idx, like, hate), |s.sessions|;
            && r.slots == s.slots[idx := u]
            && (w == u ==> r.likes[w] == Wanted(like, n, 0) && r.hates[w] == HateAdded(hate, like, n, 0))
            && (w != u && r.sessions[w] != [] ==>
                  s.sessions[w] != [] && r.likes[w] == s.likes[w] && r.hates[w] == s.hates[w])
  {
    if s.slots[idx] != FREE {
      assert s.HasSession(s.slots[idx], idx);
    }
  }

  /** After any run from the empty engine, every slot is held by the last user to log in there, and
      every user with a session declares exactly what his last login brought; a user whose slots
      have all been taken over declares nothing, by consistency. */
  lemma {:induction false} RunIsHistory(nSlots: nat, nUsers: nat, events: seq<Event>)
    requires AllAdmissible(events, nSlots, nUsers)
    ensures EmptyBoard(nSlots, nUsers).Consistent()
    ensures ClosedForm(Run(EmptyBoard(nSlots, nUsers), events), events, nSlots, nUsers)
  {
    var s := EmptyBoard(nSlots, nUsers);
    if events != [] {
      var before := events[..|events| - 1];
      RunIsHistory(nSlots, nUsers, before);
      HistoryStep(Run(s, before), events, nSlots, nUsers);
    }
  }

  lemma HistoryStep(p: Board, events: seq<Event>, nSlots: nat, nUsers: nat)
    requires AllAdmissible(events, nSlots, nUsers) && events != []
    requires ClosedForm(p, events[..|events| - 1], nSlots, nUsers)
    ensures ClosedForm(Step(p, events[|events| - 1]), events, nSlots, nUsers)
  {
    var before, e := events[..|events| - 1], events[|events| - 1];
    assert Admissible(e, nSlots, nUsers);
    var r := Step(p, e);
    if e.LoginEvent? {
      LoginEffect(p, e.uid, e.idx, e.like, e.hate, e.uid);
      forall u | 0 <= u < nUsers && r.sessions[u] != []
        ensures (BroughtSized(events, nSlots, nUsers, u);
                 r.likes[u] == Wanted(LastBrought(events, u).0, nUsers, 0)
                 && r.hates[u] == HateAdded(LastBrought(events, u).1, LastBrought(events, u).0, nUsers, 0))
      {
        LoginEffect(p, e.uid, e.idx, e.like, e.hate, u);
        BroughtSized(before, nSlots, nUsers, u);
        if u != e.uid {
          assert p.likes[u] == r.likes[u];
        }
      }
    }
  }

  // ---------------------------------------------------------------------------
  // The engine itself.

  class UserList {
    const utmp: array<int>
    var online: seq<int>
    var utmplist: seq<seq<int>>
    const like: RelationLists
    const hate: RelationLists

    ghost function Abs(): Board
      reads this, utmp, like, hate
    {
      Board(utmp[..], utmplist, AllNames(like.fwd), AllNames(hate.fwd))
    }

    /** Slot table and session lists agree, the session counters are right, and both relation
        families are in bijection. */
    ghost predicate Valid()
      reads this, utmp, like, hate
    {
      && like != hate
      && Abs().Consistent()
      && like.Valid() && hate.Valid()
      && |like.fwd| == |hate.fwd| == |utmplist| == |online|
      && forall u :: 0 <= u < |online| ==> online[u] == |utmplist[u]|
    }

    ghost predicate IsFree(u: int)
      requires 0 <= u < |online| == |like.fwd| == |hate.fwd| == |like.back| == |hate.back|
      reads this, like, hate
    {
      online[u] == 0 && like.fwd[u] == [] && hate.fwd[u] == [] && like.back[u] == [] && hate.back[u] == []
    }

    constructor (nSlots: nat, nUsers: nat)
      ensures Valid() && Abs() == EmptyBoard(nSlots, nUsers)
      ensures fresh(utmp) && fresh(like) && fresh(hate)
    {
      utmp := new int[nSlots](_ => FREE);
      online := Repeat(nUsers, 0);
      utmplist := Repeat(nUsers, []);
      like := new RelationLists(nUsers);
      hate := new RelationLists(nUsers);
      new;
      assert utmp[..] == Repeat(nSlots, FREE);
      assert Names([]) == [];
      assert AllNames(like.fwd) == Repeat(nUsers, []) && AllNames(hate.fwd) == Repeat(nUsers, []);
    }

    /** The linear search of BBSUser::logout. */
    static method RemoveSession(l: seq<int>, idx: int) returns (r: seq<int>)
      ensures r == Remove(l, idx)
    {
      var i := 0;
      while i < |l| && l[i] != idx
        invariant 0 <= i <= |l| && idx !in l[..i]
      {
        i := i + 1;
      }
      assert i == IndexOf(l, idx);
      r := l;
      if i < |l| {
        r := r[i := r[|r| - 1]];
        r := r[..|r| - 1];
      }
    }

    /** BBSUser::logout, for the user who holds slot idx. */
    method LogoutUser(u: int, idx: int)
      requires Valid() && 0 <= idx < utmp.Length && utmp[idx] == u != FREE
      modifies this, utmp, like, hate
      ensures Valid() && Abs() == Logout(old(Abs()), idx)
    {
      ghost var s := Abs();
      LogoutKeeps(s, idx);
      assert s.HasSession(u, idx);
      RemoveElements(utmplist[u], idx);
      var left := RemoveSession(utmplist[u], idx);
      utmplist := utmplist[u := left];
      utmp[idx] := FREE;
      online := online[u := online[u] - 1];
      if online[u] == 0 {
        like.DeleteAll(u);
        hate.DeleteAll(u);
      }
      assert utmp[..] == s.slots[idx := FREE];
      assert Abs() == Logout(s, idx);
    }

    /** The first loop of BBSUser::login. */
    method AddLikes(u: int, likehim: seq<int>)
      requires like.Valid() && 0 <= u < |like.fwd| && like.fwd[u] == []
      modifies like
      ensures like.Valid()
      ensures AllNames(like.fwd) == AllNames(old(like.fwd))[u := Wanted(likehim, |old(like.fwd)|, 0)]
    {
      var n := |like.fwd|;
      ghost var before := AllNames(like.fwd);
      var i := 0;
      assert before[u] + Wanted(likehim, n, 0) == Wanted(likehim, n, 0);
      while i < |likehim| && likehim[i] != 0
        invariant 0 <= i <= |likehim|
        invariant like.Valid() && |like.fwd| == n
        invariant AllNames(like.fwd) == before[u := AllNames(like.fwd)[u]]
        invariant AllNames(like.fwd)[u] + Wanted(likehim, n, i) == Wanted(likehim, n, 0)
      {
        if !(0 >= likehim[i] || likehim[i] >= n) {
          like.Add(u, likehim[i]);
        }
        i := i + 1;
      }
      assert AllNames(like.fwd)[u] == Wanted(likehim, n, 0);
    }

    /** The second loop of BBSUser::login, with its test on likehim. */
    method AddHates(u: int, hatehim: seq<int>, likehim: seq<int>)
      requires hate.Valid() && 0 <= u < |hate.fwd| && hate.fwd[u] == []
      requires |hatehim| <= |likehim| && HateInRange(hatehim, likehim, |hate.fwd|, 0)
      modifies hate
      ensures hate.Valid()
      ensures AllNames(hate.fwd) == AllNames(old(hate.fwd))[u := HateAdded(hatehim, likehim, |old(hate.fwd)|, 0)]
    {
      var n := |hate.fwd|;
      ghost var before := AllNames(hate.fwd);
      var i := 0;
      assert before[u] + HateAdded(hatehim, likehim, n, 0) == HateAdded(hatehim, likehim, n, 0);
      while i < |hatehim| && hatehim[i] != 0
        invariant 0 <= i <= |hatehim|
        invariant hate.Valid() && |hate.fwd| == n && HateInRange(hatehim, likehim, n, i)
        invariant AllNames(hate.fwd) == before[u := AllNames(hate.fwd)[u]]
        invariant AllNames(hate.fwd)[u] + HateAdded(hatehim, likehim, n, i) == HateAdded(hatehim, likehim, n, 0)
      {
        if !(0 >= hatehim[i] || likehim[i] >= n) {
          hate.Add(u, hatehim[i]);
        }
        i := i + 1;
      }
      assert AllNames(hate.fwd)[u] == HateAdded(hatehim, likehim, n, 0);
    }

    /** The first step of BBSUser::login: only the newest lists of a user count. */
    method DropLists(u: int)
      requires Valid() && 0 <= u < |online|
      modifies like, hate
      ensures like.Valid() && hate.Valid() && |like.fwd| == |hate.fwd| == |online|
      ensures like.fwd[u] == [] && hate.fwd[u] == []
      ensures AllNames(like.fwd) == AllNames(old(like.fwd))[u := []]
      ensures AllNames(hate.fwd) == AllNames(old(hate.fwd))[u := []]
    {
      if online[u] > 0 {
        like.DeleteAll(u);
        hate.DeleteAll(u);
      } else {
        assert Abs().sessions[u] != [] || (Abs().likes[u] == [] && Abs().hates[u] == []);
      }
    }

    /** BBSUser::login. */
    method LoginUser(u: int, idx: int, likehim: seq<int>, hatehim: seq<int>)
      requires Valid() && 1 <= u < |online| && 0 <= idx < utmp.Length && utmp[idx] == FREE
      requires |hatehim| <= |likehim| && HateInRange(hatehim, likehim, |online|, 0)
      modifies this, utmp, like, hate
      ensures Valid() && Abs() == Login(old(Abs()), u, idx, likehim, hatehim)
    {
      ghost var s := Abs();
      assert Evict(s, idx) == s;
      DropLists(u);
      utmp[idx] := u;
      utmplist := utmplist[u := utmplist[u] + [idx]];
      online := online[u := online[u] + 1];
      AddLikes(u, likehim);
      AddHates(u, hatehim, likehim);
      assert utmp[..] == s.slots[idx := u];
      assert Abs() == Login(s, u, idx, likehim, hatehim);
    }

    /** UserList::login. */
    method LoginAt(u: int, idx: int, likehim: seq<int>, hatehim: seq<int>)
      requires Valid() && Admissible(LoginEvent(u, idx, likehim, hatehim), utmp.Length, |online|)
      modifies this, utmp, like, hate
      ensures Valid() && Abs() == Login(old(Abs()), u, idx, likehim, hatehim)
    {
      if utmp[idx] != FREE {
        LogoutUser(utmp[idx], idx);
      }
      LoginUser(u, idx, likehim, hatehim);
    }

    /** utmplogoutall: everybody is free, and so are the backward lists that nobody cleared. */
    method LogoutAll()
      requires Valid()
      modifies this, utmp, like, hate
      ensures Valid() && Abs() == EmptyBoard(utmp.Length, old(|online|))
      ensures |online| == old(|online|) && forall u :: 0 <= u < |online| ==> IsFree(u)
    {
      var i := 0;
      while i < utmp.Length
        invariant 0 <= i <= utmp.Length && Valid() && |online| == old(|online|)
        invariant forall j :: 0 <= j < i ==> utmp[j] == FREE
      {
        if utmp[i] != FREE {
          LogoutUser(utmp[i], i);
        }
        i := i + 1;
      }
      assert forall j :: 0 <= j < utmp.Length ==> Abs().slots[j] == FREE;
      NobodyHome(Abs());
      forall u | 0 <= u < |online|
        ensures like.fwd[u] == [] && hate.fwd[u] == []
      {
        assert Abs().likes[u] == [] && Abs().hates[u] == [];
      }
      EmptyTogether(like.fwd, like.back);
      EmptyTogether(hate.fwd, hate.back);
      assert Abs() == EmptyBoard(utmp.Length, old(|online|));
    }

    method ServeOne(e: Event)
      requires Valid() && Admissible(e, utmp.Length, |online|)
      modifies this, utmp, like, hate
      ensures Valid() && Abs() == Step(old(Abs()), e)
    {
      match e
      case LoginEvent(u, idx, likehim, hatehim) => LoginAt(u, idx, likehim, hatehim);
      case LogoutAllEvent => LogoutAll();
    }

    /** The daemon's life: any sequence of admissible events. */
    method Serve(events: seq<Event>)
      requires Valid() && AllAdmissible(events, utmp.Length, |online|)
      modifies this, utmp, like, hate
      ensures Valid() && Abs() == Run(old(Abs()), events)
    {
      ghost var s := Abs();
      for k := 0 to |events|
        invariant Valid() && |online| == |s.sessions|
        invariant Abs() == Run(s, events[..k])
      {
        assert events[..k + 1][..k] == events[..k];
        ServeOne(events[k]);
        assert Run(s, events[..k + 1]) == Step(Run(s, events[..k]), events[k]);
      }
      assert events[..|events|] == events;
    }
  }
}
