/**
 * The handler pool `JsHandlerControl`: an array of (handler, in_use) slots
 * and a rotating cursor. `checkout` scans cyclically from the cursor for a
 * free slot, marks it in use and leaves the cursor on it; `checkin` marks
 * the slot under the cursor free again.
 *
 * Both take the pool's lock. `ActAsWritten` models the lock and the
 * interleaving of threads' steps; the other operations are single atomic
 * steps. The half-second pause has no effect on state.
 */
module HandlerPool {
  import opened PyValues

  /** A slot of the pool: the handler and whether it is checked out. */
  type Slot<H> = (H, bool)

  /** The pool's state as a value: the slots and the cursor `idx`. */
  datatype PoolState<H> = PoolState(slots: seq<Slot<H>>, cursor: nat)

  /** The cursor always names a slot (it is 0 while the pool is empty). */
  predicate WellFormed<H>(p: PoolState<H>) {
    if |p.slots| == 0 then p.cursor == 0 else p.cursor < |p.slots|
  }

  /** The indices of the slots that are not checked out. */
  function FreeSet<H>(slots: seq<Slot<H>>): set<nat> {
    set i: nat | i < |slots| && !slots[i].1
  }

  /** Below twice the modulus, `%` subtracts the modulus at most once. */
  lemma ModWrap(x: nat, n: nat)
    requires 0 < n && x < 2 * n
    ensures x % n == (if x < n then x else x - n)
  {
    if x >= n {
      assert x == n * 1 + (x - n);
    }
  }

  /** The slot `k` steps after `cursor` in cyclic order. */
  function Cyclic(n: nat, cursor: nat, k: nat): (j: nat)
    requires cursor < n && k < n
    ensures j < n && j == (cursor + k) % n
  {
    ModWrap(cursor + k, n);
    if cursor + k < n then cursor + k else cursor + k - n
  }

  /** Advancing the cursor by one, modulo the pool size, is one more step. */
  lemma CyclicNext(n: nat, cursor: nat, k: nat)
    requires cursor < n && k + 1 < n
    ensures (Cyclic(n, cursor, k) + 1) % n == Cyclic(n, cursor, k + 1)
  {
    ModWrap(Cyclic(n, cursor, k) + 1, n);
  }

  /** How many steps after `cursor` slot `i` lies in cyclic order. */
  function StepsTo(n: nat, cursor: nat, i: nat): (k: nat)
    requires cursor < n && i < n
    ensures k < n && Cyclic(n, cursor, k) == i
  {
    if cursor <= i then i - cursor else i + n - cursor
  }

  /** The number of steps from the cursor to the first free slot, looking
      only at steps `k` and later; None when all of those are in use. */
  function FreeOffset<H>(slots: seq<Slot<H>>, cursor: nat, k: nat): (r: Option<nat>)
    requires cursor < |slots| && k <= |slots|
    ensures r.Some? ==> k <= r.value < |slots| && !slots[Cyclic(|slots|, cursor, r.value)].1
    ensures r.Some? ==> forall m :: k <= m < r.value ==> slots[Cyclic(|slots|, cursor, m)].1
    ensures r.None? ==> forall m :: k <= m < |slots| ==> slots[Cyclic(|slots|, cursor, m)].1
    decreases |slots| - k
  {
    if k == |slots| then None
    else if !slots[Cyclic(|slots|, cursor, k)].1 then Some(k)
    else FreeOffset(slots, cursor, k + 1)
  }

  /** The slot `checkout` takes: the first free slot at or after the cursor
      in cyclic order. None exactly when every slot is in use, in which case
      `checkout` never returns. */
  function FirstFree<H>(slots: seq<Slot<H>>, cursor: nat): (r: Option<nat>)
    requires cursor < |slots|
    ensures r.Some? ==> r.value in FreeSet(slots)
    ensures r.Some? ==> forall m :: 0 <= m < StepsTo(|slots|, cursor, r.value) ==>
                          slots[Cyclic(|slots|, cursor, m)].1
    ensures r.None? <==> FreeSet(slots) == {}
  {
    match FreeOffset(slots, cursor, 0)
    case Some(k) => Some(Cyclic(|slots|, cursor, k))
    case None =>
      forall i | 0 <= i < |slots|
        ensures slots[i].1
      {
        assert Cyclic(|slots|, cursor, StepsTo(|slots|, cursor, i)) == i;
      }
      assert FreeSet(slots) == {};
      None
  }

  /** `checkout()`: takes the first free slot at or after the cursor,
      marks it in use and leaves the cursor on it; no other slot changes. */
  function CheckoutStep<H>(p: PoolState<H>): (r: (PoolState<H>, H, nat))
    requires WellFormed(p) && FreeSet(p.slots) != {}
    ensures var (q, h, j) := r;
      && j in FreeSet(p.slots)
      && FirstFree(p.slots, p.cursor) == Some(j)
      && h == p.slots[j].0
      && q.slots == p.slots[j := (h, true)]
      && q.cursor == j
      && WellFormed(q)
  {
    var j := FirstFree(p.slots, p.cursor).value;
    (PoolState(p.slots[j := (p.slots[j].0, true)], j), p.slots[j].0, j)
  }

  /** A checkout removes exactly the slot it returns from the free slots. */
  lemma CheckoutShrinksFree<H>(p: PoolState<H>)
    requires WellFormed(p) && FreeSet(p.slots) != {}
    ensures FreeSet(CheckoutStep(p).0.slots) == FreeSet(p.slots) - {CheckoutStep(p).2}
  {
  }

  /** `checkin(jsh, idx)` as written: it frees the slot under the cursor,
      storing `jsh` there, whatever `idx` is. An empty pool raises
      IndexError. */
  function CheckinAsWritten<H>(p: PoolState<H>, h: H, slot: nat): (r: Result<PoolState<H>>)
    requires WellFormed(p)
    ensures r.Ok? <==> |p.slots| > 0
    ensures r.Ok? ==> r.value.slots == p.slots[p.cursor := (h, false)] && r.value.cursor == p.cursor
  {
    if |p.slots| == 0 then Raise(Fault(IndexError, Null))
    else Ok(PoolState(p.slots[p.cursor := (h, false)], p.cursor))
  }

  /** `checkin` as the pool's callers use it: free the slot they were
      given. */
  function CheckinSlotStep<H>(p: PoolState<H>, h: H, slot: nat): (r: Result<PoolState<H>>)
    ensures r.Ok? <==> slot < |p.slots|
    ensures r.Ok? ==> r.value.slots == p.slots[slot := (h, false)] && r.value.cursor == p.cursor
  {
    if slot < |p.slots| then Ok(PoolState(p.slots[slot := (h, false)], p.cursor))
    else Raise(Fault(IndexError, Null))
  }

  /** Checking a handler back into the slot it came from restores the slot
      array to what it was before the checkout, and the slot is free to be
      taken again. */
  lemma CheckoutThenCheckinSlot<H>(p: PoolState<H>)
    requires WellFormed(p) && FreeSet(p.slots) != {}
    ensures var (q, h, j) := CheckoutStep(p);
      CheckinSlotStep(q, h, j) == Ok(PoolState(p.slots, j)) && FreeSet(p.slots) == FreeSet(q.slots) + {j}
  {
    var (q, h, j) := CheckoutStep(p);
    assert q.slots[j := (h, false)] == p.slots;
  }

  /** With the cursor moved by a second checkout in between, `checkin` as
      written frees the second caller's slot instead of the first's. Once
      both callers have checked their handlers back in, slot 0 is still
      marked in use although nobody holds it; the cursor only comes to rest
      on a free slot, so in a sequential run no later checkin writes slot 0
      again. The intended checkin, in the same
      run, leaves both slots free. */
  lemma CheckinAsWrittenLeaksSlot()
    ensures var p0 := PoolState([(10, false), (11, false)], 0);
      0 in FreeSet(p0.slots) &&
      var (p1, h1, s1) := CheckoutStep(p0);
      1 in FreeSet(p1.slots) &&
      var (p2, h2, s2) := CheckoutStep(p1);
      && h1 == 10 && s1 == 0 && h2 == 11 && s2 == 1
      && var p3 := CheckinAsWritten(p2, h1, s1);
      && p3.Ok?
      && var p4 := CheckinAsWritten(p3.value, h2, s2);
      && p4.Ok? && p4.value.slots == [(10, true), (11, false)] && FreeSet(p4.value.slots) == {1}
      && var q3 := CheckinSlotStep(p2, h1, s1);
      && q3.Ok?
      && var q4 := CheckinSlotStep(q3.value, h2, s2);
      && q4.Ok? && q4.value.slots == p0.slots && FreeSet(q4.value.slots) == {0, 1}
  {
    var p0 := PoolState([(10, false), (11, false)], 0);
    assert 0 in FreeSet(p0.slots);
    assert FreeOffset(p0.slots, 0, 0) == Some(0);
    var (p1, h1, s1) := CheckoutStep(p0);
    assert p1.slots == [(10, true), (11, false)];
    assert 1 in FreeSet(p1.slots);
    assert FreeOffset(p1.slots, 0, 1) == Some(1);
    var (p2, h2, s2) := CheckoutStep(p1);
    assert p2.slots == [(10, true), (11, true)] && p2.cursor == 1;
    var p4 := CheckinAsWritten(CheckinAsWritten(p2, h1, s1).value, h2, s2).value;
    assert p4.slots == [(10, true), (11, false)];
    assert FreeSet(p4.slots) == {1} by {
      assert 1 in FreeSet(p4.slots);
      forall i | i in FreeSet(p4.slots)
        ensures i == 1
      {
      }
    }
    var q4 := CheckinSlotStep(CheckinSlotStep(p2, h1, s1).value, h2, s2).value;
    assert q4.slots == p0.slots;
    assert FreeSet(q4.slots) == {0, 1} by {
      assert 0 in FreeSet(q4.slots) && 1 in FreeSet(q4.slots);
    }
  }

  /** `k` checkouts in a row, with no checkin between them: the final
      state and the slot indices returned, in order. */
  function Checkouts<H>(p: PoolState<H>, k: nat): (r: (PoolState<H>, seq<nat>))
    requires WellFormed(p) && k <= |FreeSet(p.slots)|
    ensures WellFormed(r.0) && |r.1| == k
    decreases k
  {
    if k == 0 then (p, [])
    else
      var step := CheckoutStep(p);
      CheckoutShrinksFree(p);
      var rest := Checkouts(step.0, k - 1);
      (rest.0, [step.2] + rest.1)
  }

  /** The slots a run of checkouts returns were free beforehand and are
      in use afterwards; a free slot that was not returned is still free. */
  lemma {:induction false} CheckoutsTake<H>(p: PoolState<H>, k: nat)
    requires WellFormed(p) && k <= |FreeSet(p.slots)|
    ensures forall x :: x in Checkouts(p, k).1 ==> x in FreeSet(p.slots) && x !in FreeSet(Checkouts(p, k).0.slots)
    ensures forall x :: x in FreeSet(p.slots) && x !in Checkouts(p, k).1 ==> x in FreeSet(Checkouts(p, k).0.slots)
    ensures FreeSet(Checkouts(p, k).0.slots) <= FreeSet(p.slots)
    decreases k
  {
    if k > 0 {
      var step := CheckoutStep(p);
      CheckoutShrinksFree(p);
      CheckoutsTake(step.0, k - 1);
      assert Checkouts(p, k).1 == [step.2] + Checkouts(step.0, k - 1).1;
    }
  }

  /** Consecutive checkouts, with no checkin between them, return
      distinct slots. */
  lemma {:induction false} CheckoutsDistinct<H>(p: PoolState<H>, k: nat)
    requires WellFormed(p) && k <= |FreeSet(p.slots)|
    ensures forall a, b :: 0 <= a < b < k ==> Checkouts(p, k).1[a] != Checkouts(p, k).1[b]
    decreases k
  {
    if k > 0 {
      var step := CheckoutStep(p);
      CheckoutShrinksFree(p);
      CheckoutsDistinct(step.0, k - 1);
      CheckoutsTake(step.0, k - 1);
      var rest := Checkouts(step.0, k - 1).1;
      var idxs := Checkouts(p, k).1;
      assert idxs == [step.2] + rest;
      forall a, b | 0 <= a < b < k
        ensures idxs[a] != idxs[b]
      {
        assert idxs[b] == rest[b - 1];
        if a == 0 {
          assert rest[b - 1] in rest;
        } else {
          assert idxs[a] == rest[a - 1];
        }
      }
    }
  }

  /** There are as many free slots as slots when none is in use. */
  lemma {:induction false} AllFreeCount<H>(slots: seq<Slot<H>>)
    requires forall i :: 0 <= i < |slots| ==> !slots[i].1
    ensures |FreeSet(slots)| == |slots|
  {
    if slots != [] {
      var init := slots[..|slots| - 1];
      AllFreeCount(init);
      assert FreeSet(slots) == FreeSet(init) + {|slots| - 1};
    }
  }

  /** On a pool of n handlers none of which is checked out, n checkouts in
      a row return n distinct slots, and then every slot is in use. */
  lemma AllFreeCheckoutsDistinct<H>(p: PoolState<H>)
    requires WellFormed(p)
    requires forall i :: 0 <= i < |p.slots| ==> !p.slots[i].1
    ensures |FreeSet(p.slots)| == |p.slots|
    ensures var (q, idxs) := Checkouts(p, |p.slots|);
      && |idxs| == |p.slots|
      && (forall a, b :: 0 <= a < b < |idxs| ==> idxs[a] != idxs[b])
      && FreeSet(q.slots) == {}
  {
    AllFreeCount(p.slots);
    CheckoutsDistinct(p, |p.slots|);
    CheckoutsTake(p, |p.slots|);
    var q := Checkouts(p, |p.slots|).0;
    var idxs := Checkouts(p, |p.slots|).1;
    var returned := Elems(idxs);
    DistinctElems(idxs);
    assert |returned| == |idxs| == |p.slots|;
    assert returned <= FreeSet(p.slots);
    SubsetSameSize(returned, FreeSet(p.slots));
  }

  /** A subset as large as the set is the set. */
  lemma SubsetSameSize(a: set<nat>, b: set<nat>)
    requires a <= b && |a| == |b|
    ensures a == b
  {
    var rest := b - a;
    assert b == a + rest && a * rest == {};
  }

  /** The elements of a sequence of slot indices. */
  function Elems(xs: seq<nat>): set<nat> {
    set x | x in xs
  }

  /** A sequence without repeats has as many distinct elements as entries. */
  lemma {:induction false} DistinctElems(xs: seq<nat>)
    requires forall a, b :: 0 <= a < b < |xs| ==> xs[a] != xs[b]
    ensures |Elems(xs)| == |xs|
  {
    if xs != [] {
      var tail := xs[1..];
      forall a, b | 0 <= a < b < |tail|
        ensures tail[a] != tail[b]
      {
        assert tail[a] == xs[a + 1] && tail[b] == xs[b + 1];
      }
      DistinctElems(tail);
      assert xs[0] !in Elems(tail) by {
        forall a | 0 <= a < |tail|
          ensures tail[a] != xs[0]
        {
          assert tail[a] == xs[a + 1];
        }
      }
      assert Elems(xs) == Elems(tail) + {xs[0]};
    }
  }

  /** The pool's `threading.RLock`: free, or held by one thread. */
  datatype Lock = Unlocked | HeldBy(thread: nat)

  /** The pool together with its lock, as every thread sees them. */
  datatype Shared<H> = Shared(pool: PoolState<H>, lock: Lock)

  /** One step of one thread: entering `checkout` (taking the lock), one
      pass of its scan loop, or a whole `checkin` call. */
  datatype Action<H> = Enter(thread: nat) | ScanOnce(thread: nat) | CheckinBy(thread: nat, h: H, slot: nat)

  /** Whether thread `t` may take the lock: it is free, or `t` already
      holds it (the lock is re-entrant). */
  predicate CanAcquire(l: Lock, t: nat) {
    l.Unlocked? || l == HeldBy(t)
  }

  /** One step as written in `checkout` and `checkin`; None when the thread
      is blocked on the lock. A pass of the scan runs only inside
      `checkout`, with the lock held, and releases the lock only once it
      takes a free slot: a pass over a busy slot moves the cursor and keeps
      the lock through the pause. `checkin` takes the lock and frees the
      slot under the cursor. */
  function ActAsWritten<H>(s: Shared<H>, a: Action<H>): (r: Option<Shared<H>>)
    requires WellFormed(s.pool) && |s.pool.slots| > 0
    ensures r.Some? ==> WellFormed(r.value.pool) && |r.value.pool.slots| == |s.pool.slots|
    ensures a.ScanOnce? ==> (r.Some? <==> s.lock == HeldBy(a.thread))
    ensures !a.ScanOnce? ==> (r.Some? <==> CanAcquire(s.lock, a.thread))
    ensures r.Some? && a.ScanOnce? && s.pool.slots[s.pool.cursor].1 ==>
              r.value == Shared(PoolState(s.pool.slots, (s.pool.cursor + 1) % |s.pool.slots|), s.lock)
    ensures r.Some? && a.CheckinBy? ==> r.value.lock == s.lock && !r.value.pool.slots[s.pool.cursor].1
  {
    var p := s.pool;
    match a
    case Enter(t) =>
      if CanAcquire(s.lock, t) then Some(Shared(p, HeldBy(t))) else None
    case ScanOnce(t) =>
      if s.lock != HeldBy(t) then None
      else if !p.slots[p.cursor].1 then
        Some(Shared(PoolState(p.slots[p.cursor := (p.slots[p.cursor].0, true)], p.cursor), Unlocked))
      else
        Some(Shared(PoolState(p.slots, (p.cursor + 1) % |p.slots|), s.lock))
    case CheckinBy(t, h, slot) =>
      if CanAcquire(s.lock, t) then Some(Shared(PoolState(p.slots[p.cursor := (h, false)], p.cursor), s.lock))
      else None
  }

  /** Any interleaving of steps as written; a blocked step waits and
      changes nothing. */
  function RunAsWritten<H>(s: Shared<H>, actions: seq<Action<H>>): (r: Shared<H>)
    requires WellFormed(s.pool) && |s.pool.slots| > 0
    ensures WellFormed(r.pool) && |r.pool.slots| == |s.pool.slots|
    decreases |actions|
  {
    if actions == [] then s
    else
      var next := ActAsWritten(s, actions[0]);
      RunAsWritten(if next.Some? then next.value else s, actions[1..])
  }

  /** Once thread `t0` is inside `checkout` with every slot in use, no
      interleaving of other threads' steps frees a slot or the lock: `t0`
      scans forever holding the lock, and every other thread's `checkin`
      (and `checkout`) stays blocked on it. */
  lemma {:induction false} CheckoutDeadlocks<H>(s: Shared<H>, t0: nat, actions: seq<Action<H>>)
    requires WellFormed(s.pool) && |s.pool.slots| > 0
    requires FreeSet(s.pool.slots) == {} && s.lock == HeldBy(t0)
    requires forall i :: 0 <= i < |actions| ==> actions[i].ScanOnce? || actions[i].thread != t0
    ensures var r := RunAsWritten(s, actions);
      && r.lock == HeldBy(t0)
      && r.pool.slots == s.pool.slots
      && (forall t: nat, h: H, slot: nat :: t != t0 ==> ActAsWritten(r, CheckinBy(t, h, slot)).None?)
    decreases |actions|
  {
    if actions != [] {
      var next := ActAsWritten(s, actions[0]);
      if next.Some? {
        assert s.pool.cursor !in FreeSet(s.pool.slots);
      }
      var s' := if next.Some? then next.value else s;
      assert s'.lock == HeldBy(t0) && s'.pool.slots == s.pool.slots;
      CheckoutDeadlocks(s', t0, actions[1..]);
    }
  }

  /** One step as intended: a pass of the scan that finds its slot busy
      releases the lock before pausing (the thread re-enters to scan
      again), and `checkin` frees the slot it is given. */
  function ActFixed<H>(s: Shared<H>, a: Action<H>): (r: Option<Shared<H>>)
    requires WellFormed(s.pool) && |s.pool.slots| > 0
    ensures r.Some? ==> WellFormed(r.value.pool) && |r.value.pool.slots| == |s.pool.slots|
    ensures a.ScanOnce? ==> (r.Some? <==> s.lock == HeldBy(a.thread))
    ensures a.ScanOnce? && r.Some? ==> r.value.lock == Unlocked
    ensures a.CheckinBy? ==> (r.Some? <==> CanAcquire(s.lock, a.thread) && a.slot < |s.pool.slots|)
    ensures a.CheckinBy? && r.Some? ==> Ok(r.value.pool) == CheckinSlotStep(s.pool, a.h, a.slot)
  {
    var p := s.pool;
    match a
    case Enter(t) =>
      if CanAcquire(s.lock, t) then Some(Shared(p, HeldBy(t))) else None
    case ScanOnce(t) =>
      if s.lock != HeldBy(t) then None
      else if !p.slots[p.cursor].1 then
        Some(Shared(PoolState(p.slots[p.cursor := (p.slots[p.cursor].0, true)], p.cursor), Unlocked))
      else
        Some(Shared(PoolState(p.slots, (p.cursor + 1) % |p.slots|), Unlocked))
    case CheckinBy(t, h, slot) =>
      match CheckinSlotStep(p, h, slot)
      case Ok(q) => if CanAcquire(s.lock, t) then Some(Shared(q, s.lock)) else None
      case Raise(_) => None
  }

  /** As intended, the same situation resolves: after `t0`'s pass over a
      busy slot another thread checks handler `h` into slot `j`, that slot
      becomes the only free one, and when `t0` re-enters, its scan hands
      out `h` in slot `j`. */
  lemma CheckoutWaitsFixed<H>(s: Shared<H>, t0: nat, t1: nat, h: H, j: nat)
    requires WellFormed(s.pool) && |s.pool.slots| > 0
    requires FreeSet(s.pool.slots) == {} && s.lock == HeldBy(t0)
    requires t1 != t0 && j < |s.pool.slots|
    ensures var s1 := ActFixed(s, ScanOnce(t0));
      && s1.Some? && s1.value.lock == Unlocked
      && var s2 := ActFixed(s1.value, CheckinBy(t1, h, j));
      && s2.Some? && FreeSet(s2.value.pool.slots) == {j}
      && var s3 := ActFixed(s2.value, Enter(t0));
      && s3.Some? && s3.value.lock == HeldBy(t0)
      && CheckoutStep(s3.value.pool).1 == h && CheckoutStep(s3.value.pool).2 == j
  {
    assert s.pool.cursor !in FreeSet(s.pool.slots);
    var s1 := ActFixed(s, ScanOnce(t0)).value;
    assert s1.pool.slots == s.pool.slots;
    var s2 := ActFixed(s1, CheckinBy(t1, h, j)).value;
    assert s2.pool.slots == s.pool.slots[j := (h, false)];
    forall i | i in FreeSet(s2.pool.slots)
      ensures i == j
    {
      assert i != j ==> i in FreeSet(s.pool.slots);
    }
    assert j in FreeSet(s2.pool.slots);
  }

  /** The slots a freshly set-up pool appends: every handler free. */
  function IdleSlots<H>(made: seq<H>): (r: seq<Slot<H>>)
    ensures |r| == |made|
    ensures forall i :: 0 <= i < |r| ==> r[i] == (made[i], false)
  {
    seq(|made|, i requires 0 <= i < |made| => (made[i], false))
  }

  /** `JsHandlerControl`: the slot array `handlers` and the cursor `idx`. */
  class Pool<H> {
    var handlers: seq<Slot<H>>
    var idx: nat

    ghost predicate Valid()
      reads this
    {
      WellFormed(PoolState(handlers, idx))
    }

    function State(): PoolState<H>
      reads this
    {
      PoolState(handlers, idx)
    }

    constructor ()
      ensures Valid() && handlers == [] && idx == 0
    {
      handlers := [];
      idx := 0;
    }

    /** `setup(api, cache_size)`: appends one free slot per handler made
        (the handlers the loop constructs and starts are given as `made`,
        so `cache_size` is `|made|`). The cursor does not move. */
    method Setup(made: seq<H>)
      requires Valid()
      modifies this
      ensures Valid()
      ensures handlers == old(handlers) + IdleSlots(made) && idx == old(idx)
    {
      for i := 0 to |made|
        invariant handlers == old(handlers) + IdleSlots(made[..i]) && idx == old(idx)
      {
        assert IdleSlots(made[..i + 1]) == IdleSlots(made[..i]) + [(made[i], false)];
        handlers := handlers + [(made[i], false)];
      }
      assert made[..|made|] == made;
    }

    /** `checkout()`: the scan from the cursor, as in the source. On an
        empty pool the first read of `handlers[idx]` raises IndexError.
        Where every slot of a non-empty pool is in use the source never
        returns: it scans holding the lock that every `checkin` needs, so
        no slot can be freed (`CheckoutDeadlocks`). A free slot is
        therefore required. */
    method Checkout() returns (r: Result<(H, nat)>)
      requires Valid() && (handlers == [] || FreeSet(handlers) != {})
      modifies this
      ensures Valid()
      ensures old(handlers) == [] ==> r == Raise(Fault(IndexError, Null)) && handlers == [] && idx == old(idx)
      ensures old(handlers) != [] ==> r.Ok? && (State(), r.value.0, r.value.1) == CheckoutStep(old(State()))
    {
      if idx >= |handlers| {
        return Raise(Fault(IndexError, Null));
      }
      ghost var start, slots := idx, handlers;
      ghost var j := FirstFree(slots, start).value;
      ghost var off := StepsTo(|slots|, start, j);
      var result: Option<(H, nat)> := None;
      var count := 0;
      while result.None?
        invariant |handlers| == |slots| && count <= off
        invariant result.None? ==> handlers == slots && idx == Cyclic(|slots|, start, count)
        invariant result.Some? ==> idx == j && result.value == (slots[j].0, j) && handlers == slots[j := (slots[j].0, true)]
        decreases off - count + (if result.None? then 1 else 0)
      {
        var (jsh, inuse) := handlers[idx];
        if !inuse {
          assert count == off;
          result := Some((jsh, idx));
          handlers := handlers[idx := (jsh, true)];
        } else {
          assert count < off;
          CyclicNext(|slots|, start, count);
          idx := (idx + 1) % |handlers|;
          count := count + 1;
        }
      }
      r := Ok(result.value);
    }

    /** `checkin(jsh, idx)` as written: the slot under the cursor is freed
        and given `h`; `slot` is not used. On an empty pool the source
        raises IndexError, reported here as `ok == false`. */
    method Checkin(h: H, slot: nat) returns (ok: bool)
      requires Valid()
      modifies this
      ensures Valid()
      ensures ok == (|old(handlers)| > 0)
      ensures ok ==> State() == CheckinAsWritten(old(State()), h, slot).value
      ensures !ok ==> handlers == old(handlers) && idx == old(idx)
    {
      ok := idx < |handlers|;
      if ok {
        handlers := handlers[idx := (h, false)];
      }
    }

    /** The check-in the pool's callers rely on: free the slot they were
        handed. */
    method CheckinSlot(h: H, slot: nat) returns (ok: bool)
      requires Valid()
      modifies this
      ensures Valid()
      ensures ok == (slot < |old(handlers)|)
      ensures ok ==> State() == CheckinSlotStep(old(State()), h, slot).value
      ensures !ok ==> handlers == old(handlers) && idx == old(idx)
    {
      ok := slot < |handlers|;
      if ok {
        handlers := handlers[slot := (h, false)];
      }
    }
  }
}
