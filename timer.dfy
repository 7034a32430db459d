/** The timer wake table of `kernel/src/task/timer.rs`: a tick counter
    and 128 slots, each empty or holding a waker and the tick it waits
    for. The timer interrupt advances the counter and wakes every waiter
    that is due; a `TimerWaiter` future files its waker in the first empty
    slot. */
module Timer {
  import opened Base
  import Tasks

  const U64_LIMIT: nat := 0x1_0000_0000_0000_0000
  /** The length of `WAKERS`. */
  const SLOTS: nat := 128

  const OUT_OF_SLOTS: string := "Out of timer slots"
  const ADD_OVERFLOW: string := "attempt to add with overflow"

  /** A filled slot: `Some((waker, target))`. */
  datatype Slot = Slot(waker: Tasks.Waker, target: u64)

  /** A filled slot whose target is at most tick `t`. */
  predicate Due(e: Option<Slot>, t: u64)
  {
    e.Some? && t >= e.value.target
  }

  /** The slots after `tick_timer` ran with pre-increment tick `t`. */
  function Tick(slots: seq<Option<Slot>>, t: u64): (r: seq<Option<Slot>>)
    ensures |r| == |slots|
  {
    seq(|slots|, i requires 0 <= i < |slots| => if Due(slots[i], t) then None else slots[i])
  }

  /** The wakers `tick_timer` wakes, in slot order. */
  function Woken(slots: seq<Option<Slot>>, t: u64): seq<Tasks.Waker>
    decreases |slots|
  {
    if slots == [] then []
    else
      var last := slots[|slots| - 1];
      Woken(slots[..|slots| - 1], t) + (if Due(last, t) then [last.value.waker] else [])
  }

  /** The number of filled slots. */
  function Occupied(slots: seq<Option<Slot>>): nat
    decreases |slots|
  {
    if slots == [] then 0
    else Occupied(slots[..|slots| - 1]) + (if slots[|slots| - 1].Some? then 1 else 0)
  }

  /** A tick empties exactly the slots it wakes: the woken wakers and the
      slots still filled add up to the slots filled before, and every
      woken waker came from a due slot. */
  lemma {:induction false} TickWakesWhatItEmpties(slots: seq<Option<Slot>>, t: u64)
    ensures |Woken(slots, t)| + Occupied(Tick(slots, t)) == Occupied(slots)
    ensures forall w :: w in Woken(slots, t) ==> exists i :: 0 <= i < |slots| && Due(slots[i], t) && slots[i].value.waker == w
    decreases |slots|
  {
    if slots != [] {
      var n := |slots| - 1;
      TickWakesWhatItEmpties(slots[..n], t);
      assert Tick(slots, t)[..n] == Tick(slots[..n], t);
      forall w | w in Woken(slots, t)
        ensures exists i :: 0 <= i < |slots| && Due(slots[i], t) && slots[i].value.waker == w
      {
        if w in Woken(slots[..n], t) {
          var i :| 0 <= i < n && Due(slots[..n][i], t) && slots[..n][i].value.waker == w;
          assert slots[i] == slots[..n][i];
        } else {
          assert Due(slots[n], t) && slots[n].value.waker == w;
        }
      }
    }
  }

  /** Every due slot's waker is woken. */
  lemma {:induction false} DueIsWoken(slots: seq<Option<Slot>>, t: u64, i: nat)
    requires i < |slots| && Due(slots[i], t)
    ensures slots[i].value.waker in Woken(slots, t)
    decreases |slots|
  {
    var n := |slots| - 1;
    if i < n {
      DueIsWoken(slots[..n], t, i);
    }
  }

  /** The first empty slot, searching from slot `i`. */
  function FirstEmpty(slots: seq<Option<Slot>>, i: nat): (r: Option<nat>)
    requires i <= |slots|
    ensures r.Some? ==> i <= r.value < |slots| && slots[r.value].None?
    decreases |slots| - i
  {
    if i == |slots| then None
    else if slots[i].None? then Some(i)
    else FirstEmpty(slots, i + 1)
  }

  /** The search finds nothing exactly when every slot from `i` on is
      filled, and otherwise the lowest empty one. */
  lemma {:induction false} FirstEmptyMeaning(slots: seq<Option<Slot>>, i: nat)
    requires i <= |slots|
    ensures FirstEmpty(slots, i).None? <==> forall k :: i <= k < |slots| ==> slots[k].Some?
    ensures FirstEmpty(slots, i).Some? ==>
      var k := FirstEmpty(slots, i).value;
      i <= k < |slots| && slots[k].None? && forall j :: i <= j < k ==> slots[j].Some?
    decreases |slots| - i
  {
    if i < |slots| && slots[i].Some? {
      FirstEmptyMeaning(slots, i + 1);
    }
  }

  /** `TimerWaiter::poll` at tick `ticks`: ready when the target is
      reached, else the waker goes into the first empty slot. The value is
      whether the future is ready, with the new slots. */
  function PollWaiter(ticks: u64, slots: seq<Option<Slot>>, target: u64, waker: Tasks.Waker): Run<(bool, seq<Option<Slot>>)>
  {
    if ticks >= target then Returns((true, slots))
    else match FirstEmpty(slots, 0)
      case None => Panics(OUT_OF_SLOTS)
      case Some(k) => Returns((false, slots[k := Some(Slot(waker, target))]))
  }

  /** `poll` is ready exactly when the target is reached; it panics
      exactly when it is not and all slots are filled; when it is pending
      the waker sits in the lowest empty slot and nothing else changed. */
  lemma {:induction false} PollMeaning(ticks: u64, slots: seq<Option<Slot>>, target: u64, waker: Tasks.Waker)
    ensures PollWaiter(ticks, slots, target, waker).Returns? && PollWaiter(ticks, slots, target, waker).value.0 <==> ticks >= target
    ensures PollWaiter(ticks, slots, target, waker).Panics? <==> ticks < target && forall k :: 0 <= k < |slots| ==> slots[k].Some?
    ensures PollWaiter(ticks, slots, target, waker).Returns? && !PollWaiter(ticks, slots, target, waker).value.0 ==>
      var after := PollWaiter(ticks, slots, target, waker).value.1;
      exists k :: 0 <= k < |slots| && slots[k].None? && (forall j :: 0 <= j < k ==> slots[j].Some?)
        && after == slots[k := Some(Slot(waker, target))]
  {
    FirstEmptyMeaning(slots, 0);
  }

  /** A pending waiter is woken by the first tick that reaches its target
      and by no earlier one: until then its slot stays filled. */
  lemma {:induction false} PendingWaiterWakes(ticks: u64, slots: seq<Option<Slot>>, target: u64, waker: Tasks.Waker, t: u64)
    requires PollWaiter(ticks, slots, target, waker).Returns? && !PollWaiter(ticks, slots, target, waker).value.0
    ensures var after := PollWaiter(ticks, slots, target, waker).value.1;
      exists k :: 0 <= k < |after| && after[k] == Some(Slot(waker, target))
        && (t >= target ==> Tick(after, t)[k] == None && waker in Woken(after, t))
        && (t < target ==> Tick(after, t)[k] == after[k])
  {
    PollMeaning(ticks, slots, target, waker);
    var after := PollWaiter(ticks, slots, target, waker).value.1;
    var k :| 0 <= k < |slots| && slots[k].None? && (forall j :: 0 <= j < k ==> slots[j].Some?)
        && after == slots[k := Some(Slot(waker, target))];
    if t >= target {
      DueIsWoken(after, t, k);
    }
    assert 0 <= k < |after| && after[k] == Some(Slot(waker, target));
  }

  /** The counter and the table of `timer.rs`. */
  class TimerTable {
    var ticks: u64
    const wakers: array<Option<Slot>>

    ghost predicate Valid()
      reads this
    {
      wakers.Length == SLOTS
    }

    /** `TICKS` starts at 0 and every slot is empty. */
    constructor ()
      ensures Valid() && fresh(wakers)
      ensures ticks == 0 && forall i :: 0 <= i < SLOTS ==> wakers[i].None?
    {
      ticks := 0;
      wakers := new Option<Slot>[SLOTS](_ => None);
    }

    /** `tick_timer`: advance the counter (wrapping, as `fetch_add` does)
        and wake every waiter due at the old tick, emptying its slot. */
    method TickTimer() returns (woken: seq<Tasks.Waker>)
      requires Valid()
      modifies this, wakers
      ensures Valid()
      ensures ticks == (old(ticks) + 1) % U64_LIMIT
      ensures wakers[..] == Tick(old(wakers[..]), old(ticks))
      ensures woken == Woken(old(wakers[..]), old(ticks))
    {
      var t := ticks;
      ticks := (ticks + 1) % U64_LIMIT;
      woken := [];
      ghost var before := wakers[..];
      for i := 0 to wakers.Length
        invariant ticks == (t + 1) % U64_LIMIT
        invariant wakers[i..] == before[i..]
        invariant wakers[..i] == Tick(before[..i], t)
        invariant woken == Woken(before[..i], t)
      {
        assert before[..i + 1][..i] == before[..i];
        var entry := wakers[i];
        if entry.Some? {
          wakers[i] := None;
          if t >= entry.value.target {
            woken := woken + [entry.value.waker];
          } else {
            wakers[i] := entry;
          }
        }
        assert wakers[..i + 1] == wakers[..i] + [wakers[i]];
        assert Tick(before[..i + 1], t) == Tick(before[..i], t) + [Tick(before, t)[i]];
      }
      assert before[..wakers.Length] == before;
      assert wakers[..wakers.Length] == wakers[..];
    }

    /** `wait_n_ticks`: the target tick of the new `TimerWaiter`; the
        addition is checked. */
    method WaitNTicks(n: u64) returns (r: Run<u64>)
      ensures ticks + n < U64_LIMIT ==> r == Returns(ticks + n)
      ensures ticks + n >= U64_LIMIT ==> r == Panics(ADD_OVERFLOW)
    {
      if ticks + n >= U64_LIMIT {
        return Panics(ADD_OVERFLOW);
      }
      return Returns(ticks + n);
    }

    /** `TimerWaiter::poll`: `Returns(true)` for `Poll::Ready`,
        `Returns(false)` for `Poll::Pending`. */
    method Poll(target: u64, waker: Tasks.Waker) returns (r: Run<bool>)
      requires Valid()
      modifies wakers
      ensures r.Panics? ==> PollWaiter(ticks, old(wakers[..]), target, waker) == Panics(r.reason)
      ensures r.Returns? ==> PollWaiter(ticks, old(wakers[..]), target, waker) == Returns((r.value, wakers[..]))
    {
      if ticks >= target {
        return Returns(true);
      }
      ghost var before := wakers[..];
      var i := 0;
      while i < wakers.Length && wakers[i].Some?
        invariant i <= wakers.Length
        invariant FirstEmpty(before, i) == FirstEmpty(before, 0)
        decreases wakers.Length - i
      {
        i := i + 1;
      }
      if i == wakers.Length {
        return Panics(OUT_OF_SLOTS);
      }
      wakers[i] := Some(Slot(waker, target));
      return Returns(false);
    }
  }
}
