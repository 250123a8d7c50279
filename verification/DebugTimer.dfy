/**
 * The timer that tests drive by hand (decibel-cpp/src/decibel/niceuv/ITimer.cpp:74-171), with
 * callbacks that do not touch the timers.
 */
module DebugTimers {
  import opened Arithmetic

  type TimerId = nat

  /** A CallbackWrapper. Times are in milliseconds. */
  datatype Handle = Handle(timeout: int, interval: int, initialTime: int, initiallyFired: bool, lastCalled: int)

  // ----- One timer -----

  predicate Due(h: Handle, now: int) {
    if !h.initiallyFired then now - h.initialTime >= h.timeout else now - h.lastCalled >= h.interval
  }

  function Ticked(h: Handle, now: int): Handle {
    if Due(h, now) then h.(initiallyFired := true, lastCalled := now) else h
  }

  /** The timer `n` milliseconds after `now`. */
  function After(h: Handle, now: int, n: nat): Handle {
    if n == 0 then h else Ticked(After(h, now, n - 1), now + n)
  }

  /** How often it fires in these milliseconds. */
  function Fires(h: Handle, now: int, n: nat): nat {
    if n == 0 then 0 else Fires(h, now, n - 1) + if Due(After(h, now, n - 1), now + n) then 1 else 0
  }

  lemma {:induction false} FiresSplit(h: Handle, now: int, m: nat, n: nat)
    ensures After(h, now, m + n) == After(After(h, now, m), now + m, n)
    ensures Fires(h, now, m + n) == Fires(h, now, m) + Fires(After(h, now, m), now + m, n)
  {
    if n > 0 {
      FiresSplit(h, now, m, n - 1);
    }
  }

  /** The number of firings in the first `d` milliseconds of a timer. */
  function Firings(timeout: int, interval: int, d: nat): nat {
    var first, period := Max(1, timeout), Max(1, interval);
    if d < first then 0 else 1 + (d - first) / period
  }

  /** A new timer after `d` milliseconds: `k` firings, the last of them less than a period ago. */
  lemma {:induction false} FiresSoFar(h: Handle, now: int, d: nat) returns (k: nat)
    requires !h.initiallyFired && h.initialTime == now
    ensures var first, period, t := Max(1, h.timeout), Max(1, h.interval), After(h, now, d);
            && k == Fires(h, now, d)
            && t.initiallyFired == (k > 0) == (d >= first)
            && t == h.(initiallyFired := k > 0, lastCalled := t.lastCalled)
            && (k > 0 ==> t.lastCalled == now + first + Times(k - 1, period) && 0 <= now + d - t.lastCalled < period)
  {
    if d == 0 {
      k := 0;
    } else {
      k := FiresSoFar(h, now, d - 1);
      var t, period := After(h, now, d - 1), Max(1, h.interval);
      if Due(t, now + d) {
        k := k + 1;
      }
    }
  }

  /** The closed form. */
  lemma FiresClosedForm(h: Handle, now: int, d: nat)
    requires !h.initiallyFired && h.initialTime == now
    ensures Fires(h, now, d) == Firings(h.timeout, h.interval, d)
  {
    var k := FiresSoFar(h, now, d);
    if k > 0 {
      QuotientIs(d - Max(1, h.timeout), k - 1, Max(1, h.interval));
    }
  }

  /** The milliseconds that these advances come to; a negative one advances nothing. */
  function Total(advances: seq<int>): nat {
    if advances == [] then 0 else Total(advances[..|advances| - 1]) + Max(0, advances[|advances| - 1])
  }

  function FiresOver(h: Handle, now: int, advances: seq<int>): nat {
    if advances == [] then 0
    else
      var before := advances[..|advances| - 1];
      var then' := now + Total(before);
      FiresOver(h, now, before) + Fires(After(h, now, Total(before)), then', Max(0, advances[|advances| - 1]))
  }

  /** Only the total counts: splitting an advance never changes how often a timer fires. */
  lemma {:induction false} OnlyTheTotal(h: Handle, now: int, advances: seq<int>)
    ensures FiresOver(h, now, advances) == Fires(h, now, Total(advances))
  {
    if advances != [] {
      var before := advances[..|advances| - 1];
      OnlyTheTotal(h, now, before);
      FiresSplit(h, now, Total(before), Max(0, advances[|advances| - 1]));
    }
  }

  /** A new timer, whatever the advances. */
  lemma FiringsOver(h: Handle, now: int, advances: seq<int>)
    requires !h.initiallyFired && h.initialTime == now
    ensures FiresOver(h, now, advances) == Firings(h.timeout, h.interval, Total(advances))
  {
    OnlyTheTotal(h, now, advances);
    FiresClosedForm(h, now, Total(advances));
  }

  // ----- The timers together -----

  function Count(ids: seq<TimerId>, id: TimerId): nat {
    if ids == [] then 0 else Count(ids[..|ids| - 1], id) + if ids[|ids| - 1] == id then 1 else 0
  }

  lemma CountSnoc(ids: seq<TimerId>, last: TimerId, id: TimerId)
    ensures Count(ids + [last], id) == Count(ids, id) + if last == id then 1 else 0
  {
    assert (ids + [last])[..|ids|] == ids;
  }

  lemma {:induction false} CountConcat(a: seq<TimerId>, b: seq<TimerId>, id: TimerId)
    ensures Count(a + b, id) == Count(a, id) + Count(b, id)
  {
    if b == [] {
      assert a + b == a;
    } else {
      CountConcat(a, b[..|b| - 1], id);
      assert a + b == (a + b[..|b| - 1]) + [b[|b| - 1]];
      CountSnoc(a + b[..|b| - 1], b[|b| - 1], id);
    }
  }

  function TickedAll(handles: map<TimerId, Handle>, now: int): map<TimerId, Handle> {
    map id | id in handles :: Ticked(handles[id], now)
  }

  class DebugTimer {
    var mTimerHandles: map<TimerId, Handle>
    var mCurrentTime: int
    var mTimerCounter: nat
    /** The callbacks made so far, by timer. */
    var calls: seq<TimerId>

    ghost predicate Valid()
      reads this
    {
      forall id | id in mTimerHandles :: id < mTimerCounter
    }

    constructor ()
      ensures Valid() && mTimerHandles == map[] && mCurrentTime == 0 && calls == []
    {
      mTimerHandles, mCurrentTime, mTimerCounter, calls := map[], 0, 0, [];
    }

    /** The id is new, and never used before. */
    method Start(timeout: int, interval: int) returns (id: TimerId)
      requires Valid()
      modifies this`mTimerHandles, this`mTimerCounter
      ensures Valid()
      ensures id !in old(mTimerHandles) && id == old(mTimerCounter) < mTimerCounter
      ensures mTimerHandles == old(mTimerHandles)[id := Handle(timeout, interval, mCurrentTime, false, 0)]
    {
      id := mTimerCounter;
      mTimerCounter := mTimerCounter + 1;
      mTimerHandles := mTimerHandles[id := Handle(timeout, interval, mCurrentTime, false, 0)];
    }

    method Stop(id: TimerId)
      requires Valid()
      modifies this`mTimerHandles
      ensures Valid() && mTimerHandles == old(mTimerHandles) - {id}
    {
      if id in mTimerHandles {
        mTimerHandles := mTimerHandles - {id};
      }
    }

    method SetRepeat(id: TimerId, interval: int)
      requires Valid()
      modifies this`mTimerHandles
      ensures Valid()
      ensures mTimerHandles == if id in old(mTimerHandles)
                               then old(mTimerHandles)[id := old(mTimerHandles)[id].(interval := interval)]
                               else old(mTimerHandles)
    {
      if id in mTimerHandles {
        mTimerHandles := mTimerHandles[id := mTimerHandles[id].(interval := interval)];
      }
    }

    /** The timers that are due, each once, in some order; their state moves on. */
    method FireList() returns (fireList: seq<TimerId>)
      requires Valid()
      modifies this`mTimerHandles
      ensures Valid()
      ensures mTimerHandles == TickedAll(old(mTimerHandles), mCurrentTime)
      ensures forall id: TimerId ::
                Count(fireList, id) ==
                if id in old(mTimerHandles) && Due(old(mTimerHandles)[id], mCurrentTime) then 1 else 0
    {
      fireList := [];
      ghost var start := mTimerHandles;
      var left := mTimerHandles.Keys;
      while left != {}
        invariant left <= start.Keys && mTimerHandles.Keys == start.Keys
        invariant forall id | id in start ::
                    mTimerHandles[id] == if id in left then start[id] else Ticked(start[id], mCurrentTime)
        invariant forall id: TimerId ::
                    Count(fireList, id) == if id in start && id !in left && Due(start[id], mCurrentTime) then 1 else 0
        decreases |left|
      {
        var id :| id in left;
        left := left - {id};
        var handle := mTimerHandles[id];
        forall other: TimerId
          ensures Count(fireList + [id], other) == Count(fireList, other) + if id == other then 1 else 0
        {
          CountSnoc(fireList, id, other);
        }
        if !handle.initiallyFired {
          if mCurrentTime - handle.initialTime >= handle.timeout {
            fireList := fireList + [id];
            mTimerHandles := mTimerHandles[id := handle.(initiallyFired := true, lastCalled := mCurrentTime)];
          }
        } else {
          if mCurrentTime - handle.lastCalled >= handle.interval {
            fireList := fireList + [id];
            mTimerHandles := mTimerHandles[id := handle.(lastCalled := mCurrentTime)];
          }
        }
      }
    }

    method ProcessTimeChange()
      requires Valid()
      modifies this`mTimerHandles, this`calls
      ensures Valid()
      ensures mTimerHandles == TickedAll(old(mTimerHandles), mCurrentTime)
      ensures forall id: TimerId ::
                Count(calls, id) == Count(old(calls), id) +
                if id in old(mTimerHandles) && Due(old(mTimerHandles)[id], mCurrentTime) then 1 else 0
    {
      var fireList := FireList();
      for i := 0 to |fireList|
        invariant Valid() && mTimerHandles == TickedAll(old(mTimerHandles), mCurrentTime)
        invariant calls == old(calls) + fireList[..i]
      {
        calls := calls + [fireList[i]];
      }
      assert fireList[..|fireList|] == fireList;
      forall id: TimerId
        ensures Count(calls, id) == Count(old(calls), id) + Count(fireList, id)
      {
        CountConcat(old(calls), fireList, id);
      }
    }

    /** Every timer makes exactly the calls it would make on its own; no other timer makes any. */
    method AdvanceTime(delta: int)
      requires Valid()
      modifies this`mTimerHandles, this`calls, this`mCurrentTime
      ensures Valid()
      ensures mCurrentTime == old(mCurrentTime) + Max(0, delta)
      ensures mTimerHandles.Keys == old(mTimerHandles).Keys
      ensures forall id | id in mTimerHandles ::
                mTimerHandles[id] == After(old(mTimerHandles)[id], old(mCurrentTime), Max(0, delta))
      ensures forall id: TimerId ::
                Count(calls, id) == Count(old(calls), id) +
                if id in old(mTimerHandles) then Fires(old(mTimerHandles)[id], old(mCurrentTime), Max(0, delta)) else 0
    {
      var oldTime := mCurrentTime;
      ghost var start := mTimerHandles;
      var i := oldTime;
      while i < oldTime + delta
        invariant Valid() && mTimerHandles.Keys == start.Keys
        invariant oldTime <= i <= oldTime + Max(0, delta) && mCurrentTime == i
        invariant forall id | id in start :: mTimerHandles[id] == After(start[id], oldTime, i - oldTime)
        invariant forall id: TimerId ::
                    Count(calls, id) ==
                    Count(old(calls), id) + if id in start then Fires(start[id], oldTime, i - oldTime) else 0
      {
        mCurrentTime := mCurrentTime + 1;
        ProcessTimeChange();
        i := i + 1;
      }
    }
  }
}
