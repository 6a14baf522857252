/**
 * The cooperative timer scheduler of src/timer.c: a list of periodic
 * entries, each with a callback, an argument, a period, the time it last
 * fired and a run flag; timer_handle fires every entry that is due.
 *
 * The clock is the microsecond counter timer_get_us, a uint32_t that wraps;
 * here each operation that reads it takes the reading as `now`.  A callback
 * is foreign code: firing an entry appends its callback and argument to
 * `calls`.  Callbacks are taken not to change the timer list.
 */
module Scheduler {

  import opened Bytes

  /** A call of an entry's callback with its argument. */
  datatype Call = Call(cb: nat, arg: nat)

  /** The state of one entry, as a value. */
  datatype Entry = Entry(cb: nat, arg: nat, period: u32, last: u32, run: bool)

  /** The due test of timer_handle.  As written it compares `now` with the
      uint32_t sum `last + period`, which wraps; the wrap-safe form compares
      the time elapsed since `last`, modulo 2^32, with the period. */
  datatype DueTest = AsWritten | WrapSafe

  predicate Due(test: DueTest, e: Entry, now: u32)
  {
    && e.run && e.period != 0
    && match test
       case AsWritten => now >= Wrap32(e.last + e.period)
       case WrapSafe => Wrap32(now - e.last) >= e.period
  }

  /** One entry after a timer_handle pass at `now`. */
  function TickOne(test: DueTest, e: Entry, now: u32): Entry
  {
    if Due(test, e, now) then e.(last := now) else e
  }

  /** All entries after a timer_handle pass at `now`. */
  function Tick(test: DueTest, s: seq<Entry>, now: u32): (t: seq<Entry>)
    ensures |t| == |s|
  {
    seq(|s|, i requires 0 <= i < |s| => TickOne(test, s[i], now))
  }

  /** The callbacks a timer_handle pass at `now` makes, in list order. */
  function FiredBy(test: DueTest, s: seq<Entry>, now: u32): (c: seq<Call>)
    ensures |c| <= |s|
    decreases |s|
  {
    if s == [] then []
    else
      var e := s[|s| - 1];
      FiredBy(test, s[..|s| - 1], now) + (if Due(test, e, now) then [Call(e.cb, e.arg)] else [])
  }

  lemma CatAssoc<T>(a: seq<T>, b: seq<T>, c: seq<T>)
    ensures (a + b) + c == a + (b + c)
  {
  }

  /** One more entry of the pass: its call, if it is due, comes last. */
  lemma FiredByStep(test: DueTest, s: seq<Entry>, i: nat, now: u32)
    requires i < |s|
    ensures FiredBy(test, s[..i + 1], now) ==
      FiredBy(test, s[..i], now) + (if Due(test, s[i], now) then [Call(s[i].cb, s[i].arg)] else [])
  {
    assert s[..i + 1][..i] == s[..i];
  }

  // ---------------------------------------------------------------------
  // Properties of a pass

  /** A pass changes nothing but `last`, and sets it to `now` exactly on
      the entries that fire; no entry's run flag or period changes. */
  lemma TickChangesOnlyFired(test: DueTest, s: seq<Entry>, now: u32, i: nat)
    requires i < |s|
    ensures var t := Tick(test, s, now)[i];
      && t.cb == s[i].cb && t.arg == s[i].arg && t.period == s[i].period && t.run == s[i].run
      && (Due(test, s[i], now) ==> t.last == now)
      && (!Due(test, s[i], now) ==> t == s[i])
  {
  }

  /** A stopped entry never fires and is left as it was. */
  lemma StoppedNeverFires(test: DueTest, s: seq<Entry>, now: u32, i: nat)
    requires i < |s| && !s[i].run
    ensures !Due(test, s[i], now) && Tick(test, s, now)[i] == s[i]
  {
  }

  /** The callbacks fired are those of the due entries, each once, in list
      order: the entry at `i` contributes its call at the position given by
      the number of due entries before it. */
  lemma {:induction false} FiredInOrder(test: DueTest, s: seq<Entry>, now: u32, i: nat)
    requires i < |s| && Due(test, s[i], now)
    ensures var k := |FiredBy(test, s[..i], now)|;
      k < |FiredBy(test, s, now)| && FiredBy(test, s, now)[k] == Call(s[i].cb, s[i].arg)
    decreases |s|
  {
    var last := |s| - 1;
    if i == last {
      assert s[..last] == s[..i];
    } else {
      assert s[..last][..i] == s[..i];
      FiredInOrder(test, s[..last], now, i);
    }
  }

  /** A pass runs exactly as many callbacks as there are due entries. */
  lemma {:induction false} FiredCount(test: DueTest, s: seq<Entry>, now: u32)
    ensures |FiredBy(test, s, now)| == |set i | 0 <= i < |s| && Due(test, s[i], now)|
    decreases |s|
  {
    if s != [] {
      var n := |s| - 1;
      FiredCount(test, s[..n], now);
      var before := set i | 0 <= i < n && Due(test, s[..n][i], now);
      var all := set i | 0 <= i < |s| && Due(test, s[i], now);
      assert before == set i | 0 <= i < n && Due(test, s[i], now);
      if Due(test, s[n], now) {
        assert all == before + {n};
      } else {
        assert all == before;
      }
    }
  }

  /** With the wrap-safe test an entry that has just fired stays quiet for a
      whole period, however close `now` is to the wrap of the clock. */
  lemma WrapSafeQuietForPeriod(e: Entry, now: u32, later: u32)
    requires Due(WrapSafe, e, now)
    requires Wrap32(later - now) < e.period
    ensures !Due(WrapSafe, TickOne(WrapSafe, e, now), later)
  {
  }

  /** The due test as written: an entry that fires at 0xFFFFFF00 with a
      period of 0x200 has `last + period` wrap to 0x100, so it is due again
      on the very next pass, with no time elapsed. */
  lemma AsWrittenRefiresAtWrap()
    ensures var e := Entry(0, 0, 0x200, 0, true);
      var now: u32 := 0xFFFF_FF00;
      && Due(AsWritten, e, now)
      && Due(AsWritten, TickOne(AsWritten, e, now), now)
      && !Due(WrapSafe, TickOne(WrapSafe, e, now), now)
  {
  }

  /** Away from the wrap the two tests agree. */
  lemma TestsAgreeWithoutWrap(e: Entry, now: u32)
    requires e.last <= now && e.last + e.period < TWO_TO_32
    ensures Due(AsWritten, e, now) <==> Due(WrapSafe, e, now)
  {
  }

  // ---------------------------------------------------------------------
  // The list and its operations

  /** struct etimer */
  class ETimer {
    const cb: nat
    const arg: nat
    var period: u32
    var last: u32
    var run: bool

    constructor (cb: nat, arg: nat, period: u32, last: u32, run: bool)
      ensures this.cb == cb && this.arg == arg && this.period == period
      ensures this.last == last && this.run == run
    {
      this.cb := cb;
      this.arg := arg;
      this.period := period;
      this.last := last;
      this.run := run;
    }

    function State(): Entry
      reads this
    {
      Entry(cb, arg, period, last, run)
    }

    /** timer_run: start the entry, counting its period from `now`. */
    method Run(now: u32)
      modifies this
      ensures State() == old(State()).(run := true, last := now)
    {
      run := true;
      last := now;
    }

    /** timer_stop: only clears the run flag. */
    method Stop()
      modifies this
      ensures State() == old(State()).(run := false)
    {
      run := false;
    }

    /** timer_set: only changes the period. */
    method Set(period: u32)
      modifies this
      ensures State() == old(State()).(period := period)
    {
      this.period := period;
    }
  }

  /** The states of a list of entries. */
  function States(s: seq<ETimer>): (t: seq<Entry>)
    reads set e | e in s
    ensures |t| == |s| && forall i :: 0 <= i < |s| ==> t[i] == s[i].State()
  {
    seq(|s|, i reads set e | e in s requires 0 <= i < |s| => s[i].State())
  }

  /** `s` without the element `x`, order kept. */
  function Without<T(==)>(s: seq<T>, x: T): (r: seq<T>)
    ensures |r| <= |s|
    ensures forall i :: 0 <= i < |r| ==> r[i] in s && r[i] != x
    ensures forall i :: 0 <= i < |s| && s[i] != x ==> s[i] in r
    decreases |s|
  {
    if s == [] then []
    else (if s[0] == x then [] else [s[0]]) + Without(s[1..], x)
  }

  /** struct timer: the TAILQ of entries, and the callbacks made so far. */
  class Timer {
    var entries: seq<ETimer>
    var calls: seq<Call>

    /** No entry is on the list twice. */
    predicate Valid()
      reads this
    {
      Distinct(entries)
    }

    /** timer_create */
    constructor ()
      ensures Valid() && entries == [] && calls == []
    {
      entries := [];
      calls := [];
    }

    /** timer_add: a new entry, last fired `now`, at the tail of the list.
        An allocation failure (`mallocOk` false) returns null and adds
        nothing. */
    method Add(cb: nat, arg: nat, period: u32, run: bool, now: u32, mallocOk: bool) returns (et: ETimer?)
      requires Valid()
      modifies this
      ensures Valid() && calls == old(calls)
      ensures !mallocOk ==> et == null && entries == old(entries)
      ensures mallocOk ==>
        && et != null && fresh(et) && entries == old(entries) + [et]
        && et.State() == Entry(cb, arg, period, now, run)
    {
      if !mallocOk {
        return null;
      }
      et := new ETimer(cb, arg, period, now, run);
      entries := entries + [et];
    }

    /** timer_del: unlink `et`; the others keep their order. */
    method Del(et: ETimer)
      requires Valid() && et in entries
      modifies this
      ensures Valid() && calls == old(calls)
      ensures entries == Without(old(entries), et)
    {
      WithoutKeepsDistinct(entries, et);
      entries := Without(entries, et);
    }

    /** timer_destroy: unlink every entry. */
    method Destroy()
      modifies this
      ensures Valid() && entries == [] && calls == old(calls)
    {
      entries := [];
    }

    /** timer_handle: one pass over the list, in order, with the clock read
        once as `now`; fires every entry due by the test as written and
        returns how many fired. */
    method Handle(now: u32) returns (runs: int)
      requires Valid()
      modifies this, set e | e in entries
      ensures Valid() && entries == old(entries)
      ensures States(entries) == Tick(AsWritten, old(States(entries)), now)
      ensures calls == old(calls) + FiredBy(AsWritten, old(States(entries)), now)
      ensures runs == |FiredBy(AsWritten, old(States(entries)), now)|
    {
      ghost var s := States(entries);
      runs := 0;
      var i := 0;
      while i < |entries|
        invariant 0 <= i <= |entries| && entries == old(entries)
        invariant forall k :: 0 <= k < i ==> entries[k].State() == TickOne(AsWritten, s[k], now)
        invariant forall k :: i <= k < |entries| ==> entries[k].State() == s[k]
        invariant calls == old(calls) + FiredBy(AsWritten, s[..i], now)
        invariant runs == |FiredBy(AsWritten, s[..i], now)|
      {
        var et := entries[i];
        FiredByStep(AsWritten, s, i, now);
        assert forall k :: 0 <= k < |entries| && k != i ==> entries[k] != et;
        ghost var step := if Due(AsWritten, s[i], now) then [Call(s[i].cb, s[i].arg)] else [];
        ghost var before := calls;
        var fired := Visit(et, now);
        assert calls == before + step;
        CatAssoc(old(calls), FiredBy(AsWritten, s[..i], now), step);
        if fired {
          runs := runs + 1;
        }
        i := i + 1;
      }
      assert s[..i] == s;
      assert States(entries) == Tick(AsWritten, s, now);
    }

    /** The body of timer_handle's loop for one entry: if it is due by the
        test as written, call its callback and restart its period at `now`. */
    method Visit(et: ETimer, now: u32) returns (fired: bool)
      modifies this, et
      ensures entries == old(entries)
      ensures fired == Due(AsWritten, old(et.State()), now)
      ensures et.State() == TickOne(AsWritten, old(et.State()), now)
      ensures calls == old(calls) + (if fired then [Call(et.cb, et.arg)] else [])
    {
      if et.run && et.period != 0 && now >= Wrap32(et.last + et.period) {
        calls := calls + [Call(et.cb, et.arg)];
        et.last := now;
        return true;
      }
      return false;
    }
  }

  /** No element occurs twice. */
  predicate Distinct<T(==)>(s: seq<T>)
  {
    forall i, j :: 0 <= i < j < |s| ==> s[i] != s[j]
  }

  lemma {:induction false} WithoutKeepsDistinct<T>(s: seq<T>, x: T)
    requires Distinct(s)
    ensures Distinct(Without(s, x))
    decreases |s|
  {
    if s != [] {
      var r := Without(s[1..], x);
      WithoutKeepsDistinct(s[1..], x);
      var pre := if s[0] == x then [] else [s[0]];
      assert Without(s, x) == pre + r;
      forall i, j | 0 <= i < j < |pre + r|
        ensures (pre + r)[i] != (pre + r)[j]
      {
        if i < |pre| {
          assert (pre + r)[i] == s[0];
          assert (pre + r)[j] == r[j - 1] && r[j - 1] in s[1..];
          assert s[0] !in s[1..];
        } else {
          assert (pre + r)[i] == r[i - |pre|] && (pre + r)[j] == r[j - |pre|];
        }
      }
    }
  }
}
