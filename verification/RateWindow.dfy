/**
 The per-inviter limit on availability checks: two nested fixed-window counters in an expiring cache,
 including the path where a key expires between the cache's add and incr, and cache errors at any request.
 */
module RateWindow {
  const WINDOW_SECONDS := 600
  const WINDOW_LIMIT := 30
  const DAY_SECONDS := 86400
  const DAY_LIMIT := 300

  /** A cache key: absent, or a count with the time its current window began. */
  datatype Slot = Absent | Slot(count: nat, created: int)

  predicate Live(s: Slot, t: int, timeout: nat) {
    s.Slot? && t < s.created + timeout
  }

  /** The clock at the cache's add, incr and set. */
  datatype Clock = Clock(add: int, incr: int, reset: int)

  predicate Forward(c: Clock) { c.add <= c.incr <= c.reset }

  /**
   What the cache does with a counter's requests: all answered, or an error at the add or at the count,
   taken or lost.
   */
  datatype Reply = Fine | AddFails(taken: bool) | CountFails(taken: bool)

  function Added(s: Slot, c: Clock, timeout: nat): Slot {
    if Live(s, c.add, timeout) then s else Slot(0, c.add)
  }

  /** One more call in a fixed window: add, then incr, or set when the key expired in between. */
  function Hits(s: Slot, c: Clock, timeout: nat): Slot {
    var added := Added(s, c, timeout);
    if Live(added, c.incr, timeout) then Slot(added.count + 1, added.created) else Slot(1, c.reset)
  }

  function AfterHit(s: Slot, c: Clock, timeout: nat, reply: Reply): Slot {
    match reply
    case Fine => Hits(s, c, timeout)
    case AddFails(taken) => if taken then Added(s, c, timeout) else s
    case CountFails(taken) => if taken then Hits(s, c, timeout) else Added(s, c, timeout)
  }

  /** A counted call: when the counter counted it, and the window it was counted in. */
  datatype Counted = Counted(at: int, created: int)

  function CountedAs(s: Slot, c: Clock, timeout: nat): Counted {
    Counted(if Live(Added(s, c, timeout), c.incr, timeout) then c.incr else c.reset, Hits(s, c, timeout).created)
  }

  class Counter {
    var slot: Slot

    method CountHit(c: Clock, timeout: nat, reply: Reply) returns (n: nat, raised: bool)
      modifies this
      ensures slot == AfterHit(old(slot), c, timeout, reply) && raised == !reply.Fine?
      ensures !raised ==> slot.Slot? && n == slot.count
    {
      n, raised := 0, false;
      if reply.AddFails? && !reply.taken { raised := true; return; }
      if !Live(slot, c.add, timeout) { slot := Slot(0, c.add); }
      if reply.AddFails? || (reply.CountFails? && !reply.taken) { raised := true; return; }
      if Live(slot, c.incr, timeout) {
        slot := Slot(slot.count + 1, slot.created);
      } else {
        slot := Slot(1, c.reset);
      }
      n, raised := slot.count, reply.CountFails?;
    }
  }

  /** A check: the clocks of its two counters, and how the cache replies to each. */
  datatype Call = Call(window: Clock, day: Clock, windowReply: Reply, dayReply: Reply)

  datatype State = State(window: Slot, day: Slot)

  datatype Verdict = Answers | RateLimited | RateCheckUnavailable

  predicate InWindow(s: State, c: Call) {
    c.windowReply.Fine? && Hits(s.window, c.window, WINDOW_SECONDS).count <= WINDOW_LIMIT
  }

  predicate Answered(s: State, c: Call) {
    InWindow(s, c) && c.dayReply.Fine? && Hits(s.day, c.day, DAY_SECONDS).count <= DAY_LIMIT
  }

  function AfterCall(s: State, c: Call): State {
    State(
      AfterHit(s.window, c.window, WINDOW_SECONDS, c.windowReply),
      if InWindow(s, c) then AfterHit(s.day, c.day, DAY_SECONDS, c.dayReply) else s.day)
  }

  /**
   The two counters in sequence; the day counter is not touched once the window refuses, and a cache
   error refuses.
   */
  method CheckRate(window: Counter, day: Counter, c: Call) returns (v: Verdict)
    requires window != day
    modifies window, day
    ensures v.Answers? <==> Answered(State(old(window.slot), old(day.slot)), c)
    ensures v.RateCheckUnavailable? <==>
      !c.windowReply.Fine? || (InWindow(State(old(window.slot), old(day.slot)), c) && !c.dayReply.Fine?)
    ensures State(window.slot, day.slot) == AfterCall(State(old(window.slot), old(day.slot)), c)
  {
    var n, failed := window.CountHit(c.window, WINDOW_SECONDS, c.windowReply);
    if failed { return RateCheckUnavailable; }
    if n > WINDOW_LIMIT { return RateLimited; }
    var d, dayFailed := day.CountHit(c.day, DAY_SECONDS, c.dayReply);
    if dayFailed { return RateCheckUnavailable; }
    return if d <= DAY_LIMIT then Answers else RateLimited;
  }

  /**
   What a cache error leaves: nothing, the key that was added, or the count that was taken although its
   reply was lost.
   */
  lemma ErrorLeaves(s: Slot, c: Clock, timeout: nat)
    ensures AfterHit(s, c, timeout, AddFails(false)) == s
    ensures s.Slot? && c.add < s.created + timeout ==>
      AfterHit(s, c, timeout, AddFails(true)) == s && AfterHit(s, c, timeout, CountFails(false)) == s
    ensures !(s.Slot? && c.add < s.created + timeout) ==>
      && AfterHit(s, c, timeout, AddFails(true)) == Slot(0, c.add)
      && AfterHit(s, c, timeout, CountFails(false)) == Slot(0, c.add)
    ensures AfterHit(s, c, timeout, CountFails(true)) == AfterHit(s, c, timeout, Fine)
  {
  }

  /** The calls the counter holds against the next one: none when its window is over by then. */
  function Used(s: Slot, c: Clock, timeout: nat): nat {
    if s.Slot? && c.incr < s.created + timeout then s.count else 0
  }

  /** A check is answered exactly when the cache replies and fewer than 30 and 300 calls count against it. */
  lemma AnsweredExactly(s: State, c: Call)
    requires Forward(c.window) && Forward(c.day)
    ensures Answered(s, c) <==>
      && c.windowReply.Fine? && c.dayReply.Fine?
      && Used(s.window, c.window, 600) < 30 && Used(s.day, c.day, 86400) < 300
  {
  }

  // ----- Timed runs -----

  /** Calls follow one another and the clock never runs back. */
  predicate Sequential(now: int, calls: seq<Call>)
    decreases |calls|
  {
    calls == []
    || (&& now <= calls[0].window.add && Forward(calls[0].window) && calls[0].window.reset <= calls[0].day.add
        && Forward(calls[0].day) && Sequential(calls[0].day.reset, calls[1..]))
  }

  /** How each counter counted a call, if it was answered. */
  function WindowHit(s: State, c: Call): seq<Counted> {
    if Answered(s, c) then [CountedAs(s.window, c.window, WINDOW_SECONDS)] else []
  }

  function DayHit(s: State, c: Call): seq<Counted> {
    if Answered(s, c) then [CountedAs(s.day, c.day, DAY_SECONDS)] else []
  }

  /** The answered calls of a run, in order, as each of the two counters counted them. */
  function WindowCounts(s: State, calls: seq<Call>): seq<Counted>
    decreases |calls|
  {
    if calls == [] then []
    else WindowHit(s, calls[0]) + WindowCounts(AfterCall(s, calls[0]), calls[1..])
  }

  function DayCounts(s: State, calls: seq<Call>): seq<Counted>
    decreases |calls|
  {
    if calls == [] then []
    else DayHit(s, calls[0]) + DayCounts(AfterCall(s, calls[0]), calls[1..])
  }

  function CountWindow(cs: seq<Counted>, created: int): nat {
    if cs == [] then 0 else CountWindow(cs[..|cs| - 1], created) + if cs[|cs| - 1].created == created then 1 else 0
  }

  predicate Between(c: Counted, lo: int, hi: int) { lo <= c.at <= hi }

  function CountBetween(cs: seq<Counted>, lo: int, hi: int): nat {
    if cs == [] then 0 else CountBetween(cs[..|cs| - 1], lo, hi) + if Between(cs[|cs| - 1], lo, hi) then 1 else 0
  }

  predicate Inside(c: Counted, timeout: nat) { c.created <= c.at < c.created + timeout }

  predicate Apart(c: Counted, d: Counted, timeout: nat) { c.created == d.created || c.created + timeout <= d.created }

  /** Each count falls inside its window, and two windows begin at least the timeout apart. */
  ghost predicate Spaced(cs: seq<Counted>, timeout: nat) {
    && (forall i :: 0 <= i < |cs| ==> Inside(cs[i], timeout))
    && (forall i, j :: 0 <= i < j < |cs| ==> Apart(cs[i], cs[j], timeout))
  }

  /** No window holds more than `limit` counts. */
  ghost predicate Limited(cs: seq<Counted>, limit: nat) {
    forall w: int :: CountWindow(cs, w) <= limit
  }

  /** The cache key knows of every answered call in its own window, and no earlier window reaches into it. */
  ghost predicate Remembers(s: Slot, cs: seq<Counted>, now: int, timeout: nat) {
    match s
    case Absent => cs == []
    case Slot(count, created) =>
      created <= now && CountWindow(cs, created) <= count
      && forall i :: 0 <= i < |cs| ==> Apart(cs[i], Counted(created, created), timeout)
  }

  ghost predicate Tracked(s: Slot, cs: seq<Counted>, now: int, timeout: nat, limit: nat) {
    Spaced(cs, timeout) && Limited(cs, limit) && Remembers(s, cs, now, timeout)
  }

  lemma {:induction false} NoneCounted(cs: seq<Counted>, w: int)
    requires forall i :: 0 <= i < |cs| ==> cs[i].created != w
    ensures CountWindow(cs, w) == 0
  {
    if cs != [] { NoneCounted(cs[..|cs| - 1], w); }
  }

  /** A key begun again after the old one ran out knows of nothing, and there is nothing to know. */
  lemma FreshWindow(s: Slot, cs: seq<Counted>, now: int, t: int, n: nat, timeout: nat, limit: nat)
    requires Tracked(s, cs, now, timeout, limit) && timeout > 0 && now <= t && !Live(s, t, timeout)
    ensures Tracked(Slot(n, t), cs, t, timeout, limit) && CountWindow(cs, t) == 0
  {
    forall i | 0 <= i < |cs| ensures Apart(cs[i], Counted(t, t), timeout) && cs[i].created != t {
      assert Apart(cs[i], Counted(s.created, s.created), timeout);
    }
    NoneCounted(cs, t);
  }

  lemma AddKeeps(s: Slot, cs: seq<Counted>, now: int, c: Clock, timeout: nat, limit: nat)
    requires Tracked(s, cs, now, timeout, limit) && timeout > 0 && now <= c.add
    ensures Tracked(Added(s, c, timeout), cs, c.add, timeout, limit)
  {
    if !Live(s, c.add, timeout) { FreshWindow(s, cs, now, c.add, 0, timeout, limit); }
  }

  /** After a count the key knows of one call more than has been answered in its window. */
  lemma HitLeavesRoom(s: Slot, cs: seq<Counted>, now: int, c: Clock, timeout: nat, limit: nat)
    requires Tracked(s, cs, now, timeout, limit) && timeout > 0 && now <= c.add && Forward(c)
    ensures Tracked(Hits(s, c, timeout), cs, c.reset, timeout, limit)
    ensures CountWindow(cs, Hits(s, c, timeout).created) < Hits(s, c, timeout).count
    ensures Inside(CountedAs(s, c, timeout), timeout)
  {
    AddKeeps(s, cs, now, c, timeout, limit);
    var a := Added(s, c, timeout);
    if !Live(a, c.incr, timeout) { FreshWindow(a, cs, c.add, c.reset, 1, timeout, limit); }
  }

  /** An answered call joins the counts. */
  lemma AnswerKeeps(s: Slot, cs: seq<Counted>, now: int, c: Clock, timeout: nat, limit: nat)
    requires Tracked(s, cs, now, timeout, limit) && timeout > 0 && now <= c.add && Forward(c)
    requires Hits(s, c, timeout).count <= limit
    ensures Tracked(Hits(s, c, timeout), cs + [CountedAs(s, c, timeout)], c.reset, timeout, limit)
  {
    HitLeavesRoom(s, cs, now, c, timeout, limit);
    var h := CountedAs(s, c, timeout);
    var all := cs + [h];
    assert all[..|all| - 1] == cs;
    forall w: int ensures CountWindow(all, w) <= limit { assert CountWindow(cs, w) <= limit; }
    forall i | 0 <= i < |cs| ensures Apart(cs[i], h, timeout) {
      assert Apart(cs[i], Counted(h.created, h.created), timeout);
    }
  }

  lemma RefusalKeeps(s: Slot, cs: seq<Counted>, now: int, c: Clock, reply: Reply, timeout: nat, limit: nat)
    requires Tracked(s, cs, now, timeout, limit) && timeout > 0 && now <= c.add && Forward(c)
    ensures Tracked(AfterHit(s, c, timeout, reply), cs, c.reset, timeout, limit)
  {
    AddKeeps(s, cs, now, c, timeout, limit);
    HitLeavesRoom(s, cs, now, c, timeout, limit);
  }

  lemma Later(s: Slot, cs: seq<Counted>, now: int, then_: int, timeout: nat, limit: nat)
    requires Tracked(s, cs, now, timeout, limit) && now <= then_
    ensures Tracked(s, cs, then_, timeout, limit)
  {
  }

  /** One call keeps both counters in step with what has been answered. */
  lemma CallKeeps(s: State, ws: seq<Counted>, ds: seq<Counted>, now: int, c: Call)
    requires Tracked(s.window, ws, now, WINDOW_SECONDS, WINDOW_LIMIT) && Tracked(s.day, ds, now, DAY_SECONDS, DAY_LIMIT)
    requires now <= c.window.add && Forward(c.window) && c.window.reset <= c.day.add && Forward(c.day)
    ensures Tracked(AfterCall(s, c).window, ws + WindowHit(s, c), c.day.reset, WINDOW_SECONDS, WINDOW_LIMIT)
    ensures Tracked(AfterCall(s, c).day, ds + DayHit(s, c), c.day.reset, DAY_SECONDS, DAY_LIMIT)
  {
    var t := AfterCall(s, c);
    if Answered(s, c) {
      AnswerKeeps(s.window, ws, now, c.window, WINDOW_SECONDS, WINDOW_LIMIT);
      AnswerKeeps(s.day, ds, now, c.day, DAY_SECONDS, DAY_LIMIT);
      Later(t.window, ws + [CountedAs(s.window, c.window, WINDOW_SECONDS)],
        c.window.reset, c.day.reset, WINDOW_SECONDS, WINDOW_LIMIT);
    } else {
      assert ws + [] == ws && ds + [] == ds;
      RefusalKeeps(s.window, ws, now, c.window, c.windowReply, WINDOW_SECONDS, WINDOW_LIMIT);
      Later(t.window, ws, c.window.reset, c.day.reset, WINDOW_SECONDS, WINDOW_LIMIT);
      if InWindow(s, c) {
        RefusalKeeps(s.day, ds, now, c.day, c.dayReply, DAY_SECONDS, DAY_LIMIT);
      } else {
        Later(s.day, ds, now, c.day.reset, DAY_SECONDS, DAY_LIMIT);
      }
    }
  }

  /** The answered calls of a run are those of its first call and those of the rest. */
  lemma Unroll(s: State, ws: seq<Counted>, ds: seq<Counted>, calls: seq<Call>)
    requires calls != []
    ensures ws + WindowCounts(s, calls) ==
      ws + WindowHit(s, calls[0]) + WindowCounts(AfterCall(s, calls[0]), calls[1..])
    ensures ds + DayCounts(s, calls) == ds + DayHit(s, calls[0]) + DayCounts(AfterCall(s, calls[0]), calls[1..])
  {
  }

  ghost predicate BothTracked(s: State, ws: seq<Counted>, ds: seq<Counted>, now: int) {
    Tracked(s.window, ws, now, WINDOW_SECONDS, WINDOW_LIMIT) && Tracked(s.day, ds, now, DAY_SECONDS, DAY_LIMIT)
  }

  ghost predicate BothBounded(ws: seq<Counted>, ds: seq<Counted>) {
    && Spaced(ws, WINDOW_SECONDS) && Limited(ws, WINDOW_LIMIT)
    && Spaced(ds, DAY_SECONDS) && Limited(ds, DAY_LIMIT)
  }

  lemma CallKeepsBoth(s: State, ws: seq<Counted>, ds: seq<Counted>, now: int, calls: seq<Call>)
    returns (ws': seq<Counted>, ds': seq<Counted>)
    requires BothTracked(s, ws, ds, now) && Sequential(now, calls) && calls != []
    ensures BothTracked(AfterCall(s, calls[0]), ws', ds', calls[0].day.reset)
    ensures ws + WindowCounts(s, calls) == ws' + WindowCounts(AfterCall(s, calls[0]), calls[1..])
    ensures ds + DayCounts(s, calls) == ds' + DayCounts(AfterCall(s, calls[0]), calls[1..])
  {
    var c := calls[0];
    ws' := ws + WindowHit(s, c);
    ds' := ds + DayHit(s, c);
    CallKeeps(s, ws, ds, now, c);
    Unroll(s, ws, ds, calls);
  }

  lemma {:induction false} RunKeeps(s: State, ws: seq<Counted>, ds: seq<Counted>, now: int, calls: seq<Call>)
    requires BothTracked(s, ws, ds, now) && Sequential(now, calls)
    ensures BothBounded(ws + WindowCounts(s, calls), ds + DayCounts(s, calls))
    decreases |calls|
  {
    if calls == [] {
      assert ws + [] == ws && ds + [] == ds;
    } else {
      var ws', ds' := CallKeepsBoth(s, ws, ds, now, calls);
      RunKeeps(AfterCall(s, calls[0]), ws', ds', calls[0].day.reset, calls[1..]);
    }
  }

  // ----- Any interval -----

  ghost predicate MeetsOnly(cs: seq<Counted>, lo: int, hi: int, v: int, w: int) {
    forall i :: 0 <= i < |cs| && Between(cs[i], lo, hi) ==> cs[i].created == v || cs[i].created == w
  }

  /** An interval as long as the timeout meets at most two windows. */
  lemma MeetsTwo(cs: seq<Counted>, lo: int, timeout: nat) returns (v: int, w: int)
    requires Spaced(cs, timeout)
    ensures v != w && MeetsOnly(cs, lo, lo + timeout, v, w)
  {
    v, w := 0, 1;
    if i :| 0 <= i < |cs| && Between(cs[i], lo, lo + timeout) {
      v, w := cs[i].created, cs[i].created + 1;
      if j :| 0 <= j < |cs| && Between(cs[j], lo, lo + timeout) && cs[j].created != v {
        w := cs[j].created;
        forall k | 0 <= k < |cs| && Between(cs[k], lo, lo + timeout) ensures cs[k].created == v || cs[k].created == w {
          assert Inside(cs[i], timeout) && Inside(cs[j], timeout) && Inside(cs[k], timeout);
          assert Apart(cs[i], cs[j], timeout) || Apart(cs[j], cs[i], timeout);
          assert i == k || Apart(cs[i], cs[k], timeout) || Apart(cs[k], cs[i], timeout);
          assert j == k || Apart(cs[j], cs[k], timeout) || Apart(cs[k], cs[j], timeout);
        }
      }
    }
  }

  lemma {:induction false} CountsOfTwo(cs: seq<Counted>, lo: int, hi: int, v: int, w: int)
    requires v != w && MeetsOnly(cs, lo, hi, v, w)
    ensures CountBetween(cs, lo, hi) <= CountWindow(cs, v) + CountWindow(cs, w)
  {
    if cs != [] {
      var l := cs[|cs| - 1];
      assert Between(l, lo, hi) ==> l.created == v || l.created == w;
      CountsOfTwo(cs[..|cs| - 1], lo, hi, v, w);
    }
  }

  lemma IntervalBound(cs: seq<Counted>, lo: int, timeout: nat, limit: nat)
    requires Spaced(cs, timeout) && Limited(cs, limit)
    ensures CountBetween(cs, lo, lo + timeout) <= 2 * limit
  {
    var v, w := MeetsTwo(cs, lo, timeout);
    CountsOfTwo(cs, lo, lo + timeout, v, w);
    assert CountWindow(cs, v) <= limit && CountWindow(cs, w) <= limit;
  }

  /** No key was created in the future. */
  predicate Past(s: Slot, now: int) { s.Slot? ==> s.created <= now }

  /** Whatever the cache held before, each window of a run answers at most 30 checks and each day at most 300. */
  lemma RunsWithinLimits(s: State, now: int, calls: seq<Call>)
    requires Past(s.window, now) && Past(s.day, now) && Sequential(now, calls)
    ensures Spaced(WindowCounts(s, calls), WINDOW_SECONDS) && Limited(WindowCounts(s, calls), WINDOW_LIMIT)
    ensures Spaced(DayCounts(s, calls), DAY_SECONDS) && Limited(DayCounts(s, calls), DAY_LIMIT)
  {
    RunKeeps(s, [], [], now, calls);
    assert [] + WindowCounts(s, calls) == WindowCounts(s, calls) && [] + DayCounts(s, calls) == DayCounts(s, calls);
  }

  /** So any 600 seconds hold at most 60 answered checks, and any 86400 seconds at most 600. */
  lemma AnyInterval(s: State, now: int, calls: seq<Call>, lo: int)
    requires Past(s.window, now) && Past(s.day, now) && Sequential(now, calls)
    ensures CountBetween(WindowCounts(s, calls), lo, lo + 600) <= 60
    ensures CountBetween(DayCounts(s, calls), lo, lo + 86400) <= 600
    ensures |WindowCounts(s, calls)| == |DayCounts(s, calls)|
  {
    RunsWithinLimits(s, now, calls);
    IntervalBound(WindowCounts(s, calls), lo, WINDOW_SECONDS, WINDOW_LIMIT);
    IntervalBound(DayCounts(s, calls), lo, DAY_SECONDS, DAY_LIMIT);
    SameCalls(s, calls);
  }

  /** Both sequences list the same answered calls. */
  lemma {:induction false} SameCalls(s: State, calls: seq<Call>)
    ensures |WindowCounts(s, calls)| == |DayCounts(s, calls)|
    decreases |calls|
  {
    if calls != [] { SameCalls(AfterCall(s, calls[0]), calls[1..]); }
  }
}
