// The deferred events of the test driver (tests/rtl/VerilogDriver.h): a wheel of 64 buckets
// against a plain record of requests with due cycles.
module Wheel {

  type Callback = nat

  type Callbacks = seq<Callback>

  datatype Request = Request(delta: nat, cb: Callback)

  // Setup and Capture are the two kinds of periodic events.
  datatype Kind = Setup | Deferred | Capture

  // A callback that was run, and in which cycle.
  datatype Firing = Firing(cycle: nat, kind: Kind, cb: Callback)

  datatype Item = Item(due: nat, cb: Callback)

  // What a callback requests may depend on everything that has run so far, itself included.
  type Reaction = seq<Firing> -> seq<Request>

  const MAX_DELTA: nat := 64

  // ---- The reference: a record of requests ----

  // all holds every request ever made, in order; drained says that the deferred events of the
  // current cycle have been taken.
  datatype Sim = Sim(cycle: nat, drained: bool, all: seq<Item>, log: seq<Firing>)

  // A request for the current cycle that comes after its events were taken waits a whole turn.
  function Due(s: Sim, delta: nat): nat {
    if delta == 0 && s.drained then s.cycle + MAX_DELTA else s.cycle + delta
  }

  function Requested(s: Sim, rs: seq<Request>): Sim {
    if rs == [] then s
    else
      var s1 := Requested(s, rs[..|rs| - 1]);
      var r := rs[|rs| - 1];
      s1.(all := s1.all + [Item(Due(s1, r.delta), r.cb)])
  }

  function Fire(s: Sim, react: Reaction, kind: Kind, cb: Callback): Sim {
    var s1 := s.(log := s.log + [Firing(s.cycle, kind, cb)]);
    Requested(s1, react(s1.log))
  }

  function FireAll(s: Sim, react: Reaction, kind: Kind, cbs: Callbacks): Sim {
    if cbs == [] then s
    else Fire(FireAll(s, react, kind, cbs[..|cbs| - 1]), react, kind, cbs[|cbs| - 1])
  }

  // The requests due in cycle t, in the order they were made.
  function DueIn(all: seq<Item>, t: nat): Callbacks {
    if all == [] then []
    else
      var last := all[|all| - 1];
      DueIn(all[..|all| - 1], t) + (if last.due == t then [last.cb] else [])
  }

  function Cycle(s: Sim, react: Reaction, setup: Callbacks, capture: Callbacks): Sim {
    var s1 := FireAll(s, react, Setup, setup);
    var s2 := FireAll(s1.(drained := true), react, Deferred, DueIn(s1.all, s1.cycle));
    var s3 := FireAll(s2, react, Capture, capture);
    s3.(cycle := s3.cycle + 1, drained := false)
  }

  function Cycles(s: Sim, react: Reaction, setup: Callbacks, capture: Callbacks, n: nat): Sim {
    if n == 0 then s else Cycle(Cycles(s, react, setup, capture, n - 1), react, setup, capture)
  }

  lemma RequestedNext(s: Sim, rs: seq<Request>, i: nat)
    requires i < |rs|
    ensures Requested(s, rs[..i + 1]) == Requested(Requested(s, rs[..i]), [rs[i]])
  {
    assert rs[..i + 1][..i] == rs[..i];
    assert [rs[i]][..0] == [];
  }

  lemma FireAllNext(s: Sim, react: Reaction, kind: Kind, cbs: Callbacks, i: nat)
    requires i < |cbs|
    ensures FireAll(s, react, kind, cbs[..i + 1]) == Fire(FireAll(s, react, kind, cbs[..i]), react, kind, cbs[i])
  {
    assert cbs[..i + 1][..i] == cbs[..i];
  }

  // The first cycle whose events are still to be taken.
  function Front(s: Sim): nat {
    if s.drained then s.cycle + 1 else s.cycle
  }

  // ---- What the reference promises ----

  // The deferred callbacks that ran in cycle t, in order.
  function FiredIn(log: seq<Firing>, t: nat): Callbacks {
    if log == [] then []
    else
      var last := log[|log| - 1];
      FiredIn(log[..|log| - 1], t) + (if last.kind == Deferred && last.cycle == t then [last.cb] else [])
  }

  // In each past cycle ran exactly the requests due in it, each once, in the order of request;
  // nothing has run ahead of its cycle.
  ghost predicate Punctual(s: Sim) {
    && !s.drained
    && (forall t {:trigger FiredIn(s.log, t)} :: 0 <= t < s.cycle ==> FiredIn(s.log, t) == DueIn(s.all, t))
    && (forall t {:trigger FiredIn(s.log, t)} :: s.cycle <= t ==> FiredIn(s.log, t) == [])
  }

  // Requests touch neither the clock nor the log, nor what was due before the front.
  lemma {:induction false} RequestsLater(s: Sim, rs: seq<Request>)
    ensures var r := Requested(s, rs);
            && r.cycle == s.cycle && r.drained == s.drained && r.log == s.log
            && forall t :: 0 <= t < Front(s) ==> DueIn(r.all, t) == DueIn(s.all, t)
  {
    if rs != [] {
      var s1 := Requested(s, rs[..|rs| - 1]);
      RequestsLater(s, rs[..|rs| - 1]);
      assert Requested(s, rs).all[..|s1.all|] == s1.all;
    }
  }

  lemma FireOne(s: Sim, react: Reaction, kind: Kind, cb: Callback)
    ensures var r := Fire(s, react, kind, cb);
            && r.cycle == s.cycle && r.drained == s.drained
            && (forall t :: 0 <= t < Front(s) ==> DueIn(r.all, t) == DueIn(s.all, t))
            && (forall t: nat ::
                  FiredIn(r.log, t) == FiredIn(s.log, t) + (if kind == Deferred && t == s.cycle then [cb] else []))
  {
    var s1 := s.(log := s.log + [Firing(s.cycle, kind, cb)]);
    assert s1.log[..|s.log|] == s.log;
    RequestsLater(s1, react(s1.log));
  }

  lemma {:induction false} KeepsCycle(s: Sim, react: Reaction, kind: Kind, cbs: Callbacks)
    ensures var r := FireAll(s, react, kind, cbs);
            && r.cycle == s.cycle && r.drained == s.drained
            && (forall t :: 0 <= t < Front(s) ==> DueIn(r.all, t) == DueIn(s.all, t))
            && (forall t: nat ::
                  FiredIn(r.log, t) == FiredIn(s.log, t) + (if kind == Deferred && t == s.cycle then cbs else []))
  {
    if cbs != [] {
      var n := |cbs| - 1;
      KeepsCycle(s, react, kind, cbs[..n]);
      FireOne(FireAll(s, react, kind, cbs[..n]), react, kind, cbs[n]);
      assert cbs == cbs[..n] + [cbs[n]];
    }
  }

  lemma CycleKeepsClock(s: Sim, react: Reaction, setup: Callbacks, capture: Callbacks)
    ensures var s1 := FireAll(s, react, Setup, setup);
            var s2 := FireAll(s1.(drained := true), react, Deferred, DueIn(s1.all, s1.cycle));
            var s3 := FireAll(s2, react, Capture, capture);
            && s1.cycle == s.cycle && s1.drained == s.drained
            && s2.cycle == s.cycle && s2.drained && s3.cycle == s.cycle && s3.drained
  {
    var s1 := FireAll(s, react, Setup, setup);
    KeepsCycle(s, react, Setup, setup);
    var due := DueIn(s1.all, s1.cycle);
    KeepsCycle(s1.(drained := true), react, Deferred, due);
    KeepsCycle(FireAll(s1.(drained := true), react, Deferred, due), react, Capture, capture);
  }

  lemma CyclePunctual(s: Sim, react: Reaction, setup: Callbacks, capture: Callbacks)
    requires Punctual(s)
    ensures Punctual(Cycle(s, react, setup, capture)) && Cycle(s, react, setup, capture).cycle == s.cycle + 1
  {
    hide FireAll, DueIn, FiredIn;
    var s1 := FireAll(s, react, Setup, setup);
    KeepsCycle(s, react, Setup, setup);
    var due := DueIn(s1.all, s1.cycle);
    var s2 := FireAll(s1.(drained := true), react, Deferred, due);
    KeepsCycle(s1.(drained := true), react, Deferred, due);
    KeepsCycle(s2, react, Capture, capture);
  }

  function Firings(t: nat, kind: Kind, cbs: Callbacks): (r: seq<Firing>)
    ensures |r| == |cbs|
  {
    seq(|cbs|, i requires 0 <= i < |cbs| => Firing(t, kind, cbs[i]))
  }

  lemma {:induction false} FireAllLog(s: Sim, react: Reaction, kind: Kind, cbs: Callbacks)
    ensures FireAll(s, react, kind, cbs).log == s.log + Firings(s.cycle, kind, cbs)
  {
    if cbs != [] {
      var n := |cbs| - 1;
      FireAllLog(s, react, kind, cbs[..n]);
      KeepsCycle(s, react, kind, cbs[..n]);
      var p := FireAll(s, react, kind, cbs[..n]);
      RequestsLater(p.(log := p.log + [Firing(p.cycle, kind, cbs[n])]), react(p.log + [Firing(p.cycle, kind, cbs[n])]));
      assert Firings(s.cycle, kind, cbs) == Firings(s.cycle, kind, cbs[..n]) + [Firing(s.cycle, kind, cbs[n])];
    }
  }

  // In a cycle run the setup handlers, then the deferred events due in it, then the capture
  // handlers, each once and in the order they were made, and nothing else.
  lemma CycleLog(s: Sim, react: Reaction, setup: Callbacks, capture: Callbacks)
    ensures var t := Cycle(s, react, setup, capture);
            t.log == s.log + Firings(s.cycle, Setup, setup) + Firings(s.cycle, Deferred, DueIn(t.all, s.cycle))
                     + Firings(s.cycle, Capture, capture)
  {
    hide FireAll, DueIn, Firings;
    var s1 := FireAll(s, react, Setup, setup);
    CycleKeepsClock(s, react, setup, capture);
    FireAllLog(s, react, Setup, setup);
    var due := DueIn(s1.all, s1.cycle);
    var s1' := s1.(drained := true);
    FireAllLog(s1', react, Deferred, due);
    KeepsCycle(s1', react, Deferred, due);
    var s2 := FireAll(s1', react, Deferred, due);
    FireAllLog(s2, react, Capture, capture);
    KeepsCycle(s2, react, Capture, capture);
  }

  // ---- The wheel ----

  lemma NothingDue(all: seq<Item>, t: nat)
    requires forall i :: 0 <= i < |all| ==> all[i].due != t
    ensures DueIn(all, t) == []
  {
  }

  // t and u share a bucket only when they are a whole turn apart.
  lemma OneTurn(t: nat, u: nat, front: nat)
    requires front <= t < front + 64 && front <= u < front + 64 && t % 64 == u % 64
    ensures t == u
  {
  }

  class Driver {
    const buckets: array<Callbacks>
    var cycleNum: nat
    var setup: Callbacks
    var capture: Callbacks
    // The callbacks themselves and what they have done so far.
    const react: Reaction
    var log: seq<Firing>
    ghost var drained: bool
    ghost var all: seq<Item>

    ghost function View(): Sim
      reads this
    {
      Sim(cycleNum, drained, all, log)
    }

    // Each of the next 64 cycles has its events in its own bucket, and nothing is due later.
    ghost predicate Valid()
      reads this, buckets
    {
      && buckets.Length == 64
      && (forall t {:trigger DueIn(all, t)} ::
            Front(View()) <= t < Front(View()) + 64 ==> buckets[t % 64] == DueIn(all, t))
      && (forall i :: 0 <= i < |all| ==> all[i].due < Front(View()) + 64)
      && (forall l, i :: 0 <= i < |react(l)| ==> react(l)[i].delta < MAX_DELTA)
    }

    constructor (react: Reaction)
      requires forall l, i :: 0 <= i < |react(l)| ==> react(l)[i].delta < MAX_DELTA
      ensures Valid() && fresh(buckets) && this.react == react
      ensures View() == Sim(0, false, [], []) && setup == [] && capture == []
    {
      this.react := react;
      buckets := new Callbacks[64](_ => []);
      cycleNum, setup, capture, log := 0, [], [], [];
      drained, all := false, [];
    }

    method Periodic(kind: Kind, cb: Callback)
      requires Valid() && kind != Deferred
      modifies this`setup, this`capture
      ensures Valid()
      ensures setup == if kind == Setup then old(setup) + [cb] else old(setup)
      ensures capture == if kind == Capture then old(capture) + [cb] else old(capture)
    {
      if kind == Setup {
        setup := setup + [cb];
      } else {
        capture := capture + [cb];
      }
    }

    method AtCycle(target: nat, cb: Callback)
      requires Valid() && cycleNum <= target < cycleNum + MAX_DELTA
      modifies this`all, buckets
      ensures Valid()
      ensures View() == Requested(old(View()), [Request(target - cycleNum, cb)])
    {
      ghost var was, due := all, Due(View(), target - cycleNum);
      buckets[target % 64] := buckets[target % 64] + [cb];
      all := all + [Item(due, cb)];
      assert all[..|was|] == was;
      assert due % 64 == target % 64;
      forall t {:trigger DueIn(all, t)} | Front(View()) <= t < Front(View()) + 64
        ensures buckets[t % 64] == DueIn(all, t)
      {
        assert old(buckets[t % 64]) == DueIn(was, t);
        if t % 64 == due % 64 { OneTurn(t, due, Front(View())); }
      }
    }

    method AfterNCycles(delta: nat, cb: Callback)
      requires Valid() && delta < MAX_DELTA
      modifies this`all, buckets
      ensures Valid()
      ensures View() == Requested(old(View()), [Request(delta, cb)])
    {
      AtCycle(cycleNum + delta, cb);
    }

    // Run one callback, which makes its requests.
    method Call(kind: Kind, cb: Callback)
      requires Valid()
      modifies this`log, this`all, buckets
      ensures Valid()
      ensures View() == Fire(old(View()), react, kind, cb)
    {
      log := log + [Firing(cycleNum, kind, cb)];
      var rs := react(log);
      ghost var s := View();
      var i := 0;
      assert rs[..0] == [];
      while i < |rs|
        invariant i <= |rs| && Valid() && View() == Requested(s, rs[..i])
        invariant log == s.log
      {
        AfterNCycles(rs[i].delta, rs[i].cb);
        RequestedNext(s, rs, i);
        i := i + 1;
      }
      assert rs[..|rs|] == rs;
    }

    method RunPeriodicEvents(kind: Kind)
      requires Valid() && kind != Deferred
      modifies this`log, this`all, buckets
      ensures Valid()
      ensures View() == FireAll(old(View()), react, kind, if kind == Setup then setup else capture)
    {
      var events := if kind == Setup then setup else capture;
      CallEach(kind, events);
    }

    method CallEach(kind: Kind, events: Callbacks)
      requires Valid()
      modifies this`log, this`all, buckets
      ensures Valid()
      ensures View() == FireAll(old(View()), react, kind, events)
    {
      var i := 0;
      while i < |events|
        invariant i <= |events| && Valid()
        invariant View() == FireAll(old(View()), react, kind, events[..i])
      {
        Call(kind, events[i]);
        FireAllNext(old(View()), react, kind, events, i);
        i := i + 1;
      }
      assert events[..|events|] == events;
    }

    method RunDeferredEvents()
      requires Valid() && !drained
      modifies this`log, this`all, this`drained, buckets
      ensures Valid() && drained
      ensures var s := old(View());
              View() == FireAll(s.(drained := true), react, Deferred, DueIn(s.all, s.cycle))
    {
      var idx := cycleNum % 64;
      var events := buckets[idx];
      assert events == DueIn(all, cycleNum);
      buckets[idx] := [];
      drained := true;
      NothingDue(all, cycleNum + 64);
      forall t {:trigger DueIn(all, t)} | Front(View()) <= t < Front(View()) + 64
        ensures buckets[t % 64] == DueIn(all, t)
      {
        if t < cycleNum + 64 && t % 64 == idx { OneTurn(t, cycleNum, cycleNum); }
      }
      CallEach(Deferred, events);
    }

    // The body of cycle's loop; of the ten evaluations of the design only the first runs events.
    method OneCycle()
      requires Valid() && !drained
      modifies this`log, this`all, this`drained, this`cycleNum, buckets
      ensures Valid() && !drained
      ensures View() == Cycle(old(View()), react, setup, capture)
    {
      hide FireAll, DueIn;
      CycleKeepsClock(View(), react, setup, capture);
      RunPeriodicEvents(Setup);
      RunDeferredEvents();
      RunPeriodicEvents(Capture);
      cycleNum := cycleNum + 1;
      drained := false;
    }

    method RunCycles(count: nat)
      requires Valid() && !drained
      modifies this`log, this`all, this`drained, this`cycleNum, buckets
      ensures Valid() && !drained
      ensures View() == Cycles(old(View()), react, setup, capture, count)
    {
      hide Cycle, Valid;
      for i := 0 to count
        invariant Valid() && !drained
        invariant View() == Cycles(old(View()), react, setup, capture, i)
      {
        OneCycle();
      }
    }
  }

  // ---- Runs of the driver ----

  // Between calls of cycle the test program makes requests of its own.
  datatype Step = Ask(r: Request) | Run(count: nat)

  function Driven(s: Sim, react: Reaction, setup: Callbacks, capture: Callbacks, steps: seq<Step>): Sim
    decreases |steps|
  {
    if steps == [] then s
    else
      var s1 := match steps[0] case Ask(r) => Requested(s, [r]) case Run(n) => Cycles(s, react, setup, capture, n);
      Driven(s1, react, setup, capture, steps[1..])
  }

  lemma {:induction false} CyclesPunctual(s: Sim, react: Reaction, setup: Callbacks, capture: Callbacks, n: nat)
    requires Punctual(s)
    ensures Punctual(Cycles(s, react, setup, capture, n)) && Cycles(s, react, setup, capture, n).cycle == s.cycle + n
  {
    if n > 0 {
      CyclesPunctual(s, react, setup, capture, n - 1);
      CyclePunctual(Cycles(s, react, setup, capture, n - 1), react, setup, capture);
    }
  }

  lemma {:induction false} DrivenPunctual(s: Sim, react: Reaction, setup: Callbacks, capture: Callbacks, steps: seq<Step>)
    requires Punctual(s)
    ensures Punctual(Driven(s, react, setup, capture, steps))
    decreases |steps|
  {
    if steps != [] {
      match steps[0]
      case Ask(r) =>
        RequestsLater(s, [r]);
        DrivenPunctual(Requested(s, [r]), react, setup, capture, steps[1..]);
      case Run(n) =>
        CyclesPunctual(s, react, setup, capture, n);
        DrivenPunctual(Cycles(s, react, setup, capture, n), react, setup, capture, steps[1..]);
    }
  }

  lemma {:induction false} DuePrefix(all: seq<Item>, i: nat, t: nat)
    requires i <= |all|
    ensures DueIn(all[..i], t) <= DueIn(all, t)
  {
    if i == |all| {
      assert all[..i] == all;
    } else {
      DuePrefix(all[..|all| - 1], i, t);
      assert all[..|all| - 1][..i] == all[..i];
    }
  }

  // The callback cb ran in the given cycle, at the given place among its deferred events.
  ghost predicate RanAt(log: seq<Firing>, cycle: nat, place: nat, cb: Callback) {
    place < |FiredIn(log, cycle)| && FiredIn(log, cycle)[place] == cb
  }

  // Once its due cycle is past, a request has run in that cycle, behind the requests for the
  // same cycle that were made before it; and it is in no other cycle's events.
  lemma RequestServed(s: Sim, i: nat)
    requires Punctual(s) && i < |s.all| && s.all[i].due < s.cycle
    ensures RanAt(s.log, s.all[i].due, |DueIn(s.all[..i], s.all[i].due)|, s.all[i].cb)
    ensures forall t: nat :: t != s.all[i].due ==> DueIn(s.all[..i + 1], t) == DueIn(s.all[..i], t)
  {
    assert s.all[..i + 1][..i] == s.all[..i];
    DuePrefix(s.all, i + 1, s.all[i].due);
    assert FiredIn(s.log, s.all[i].due) == DueIn(s.all, s.all[i].due);
  }

  // No two requests have the same cycle and place.
  lemma PlacesDistinct(all: seq<Item>, i: nat, j: nat)
    requires i < j < |all| && all[i].due == all[j].due
    ensures |DueIn(all[..i], all[i].due)| < |DueIn(all[..j], all[j].due)|
  {
    assert all[..i + 1][..i] == all[..i];
    assert all[..j][..i + 1] == all[..i + 1];
    DuePrefix(all[..j], i + 1, all[i].due);
  }

  lemma RequestAt(all: seq<Item>, t: nat, place: nat) returns (i: nat)
    requires place < |DueIn(all, t)|
    ensures i < |all| && all[i].due == t && |DueIn(all[..i], t)| == place && all[i].cb == DueIn(all, t)[place]
  {
    var n := |all| - 1;
    if place < |DueIn(all[..n], t)| {
      i := RequestAt(all[..n], t, place);
      assert all[..n][..i] == all[..i];
    } else {
      i := n;
    }
  }

  // Every deferred event that ran was requested: the request at its cycle and place.
  lemma FiringRequested(s: Sim, t: nat, place: nat) returns (i: nat)
    requires Punctual(s) && t < s.cycle && place < |FiredIn(s.log, t)|
    ensures i < |s.all| && s.all[i].due == t && |DueIn(s.all[..i], t)| == place
    ensures s.all[i].cb == FiredIn(s.log, t)[place]
  {
    assert FiredIn(s.log, t) == DueIn(s.all, t);
    i := RequestAt(s.all, t, place);
  }

  // ---- A request once made stays on record ----

  lemma {:induction false} RequestsKept(s: Sim, rs: seq<Request>, i: nat)
    requires i <= |rs|
    ensures Requested(s, rs[..i]).all <= Requested(s, rs).all && s.all <= Requested(s, rs).all
  {
    if i == |rs| {
      assert rs[..i] == rs;
    }
    if rs != [] {
      var n := |rs| - 1;
      RequestsKept(s, rs[..n], if i <= n then i else n);
      if i <= n { assert rs[..n][..i] == rs[..i]; }
    }
  }

  lemma {:induction false} FiringsKept(s: Sim, react: Reaction, kind: Kind, cbs: Callbacks, i: nat)
    requires i <= |cbs|
    ensures FireAll(s, react, kind, cbs[..i]).all <= FireAll(s, react, kind, cbs).all
    ensures s.all <= FireAll(s, react, kind, cbs).all
  {
    if i == |cbs| {
      assert cbs[..i] == cbs;
    }
    if cbs != [] {
      var n := |cbs| - 1;
      FiringsKept(s, react, kind, cbs[..n], if i <= n then i else n);
      if i <= n { assert cbs[..n][..i] == cbs[..i]; }
      var s1 := FireAll(s, react, kind, cbs[..n]);
      var s2 := s1.(log := s1.log + [Firing(s1.cycle, kind, cbs[n])]);
      RequestsKept(s2, react(s2.log), 0);
    }
  }

  // The state when the callbacks of a kind begin to run in a cycle, and those callbacks.
  function PhaseStart(s: Sim, react: Reaction, setup: Callbacks, kind: Kind): Sim {
    var drained := FireAll(s, react, Setup, setup).(drained := true);
    match kind
    case Setup => s
    case Deferred => drained
    case Capture => FireAll(drained, react, Deferred, DueIn(drained.all, drained.cycle))
  }

  function PhaseCallbacks(s: Sim, react: Reaction, setup: Callbacks, capture: Callbacks, kind: Kind): Callbacks {
    match kind
    case Setup => setup
    case Deferred => var d := PhaseStart(s, react, setup, Deferred); DueIn(d.all, d.cycle)
    case Capture => capture
  }

  lemma PhaseKept(s: Sim, react: Reaction, setup: Callbacks, capture: Callbacks, kind: Kind)
    ensures FireAll(PhaseStart(s, react, setup, kind), react, kind, PhaseCallbacks(s, react, setup, capture, kind)).all
            <= Cycle(s, react, setup, capture).all
    ensures s.all <= Cycle(s, react, setup, capture).all
  {
    hide FireAll, DueIn;
    var d, c := PhaseStart(s, react, setup, Deferred), PhaseStart(s, react, setup, Capture);
    FiringsKept(s, react, Setup, setup, 0);
    FiringsKept(d, react, Deferred, DueIn(d.all, d.cycle), 0);
    FiringsKept(c, react, Capture, capture, 0);
  }

  lemma {:induction false} CyclesKept(s: Sim, react: Reaction, setup: Callbacks, capture: Callbacks, n: nat)
    ensures s.all <= Cycles(s, react, setup, capture, n).all
  {
    hide Cycle;
    if n > 0 {
      CyclesKept(s, react, setup, capture, n - 1);
      PhaseKept(Cycles(s, react, setup, capture, n - 1), react, setup, capture, Setup);
    }
  }

  lemma {:induction false} DrivenKept(s: Sim, react: Reaction, setup: Callbacks, capture: Callbacks, steps: seq<Step>)
    ensures s.all <= Driven(s, react, setup, capture, steps).all
    decreases |steps|
  {
    hide Cycles;
    if steps != [] {
      match steps[0]
      case Ask(r) =>
        RequestsKept(s, [r], 0);
        DrivenKept(Requested(s, [r]), react, setup, capture, steps[1..]);
      case Run(n) =>
        CyclesKept(s, react, setup, capture, n);
        DrivenKept(Cycles(s, react, setup, capture, n), react, setup, capture, steps[1..]);
    }
  }

  lemma CycleLater(s: Sim, react: Reaction, setup: Callbacks, capture: Callbacks)
    requires !s.drained
    ensures forall t :: 0 <= t < s.cycle ==> DueIn(Cycle(s, react, setup, capture).all, t) == DueIn(s.all, t)
    ensures DueIn(Cycle(s, react, setup, capture).all, s.cycle)
         == DueIn(PhaseStart(s, react, setup, Deferred).all, s.cycle)
  {
    hide FireAll, DueIn;
    var d, c := PhaseStart(s, react, setup, Deferred), PhaseStart(s, react, setup, Capture);
    KeepsCycle(s, react, Setup, setup);
    KeepsCycle(d, react, Deferred, DueIn(d.all, d.cycle));
    KeepsCycle(c, react, Capture, capture);
  }

  // What is due in a past cycle never changes again.
  lemma {:induction false} CyclesLater(s: Sim, react: Reaction, setup: Callbacks, capture: Callbacks, n: nat)
    requires Punctual(s)
    ensures forall t :: 0 <= t < s.cycle ==> DueIn(Cycles(s, react, setup, capture, n).all, t) == DueIn(s.all, t)
  {
    hide Cycle;
    if n > 0 {
      CyclesLater(s, react, setup, capture, n - 1);
      CyclesPunctual(s, react, setup, capture, n - 1);
      CycleLater(Cycles(s, react, setup, capture, n - 1), react, setup, capture);
    }
  }

  lemma {:induction false} DrivenLater(s: Sim, react: Reaction, setup: Callbacks, capture: Callbacks, steps: seq<Step>)
    requires Punctual(s)
    ensures forall t :: 0 <= t < s.cycle ==> DueIn(Driven(s, react, setup, capture, steps).all, t) == DueIn(s.all, t)
    decreases |steps|
  {
    hide Cycles;
    if steps != [] {
      match steps[0]
      case Ask(r) =>
        RequestsLater(s, [r]);
        DrivenLater(Requested(s, [r]), react, setup, capture, steps[1..]);
      case Run(n) =>
        CyclesLater(s, react, setup, capture, n);
        CyclesPunctual(s, react, setup, capture, n);
        DrivenLater(Cycles(s, react, setup, capture, n), react, setup, capture, steps[1..]);
    }
  }

  // ---- When a request runs ----

  // A recorded request with all requests before it.
  lemma Recorded(before: seq<Item>, item: Item, t: Sim)
    requires Punctual(t) && before + [item] <= t.all
    ensures item.due < t.cycle ==> RanAt(t.log, item.due, |DueIn(before, item.due)|, item.cb)
  {
    assert t.all[|before|] == item && t.all[..|before|] == before;
    if item.due < t.cycle { RequestServed(t, |before|); }
  }

  // A request made between cycles runs exactly r.delta cycles later, behind all requests for
  // that cycle made before it, whatever is requested afterwards.
  lemma RequestFires(s: Sim, r: Request, react: Reaction, setup: Callbacks, capture: Callbacks, steps: seq<Step>)
    requires Punctual(s)
    ensures var t, due := Driven(Requested(s, [r]), react, setup, capture, steps), s.cycle + r.delta;
            due < t.cycle ==> RanAt(t.log, due, |DueIn(s.all, due)|, r.cb)
  {
    hide Driven, DueIn, FiredIn;
    var s1 := Requested(s, [r]);
    RequestsLater(s, [r]);
    DrivenPunctual(s1, react, setup, capture, steps);
    DrivenKept(s1, react, setup, capture, steps);
    var t := Driven(s1, react, setup, capture, steps);
    assert [r][..0] == [];
    assert s1.all == s.all + [Item(s.cycle + r.delta, r.cb)];
    Recorded(s.all, Item(s.cycle + r.delta, r.cb), t);
  }

  // The state in which the n-th callback of a kind has been called in the cycle from s, and the
  // state in which it makes its j-th request.
  function Called(s: Sim, react: Reaction, setup: Callbacks, capture: Callbacks, kind: Kind, n: nat): Sim
    requires n < |PhaseCallbacks(s, react, setup, capture, kind)|
  {
    var cbs := PhaseCallbacks(s, react, setup, capture, kind);
    var p := FireAll(PhaseStart(s, react, setup, kind), react, kind, cbs[..n]);
    p.(log := p.log + [Firing(p.cycle, kind, cbs[n])])
  }

  ghost predicate Makes(s: Sim, react: Reaction, setup: Callbacks, capture: Callbacks, kind: Kind, n: nat, j: nat,
                        r: Request)
  {
    && n < |PhaseCallbacks(s, react, setup, capture, kind)|
    && var rs := react(Called(s, react, setup, capture, kind, n).log);
       j < |rs| && rs[j] == r
  }

  function Asking(s: Sim, react: Reaction, setup: Callbacks, capture: Callbacks, kind: Kind, n: nat, j: nat): Sim
    requires n < |PhaseCallbacks(s, react, setup, capture, kind)|
    requires j <= |react(Called(s, react, setup, capture, kind, n).log)|
  {
    var m := Called(s, react, setup, capture, kind, n);
    Requested(m, react(m.log)[..j])
  }

  lemma PhaseClock(s: Sim, react: Reaction, setup: Callbacks, kind: Kind)
    requires !s.drained
    ensures var p, d := PhaseStart(s, react, setup, kind), PhaseStart(s, react, setup, Deferred);
            && p.cycle == s.cycle && p.drained == (kind != Setup)
            && (kind != Setup ==> DueIn(p.all, s.cycle) == DueIn(d.all, s.cycle))
  {
    hide FireAll, DueIn;
    var d := PhaseStart(s, react, setup, Deferred);
    KeepsCycle(s, react, Setup, setup);
    KeepsCycle(d, react, Deferred, DueIn(d.all, d.cycle));
  }

  // The request is recorded with a due cycle, and stays on record through the cycle.
  lemma AskKept(s: Sim, react: Reaction, setup: Callbacks, capture: Callbacks, kind: Kind, n: nat, j: nat,
                r: Request)
    requires !s.drained && Makes(s, react, setup, capture, kind, n, j, r)
    ensures var b := Asking(s, react, setup, capture, kind, n, j);
            && b.cycle == s.cycle && b.drained == (kind != Setup)
            && b.all + [Item(Due(b, r.delta), r.cb)] <= Cycle(s, react, setup, capture).all
    ensures kind != Setup ==> var d := PhaseStart(s, react, setup, Deferred);
                              DueIn(Asking(s, react, setup, capture, kind, n, j).all, s.cycle) == DueIn(d.all, s.cycle)
  {
    hide Cycle, DueIn, FiredIn;
    var start, cbs := PhaseStart(s, react, setup, kind), PhaseCallbacks(s, react, setup, capture, kind);
    PhaseClock(s, react, setup, kind);
    KeepsCycle(start, react, kind, cbs[..n]);
    var m := Called(s, react, setup, capture, kind, n);
    var rs := react(m.log);
    RequestsLater(m, rs[..j]);
    RequestedNext(m, rs, j);
    assert [r][..0] == [];
    RequestsKept(m, rs, j + 1);
    FireAllNext(start, react, kind, cbs, n);
    FiringsKept(start, react, kind, cbs, n + 1);
    PhaseKept(s, react, setup, capture, kind);
  }

  // A request made by a callback in the cycle from s runs r.delta cycles later, except that one
  // for the current cycle from a deferred or a capture callback runs 64 cycles later.
  lemma CallbackRequestFires(s: Sim, react: Reaction, setup: Callbacks, capture: Callbacks, kind: Kind, n: nat,
                             j: nat, r: Request, steps: seq<Step>)
    requires Punctual(s) && Makes(s, react, setup, capture, kind, n, j, r)
    ensures var t := Driven(Cycle(s, react, setup, capture), react, setup, capture, steps);
            var due := s.cycle + (if r.delta == 0 && kind != Setup then 64 else r.delta);
            due < t.cycle ==> RanAt(t.log, due, |DueIn(Asking(s, react, setup, capture, kind, n, j).all, due)|, r.cb)
  {
    hide Cycle, Driven, DueIn, FiredIn, Asking;
    var s1 := Cycle(s, react, setup, capture);
    AskKept(s, react, setup, capture, kind, n, j, r);
    CyclePunctual(s, react, setup, capture);
    DrivenPunctual(s1, react, setup, capture, steps);
    DrivenKept(s1, react, setup, capture, steps);
    var b := Asking(s, react, setup, capture, kind, n, j);
    Recorded(b.all, Item(Due(b, r.delta), r.cb), Driven(s1, react, setup, capture, steps));
  }

  // So it runs in the cycle it asked for if and only if the distance is not 0 or the callback is
  // a setup handler.
  lemma OnTimeIff(s: Sim, react: Reaction, setup: Callbacks, capture: Callbacks, kind: Kind, n: nat, j: nat,
                  r: Request, steps: seq<Step>)
    requires Punctual(s) && Makes(s, react, setup, capture, kind, n, j, r)
    requires s.cycle + r.delta < Driven(Cycle(s, react, setup, capture), react, setup, capture, steps).cycle
    ensures var t, asked := Driven(Cycle(s, react, setup, capture), react, setup, capture, steps), s.cycle + r.delta;
            RanAt(t.log, asked, |DueIn(Asking(s, react, setup, capture, kind, n, j).all, asked)|, r.cb)
            <==> r.delta > 0 || kind == Setup
  {
    hide Cycle, Driven, DueIn, FiredIn, Asking;
    if r.delta > 0 || kind == Setup {
      CallbackRequestFires(s, react, setup, capture, kind, n, j, r, steps);
    } else {
      var s1 := Cycle(s, react, setup, capture);
      AskKept(s, react, setup, capture, kind, n, j, r);
      CyclePunctual(s, react, setup, capture);
      CycleLater(s, react, setup, capture);
      DrivenPunctual(s1, react, setup, capture, steps);
      DrivenLater(s1, react, setup, capture, steps);
      assert FiredIn(Driven(s1, react, setup, capture, steps).log, s.cycle)
          == DueIn(Driven(s1, react, setup, capture, steps).all, s.cycle);
    }
  }

  // Callback 1, deferred to cycle 0, asks for callback 2 in the same cycle.
  const CHAINED: Reaction := log => if log == [Firing(0, Deferred, 1)] then [Request(0, 2)] else []

  lemma LateEventRuns(s: Sim)
    requires s == Sim(0, false, [Item(0, 1)], [])
    requires DueIn(s.all, 0) == [1] && DueIn(s.all, 64) == [] && Punctual(s)
    requires PhaseStart(s, CHAINED, [], Deferred) == s.(drained := true)
    requires Makes(s, CHAINED, [], [], Deferred, 0, 0, Request(0, 2))
    ensures var t := Driven(Cycle(s, CHAINED, [], []), CHAINED, [], [], [Run(64)]);
            FiredIn(t.log, 0) == [1] && RanAt(t.log, 64, 0, 2)
  {
    hide Cycle, Cycles, FiredIn;
    var s1 := Cycle(s, CHAINED, [], []);
    var t := Driven(s1, CHAINED, [], [], [Run(64)]);
    CyclePunctual(s, CHAINED, [], []);
    CycleLater(s, CHAINED, [], []);
    DrivenPunctual(s1, CHAINED, [], [], [Run(64)]);
    DrivenLater(s1, CHAINED, [], [], [Run(64)]);
    CyclesPunctual(s1, CHAINED, [], [], 64);
    assert [Run(64)][1..] == [];
    assert t == Cycles(s1, CHAINED, [], [], 64);
    assert FiredIn(t.log, 0) == DueIn(t.all, 0);
    CallbackRequestFires(s, CHAINED, [], [], Deferred, 0, 0, Request(0, 2), [Run(64)]);
    var m := Called(s, CHAINED, [], [], Deferred, 0);
    assert CHAINED(m.log)[..0] == [] && [1][..0] == [];
    assert Asking(s, CHAINED, [], [], Deferred, 0, 0).all == s.all;
  }

  // A concrete late event: callback 2 does not run in cycle 0 but in cycle 64.
  lemma LateEvent()
    ensures var s := Requested(Sim(0, false, [], []), [Request(0, 1)]);
            var t := Driven(Cycle(s, CHAINED, [], []), CHAINED, [], [], [Run(64)]);
            FiredIn(t.log, 0) == [1] && RanAt(t.log, 64, 0, 2)
  {
    var start := Sim(0, false, [], []);
    var s := Requested(start, [Request(0, 1)]);
    assert [Request(0, 1)][..0] == [];
    assert s == start.(all := [Item(0, 1)]);
    var d := PhaseStart(s, CHAINED, [], Deferred);
    assert s.all[..0] == [];
    assert d == s.(drained := true) && DueIn(s.all, 0) == [1] && DueIn(s.all, 64) == [];
    var m := Called(s, CHAINED, [], [], Deferred, 0);
    assert [1][..0] == [];
    assert m.log == [Firing(0, Deferred, 1)];
    LateEventRuns(s);
  }
}
