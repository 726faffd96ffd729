/** The holds that pause a streamed answer (gateway/e2e/e2e/stream-stub.ts).  `arm` and the part of
    `pause` before its `await` run without interruption; what follows the `await` is a step of its
    own, which may come once the hold is released or the safety timer has fired. */
module StreamHolds {
  import opened Wrappers

  const HOLD_SAFETY_MS := 15000

  /** One call of `pause` that found a hold; `deadline` is when its timer fires. */
  datatype Pause = Pause(hold: nat, deadline: int, done: bool)

  /** Holds are numbered in the order in which they are armed. */
  datatype State = State(
    armed: nat,
    pending: seq<nat>,
    begun: seq<Pause>,
    reached: set<nat>,
    released: set<nat>,
    held: int,
    now: int)

  datatype Event = Arm(count: int) | BeginPause | Release(hold: nat) | Resume(pause: nat) | Tick(ms: nat)

  const INITIAL := State(0, [], [], {}, {}, 0, 0)

  function From(lo: nat, count: nat): (s: seq<nat>)
    ensures |s| == count && forall i :: 0 <= i < count ==> s[i] == lo + i
  {
    seq(count, i requires 0 <= i => lo + i)
  }

  /** Whether the race of pause `k` is settled and the pause not yet over. */
  predicate CanResume(s: State, k: nat) {
    k < |s.begun| && !s.begun[k].done && (s.begun[k].hold in s.released || s.begun[k].deadline <= s.now)
  }

  function Step(s: State, e: Event): State {
    match e
    case Arm(count) =>
      var n := if count < 0 then 0 else count;
      s.(armed := s.armed + n, pending := s.pending + From(s.armed, n))
    case BeginPause =>
      if s.pending == [] then s
      else s.(pending := s.pending[1..], begun := s.begun + [Pause(s.pending[0], s.now + HOLD_SAFETY_MS, false)],
              reached := s.reached + {s.pending[0]}, held := s.held + 1)
    case Release(hold) => if hold < s.armed then s.(released := s.released + {hold}) else s
    case Resume(k) =>
      if CanResume(s, k) then s.(begun := s.begun[k := s.begun[k].(done := true)], held := s.held - 1) else s
    case Tick(ms) => s.(now := s.now + ms)
  }

  function Run(events: seq<Event>): State {
    if events == [] then INITIAL else Step(Run(events[..|events| - 1]), events[|events| - 1])
  }

  /** How many begun pauses are not over. */
  function Open(begun: seq<Pause>): nat {
    if begun == [] then 0
    else Open(begun[..|begun| - 1]) + (if begun[|begun| - 1].done then 0 else 1)
  }

  lemma {:induction false} OpenAfter(begun: seq<Pause>, k: nat)
    requires k < |begun| && !begun[k].done
    ensures Open(begun[k := begun[k].(done := true)]) == Open(begun) - 1
  {
    var n, after := |begun| - 1, begun[k := begun[k].(done := true)];
    if k == n {
      assert after[..n] == begun[..n];
    } else {
      assert after[..n] == begun[..n][k := begun[k].(done := true)];
      OpenAfter(begun[..n], k);
    }
  }

  /** The holds taken so far, followed by those still queued, are all holds in arming order; the
      reached ones are the taken ones; the counter is the number of open pauses; and a pause that is
      over had its own hold released or its own timer fired. */
  ghost predicate Inv(s: State) {
    && s.armed == |s.begun| + |s.pending|
    && (forall k :: 0 <= k < |s.begun| ==> s.begun[k].hold == k)
    && (forall k :: 0 <= k < |s.pending| ==> s.pending[k] == |s.begun| + k)
    && (forall h :: h in s.reached <==> 0 <= h < |s.begun|)
    && s.held == Open(s.begun)
    && (forall k :: 0 <= k < |s.begun| && s.begun[k].done ==> k in s.released || s.begun[k].deadline <= s.now)
    && (forall k :: 0 <= k < |s.begun| ==> s.begun[k].deadline <= s.now + HOLD_SAFETY_MS)
    && (forall h :: h in s.released ==> h < s.armed)
  }

  lemma StepKeepsInv(s: State, e: Event)
    requires Inv(s)
    ensures Inv(Step(s, e))
  {
    if e.BeginPause? && s.pending != [] {
      var t := Step(s, e);
      assert t.begun[..|t.begun| - 1] == s.begun;
    } else if e.Resume? && CanResume(s, e.pause) {
      OpenAfter(s.begun, e.pause);
    }
  }

  /** In every interleaving of arming, pausing, releasing, resuming and time passing: the k-th
      pause that finds a hold has the k-th armed hold, a hold is reached exactly once a pause has
      taken it, armed = taken + queued, and the counter counts exactly the pauses that are begun and
      not over, so it is never negative. */
  lemma {:induction false} EveryInterleaving(events: seq<Event>)
    ensures Inv(Run(events)) && 0 <= Run(events).held
  {
    if events == [] {
    } else {
      EveryInterleaving(events[..|events| - 1]);
      StepKeepsInv(Run(events[..|events| - 1]), events[|events| - 1]);
    }
  }

  /** A settled pause can always finish, whatever the others wait for, and finishing it changes
      nothing else; one whose race is not settled cannot. */
  lemma ResumeIsIndependent(events: seq<Event>, k: nat)
    requires k < |Run(events).begun| && !Run(events).begun[k].done
    ensures var s := Run(events); var t := Step(s, Resume(k));
      && (CanResume(s, k) <==> k in s.released || s.begun[k].deadline <= s.now)
      && (CanResume(s, k) ==> t.begun[k].done && t.held == s.held - 1)
      && (!CanResume(s, k) ==> t == s)
      && (forall j :: 0 <= j < |s.begun| && j != k ==>
            t.begun[j] == s.begun[j] && (CanResume(t, j) <==> CanResume(s, j)))
  {
    EveryInterleaving(events);
  }

  /** `held()` tells whether some pause is open. */
  lemma {:induction false} OpenMeansSome(begun: seq<Pause>)
    ensures Open(begun) > 0 <==> exists k :: 0 <= k < |begun| && !begun[k].done
  {
    if begun == [] {
    } else {
      var n := |begun| - 1;
      OpenMeansSome(begun[..n]);
      if Open(begun[..n]) > 0 {
        var k :| 0 <= k < n && !begun[..n][k].done;
        assert !begun[k].done;
      } else if !begun[n].done {
        assert exists k :: 0 <= k < |begun| && !begun[k].done;
      } else {
        assert forall k :: 0 <= k < n ==> begun[k] == begun[..n][k];
      }
    }
  }

  /** Letting the safety time pass and resuming everything. */
  function Drain(begun: nat): seq<Event> {
    if begun == 0 then [Tick(HOLD_SAFETY_MS)] else Drain(begun - 1) + [Resume(begun - 1)]
  }

  /** `t` is `s` with the safety time passed and at least the first `n` pauses over. */
  ghost predicate Drained(s: State, t: State, n: nat) {
    && |t.begun| == |s.begun| && t.now == s.now + HOLD_SAFETY_MS
    && (forall k :: 0 <= k < n && k < |t.begun| ==> t.begun[k].done)
    && (forall k :: 0 <= k < |s.begun| ==> t.begun[k].deadline == s.begun[k].deadline)
  }

  lemma DrainOne(s: State, t: State, n: nat)
    requires Inv(s) && Drained(s, t, n) && n < |s.begun|
    ensures Drained(s, Step(t, Resume(n)), n + 1)
  {
  }

  lemma RunMore(events: seq<Event>, more: seq<Event>, e: Event)
    ensures Run(events + (more + [e])) == Step(Run(events + more), e)
  {
    var all := events + (more + [e]);
    assert all[..|all| - 1] == events + more && all[|all| - 1] == e;
  }

  lemma {:induction false} DrainSome(events: seq<Event>, n: nat)
    requires n <= |Run(events).begun|
    ensures Drained(Run(events), Run(events + Drain(n)), n)
  {
    EveryInterleaving(events);
    if n == 0 {
      RunMore(events, [], Tick(HOLD_SAFETY_MS));
      assert events + [] == events;
    } else {
      DrainSome(events, n - 1);
      RunMore(events, Drain(n - 1), Resume(n - 1));
      DrainOne(Run(events), Run(events + Drain(n - 1)), n - 1);
    }
  }

  /** No test can leave a stream waiting for ever: from every reachable state, with no release at
      all, the safety time followed by the resumptions ends with nothing held. */
  lemma NothingHeldForever(events: seq<Event>)
    ensures var s := Run(events); Run(events + Drain(|s.begun|)).held == 0
  {
    var s := Run(events);
    var all := events + Drain(|s.begun|);
    DrainSome(events, |s.begun|);
    EveryInterleaving(all);
    OpenMeansSome(Run(all).begun);
  }

  /** What later events do not undo: a pause stays begun, keeps its hold and its deadline, and once
      it is over it stays over. */
  ghost predicate Grows(s: State, t: State) {
    && |s.begun| <= |t.begun| && s.now <= t.now
    && (forall k :: 0 <= k < |s.begun| ==>
          t.begun[k].hold == s.begun[k].hold && t.begun[k].deadline == s.begun[k].deadline)
    && (forall k :: 0 <= k < |s.begun| && s.begun[k].done ==> t.begun[k].done)
    && s.armed <= t.armed && s.released <= t.released
  }

  lemma StepGrows(s: State, t: State, e: Event)
    requires Grows(s, t)
    ensures Grows(s, Step(t, e))
  {
  }

  lemma {:induction false} RunGrows(events: seq<Event>, more: seq<Event>)
    ensures Grows(Run(events), Run(events + more))
  {
    var all := events + more;
    if more == [] {
      assert all == events;
    } else {
      var n := |more| - 1;
      assert more == more[..n] + [more[n]];
      RunMore(events, more[..n], more[n]);
      RunGrows(events, more[..n]);
      StepGrows(Run(events), Run(events + more[..n]), more[n]);
    }
  }

  /** Late enough, pause `k` can be resumed. */
  lemma LateResume(events: seq<Event>, more: seq<Event>, k: nat)
    requires k < |Run(events).begun| && Run(events).now + HOLD_SAFETY_MS <= Run(events + more).now
    ensures var t := Step(Run(events + more), Resume(k)); k < |t.begun| && t.begun[k].done
  {
    EveryInterleaving(events);
    RunGrows(events, more);
  }

  lemma DoneStays(events: seq<Event>, e: Event, more: seq<Event>, k: nat)
    requires var s := Step(Run(events), e); k < |s.begun| && s.begun[k].done
    ensures var t := Run(events + [e] + more); k < |t.begun| && t.begun[k].done
  {
    assert (events + [e])[..|events|] == events;
    RunGrows(events + [e], more);
  }

  lemma Rejoined(events: seq<Event>, more: seq<Event>, j: nat)
    requires j < |more|
    ensures events + more[..j] + [more[j]] + more[j + 1..] == events + more
  {
    assert more == more[..j] + [more[j]] + more[j + 1..];
  }

  /** In whatever way the run goes on: a pause begun by then is over in the end if it is resumed once
      after the safety time has passed, be its hold released or not. */
  lemma ResumedInTheEnd(events: seq<Event>, more: seq<Event>, j: nat, k: nat)
    requires k < |Run(events).begun| && j < |more| && more[j] == Resume(k)
    requires Run(events).now + HOLD_SAFETY_MS <= Run(events + more[..j]).now
    ensures k < |Run(events + more).begun| && Run(events + more).begun[k].done
  {
    var mid, rest := events + more[..j], more[j + 1..];
    LateResume(events, more[..j], k);
    DoneStays(mid, Resume(k), rest, k);
    Rejoined(events, more, j);
  }

  // ---------- what the state stands for ----------

  /** How many holds the calls of `arm` ask for, and how much time passes. */
  function Armed(events: seq<Event>): nat {
    if events == [] then 0
    else
      var last := events[|events| - 1];
      Armed(events[..|events| - 1]) + (if last.Arm? && last.count > 0 then last.count else 0)
  }

  function Elapsed(events: seq<Event>): nat {
    if events == [] then 0
    else
      var last := events[|events| - 1];
      Elapsed(events[..|events| - 1]) + (if last.Tick? then last.ms else 0)
  }

  /** Hold `h` was released at some point after it was armed. */
  ghost predicate Released(events: seq<Event>, h: nat) {
    exists j :: 0 <= j < |events| && events[j] == Release(h) && h < Armed(events[..j])
  }

  lemma ReleasedMore(events: seq<Event>, e: Event, h: nat)
    ensures Released(events + [e], h) <==> Released(events, h) || (e == Release(h) && h < Armed(events))
  {
    var all := events + [e];
    assert all[..|events|] == events;
    if Released(events, h) {
      var j :| 0 <= j < |events| && events[j] == Release(h) && h < Armed(events[..j]);
      assert all[j] == Release(h) && all[..j] == events[..j];
    }
    if e == Release(h) && h < Armed(events) {
      assert all[|events|] == Release(h);
    }
    if Released(all, h) {
      var j :| 0 <= j < |all| && all[j] == Release(h) && h < Armed(all[..j]);
      if j < |events| {
        assert events[j] == Release(h) && events[..j] == all[..j];
      }
    }
  }

  /** The state counts what was asked for, the clock tells the time that passed, and the released
      holds are those that were released. */
  lemma {:induction false} StateExactly(events: seq<Event>, h: nat)
    ensures var s := Run(events);
      s.armed == Armed(events) && s.now == Elapsed(events) && (h in s.released <==> Released(events, h))
  {
    if events == [] {
    } else {
      var n := |events| - 1;
      StateExactly(events[..n], h);
      ReleasedMore(events[..n], events[n], h);
      assert events[..n] + [events[n]] == events;
    }
  }

  /** `pause` takes a hold exactly while there are more armed than taken, and it takes one. */
  lemma PauseTakesHold(events: seq<Event>)
    ensures var s, t := Run(events), Run(events + [BeginPause]);
      && |t.begun| == |s.begun| + (if |s.begun| < Armed(events) then 1 else 0)
      && t.held == s.held + (|t.begun| - |s.begun|)
  {
    EveryInterleaving(events);
    StateExactly(events, 0);
    assert (events + [BeginPause])[..|events|] == events;
  }

  /** A hold holds: whatever happens after pause `k` has begun, until its hold is released or 15 seconds
      have passed it is not over, and cannot be resumed. */
  lemma HoldHolds(events: seq<Event>, more: seq<Event>)
    ensures var k, all := |Run(events).begun|, events + [BeginPause] + more;
      k < Armed(events) && !Released(all, k) && Elapsed(all) < Elapsed(events) + 15000 ==>
        && k < |Run(all).begun| && !Run(all).begun[k].done
        && Step(Run(all), Resume(k)) == Run(all)
  {
    var k, first := |Run(events).begun|, events + [BeginPause];
    var all := first + more;
    StateExactly(events, k);
    StateExactly(all, k);
    EveryInterleaving(events);
    EveryInterleaving(all);
    assert first[..|events|] == events;
    RunGrows(first, more);
  }

  /** A release lets go: once hold `k` has been released after it was armed, pause `k` ends whenever it
      is resumed, at any time. */
  lemma ReleaseLetsGo(events: seq<Event>, k: nat)
    requires k < |Run(events).begun| && Released(events, k)
    ensures Step(Run(events), Resume(k)).begun[k].done
  {
    StateExactly(events, k);
    EveryInterleaving(events);
  }

  /** The object `createStreamHolds` returns, with the promises and timers its closures see. */
  class Holds {
    var pending: seq<nat>
    var held: int
    var armed: nat
    var begun: seq<Pause>
    var reached: set<nat>
    var released: set<nat>
    var now: int

    function Value(): State reads this {
      State(armed, pending, begun, reached, released, held, now)
    }

    constructor ()
      ensures Value() == INITIAL
    {
      pending, held, armed, begun, reached, released, now := [], 0, 0, [], {}, {}, 0;
    }

    method Arm(count: int) returns (holds: seq<nat>)
      modifies this
      ensures Value() == Step(old(Value()), Event.Arm(count))
      ensures holds == From(old(armed), if count < 0 then 0 else count)
    {
      holds := [];
      var i := 0;
      while i < count
        invariant 0 <= i && (i <= count || i == 0)
        invariant holds == From(old(armed), i)
        invariant Value() == old(Value()).(armed := old(armed) + i, pending := old(pending) + holds)
      {
        pending := pending + [armed];
        holds := holds + [armed];
        armed := armed + 1;
        i := i + 1;
      }
    }

    /** `pause` up to its `await`; `None`: there was no hold to wait at. */
    method BeginPause() returns (pause: Option<nat>)
      modifies this
      ensures Value() == Step(old(Value()), Event.BeginPause)
      ensures pause.None? <==> old(pending) == []
      ensures pause.Some? ==> pause.value == |old(begun)|
    {
      if pending == [] {
        return None;
      }
      var hold := pending[0];
      pending := pending[1..];
      held := held + 1;
      reached := reached + {hold};
      pause := Some(|begun|);
      begun := begun + [Pause(hold, now + HOLD_SAFETY_MS, false)];
    }

    /** `pause` after its `await`, which the race lets through. */
    method ResumePause(k: nat)
      requires CanResume(Value(), k)
      modifies this
      ensures Value() == Step(old(Value()), Resume(k))
    {
      begun := begun[k := begun[k].(done := true)];
      held := held - 1;
    }

    method Release(hold: nat)
      requires hold < armed
      modifies this
      ensures Value() == Step(old(Value()), Event.Release(hold))
    {
      released := released + {hold};
    }

    method Held() returns (r: bool)
      requires Inv(Value())
      ensures r <==> exists k :: 0 <= k < |begun| && !begun[k].done
    {
      OpenMeansSome(begun);
      r := held > 0;
    }
  }

  /** The object under any sequence of calls and any passing of time is in the state of the run; a
      release of a hold that was never armed and a resumption that the race does not let through
      are no calls at all. */
  method Replay(events: seq<Event>) returns (h: Holds)
    ensures fresh(h) && h.Value() == Run(events)
  {
    h := new Holds();
    var i := 0;
    while i < |events|
      invariant 0 <= i <= |events| && fresh(h)
      invariant h.Value() == Run(events[..i])
    {
      assert events[..i + 1][..i] == events[..i];
      match events[i] {
        case Arm(count) => var holds := h.Arm(count);
        case BeginPause => var pause := h.BeginPause();
        case Release(hold) =>
          if hold < h.armed {
            h.Release(hold);
          }
        case Resume(k) =>
          if CanResume(h.Value(), k) {
            h.ResumePause(k);
          }
        case Tick(ms) => h.now := h.now + ms;
      }
      i := i + 1;
    }
    assert events[..i] == events;
  }
}
