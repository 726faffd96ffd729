/** How often the reload hook runs: for one response served again and again, and for bundles that
    come and go. */
module CertReloads {
  import opened Wrappers
  import opened Pem
  import opened CertFiles
  import opened AtomicWriter
  import opened CertSync
  import opened CertRuns
  import opened CertLimits

  // ---------- one response, served again and again ----------

  /** Nothing more to do for `r`: the directory agrees with it, or the memo says so. */
  predicate Settled(files: Files, r: Response) {
    Agrees(files, r) || (Paired(files) && ETagOf(r) != "" && MemoOf(files) == ETagOf(r))
  }

  lemma SettledStays(files: Files, r: Response)
    requires Settled(files, r)
    ensures var o := SyncOnce(files, Event(Some(r), Clear, NO_FAULTS)); Settled(o.files, r) && !o.ending.Installed?
  {
    if Agrees(files, r) {
      IdleSync(files, Event(Some(r), Clear, NO_FAULTS), r, Fullchain);
    } else {
      ChangedIffDisagrees(files, r);
    }
  }

  lemma MemoOfFirstInstall(files: Files, r: Response)
    requires Pairs(r.fullchain, r.key) && !Agrees(files, r) && ETagOf(r) != ""
    ensures MemoOf(Deliver(files, r, NO_FAULTS).files) == ETagOf(r)
  {
    ChangedIffDisagrees(files, r);
    SplitKeepsBlocks(r.fullchain, r.key);
    MemoSaved(InstallFiles(files, r, NO_FAULTS), r, Done);
  }

  /** The first Sync installs, and settles what has an honest fingerprint or a validator. */
  lemma UnsettledInstalls(files: Files, r: Response)
    requires Pairs(r.fullchain, r.key) && !Settled(files, r)
    ensures var o := SyncOnce(files, Event(Some(r), Clear, NO_FAULTS));
      o.ending.Installed? && (Settled(o.files, r) <==> Honest(r) || ETagOf(r) != "")
  {
    UnpairedAsksUnconditionally(files);
    HealsExactly(files, r);
    assert SyncOnce(files, Event(Some(r), Clear, NO_FAULTS)) == Deliver(files, r, NO_FAULTS);
    if ETagOf(r) != "" {
      MemoOfFirstInstall(files, r);
    }
  }

  /** How often the hook runs when one response is served `n` times: once at most if its fingerprint
      is that of its own leaf or it carries a validator, and on every single Sync if neither. */
  lemma {:induction false} ReloadsForOneResponse(start: Files, r: Response, n: nat)
    requires Pairs(r.fullchain, r.key)
    ensures var s := Run(start, Repeat(Event(Some(r), Clear, NO_FAULTS), n));
      && s.reloads == (if n == 0 || Settled(start, r) then 0 else if Honest(r) || ETagOf(r) != "" then 1 else n)
      && (Settled(s.files, r) <==> Settled(start, r) || (n > 0 && (Honest(r) || ETagOf(r) != "")))
  {
    if n == 0 {
    } else {
      var e := Event(Some(r), Clear, NO_FAULTS);
      assert Repeat(e, n)[..n - 1] == Repeat(e, n - 1);
      ReloadsForOneResponse(start, r, n - 1);
      var before := Run(start, Repeat(e, n - 1)).files;
      if Settled(before, r) {
        SettledStays(before, r);
      } else {
        UnsettledInstalls(before, r);
      }
    }
  }

  // ---------- bundles that come and go ----------

  /** What the responses so far ask for, an empty bundle asking for nothing. */
  datatype Goal = Goal(fingerprint: Fingerprint, bundle: Text)

  function NextGoal(g: Option<Goal>, r: Response): Goal {
    Goal(r.fingerprint, if r.bundle != [] then r.bundle else if g.Some? then g.value.bundle else [])
  }

  function GoalAfter(files: Files, g: Option<Goal>, e: Event): Option<Goal> {
    var r := DeliveredIn(files, e);
    if r.Some? then Some(NextGoal(g, r.value)) else g
  }

  function GoalOf(start: Files, events: seq<Event>): Option<Goal> {
    if events == [] then None
    else
      var n := |events| - 1;
      GoalAfter(Run(start, events[..n]).files, GoalOf(start, events[..n]), events[n])
  }

  /** How often the goal changes; a bundle that is merely left out does not change it. */
  function GoalChanges(start: Files, events: seq<Event>): nat {
    if events == [] then 0
    else
      var n := |events| - 1;
      GoalChanges(start, events[..n]) + (if GoalOf(start, events) != GoalOf(start, events[..n]) then 1 else 0)
  }

  predicate Meets(files: Files, g: Goal) {
    && Paired(files)
    && LeafFingerprint(files[Fullchain]) == g.fingerprint
    && (g.bundle != [] ==> CA in files && files[CA] == g.bundle)
  }

  /** Nothing stops an install before its last rename. */
  predicate RenamesAll(f: Faults) {
    !f.mkdirFails && f.staging.Never? && f.renaming.Never?
  }

  /** How many reloads the goal is still good for: two while the leaf lags behind it (the leaf and
      the bundle may arrive apart), one while only the bundle does. */
  function Lag(files: Files, g: Option<Goal>): nat {
    if g.None? || Meets(files, g.value) then 0
    else if Paired(files) && LeafFingerprint(files[Fullchain]) == g.value.fingerprint then 1
    else 2
  }

  /** How many deliveries left the directory in disagreement with what was delivered. */
  function Interruptions(start: Files, events: seq<Event>): nat {
    if events == [] then 0
    else
      var n := |events| - 1;
      Interruptions(start, events[..n]) + (if InterruptedIn(Run(start, events[..n]).files, events[n]) then 1 else 0)
  }

  predicate InterruptedIn(files: Files, e: Event) {
    var r := DeliveredIn(files, e);
    r.Some? && !Agrees(SyncOnce(files, e).files, r.value)
  }

  /** A goal that is met and stays asks for nothing: the directory agrees with the response. */
  lemma MetMeansAgrees(files: Files, g: Goal, r: Response)
    requires Meets(files, g) && NextGoal(Some(g), r) == g
    ensures Agrees(files, r)
  {
  }

  /** The bundle after a delivery that ends in agreement. */
  lemma BundleAfterDelivery(files: Files, r: Response, f: Faults)
    ensures r.bundle == [] ==> SameFile(Deliver(files, r, f).files, files, CA)
  {
    FileAfterDelivery(files, r, f, CA);
    DeliveryShape(files, r, f, CA);
  }

  /** The balance of one delivery: a reload, or a growing lag, is paid for by a change of the goal
      or by an interruption. */
  lemma LagStep(files: Files, g: Option<Goal>, r: Response, f: Faults)
    requires Pairs(r.fullchain, r.key) && Honest(r)
    ensures var o, next := Deliver(files, r, f), Some(NextGoal(g, r));
      (if o.ending.Installed? then 1 else 0) + Lag(o.files, next)
      <= Lag(files, g) + (if next != g then 1 else 0) + (if Agrees(o.files, r) then 0 else 1)
  {
    InstalledMeansAgrees(files, r, f);
    BundleAfterDelivery(files, r, f);
    if g == Some(NextGoal(g, r)) && Meets(files, g.value) {
      MetMeansAgrees(files, g.value, r);
    }
  }

  lemma LagAfterSync(files: Files, g: Option<Goal>, e: Event)
    requires Deliverable(e) ==> Honest(e.served.value)
    ensures var o, next := SyncOnce(files, e), GoalAfter(files, g, e);
      (if o.ending.Installed? then 1 else 0) + Lag(o.files, next)
      <= Lag(files, g) + (if next != g then 1 else 0) + (if InterruptedIn(files, e) then 1 else 0)
  {
    SyncShape(files, e);
    if DeliveredIn(files, e).Some? {
      LagStep(files, g, e.served.value, e.faults);
    }
  }

  /** In every run, whatever goes wrong, the hook runs at most once for each change of the goal and
      once more for each interrupted delivery: a bundle that comes, goes and comes back costs one
      reload. */
  lemma {:induction false} ReloadsFollowGoal(start: Files, events: seq<Event>)
    requires AllHonest(events)
    ensures var s := Run(start, events);
      s.reloads + Lag(s.files, GoalOf(start, events)) <= GoalChanges(start, events) + Interruptions(start, events)
  {
    if events == [] {
    } else {
      var n := |events| - 1;
      var before := Run(start, events[..n]).files;
      assert forall i :: 0 <= i < n ==> events[..n][i] == events[i];
      ReloadsFollowGoal(start, events[..n]);
      LagAfterSync(before, GoalOf(start, events[..n]), events[n]);
    }
  }

  lemma CompleteDelivery(files: Files, r: Response, f: Faults)
    requires Pairs(r.fullchain, r.key) && Honest(r) && RenamesAll(f)
    ensures Agrees(Deliver(files, r, f).files, r)
  {
    ChangedIffDisagrees(files, r);
    SplitKeepsBlocks(r.fullchain, r.key);
    BatchOrder(r);
    FileAfterDelivery(files, r, f, Fullchain);
    FileAfterDelivery(files, r, f, Privkey);
    FileAfterDelivery(files, r, f, CA);
    DeliveryShape(files, r, f, CA);
  }

  lemma CompleteSync(files: Files, e: Event)
    requires (Deliverable(e) ==> Honest(e.served.value)) && RenamesAll(e.faults)
    ensures !InterruptedIn(files, e)
  {
    SyncShape(files, e);
    if DeliveredIn(files, e).Some? {
      CompleteDelivery(files, e.served.value, e.faults);
    }
  }

  /** An install that reaches its last rename is no interruption, whatever fails after it. */
  lemma {:induction false} CompleteInstallsDoNotInterrupt(start: Files, events: seq<Event>)
    requires AllHonest(events) && forall i :: 0 <= i < |events| ==> RenamesAll(events[i].faults)
    ensures Interruptions(start, events) == 0
  {
    if events == [] {
    } else {
      var n := |events| - 1;
      assert forall i :: 0 <= i < n ==> events[..n][i] == events[i];
      CompleteInstallsDoNotInterrupt(start, events[..n]);
      CompleteSync(Run(start, events[..n]).files, events[n]);
    }
  }

  /** Nothing stops a Sync before its hook; that the memo or the removal of a stale chain.pem fails
      does not. */
  predicate ReachesHook(f: Faults) {
    RenamesAll(f) && !f.removal.Died? && !f.memo.Died? && !f.diesBeforeHook
  }

  /** The directory is exactly what the goal says: its leaf, its bundle, and no bundle if it has
      none. */
  predicate MeetsExactly(files: Files, g: Option<Goal>) {
    match g
    case None => !Paired(files) && CA !in files
    case Some(goal) => Meets(files, goal) && (CA in files ==> files[CA] == goal.bundle)
  }

  lemma ExactStep(files: Files, g: Option<Goal>, r: Response, f: Faults)
    requires Pairs(r.fullchain, r.key) && Honest(r) && ReachesHook(f) && MeetsExactly(files, g)
    ensures var o := Deliver(files, r, f);
      MeetsExactly(o.files, Some(NextGoal(g, r))) && (o.ending.Installed? <==> g != Some(NextGoal(g, r)))
  {
    CompleteDelivery(files, r, f);
    BundleAfterDelivery(files, r, f);
    HookReached(files, r, f);
  }

  lemma ExactSync(files: Files, g: Option<Goal>, e: Event)
    requires (Deliverable(e) ==> Honest(e.served.value)) && ReachesHook(e.faults) && MeetsExactly(files, g)
    ensures var o, next := SyncOnce(files, e), GoalAfter(files, g, e);
      MeetsExactly(o.files, next) && (o.ending.Installed? <==> g != next)
  {
    SyncShape(files, e);
    if DeliveredIn(files, e).Some? {
      ExactStep(files, g, e.served.value, e.faults);
    }
  }

  lemma HookReached(files: Files, r: Response, f: Faults)
    requires Pairs(r.fullchain, r.key) && ReachesHook(f)
    ensures Deliver(files, r, f).ending.Installed? <==> !Agrees(files, r)
  {
    ChangedIffDisagrees(files, r);
    SplitKeepsBlocks(r.fullchain, r.key);
  }

  /** From a directory without a usable pair or a bundle, Syncs that reach their hook run it exactly
      once for each change of the goal: no reload too many, and none too few. */
  lemma {:induction false} ReloadsCountGoals(start: Files, events: seq<Event>)
    requires AllHonest(events) && forall i :: 0 <= i < |events| ==> ReachesHook(events[i].faults)
    requires !Paired(start) && CA !in start
    ensures Run(start, events).reloads == GoalChanges(start, events)
    ensures MeetsExactly(Run(start, events).files, GoalOf(start, events))
  {
    if events == [] {
    } else {
      var n := |events| - 1;
      var before := Run(start, events[..n]).files;
      assert forall i :: 0 <= i < n ==> events[..n][i] == events[i];
      ReloadsCountGoals(start, events[..n]);
      ExactSync(before, GoalOf(start, events[..n]), events[n]);
    }
  }

  /** The bound is met: the first install fails, the second is without the bundle, and when the
      bundle comes back it is installed on its own.  Two reloads for one goal and one failure. */
  lemma InterruptedBundleReloadsTwice(r: Response, bare: Response)
    requires Pairs(r.fullchain, r.key) && Honest(r) && r.bundle != []
    requires bare == r.(bundle := [], etagHeader := "", etagField := "")
    ensures var failing := Event(Some(r), Clear, NO_FAULTS.(mkdirFails := true));
      var run := [failing, Event(Some(bare), Clear, NO_FAULTS), Event(Some(r), Clear, NO_FAULTS)];
      Run(map[], run).reloads == 2 && GoalChanges(map[], run) == 1 && Interruptions(map[], run) == 1
  {
    var failing := Event(Some(r), Clear, NO_FAULTS.(mkdirFails := true));
    var second, third := Event(Some(bare), Clear, NO_FAULTS), Event(Some(r), Clear, NO_FAULTS);
    FailedFirst(map[], r);
    BareInstall(r, bare);
    var files := SyncOnce(map[], second).files;
    CompleteSync(map[], second);
    HealsExactly(files, r);
    CompleteSync(files, third);
    OneMore(map[], [failing], second);
    OneMore(map[], [failing, second], third);
    assert [failing] + [second] == [failing, second] && [failing, second] + [third] == [failing, second, third];
  }

  /** One step of a run and of its goal. */
  lemma OneMore(start: Files, events: seq<Event>, e: Event)
    ensures var files, g, more := Run(start, events).files, GoalOf(start, events), events + [e];
      var o, next := SyncOnce(files, e), GoalAfter(files, g, e);
      && Run(start, more) == State(o.files, Run(start, events).reloads + (if o.ending.Installed? then 1 else 0))
      && GoalOf(start, more) == next
      && GoalChanges(start, more) == GoalChanges(start, events) + (if next != g then 1 else 0)
      && Interruptions(start, more) == Interruptions(start, events) + (if InterruptedIn(files, e) then 1 else 0)
  {
  }

  lemma FailedFirst(start: Files, r: Response)
    requires Pairs(r.fullchain, r.key) && !Paired(start)
    ensures var run := [Event(Some(r), Clear, NO_FAULTS.(mkdirFails := true))];
      && Run(start, run) == State(start, 0)
      && GoalOf(start, run) == Some(Goal(r.fingerprint, r.bundle))
      && GoalChanges(start, run) == 1 && Interruptions(start, run) == 1
  {
  }

  lemma BareInstall(r: Response, bare: Response)
    requires Pairs(r.fullchain, r.key) && Honest(r) && r.bundle != []
    requires bare == r.(bundle := [], etagHeader := "", etagField := "")
    ensures var e := Event(Some(bare), Clear, NO_FAULTS); var o := SyncOnce(map[], e);
      && o.ending.Installed? && DeliveredIn(map[], e) == Some(bare)
      && CA !in o.files && ETagMemo !in o.files
  {
    var e := Event(Some(bare), Clear, NO_FAULTS);
    HealsExactly(map[], bare);
    SyncShape(map[], e);
    FileAfterDelivery(map[], bare, NO_FAULTS, CA);
    FileAfterInstall(map[], bare, NO_FAULTS, ETagMemo);
  }
}
