/** A gateway that may serve an earlier response again: when the memo then vouches for files that
    are no longer there, and when it does not. */
module CertReturn {
  import opened Wrappers
  import opened Pem
  import opened CertFiles
  import opened AtomicWriter
  import opened CertSync
  import opened CertRuns
  import opened CertLimits

  // ---------- one Sync ----------

  /** A 304 for `q` would be sound: it is sent only if the directory agrees with `q`. */
  predicate SoundFor(files: Files, q: Response) {
    ReplyTo(Event(Some(q), Clear, NO_FAULTS), IfNoneMatch(files)) == Answer(304, None) ==> Agrees(files, q)
  }

  lemma SoundExactly(files: Files, q: Response)
    ensures SoundFor(files, q) <==>
      (Paired(files) && ETagOf(q) != "" && MemoOf(files) == ETagOf(q) ==> Agrees(files, q))
  {
    ChangedIffDisagrees(files, q);
  }

  /** What ca.pem holds after the first `k` renames; nothing if there is none. */
  function BundleAfter(files: Files, r: Response, k: nat): Text {
    if r.bundle != [] && |BatchOf(r)| - 1 <= k then r.bundle
    else if CA in files then files[CA]
    else []
  }

  /** The memo after the delivery of `r`. */
  function MemoAfter(files: Files, r: Response, f: Faults): string {
    if ETagOf(r) != "" && f.memo.Done? && (Agrees(files, r) || InstallFate(files, r, f).Done?) then ETagOf(r)
    else MemoOf(files)
  }

  /** Delivering `r` under the faults `f` leaves a usable pair other than `q` under the memo of `q`.
      Where nothing is renamed it was there before; where something is, the new leaf meets a key that
      fits it, and its own fingerprint or the bundle is not that of `q`. */
  predicate Falsifies(files: Files, q: Response, r: Response, f: Faults) {
    var k := RenamesOf(r, f);
    && ETagOf(q) != "" && MemoAfter(files, r, f) == ETagOf(q)
    && if Agrees(files, r) || k == 0 then Paired(files) && !Agrees(files, q)
       else
         && (k == |BatchOf(r)| || KeyFits(files, r))
         && (LeafFingerprint(r.fullchain) != q.fingerprint || (q.bundle != [] && BundleAfter(files, r, k) != q.bundle))
  }

  lemma MemoAfterExactly(files: Files, r: Response, f: Faults)
    ensures MemoOf(Deliver(files, r, f).files) == MemoAfter(files, r, f)
  {
    ChangedIffDisagrees(files, r);
    if Agrees(files, r) {
      MemoSaved(files, r, f.memo);
    } else {
      MemoUntouchedByInstall(files, r, f);
      if InstallFate(files, r, f).Done? {
        MemoSaved(InstallFiles(files, r, f), r, f.memo);
      }
    }
  }

  lemma AgreementAfterDelivery(files: Files, q: Response, r: Response, f: Faults)
    requires Pairs(r.fullchain, r.key) && !Agrees(files, r) && 1 <= RenamesOf(r, f)
    ensures var now, k := Deliver(files, r, f).files, RenamesOf(r, f);
      Paired(now) ==>
        (Agrees(now, q) <==>
          LeafFingerprint(r.fullchain) == q.fingerprint && (q.bundle != [] ==> BundleAfter(files, r, k) == q.bundle))
  {
    PairAfterDelivery(files, r, f);
    ChangedIffDisagrees(files, r);
    BatchOrder(r);
    DeliveryShape(files, r, f, CA);
    FileAfterDelivery(files, r, f, CA);
  }

  /** A Sync that renames nothing leaves the pair and the bundle alone. */
  lemma NothingRenamed(files: Files, q: Response, r: Response, f: Faults)
    requires Agrees(files, r) || RenamesOf(r, f) == 0
    ensures var now := Deliver(files, r, f).files;
      (Paired(now) <==> Paired(files)) && (Agrees(now, q) <==> Agrees(files, q))
  {
    ChangedIffDisagrees(files, r);
    DeliveryShape(files, r, f, CA);
    FileAfterDelivery(files, r, f, Fullchain);
    FileAfterDelivery(files, r, f, Privkey);
    FileAfterDelivery(files, r, f, CA);
  }

  /** After the delivery of any response that pairs, from any directory and under any faults, a 304 for
      any response is sound exactly unless that delivery falsifies it: also for foreign fingerprints
      and for etags that are used again for something else. */
  lemma TruthStep(files: Files, q: Response, r: Response, f: Faults)
    requires Pairs(r.fullchain, r.key)
    ensures SoundFor(Deliver(files, r, f).files, q) <==> !Falsifies(files, q, r, f)
  {
    SoundExactly(Deliver(files, r, f).files, q);
    MemoAfterExactly(files, r, f);
    if Agrees(files, r) || RenamesOf(r, f) == 0 {
      NothingRenamed(files, q, r, f);
    } else {
      PairAfterDelivery(files, r, f);
      AgreementAfterDelivery(files, q, r, f);
    }
  }

  // ---------- every run ----------

  predicate FalsifiedBy(files: Files, e: Event, q: Response) {
    var r := DeliveredIn(files, e);
    r.Some? && Falsifies(files, q, r.value, e.faults)
  }

  /** After `m` Syncs, a 304 for the response of event `i` would be sound. */
  predicate SoundAt(start: Files, events: seq<Event>, m: nat, i: nat)
    requires m <= |events| && i < |events|
  {
    events[i].served.Some? ==> SoundFor(Run(start, events[..m]).files, events[i].served.value)
  }

  /** Sync `m` falsifies the memo of the response of event `i`. */
  predicate FalsifiedAt(start: Files, events: seq<Event>, m: nat, i: nat)
    requires m < |events| && i < |events|
  {
    events[i].served.Some? && FalsifiedBy(Run(start, events[..m]).files, events[m], events[i].served.value)
  }

  /** At every moment of the run, a 304 for whichever of its responses would be sound. */
  ghost predicate AlwaysSound(start: Files, events: seq<Event>) {
    forall m, i :: 0 <= m <= |events| && 0 <= i < |events| ==> SoundAt(start, events, m, i)
  }

  /** No Sync of the run falsifies the memo of one of its responses. */
  ghost predicate NeverFalsified(start: Files, events: seq<Event>) {
    forall m, i :: 0 <= m < |events| && 0 <= i < |events| ==> !FalsifiedAt(start, events, m, i)
  }

  lemma TruthAfterSync(files: Files, e: Event, q: Response)
    ensures SoundFor(SyncOnce(files, e).files, q) <==>
      if DeliveredIn(files, e).Some? then !FalsifiedBy(files, e, q) else SoundFor(files, q)
  {
    SyncShape(files, e);
    var r := DeliveredIn(files, e);
    if r.Some? {
      TruthStep(files, q, r.value, e.faults);
    }
  }

  lemma TruthAt(start: Files, events: seq<Event>, m: nat, i: nat)
    requires m < |events| && i < |events| && SoundAt(start, events, m, i)
    ensures SoundAt(start, events, m + 1, i) <==> !FalsifiedAt(start, events, m, i)
  {
    if events[i].served.Some? {
      RunStep(start, events, m);
      TruthAfterSync(Run(start, events[..m]).files, events[m], events[i].served.value);
    }
  }

  /** A 304 would be sound before the first Sync. */
  ghost predicate StartsSound(start: Files, events: seq<Event>) {
    forall i :: 0 <= i < |events| ==> SoundAt(start, events, 0, i)
  }

  lemma ForeignMemoStartsSound(start: Files, events: seq<Event>)
    requires ForeignMemo(start, events)
    ensures StartsSound(start, events)
  {
    forall i | 0 <= i < |events|
      ensures SoundAt(start, events, 0, i)
    {
      if events[i].served.Some? {
        SoundExactly(start, events[i].served.value);
      }
    }
  }

  lemma {:induction false} SoundUpTo(start: Files, events: seq<Event>, m: nat, i: nat)
    requires StartsSound(start, events) && NeverFalsified(start, events)
    requires m <= |events| && i < |events|
    ensures SoundAt(start, events, m, i)
  {
    if m == 0 {
    } else {
      SoundUpTo(start, events, m - 1, i);
      TruthAt(start, events, m - 1, i);
    }
  }

  /** 304 soundness against a gateway that may serve whatever it likes, earlier responses included: every
      304 of the run would be sound if and only if no Sync of it falsifies a memo. */
  lemma NotModifiedSoundExactly(start: Files, events: seq<Event>)
    requires StartsSound(start, events)
    ensures AlwaysSound(start, events) <==> NeverFalsified(start, events)
  {
    if NeverFalsified(start, events) {
      forall m, i | 0 <= m <= |events| && 0 <= i < |events|
        ensures SoundAt(start, events, m, i)
      {
        SoundUpTo(start, events, m, i);
      }
    }
    if AlwaysSound(start, events) {
      forall m, i | 0 <= m < |events| && 0 <= i < |events|
        ensures !FalsifiedAt(start, events, m, i)
      {
        assert SoundAt(start, events, m, i) && SoundAt(start, events, m + 1, i);
        TruthAt(start, events, m, i);
      }
    }
  }

  // ---------- deliveries that do no harm ----------

  /** An etag names one leaf and bundle, at whatever time it is served. */
  ghost predicate ETagNames(events: seq<Event>) {
    forall i, k :: 0 <= i < |events| && 0 <= k < |events| && events[i].served.Some? && events[k].served.Some?
      && ETagOf(events[i].served.value) == ETagOf(events[k].served.value) && ETagOf(events[i].served.value) != ""
      ==> SameMaterial(events[i].served.value, events[k].served.value)
  }

  /** The install gets through to its memo. */
  predicate StoresMemo(files: Files, r: Response, f: Faults) {
    InstallFate(files, r, f).Done? && ETagOf(r) != "" && f.memo.Done?
  }

  /** A delivery that renames nothing, leaves the directory without a usable pair, or gets through
      to its memo. */
  predicate Harmless(files: Files, e: Event) {
    var r := DeliveredIn(files, e);
    r.Some? ==>
      || SyncOnce(files, e).renamed == 0
      || !Paired(SyncOnce(files, e).files)
      || StoresMemo(files, r.value, e.faults)
  }

  lemma HarmlessKeepsTruth(files: Files, e: Event, q: Response)
    requires Harmless(files, e) && (Deliverable(e) ==> Honest(e.served.value)) && SoundFor(files, q)
    requires e.served.Some? && ETagOf(q) != "" && ETagOf(q) == ETagOf(e.served.value) ==>
      SameMaterial(q, e.served.value)
    ensures SoundFor(SyncOnce(files, e).files, q)
  {
    SyncShape(files, e);
    if DeliveredIn(files, e).Some? {
      HarmlessDelivery(files, q, e.served.value, e.faults);
    }
  }

  lemma HarmlessDelivery(files: Files, q: Response, r: Response, f: Faults)
    requires Pairs(r.fullchain, r.key) && Honest(r) && SoundFor(files, q)
    requires var o := Deliver(files, r, f); o.renamed == 0 || !Paired(o.files) || StoresMemo(files, r, f)
    requires ETagOf(q) != "" && ETagOf(q) == ETagOf(r) ==> SameMaterial(q, r)
    ensures SoundFor(Deliver(files, r, f).files, q)
  {
    var now := Deliver(files, r, f).files;
    SoundExactly(files, q);
    SoundExactly(now, q);
    ChangedIffDisagrees(files, r);
    DeliveryShape(files, r, f, CA);
    MemoAfterDelivery(files, r, f);
    if Agrees(files, r) || RenamesOf(r, f) == 0 {
      NothingRenamed(files, q, r, f);
    } else if Paired(now) {
      MemoAfterExactly(files, r, f);
      StoredMeansAgrees(files, r, f);
    }
  }

  lemma StoredMeansAgrees(files: Files, r: Response, f: Faults)
    requires Pairs(r.fullchain, r.key) && Honest(r) && !Agrees(files, r) && StoresMemo(files, r, f)
    ensures Agrees(Deliver(files, r, f).files, r)
  {
    ChangedIffDisagrees(files, r);
    CompleteInstall(files, r, f);
    MemoSaved(InstallFiles(files, r, f), r, f.memo);
  }

  lemma {:induction false} HarmlessUpTo(start: Files, events: seq<Event>, m: nat, i: nat)
    requires AllHonest(events) && ETagNames(events) && StartsSound(start, events)
    requires forall j :: 0 <= j < |events| ==> HarmlessAt(start, events, j)
    requires m <= |events| && i < |events|
    ensures SoundAt(start, events, m, i)
  {
    if m == 0 {
    } else {
      HarmlessUpTo(start, events, m - 1, i);
      HarmlessNext(start, events, m - 1, i);
    }
  }

  lemma HarmlessNext(start: Files, events: seq<Event>, m: nat, i: nat)
    requires AllHonest(events) && ETagNames(events)
    requires m < |events| && i < |events| && HarmlessAt(start, events, m) && SoundAt(start, events, m, i)
    ensures SoundAt(start, events, m + 1, i)
  {
    if events[i].served.Some? {
      RunStep(start, events, m);
      HarmlessKeepsTruth(Run(start, events[..m]).files, events[m], events[i].served.value);
    }
  }

  predicate HarmlessAt(start: Files, events: seq<Event>, m: nat)
    requires m < |events|
  {
    Harmless(Run(start, events[..m]).files, events[m])
  }

  /** So harmless deliveries, interrupted or not, are enough where fingerprints are honest and an etag
      names one leaf and bundle. */
  lemma NotModifiedIsSoundUndisturbed(start: Files, events: seq<Event>)
    requires AllHonest(events) && ETagNames(events) && StartsSound(start, events)
    requires forall m :: 0 <= m < |events| ==> HarmlessAt(start, events, m)
    ensures AlwaysSound(start, events) && NeverFalsified(start, events)
  {
    forall m, i | 0 <= m <= |events| && 0 <= i < |events|
      ensures SoundAt(start, events, m, i)
    {
      HarmlessUpTo(start, events, m, i);
    }
    NotModifiedSoundExactly(start, events);
  }

  // ---------- a run that is wedged for good ----------

  predicate ServesAs(e: Event, etag: string) {
    e.served.Some? ==> ETagOf(e.served.value) == etag
  }

  /** The Sync neither changes a file nor runs the hook. */
  predicate Rests(files: Files, e: Event) {
    SyncOnce(files, e).files == files && !SyncOnce(files, e).ending.Installed?
  }

  lemma {:induction false} RestingRun(files: Files, events: seq<Event>)
    requires forall i :: 0 <= i < |events| ==> Rests(files, events[i])
    ensures Run(files, events) == State(files, 0)
  {
    if events == [] {
    } else {
      var n := |events| - 1;
      assert forall i :: 0 <= i < n ==> events[..n][i] == events[i];
      RestingRun(files, events[..n]);
      assert Rests(files, events[n]);
    }
  }

  lemma FalseMemoRests(files: Files, q: Response, e: Event)
    requires !SoundFor(files, q) && ServesAs(e, ETagOf(q))
    ensures Rests(files, e)
  {
    SyncShape(files, e);
  }

  /** A false memo is final: as long as the gateway serves that validator or nothing, no Sync changes
      a file, and the directory goes on to disagree. */
  lemma FalseMemoIsFinal(files: Files, q: Response, events: seq<Event>)
    requires !SoundFor(files, q)
    requires forall i :: 0 <= i < |events| ==> ServesAs(events[i], ETagOf(q))
    ensures Run(files, events) == State(files, 0) && !Agrees(files, q)
  {
    forall i | 0 <= i < |events|
      ensures Rests(files, events[i])
    {
      FalseMemoRests(files, q, events[i]);
    }
    RestingRun(files, events);
  }

  /** A gateway that does return: two bundles for one leaf, a death just before the last rename of
      the second, and then the first again.  Every later Sync is answered 304 and the directory
      never agrees again. */
  lemma {:induction false} ReturningGatewayWedges(r1: Response, r2: Response, n: nat)
    requires Pairs(r1.fullchain, r1.key) && Honest(r1) && Honest(r2)
    requires r1.fullchain == r2.fullchain && r1.key == r2.key
    requires r1.bundle != [] && r2.bundle != [] && r1.bundle != r2.bundle
    requires ETagOf(r1) != "" && ETagOf(r1) != ETagOf(r2)
    ensures var run := WedgingRun(r1, r2) + Repeat(Event(Some(r1), Clear, NO_FAULTS), n);
      var files := Run(map[], run).files;
      && !Agrees(files, r1)
      && ReplyTo(Event(Some(r1), Clear, NO_FAULTS), IfNoneMatch(files)) == Answer(304, None)
  {
    var again := Event(Some(r1), Clear, NO_FAULTS);
    var run := WedgingRun(r1, r2) + Repeat(again, n);
    if n == 0 {
      assert run == WedgingRun(r1, r2);
      WedgedBy(r1, r2);
    } else {
      assert run[..|run| - 1] == WedgingRun(r1, r2) + Repeat(again, n - 1);
      ReturningGatewayWedges(r1, r2, n - 1);
    }
  }

  function WedgingRun(r1: Response, r2: Response): seq<Event> {
    [Event(Some(r1), Clear, NO_FAULTS), Event(Some(r2), Clear, NO_FAULTS.(renaming := DieAt(|BatchOf(r2)| - 1)))]
  }

  lemma WedgedBy(r1: Response, r2: Response)
    requires Pairs(r1.fullchain, r1.key) && Honest(r1) && Honest(r2)
    requires r1.fullchain == r2.fullchain && r1.key == r2.key
    requires r1.bundle != [] && r2.bundle != [] && r1.bundle != r2.bundle
    requires ETagOf(r1) != "" && ETagOf(r1) != ETagOf(r2)
    ensures var files := Run(map[], WedgingRun(r1, r2)).files;
      && !Agrees(files, r1)
      && IfNoneMatch(files) == ETagOf(r1)
  {
    var run := WedgingRun(r1, r2);
    assert run[..1][..0] == [] && run[..1][0] == run[0] && run[..1] == [run[0]];
    var one := Run(map[], run[..1]).files;
    assert Run(map[], run[..1][..0]) == State(map[], 0);
    assert one == SyncOnce(map[], run[0]).files;
    FirstSync(r1);
    HalfSync(one, r1, r2);
  }

  lemma FirstSync(r: Response)
    requires Pairs(r.fullchain, r.key) && Honest(r) && ETagOf(r) != ""
    ensures var files := SyncOnce(map[], Event(Some(r), Clear, NO_FAULTS)).files;
      && Agrees(files, r) && MemoOf(files) == ETagOf(r)
      && Privkey in files && files[Privkey] == r.key
  {
    var e := Event(Some(r), Clear, NO_FAULTS);
    SyncShape(map[], e);
    HealsExactly(map[], r);
    SplitKeepsBlocks(r.fullchain, r.key);
    CompleteInstall(map[], r, NO_FAULTS);
    MemoSaved(InstallFiles(map[], r, NO_FAULTS), r, Done);
  }

  lemma HalfSync(files: Files, r1: Response, r2: Response)
    requires Pairs(r2.fullchain, r2.key) && Agrees(files, r1) && MemoOf(files) == ETagOf(r1) && ETagOf(r1) != ""
    requires Privkey in files && files[Privkey] == r2.key
    requires r1.bundle != [] && r2.bundle != [] && r1.bundle != r2.bundle && ETagOf(r1) != ETagOf(r2)
    ensures var now := SyncOnce(files, Event(Some(r2), Clear, NO_FAULTS.(renaming := DieAt(|BatchOf(r2)| - 1)))).files;
      && !Agrees(now, r1) && IfNoneMatch(now) == ETagOf(r1)
  {
    var k := |BatchOf(r2)| - 1;
    InterruptedSync(files, r2, DieAt(k));
    InterruptedState(files, r2, k);
  }

  /** A Sync that fails at rename `k`, or dies before it, leaves the first `k` files. */
  lemma InterruptedSync(files: Files, r: Response, stop: Stop)
    requires Pairs(r.fullchain, r.key) && !Agrees(files, r) && MemoOf(files) != ETagOf(r)
    requires !stop.Never? && stop.at < |BatchOf(r)|
    ensures var o := SyncOnce(files, Event(Some(r), Clear, NO_FAULTS.(renaming := stop)));
      && o.files == ApplyPrefix(files, BatchOf(r), stop.at)
      && o.ending == (if stop.FailAt? then InstallFailed else Crashed)
  {
    var f := NO_FAULTS.(renaming := stop);
    ChangedIffDisagrees(files, r);
    SplitKeepsBlocks(r.fullchain, r.key);
    assert RenamesOf(r, f) == stop.at && InstallFate(files, r, f) == (if stop.FailAt? then Failed else Died);
    ClearSync(files, r, f);
  }

  lemma InterruptedState(files: Files, r: Response, k: nat)
    requires Pairs(r.fullchain, r.key) && Privkey in files && files[Privkey] == r.key && r.bundle != []
    requires k == |BatchOf(r)| - 1
    ensures var now := ApplyPrefix(files, BatchOf(r), k);
      && Paired(now) && MemoOf(now) == MemoOf(files) && CA in now && now[CA] == r.bundle
      && (IfNoneMatch(now) == MemoOf(files))
  {
    BatchOrder(r);
    InterruptedPairExactly(files, r, k);
    AfterRenames(files, r, k, CA);
    AfterRenames(files, r, k, ETagMemo);
    ChangedIffDisagrees(ApplyPrefix(files, BatchOf(r), k), r);
  }

  /** The condition sees it: that run falsifies a memo. */
  lemma WedgingRunFalsifies(r1: Response, r2: Response)
    requires Pairs(r1.fullchain, r1.key) && Honest(r1) && Honest(r2)
    requires r1.fullchain == r2.fullchain && r1.key == r2.key
    requires r1.bundle != [] && r2.bundle != [] && r1.bundle != r2.bundle
    requires ETagOf(r1) != "" && ETagOf(r1) != ETagOf(r2)
    ensures !NeverFalsified(map[], WedgingRun(r1, r2))
  {
    var run := WedgingRun(r1, r2);
    WedgedBy(r1, r2);
    assert run[..2] == run;
    assert !SoundAt(map[], run, 2, 0);
    ForeignMemoStartsSound(map[], run);
    NotModifiedSoundExactly(map[], run);
  }
}
