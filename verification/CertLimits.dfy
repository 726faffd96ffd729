/** Where the guarantees end: what holds only under a condition, with the condition in the form a
    caller could check before the Sync, and runs in which the condition fails. */
module CertLimits {
  import opened Wrappers
  import opened Pem
  import opened CertFiles
  import opened AtomicWriter
  import opened CertSync
  import opened CertRuns

  // ---------- agreement is permanent ----------

  /** Once the directory agrees, no run on the same leaf and bundle (an empty bundle included)
      installs anything or runs the hook, whatever goes wrong on the way. */
  lemma {:induction false} AgreementIsFinal(files: Files, events: seq<Event>, r: Response, name: FileName)
    requires Agrees(files, r) && ServesOnly(events, r) && name != ETagMemo
    ensures Run(files, events).reloads == 0
    ensures SameFile(Run(files, events).files, files, name)
    ensures Agrees(Run(files, events).files, r)
  {
    if events == [] {
    } else {
      var n := |events| - 1;
      assert ServesOnly(events[..n], r);
      AgreementIsFinal(files, events[..n], r, name);
      IdleSync(Run(files, events[..n]).files, events[n], r, name);
    }
  }

  lemma IdleSync(files: Files, e: Event, r: Response, name: FileName)
    requires Agrees(files, r) && name != ETagMemo
    requires e.served.Some? ==> SameMaterial(e.served.value, r)
    ensures var o := SyncOnce(files, e);
      && SameFile(o.files, files, name) && Agrees(o.files, r) && !o.ending.Installed?
  {
    var reply := ReplyTo(e, IfNoneMatch(files));
    AgreementIsIdle(files, reply, e.faults, name);
    AgreementIsIdle(files, reply, e.faults, Fullchain);
    AgreementIsIdle(files, reply, e.faults, Privkey);
    AgreementIsIdle(files, reply, e.faults, CA);
  }

  // ---------- interrupted renames ----------

  /** An install that fails is not always without effect: it leaves the directory as it was exactly
      when each file it got to rename was already there with that very content. */
  lemma FailedInstallUntouchedExactly(files: Files, r: Response, f: Faults)
    requires InstallFate(files, r, f).Failed?
    ensures InstallFiles(files, r, f) == files <==>
      forall i :: 0 <= i < RenamesOf(r, f) ==> OnDisk(files, BatchOf(r)[i])
  {
    var k := RenamesOf(r, f);
    BatchOrder(r);
    PrefixUntouchedExactly(files, BatchOf(r), k);
  }

  predicate OnDisk(files: Files, w: Write) {
    w.name in files && files[w.name] == w.content
  }

  lemma PrefixUntouchedExactly(files: Files, batch: seq<Write>, k: nat)
    requires DistinctNames(batch) && k <= |batch|
    ensures ApplyPrefix(files, batch, k) == files <==> forall i :: 0 <= i < k ==> OnDisk(files, batch[i])
  {
    var now := ApplyPrefix(files, batch, k);
    PrefixExactly(files, batch, k);
    if forall i :: 0 <= i < k ==> OnDisk(files, batch[i]) {
      forall name: FileName
        ensures SameFile(now, files, name)
      {
        if Among(batch, k, name) {
          var i :| 0 <= i < k && batch[i].name == name;
          assert OnDisk(files, batch[i]);
        }
      }
      SameEverywhere(now, files);
    }
  }

  /** The installed key fits the leaf of `r`. */
  predicate KeyFits(files: Files, r: Response) {
    Privkey in files && Pairs(r.fullchain, files[Privkey])
  }

  /** Whether an interrupted install leaves a usable pair. */
  lemma InterruptedPairExactly(files: Files, r: Response, k: nat)
    requires k < |BatchOf(r)|
    ensures Paired(ApplyPrefix(files, BatchOf(r), k)) <==>
      if k == 0 then Paired(files) else KeyFits(files, r)
  {
  }

  /** The pair after a delivery that renames something. */
  lemma PairAfterDelivery(files: Files, r: Response, f: Faults)
    requires Pairs(r.fullchain, r.key) && !Agrees(files, r) && 1 <= RenamesOf(r, f)
    ensures var now := Deliver(files, r, f).files;
      && Fullchain in now && now[Fullchain] == r.fullchain
      && (Paired(now) <==> RenamesOf(r, f) == |BatchOf(r)| || KeyFits(files, r))
  {
    ChangedIffDisagrees(files, r);
    BatchOrder(r);
    DeliveryShape(files, r, f, CA);
    FileAfterDelivery(files, r, f, Fullchain);
    FileAfterDelivery(files, r, f, Privkey);
  }

  lemma ClearSync(files: Files, r: Response, f: Faults)
    requires Pairs(r.fullchain, r.key) && (IfNoneMatch(files) == "" || IfNoneMatch(files) != ETagOf(r))
    ensures SyncOnce(files, Event(Some(r), Clear, f)) == Deliver(files, r, f)
  {
  }

  // ---------- the reload that never comes ----------

  /** How many renames it takes until the directory agrees with `r`: one if the installed key fits
      the new leaf, all up to ca.pem if the bundle is new too, and all if the key is new. */
  function RenamesToAgree(files: Files, r: Response): nat {
    if !KeyFits(files, r) then |BatchOf(r)|
    else if r.bundle != [] && !(CA in files && files[CA] == r.bundle) then |BatchOf(r)| - 1
    else 1
  }

  lemma AgreesAfterExactly(files: Files, r: Response, k: nat)
    requires Pairs(r.fullchain, r.key) && k <= |BatchOf(r)|
    requires !Agrees(files, r)
    ensures Agrees(ApplyPrefix(files, BatchOf(r), k), r) <==> Honest(r) && RenamesToAgree(files, r) <= k
  {
    BatchOrder(r);
    AfterRenames(files, r, k, Fullchain);
    AfterRenames(files, r, k, Privkey);
    AfterRenames(files, r, k, CA);
  }

  /** The hook has not been reached although the install was begun. */
  predicate StopsBeforeHook(files: Files, r: Response, f: Faults) {
    !InstallFate(files, r, f).Done? || DiesSaving(ETagOf(r), f.memo) || f.diesBeforeHook
  }

  /** A reload is lost exactly when the fingerprint is honest and the install stops before the hook
      but after the rename that brings the directory into agreement: then the new material is
      installed, the hook has not run for it, and no later run on the same material ever runs it. */
  lemma LostReloadExactly(files: Files, r: Response, f: Faults)
    requires Pairs(r.fullchain, r.key) && !Agrees(files, r)
    ensures var o := Deliver(files, r, f);
      (Agrees(o.files, r) && !o.ending.Installed?) <==>
      (Honest(r) && StopsBeforeHook(files, r, f) && RenamesToAgree(files, r) <= RenamesOf(r, f))
  {
    DeliveryEnding(files, r, f);
    DeliveryAgrees(files, r, f);
    AgreesAfterExactly(files, r, RenamesOf(r, f));
  }

  lemma DeliveryEnding(files: Files, r: Response, f: Faults)
    requires !Agrees(files, r)
    ensures Deliver(files, r, f).ending.Installed? <==> !StopsBeforeHook(files, r, f)
  {
  }

  lemma DeliveryAgrees(files: Files, r: Response, f: Faults)
    requires !Agrees(files, r)
    ensures Agrees(Deliver(files, r, f).files, r) <==> Agrees(ApplyPrefix(files, BatchOf(r), RenamesOf(r, f)), r)
  {
    ChangedIffDisagrees(files, r);
    AgreesIgnores(ApplyPrefix(files, BatchOf(r), RenamesOf(r, f)), r, f.memo);
  }

  /** Neither the memo nor chain.pem has a part in agreement. */
  lemma AgreesIgnores(files: Files, r: Response, fate: Fate)
    ensures Agrees(files - {Chain}, r) <==> Agrees(files, r)
    ensures Agrees(SaveMemo(files, ETagOf(r), fate), r) <==> Agrees(files, r)
    ensures Agrees(SaveMemo(files - {Chain}, ETagOf(r), fate), r) <==> Agrees(files, r)
  {
  }

  lemma LostReloadIsFinal(files: Files, r: Response, f: Faults, later: seq<Event>)
    requires Pairs(r.fullchain, r.key) && Honest(r) && !Agrees(files, r)
    requires StopsBeforeHook(files, r, f) && RenamesToAgree(files, r) <= RenamesOf(r, f)
    requires ServesOnly(later, r)
    ensures Run(Deliver(files, r, f).files, later).reloads == 0
  {
    LostReloadExactly(files, r, f);
    AgreementIsFinal(Deliver(files, r, f).files, later, r, Fullchain);
  }

  // ---------- one Sync from any directory ----------

  /** From any directory, one clear and fault-free Sync on a response that pairs ends in agreement
      exactly if the directory agreed before, or the fingerprint is honest and the memo of a usable
      pair does not name that response. */
  lemma ConvergesExactly(files: Files, r: Response)
    requires Pairs(r.fullchain, r.key)
    ensures Agrees(SyncOnce(files, Event(Some(r), Clear, NO_FAULTS)).files, r) <==>
      || Agrees(files, r)
      || (Honest(r) && (!Paired(files) || MemoOf(files) == "" || MemoOf(files) != ETagOf(r)))
  {
    var e := Event(Some(r), Clear, NO_FAULTS);
    UnpairedAsksUnconditionally(files);
    ChangedIffDisagrees(files, r);
    if ReplyTo(e, IfNoneMatch(files)) != Answer(304, None) {
      HealsExactly(files, r);
    }
  }

  function Repeat(e: Event, n: nat): (events: seq<Event>)
    ensures |events| == n && forall i :: 0 <= i < n ==> events[i] == e
  {
    seq(n, i => e)
  }
}
