/** cert.pem and chain.pem, the parts of the installed chain that stand in files of their own: exactly
    when a usable pair vouches for them, and what becomes of them when it does not. */
module CertStale {
  import opened Wrappers
  import opened Pem
  import opened CertFiles
  import opened AtomicWriter
  import opened CertSync
  import opened CertRuns
  import opened CertLimits

  type Part = name: FileName | name == Cert || name == Chain witness Cert

  function PartOf(chain: Text, part: Part): Text {
    if part == Cert then LeafText(chain) else RestText(chain)
  }

  /** The file of the part has this content, and there is no such file if the content is empty. */
  predicate Keeps(files: Files, part: Part, content: Text) {
    if content == [] then part !in files else part in files && files[part] == content
  }

  /** If a usable pair is installed, the part belongs to its chain. */
  predicate Fits(files: Files, part: Part) {
    Paired(files) ==> Keeps(files, part, PartOf(files[Fullchain], part))
  }

  // ---------- one delivery ----------

  /** The install gets as far as to write the part, or to remove it if the chain has none. */
  predicate Renews(files: Files, part: Part, r: Response, f: Faults) {
    if PartOf(r.fullchain, part) != [] then PositionOf(r, part) < RenamesOf(r, f)
    else InstallFate(files, r, f).Done? && f.removal.Done?
  }

  /** Delivering `r` leaves a usable pair beside a part of another chain: something is renamed, the new
      leaf meets a key that fits it, and the part is neither renewed nor right already. */
  predicate Stales(files: Files, part: Part, r: Response, f: Faults) {
    var k := RenamesOf(r, f);
    && !Agrees(files, r) && 1 <= k && (k == |BatchOf(r)| || KeyFits(files, r))
    && !Renews(files, part, r, f) && !Keeps(files, part, PartOf(r.fullchain, part))
  }

  lemma PartAfterInstall(files: Files, part: Part, r: Response, f: Faults)
    requires Pairs(r.fullchain, r.key) && 1 <= RenamesOf(r, f)
    ensures var content := PartOf(r.fullchain, part);
      Keeps(InstallFiles(files, r, f), part, content) <==> Renews(files, part, r, f) || Keeps(files, part, content)
  {
    SplitKeepsBlocks(r.fullchain, r.key);
    BatchOrder(r);
    AfterRenames(files, r, RenamesOf(r, f), part);
  }

  /** What one delivery does, from any directory and under any faults: where it renames something, the
      part fits afterwards exactly unless it stales it, and where it does not, as before. */
  lemma PartAfterDelivery(files: Files, part: Part, r: Response, f: Faults)
    requires Pairs(r.fullchain, r.key)
    ensures var o := Deliver(files, r, f);
      Fits(o.files, part) <==> if o.renamed == 0 then Fits(files, part) else !Stales(files, part, r, f)
  {
    ChangedIffDisagrees(files, r);
    DeliveryShape(files, r, f, part);
    if Agrees(files, r) || RenamesOf(r, f) == 0 {
      PartUntouched(files, part, r, f);
    } else {
      PairAfterDelivery(files, r, f);
      PartAfterInstall(files, part, r, f);
    }
  }

  lemma PartUntouched(files: Files, part: Part, r: Response, f: Faults)
    requires Pairs(r.fullchain, r.key) && (Agrees(files, r) || RenamesOf(r, f) == 0)
    ensures Fits(Deliver(files, r, f).files, part) <==> Fits(files, part)
  {
    ChangedIffDisagrees(files, r);
    DeliveryShape(files, r, f, Fullchain);
    DeliveryShape(files, r, f, Privkey);
    DeliveryShape(files, r, f, part);
    if !Agrees(files, r) {
      NothingInstalled(files, r, f);
    }
  }

  lemma NothingInstalled(files: Files, r: Response, f: Faults)
    requires Pairs(r.fullchain, r.key) && RenamesOf(r, f) == 0
    ensures InstallFiles(files, r, f) == files
  {
    BatchOrder(r);
    SplitKeepsBlocks(r.fullchain, r.key);
  }

  /** Key reuse, spelled out for cert.pem and every stopping point: after no rename it is stale if it
      was, and else exactly after one rename, with a key that fits and another cert.pem or none. */
  lemma StaleCertExactly(files: Files, r: Response, k: nat)
    requires Pairs(r.fullchain, r.key) && k <= |BatchOf(r)|
    ensures !Fits(ApplyPrefix(files, BatchOf(r), k), Cert) <==>
      if k == 0 then !Fits(files, Cert)
      else k == 1 && KeyFits(files, r) && !(Cert in files && files[Cert] == LeafText(r.fullchain))
  {
    BatchOrder(r);
    SplitKeepsBlocks(r.fullchain, r.key);
    AfterRenames(files, r, k, Fullchain);
    AfterRenames(files, r, k, Cert);
    AfterRenames(files, r, k, Privkey);
  }

  /** The same for chain.pem and every delivery: where nothing is renamed it is stale if it was, and
      else exactly beside a usable pair, if it was not right already, and the install stopped before
      the third rename of a longer chain or did not remove the file for a single certificate. */
  lemma StaleChainExactly(files: Files, r: Response, f: Faults)
    requires Pairs(r.fullchain, r.key)
    ensures var k, rest := RenamesOf(r, f), RestText(r.fullchain);
      !Fits(Deliver(files, r, f).files, Chain) <==>
      if Agrees(files, r) || k == 0 then !Fits(files, Chain)
      else
        && (k == |BatchOf(r)| || KeyFits(files, r))
        && if rest != [] then k <= 2 && !(Chain in files && files[Chain] == rest)
           else Chain in files && !(InstallFate(files, r, f).Done? && f.removal.Done?)
  {
    PartAfterDelivery(files, Chain, r, f);
    DeliveryShape(files, r, f, Chain);
    ChangedIffDisagrees(files, r);
  }

  // ---------- every run ----------

  /** The Sync delivers and leaves the part stale. */
  predicate StalesIn(files: Files, e: Event, part: Part) {
    var r := DeliveredIn(files, e);
    r.Some? && Stales(files, part, r.value, e.faults)
  }

  lemma PartAfterSync(files: Files, e: Event, part: Part)
    ensures Fits(SyncOnce(files, e).files, part) <==>
      if RenamesIn(files, e, Fullchain) then !StalesIn(files, e, part) else Fits(files, part)
    ensures StalesIn(files, e, part) ==> RenamesIn(files, e, Fullchain)
  {
    SyncShape(files, e);
    var r := DeliveredIn(files, e);
    if r.Some? {
      ChangedIffDisagrees(files, r.value);
      DeliveryShape(files, r.value, e.faults, part);
      PartAfterDelivery(files, part, r.value, e.faults);
    }
  }

  predicate FitsAt(start: Files, events: seq<Event>, m: nat, part: Part)
    requires m <= |events|
  {
    Fits(Run(start, events[..m]).files, part)
  }

  predicate StalesAt(start: Files, events: seq<Event>, m: nat, part: Part)
    requires m < |events|
  {
    StalesIn(Run(start, events[..m]).files, events[m], part)
  }

  predicate RenamesAt(start: Files, events: seq<Event>, m: nat)
    requires m < |events|
  {
    RenamesIn(Run(start, events[..m]).files, events[m], Fullchain)
  }

  lemma FitsNext(start: Files, events: seq<Event>, m: nat, part: Part)
    requires m < |events|
    ensures FitsAt(start, events, m + 1, part) <==>
      if RenamesAt(start, events, m) then !StalesAt(start, events, m, part) else FitsAt(start, events, m, part)
    ensures StalesAt(start, events, m, part) ==> RenamesAt(start, events, m)
  {
    RunStep(start, events, m);
    PartAfterSync(Run(start, events[..m]).files, events[m], part);
  }

  lemma StaysFit(start: Files, events: seq<Event>, m: nat, part: Part)
    requires m < |events| && !RenamesAt(start, events, m)
    ensures FitsAt(start, events, m + 1, part) <==> FitsAt(start, events, m, part)
  {
    FitsNext(start, events, m, part);
  }

  lemma {:induction false} StaysFitThrough(start: Files, events: seq<Event>, t: nat, m: nat, part: Part)
    requires t <= m <= |events|
    requires forall i :: t <= i < m ==> !RenamesAt(start, events, i)
    ensures FitsAt(start, events, m, part) <==> FitsAt(start, events, t, part)
    decreases m - t
  {
    if t == m {
    } else {
      assert !RenamesAt(start, events, t);
      StaysFit(start, events, t, part);
      StaysFitThrough(start, events, t + 1, m, part);
    }
  }

  /** In every run from any directory, at every moment, the last Sync that renamed anything decides
      whether the pair vouches for the part. */
  lemma LastInstallDecides(start: Files, events: seq<Event>, t: nat, m: nat, part: Part)
    requires t < m <= |events| && RenamesAt(start, events, t)
    requires forall i :: t < i < m ==> !RenamesAt(start, events, i)
    ensures FitsAt(start, events, m, part) <==> !StalesAt(start, events, t, part)
  {
    FitsNext(start, events, t, part);
    StaysFitThrough(start, events, t + 1, m, part);
  }

  lemma {:induction false} FitsUpTo(start: Files, events: seq<Event>, m: nat, part: Part)
    requires Fits(start, part) && m <= |events|
    requires forall i :: 0 <= i < |events| ==> !StalesAt(start, events, i, part)
    ensures FitsAt(start, events, m, part)
  {
    if m == 0 {
    } else {
      FitsUpTo(start, events, m - 1, part);
      FitsNext(start, events, m - 1, part);
    }
  }

  /** What the pairing of just the first and the last file proves: from any directory in which a usable
      pair vouches for the part it does so at every moment of the run, whatever is served and whatever
      goes wrong, if and only if no Sync leaves the part stale. */
  lemma PairingProvesExactly(start: Files, events: seq<Event>, part: Part)
    requires Fits(start, part)
    ensures (forall m :: 0 <= m <= |events| ==> FitsAt(start, events, m, part)) <==>
      (forall m :: 0 <= m < |events| ==> !StalesAt(start, events, m, part))
  {
    if forall m :: 0 <= m < |events| ==> !StalesAt(start, events, m, part) {
      forall m | 0 <= m <= |events|
        ensures FitsAt(start, events, m, part)
      {
        FitsUpTo(start, events, m, part);
      }
    }
    if forall m :: 0 <= m <= |events| ==> FitsAt(start, events, m, part) {
      forall m | 0 <= m < |events|
        ensures !StalesAt(start, events, m, part)
      {
        assert FitsAt(start, events, m, part) && FitsAt(start, events, m + 1, part);
        FitsNext(start, events, m, part);
      }
    }
  }

  // ---------- for how long ----------

  /** A stale part beside a directory that agrees is there for good: no later run on the same leaf and
      bundle writes it again. */
  lemma StalePartIsFinal(files: Files, part: Part, r: Response, later: seq<Event>)
    requires Agrees(files, r) && !Fits(files, part) && ServesOnly(later, r)
    ensures var now := Run(files, later).files; Agrees(now, r) && !Fits(now, part)
  {
    AgreementIsFinal(files, later, r, part);
    AgreementIsFinal(files, later, r, Fullchain);
  }

  /** The bundle of `r`, if it has one, is installed. */
  predicate BundleThere(files: Files, r: Response) {
    r.bundle != [] ==> CA in files && files[CA] == r.bundle
  }

  /** So it is with the stale cert.pem of a reused key, from any directory, if the bundle is there. */
  lemma StaleCertIsFinal(files: Files, r: Response, later: seq<Event>)
    requires Pairs(r.fullchain, r.key) && Honest(r) && KeyFits(files, r) && BundleThere(files, r)
    requires !(Cert in files && files[Cert] == LeafText(r.fullchain))
    requires ServesOnly(later, r)
    ensures var now := Run(ApplyPrefix(files, BatchOf(r), 1), later).files; Agrees(now, r) && !Fits(now, Cert)
  {
    BatchOrder(r);
    StaleCertExactly(files, r, 1);
    AfterOneRename(files, r);
    StalePartIsFinal(ApplyPrefix(files, BatchOf(r), 1), Cert, r, later);
  }

  lemma AfterOneRename(files: Files, r: Response)
    requires KeyFits(files, r)
    ensures 1 <= |BatchOf(r)|
    ensures var now := ApplyPrefix(files, BatchOf(r), 1);
      && Paired(now) && now[Fullchain] == r.fullchain && MemoOf(now) == MemoOf(files)
      && (Agrees(now, r) <==> Honest(r) && BundleThere(files, r))
  {
    BatchOrder(r);
    AfterRenames(files, r, 1, Fullchain);
    AfterRenames(files, r, 1, Privkey);
    AfterRenames(files, r, 1, CA);
    AfterRenames(files, r, 1, ETagMemo);
  }

  /** Otherwise the next clear and fault-free Sync repairs it: after it cert.pem is still stale exactly
      if the directory agrees after the one rename, or its memo says so. */
  lemma StaleCertRepairedExactly(files: Files, r: Response)
    requires Pairs(r.fullchain, r.key) && KeyFits(files, r)
    requires !(Cert in files && files[Cert] == LeafText(r.fullchain))
    ensures 1 <= |BatchOf(r)|
    ensures !Fits(SyncOnce(ApplyPrefix(files, BatchOf(r), 1), Event(Some(r), Clear, NO_FAULTS)).files, Cert) <==>
      || (Honest(r) && BundleThere(files, r))
      || (ETagOf(r) != "" && MemoOf(files) == ETagOf(r))
  {
    BatchOrder(r);
    StaleCertExactly(files, r, 1);
    AfterOneRename(files, r);
    ClearSyncOnStale(ApplyPrefix(files, BatchOf(r), 1), r);
  }

  lemma ClearSyncOnStale(files: Files, r: Response)
    requires Pairs(r.fullchain, r.key) && Paired(files) && !Fits(files, Cert)
    ensures !Fits(SyncOnce(files, Event(Some(r), Clear, NO_FAULTS)).files, Cert) <==>
      Agrees(files, r) || (ETagOf(r) != "" && MemoOf(files) == ETagOf(r))
  {
    var e := Event(Some(r), Clear, NO_FAULTS);
    ChangedIffDisagrees(files, r);
    if Agrees(files, r) {
      IdleSync(files, e, r, Cert);
      IdleSync(files, e, r, Fullchain);
    } else if !(ETagOf(r) != "" && MemoOf(files) == ETagOf(r)) {
      CertRepaired(files, r);
    }
  }

  lemma CertRepaired(files: Files, r: Response)
    requires Pairs(r.fullchain, r.key) && !Agrees(files, r)
    requires IfNoneMatch(files) == "" || IfNoneMatch(files) != ETagOf(r)
    ensures var now := SyncOnce(files, Event(Some(r), Clear, NO_FAULTS)).files;
      Fullchain in now && Cert in now && now[Cert] == LeafText(now[Fullchain])
  {
    ClearSync(files, r, NO_FAULTS);
    ChangedIffDisagrees(files, r);
    SplitKeepsBlocks(r.fullchain, r.key);
    CompleteInstall(files, r, NO_FAULTS);
    DeliveryShape(files, r, NO_FAULTS, Fullchain);
    DeliveryShape(files, r, NO_FAULTS, Cert);
  }
}
