/** Whole runs of the installer: any number of Syncs, each meeting its own gateway state, network
    trouble, failing stages and renames, and deaths of the process at any point.  A Sync keeps
    nothing in memory, so a restart is simply the next Sync. */
module CertRuns {
  import opened Wrappers
  import opened Pem
  import opened CertFiles
  import opened AtomicWriter
  import opened CertSync
  import opened CertEndings

  /** A status the gateway may send for its own reasons; 304 is sent only for a matching
      If-None-Match.  With 200 the body does not decode. */
  type OtherStatus = code: int | code != 304 witness 500

  datatype Network = Clear | Lost | Status(code: OtherStatus)

  /** One Sync: what the gateway serves at that moment, the network and the local faults. */
  datatype Event = Event(served: Option<Response>, net: Network, faults: Faults)

  /** The gateway: 304 for the current validator (section 13.1.2 of RFC 9110), else the body. */
  function ReplyTo(e: Event, ifNoneMatch: string): Reply {
    match e.net
    case Lost => TransportError
    case Status(code) => Answer(code, None)
    case Clear =>
      if e.served.None? then Answer(404, None)
      else if ifNoneMatch != "" && ifNoneMatch == ETagOf(e.served.value) then Answer(304, None)
      else Answer(200, e.served)
  }

  function SyncOnce(files: Files, e: Event): Outcome {
    Conclude(files, ReplyTo(e, IfNoneMatch(files)), e.faults)
  }

  datatype State = State(files: Files, reloads: nat)

  function Run(start: Files, events: seq<Event>): State {
    if events == [] then State(start, 0)
    else
      var s := Run(start, events[..|events| - 1]);
      var o := SyncOnce(s.files, events[|events| - 1]);
      State(o.files, s.reloads + (if o.ending.Installed? then 1 else 0))
  }

  /** How many Syncs of the run the process did not live to the end of. */
  function Deaths(start: Files, events: seq<Event>): nat {
    if events == [] then 0
    else
      var n := |events| - 1;
      Deaths(start, events[..n]) + (if SyncOnce(Run(start, events[..n]).files, events[n]).ending.Crashed? then 1 else 0)
  }

  predicate DiesAt(start: Files, events: seq<Event>, m: nat)
    requires m < |events|
  {
    SyncOnce(Run(start, events[..m]).files, events[m]).ending.Crashed?
  }

  ghost predicate Survives(start: Files, events: seq<Event>) {
    forall m :: 0 <= m < |events| ==> !DiesAt(start, events, m)
  }

  lemma DiesInPrefix(start: Files, events: seq<Event>, n: nat, m: nat)
    requires m < n <= |events|
    ensures DiesAt(start, events[..n], m) <==> DiesAt(start, events, m)
  {
    assert events[..n][..m] == events[..m];
  }

  lemma SurvivesMore(start: Files, events: seq<Event>)
    requires events != []
    ensures var n := |events| - 1;
      Survives(start, events) <==> Survives(start, events[..n]) && !DiesAt(start, events, n)
  {
    var n := |events| - 1;
    forall m | 0 <= m < n
      ensures DiesAt(start, events[..n], m) <==> DiesAt(start, events, m)
    {
      DiesInPrefix(start, events, n, m);
    }
  }

  /** The count is zero exactly if no Sync of the run is cut short by a death. */
  lemma {:induction false} DeathsExactly(start: Files, events: seq<Event>)
    ensures Deaths(start, events) == 0 <==> Survives(start, events)
  {
    if events == [] {
    } else {
      DeathsExactly(start, events[..|events| - 1]);
      SurvivesMore(start, events);
    }
  }

  lemma CrashNeedsDeath(files: Files, e: Event)
    requires !HasDeath(e.faults)
    ensures !SyncOnce(files, e).ending.Crashed?
  {
    EndsExactly(files, ReplyTo(e, IfNoneMatch(files)), e.faults);
  }

  /** It is zero if the process meets no death. */
  lemma NoDeaths(start: Files, events: seq<Event>)
    requires forall m :: 0 <= m < |events| ==> !HasDeath(events[m].faults)
    ensures Deaths(start, events) == 0
  {
    forall m | 0 <= m < |events|
      ensures !DiesAt(start, events, m)
    {
      CrashNeedsDeath(Run(start, events[..m]).files, events[m]);
    }
    DeathsExactly(start, events);
  }

  /** The response the installer acts on, if it gets that far. */
  function DeliveredIn(files: Files, e: Event): Option<Response> {
    if SyncOnce(files, e).ending.Passive() then None else e.served
  }

  /** A Sync either does nothing at all or acts on the served response. */
  lemma SyncShape(files: Files, e: Event)
    ensures var o := SyncOnce(files, e);
      match DeliveredIn(files, e)
      case None => o.files == files && o.renamed == 0 && o.ending.Passive()
      case Some(r) =>
        && e.served == Some(r) && e.net.Clear? && Pairs(r.fullchain, r.key)
        && o == Deliver(files, r, e.faults) && !o.ending.Passive()
        && !(IfNoneMatch(files) != "" && IfNoneMatch(files) == ETagOf(r))
  {
    PassiveKeepsFiles(files, ReplyTo(e, IfNoneMatch(files)), e.faults);
  }

  /** One Sync more. */
  lemma RunStep(start: Files, events: seq<Event>, m: nat)
    requires m < |events|
    ensures Run(start, events[..m + 1]).files == SyncOnce(Run(start, events[..m]).files, events[m]).files
  {
    assert events[..m + 1][..m] == events[..m];
  }

  // ---------- provenance and the sandwich ----------

  /** Whether this Sync renames `name` into place. */
  predicate RenamesIn(files: Files, e: Event, name: FileName) {
    var r := DeliveredIn(files, e);
    r.Some? && PositionOf(r.value, name) < SyncOnce(files, e).renamed
  }

  /** The last Sync of the run that renamed `name` into place. */
  function LastRename(start: Files, events: seq<Event>, name: FileName): (t: Option<nat>)
    ensures t.Some? ==> t.value < |events| && events[t.value].served.Some?
  {
    if events == [] then None
    else
      var n := |events| - 1;
      if RenamesIn(Run(start, events[..n]).files, events[n], name) then Some(n)
      else LastRename(start, events[..n], name)
  }

  /** What one Sync does to one final file. */
  lemma FileAfterSync(files: Files, e: Event, name: FileName)
    requires name != ETagMemo
    ensures var now := SyncOnce(files, e).files;
      if RenamesIn(files, e, name) then
        && Deliverable(e)
        && WriteOf(e.served.value, name).Some? && name in now && now[name] == WriteOf(e.served.value, name).value
      else
        SameFile(now, files, name)
        || (name == Chain && Chain !in now && e.served.Some? && RestText(e.served.value.fullchain) == [])
  {
    SyncShape(files, e);
    if DeliveredIn(files, e).Some? {
      FileAfterDelivery(files, e.served.value, e.faults, name);
    }
  }

  /** Every final file is what the response of the last Sync that renamed it gives it, and that
      response paired; a file never renamed is the one of the start. */
  lemma {:induction false} Provenance(start: Files, events: seq<Event>, name: FileName)
    requires name != ETagMemo
    ensures var files, t := Run(start, events).files, LastRename(start, events, name);
      if t.Some? then
        var r := events[t.value].served.value;
        && Pairs(r.fullchain, r.key)
        && WriteOf(r, name).Some?
        && (name in files ==> files[name] == WriteOf(r, name).value)
        && (name != Chain ==> name in files)
      else
        && (name in files ==> name in start && files[name] == start[name])
        && (name != Chain && name in start ==> name in files)
  {
    if events == [] {
    } else {
      var n := |events| - 1;
      Provenance(start, events[..n], name);
      FileAfterSync(Run(start, events[..n]).files, events[n], name);
    }
  }

  /** Trust bundle persistence: once ca.pem exists no run removes it, it is never made empty, and
      it is always the bundle of the last response whose ca.pem rename happened. */
  lemma TrustBundlePersists(start: Files, events: seq<Event>, m: nat)
    requires m <= |events|
    ensures var early, late := Run(start, events[..m]).files, Run(start, events).files;
      && (CA in early ==> CA in late)
      && (CA in late && late[CA] == [] ==> CA in start && start[CA] == [])
      && (CA in late && LastRename(start, events, CA).Some? ==>
            late[CA] == events[LastRename(start, events, CA).value].served.value.bundle)
  {
    Provenance(start, events, CA);
    BundleStays(start, events, m);
  }

  lemma {:induction false} BundleStays(start: Files, events: seq<Event>, m: nat)
    requires m <= |events|
    ensures CA in Run(start, events[..m]).files ==> CA in Run(start, events).files
  {
    if m == |events| {
      assert events[..m] == events;
    } else {
      var n := |events| - 1;
      BundleStays(start, events[..n], m);
      assert events[..n][..m] == events[..m];
      FileAfterSync(Run(start, events[..n]).files, events[n], CA);
    }
  }

  predicate NotOlder(a: Option<nat>, b: Option<nat>) {
    b.Some? ==> a.Some? && b.value <= a.value
  }

  /** Whenever the batch of `r` holds `late`, `early` comes before it. */
  predicate Ahead(r: Response, early: FileName, late: FileName) {
    PositionOf(r, early) <= PositionOf(r, late) || |BatchOf(r)| <= PositionOf(r, late)
  }

  ghost predicate AlwaysAhead(events: seq<Event>, early: FileName, late: FileName) {
    forall i :: 0 <= i < |events| && events[i].served.Some? ==> Ahead(events[i].served.value, early, late)
  }

  /** Renames stop at a prefix: a Sync that renames `late` has renamed `early`. */
  lemma PrefixOrder(files: Files, e: Event, early: FileName, late: FileName)
    requires e.served.Some? ==> Ahead(e.served.value, early, late)
    ensures RenamesIn(files, e, late) ==> RenamesIn(files, e, early)
  {
  }

  lemma LastRenameStep(start: Files, events: seq<Event>, name: FileName)
    requires events != []
    ensures var n := |events| - 1;
      LastRename(start, events, name) ==
      if RenamesIn(Run(start, events[..n]).files, events[n], name) then Some(n)
      else LastRename(start, events[..n], name)
    ensures var t := LastRename(start, events[..|events| - 1], name); t.Some? ==> t.value < |events| - 1
  {
  }

  lemma AheadPrefix(events: seq<Event>, early: FileName, late: FileName)
    requires AlwaysAhead(events, early, late) && events != []
    ensures AlwaysAhead(events[..|events| - 1], early, late)
    ensures var e := events[|events| - 1]; e.served.Some? ==> Ahead(e.served.value, early, late)
  {
  }

  lemma {:induction false} RenameOrder(start: Files, events: seq<Event>, early: FileName, late: FileName)
    requires AlwaysAhead(events, early, late)
    ensures NotOlder(LastRename(start, events, early), LastRename(start, events, late))
  {
    if events == [] {
    } else {
      var n := |events| - 1;
      AheadPrefix(events, early, late);
      RenameOrder(start, events[..n], early, late);
      LastRenameStep(start, events, early);
      LastRenameStep(start, events, late);
      PrefixOrder(Run(start, events[..n]).files, events[n], early, late);
    }
  }

  /** Every served chain has more than one block. */
  ghost predicate MultiBlock(events: seq<Event>) {
    forall i :: 0 <= i < |events| && events[i].served.Some? ==> RestText(events[i].served.value.fullchain) != []
  }

  /** The sandwich: in every run, whatever fails or dies where, fullchain.pem is never older than
      cert.pem, cert.pem never older than privkey.pem, and chain.pem lies between them. */
  lemma Sandwich(start: Files, events: seq<Event>)
    ensures NotOlder(LastRename(start, events, Fullchain), LastRename(start, events, Cert))
    ensures NotOlder(LastRename(start, events, Cert), LastRename(start, events, Chain))
    ensures NotOlder(LastRename(start, events, Cert), LastRename(start, events, CA))
    ensures NotOlder(LastRename(start, events, Cert), LastRename(start, events, Privkey))
    ensures MultiBlock(events) ==> NotOlder(LastRename(start, events, Chain), LastRename(start, events, Privkey))
  {
    AllStaged(events);
    RenameOrder(start, events, Fullchain, Cert);
    RenameOrder(start, events, Cert, Chain);
    RenameOrder(start, events, Cert, CA);
    RenameOrder(start, events, Cert, Privkey);
    if MultiBlock(events) {
      RenameOrder(start, events, Chain, Privkey);
    }
  }

  lemma AllStaged(events: seq<Event>)
    ensures AlwaysAhead(events, Fullchain, Cert) && AlwaysAhead(events, Cert, Chain)
    ensures AlwaysAhead(events, Cert, CA) && AlwaysAhead(events, Cert, Privkey)
    ensures MultiBlock(events) ==> AlwaysAhead(events, Chain, Privkey)
  {
  }

  predicate Deliverable(e: Event) {
    e.served.Some? && Pairs(e.served.value.fullchain, e.served.value.key)
  }

  /** A new chain brings a new key and an old chain does not come back: if the key of one Sync
      fits the leaf of a later one, then all Syncs between served that same chain. */
  ghost predicate FreshKeys(events: seq<Event>) {
    forall i, j, k :: 0 <= i <= j <= k < |events|
      && Deliverable(events[i]) && Deliverable(events[j]) && Deliverable(events[k])
      && Pairs(events[k].served.value.fullchain, events[i].served.value.key)
      ==> events[j].served.value.fullchain == events[k].served.value.fullchain
  }

  lemma {:induction false} ChainStays(start: Files, events: seq<Event>)
    requires MultiBlock(events) && LastRename(start, events, Chain).Some?
    ensures Chain in Run(start, events).files
  {
    var n := |events| - 1;
    var before := Run(start, events[..n]).files;
    FileAfterSync(before, events[n], Chain);
    if !RenamesIn(before, events[n], Chain) {
      assert MultiBlock(events[..n]);
      ChainStays(start, events[..n]);
    }
  }

  lemma SameChainBetween(events: seq<Event>, i: nat, j: nat, k: nat)
    requires FreshKeys(events) && i <= j <= k < |events|
    requires Deliverable(events[i]) && Deliverable(events[j]) && Deliverable(events[k])
    requires Pairs(events[k].served.value.fullchain, events[i].served.value.key)
    ensures events[j].served.value.fullchain == events[k].served.value.fullchain
  {
  }

  /** In a directory this installer filled, a file comes from the last Sync that renamed it. */
  lemma SourceOf(events: seq<Event>, name: FileName) returns (t: nat)
    requires name != ETagMemo && name in Run(map[], events).files
    ensures t < |events| && LastRename(map[], events, name) == Some(t) && Deliverable(events[t])
    ensures WriteOf(events[t].served.value, name) == Some(Run(map[], events).files[name])
  {
    Provenance(map[], events, name);
    t := LastRename(map[], events, name).value;
  }

  /** What the pairing of just the first and the last file proves about those between them. */
  lemma PairedMeansConsistent(events: seq<Event>)
    requires FreshKeys(events) && Paired(Run(map[], events).files)
    ensures var files := Run(map[], events).files;
      && Cert in files && files[Cert] == LeafText(files[Fullchain])
      && (MultiBlock(events) ==> Chain in files && files[Chain] == RestText(files[Fullchain]))
  {
    CertConsistent(events);
    if MultiBlock(events) {
      ChainConsistent(events);
    }
  }

  /** The Syncs that the key, the file between and the chain come from, in this order. */
  lemma Between(events: seq<Event>, name: FileName) returns (i: nat, j: nat, k: nat)
    requires name == Cert || (name == Chain && MultiBlock(events))
    requires Fullchain in Run(map[], events).files && Privkey in Run(map[], events).files
    ensures name in Run(map[], events).files && i <= j <= k < |events|
    ensures Deliverable(events[i]) && Deliverable(events[j]) && Deliverable(events[k])
    ensures var files := Run(map[], events).files;
      && files[Fullchain] == events[k].served.value.fullchain
      && files[Privkey] == events[i].served.value.key
      && WriteOf(events[j].served.value, name) == Some(files[name])
  {
    Sandwich(map[], events);
    i := SourceOf(events, Privkey);
    k := SourceOf(events, Fullchain);
    if name == Cert {
      Provenance(map[], events, Cert);
    } else {
      ChainStays(map[], events);
    }
    j := SourceOf(events, name);
  }

  lemma CertConsistent(events: seq<Event>)
    requires FreshKeys(events) && Paired(Run(map[], events).files)
    ensures var files := Run(map[], events).files; Cert in files && files[Cert] == LeafText(files[Fullchain])
  {
    var i, j, k := Between(events, Cert);
    SameChainBetween(events, i, j, k);
  }

  lemma ChainConsistent(events: seq<Event>)
    requires FreshKeys(events) && Paired(Run(map[], events).files) && MultiBlock(events)
    ensures var files := Run(map[], events).files; Chain in files && files[Chain] == RestText(files[Fullchain])
  {
    var i, j, k := Between(events, Chain);
    SameChainBetween(events, i, j, k);
  }

  // ---------- 304 soundness ----------

  function MemoOf(files: Files): string {
    ReadDiskState(files).etag
  }

  /** Every served response that pairs carries the fingerprint of its own leaf. */
  ghost predicate AllHonest(events: seq<Event>) {
    forall i :: 0 <= i < |events| && Deliverable(events[i]) ==> Honest(events[i].served.value)
  }

  predicate SameMaterial(a: Response, b: Response) {
    a.fingerprint == b.fingerprint && a.bundle == b.bundle
  }

  /** The same leaf and bundle under the same validator. */
  predicate SameServing(a: Response, b: Response) {
    SameMaterial(a, b) && ETagOf(a) == ETagOf(b)
  }

  /** An etag names one leaf and bundle, and once the gateway has moved on it does not come back;
      serving nothing for a while is not moving on. */
  ghost predicate NoReturn(events: seq<Event>) {
    forall i, j, k :: 0 <= i <= j <= k < |events|
      && events[i].served.Some? && events[j].served.Some? && events[k].served.Some?
      && ETagOf(events[i].served.value) == ETagOf(events[k].served.value) && ETagOf(events[i].served.value) != ""
      ==> SameServing(events[j].served.value, events[k].served.value)
  }

  /** The memo found at the start is none of the etags served. */
  ghost predicate ForeignMemo(start: Files, events: seq<Event>) {
    forall i :: 0 <= i < |events| && events[i].served.Some? ==>
      MemoOf(start) == "" || MemoOf(start) != ETagOf(events[i].served.value)
  }

  ghost predicate WellServed(start: Files, events: seq<Event>) {
    AllHonest(events) && NoReturn(events) && ForeignMemo(start, events)
  }

  lemma WellServedPrefix(start: Files, events: seq<Event>)
    requires WellServed(start, events) && events != []
    ensures WellServed(start, events[..|events| - 1])
    ensures var e := events[|events| - 1];
      && (Deliverable(e) ==> Honest(e.served.value))
      && (e.served.Some? ==> MemoOf(start) == "" || MemoOf(start) != ETagOf(e.served.value))
  {
  }

  ghost predicate ServedETag(events: seq<Event>, etag: string) {
    exists i :: 0 <= i < |events| && events[i].served.Some? && ETagOf(events[i].served.value) == etag
  }

  /** The last response served, if there was one. */
  function LastServed(events: seq<Event>): Option<Response> {
    if events == [] then None
    else
      var n := |events| - 1;
      if events[n].served.Some? then events[n].served else LastServed(events[..n])
  }

  /** If the memo is the validator of what is served, the directory agrees with it. */
  predicate Vouched(files: Files, served: Option<Response>) {
    served.Some? && ETagOf(served.value) != "" && MemoOf(files) == ETagOf(served.value) ==> Agrees(files, served.value)
  }

  /** The memo changes only to the validator of a response the directory then agrees with. */
  lemma MemoAfterDelivery(files: Files, r: Response, f: Faults)
    requires Pairs(r.fullchain, r.key) && Honest(r)
    ensures var now := Deliver(files, r, f).files;
      || MemoOf(now) == MemoOf(files)
      || (MemoOf(now) == ETagOf(r) && Agrees(now, r))
  {
    ChangedIffDisagrees(files, r);
    if Changed(ReadDiskState(files), r) {
      var installed := InstallFiles(files, r, f);
      MemoUntouchedByInstall(files, r, f);
      if InstallFate(files, r, f).Done? {
        CompleteInstall(files, r, f);
        MemoSaved(installed, r, f.memo);
      }
    } else {
      MemoSaved(files, r, f.memo);
    }
  }

  lemma MemoSaved(files: Files, r: Response, fate: Fate)
    ensures var now := SaveMemo(files, ETagOf(r), fate);
      && MemoOf(now) == (if ETagOf(r) != "" && fate.Done? then ETagOf(r) else MemoOf(files))
      && (Agrees(now, r) <==> Agrees(files, r))
  {
    MemoReadsBack(r);
  }

  lemma MemoUntouchedByInstall(files: Files, r: Response, f: Faults)
    ensures MemoOf(InstallFiles(files, r, f)) == MemoOf(files)
  {
    FileAfterInstall(files, r, f, ETagMemo);
  }

  /** One Sync keeps the memo truthful. */
  lemma MemoStep(files: Files, e: Event)
    requires Vouched(files, e.served)
    requires Deliverable(e) ==> Honest(e.served.value)
    ensures var now := SyncOnce(files, e).files;
      && Vouched(now, e.served)
      && (e.served.None? ==> now == files)
      && (MemoOf(now) == MemoOf(files) || (e.served.Some? && MemoOf(now) == ETagOf(e.served.value)))
  {
    SyncShape(files, e);
    var r := DeliveredIn(files, e);
    if r.Some? {
      MemoAfterDelivery(files, r.value, e.faults);
      if Agrees(files, r.value) {
        InstalledMeansAgrees(files, r.value, e.faults);
      }
    }
  }

  lemma {:induction false} MemoInvariant(start: Files, events: seq<Event>)
    requires WellServed(start, events)
    ensures var memo := MemoOf(Run(start, events).files); memo == MemoOf(start) || ServedETag(events, memo)
    ensures Vouched(Run(start, events).files, LastServed(events))
  {
    if events == [] {
    } else {
      var n := |events| - 1;
      var e, before := events[n], Run(start, events[..n]).files;
      WellServedPrefix(start, events);
      MemoInvariant(start, events[..n]);
      assert events[..n] + [e] == events;
      VouchedNext(events[..n], e, before, MemoOf(start));
      MemoStep(before, e);
      ServedETagExtends(events, MemoOf(before));
    }
  }

  lemma ServedETagExtends(events: seq<Event>, etag: string)
    requires events != []
    ensures ServedETag(events[..|events| - 1], etag) ==> ServedETag(events, etag)
    ensures events[|events| - 1].served.Some? ==> ServedETag(events, ETagOf(events[|events| - 1].served.value))
  {
  }

  /** The last response served before a Sync is one of those served, and the latest. */
  lemma {:induction false} LastServedAt(events: seq<Event>, i: nat) returns (j: nat)
    requires i < |events| && events[i].served.Some?
    ensures i <= j < |events| && events[j].served.Some? && LastServed(events) == events[j].served
  {
    var n := |events| - 1;
    if events[n].served.Some? {
      j := n;
    } else {
      j := LastServedAt(events[..n], i);
    }
  }

  /** The gateway does not return, so a memo that names what is served now named what was served
      last, and vouched for it. */
  lemma VouchedNext(events: seq<Event>, next: Event, files: Files, first: string)
    requires NoReturn(events + [next])
    requires next.served.Some? ==> first == "" || first != ETagOf(next.served.value)
    requires MemoOf(files) == first || ServedETag(events, MemoOf(files))
    requires Vouched(files, LastServed(events))
    ensures Vouched(files, next.served)
  {
    if next.served.Some? && ETagOf(next.served.value) != "" && MemoOf(files) == ETagOf(next.served.value) {
      NotReturned(events, next);
    }
  }

  lemma NotReturned(events: seq<Event>, next: Event)
    requires NoReturn(events + [next])
    requires next.served.Some? && ETagOf(next.served.value) != "" && ServedETag(events, ETagOf(next.served.value))
    ensures LastServed(events).Some? && SameServing(LastServed(events).value, next.served.value)
  {
    var all, n := events + [next], |events|;
    var i :| 0 <= i < n && events[i].served.Some? && ETagOf(events[i].served.value) == ETagOf(next.served.value);
    var j := LastServedAt(events, i);
    assert all[i] == events[i] && all[j] == events[j] && all[n] == next;
  }

  lemma MatchMeansMemo(next: Event, files: Files)
    requires ReplyTo(next, IfNoneMatch(files)) == Answer(304, None)
    ensures next.served.Some? && ETagOf(next.served.value) != "" && MemoOf(files) == ETagOf(next.served.value)
  {
  }

  /** 304 soundness: in every run against a gateway that does not return to an earlier etag, with
      any faults, deaths and lost memo writes, the next request can match the current etag only
      when the directory already agrees with what is served. */
  lemma NotModifiedIsSound(start: Files, events: seq<Event>, next: Event)
    requires WellServed(start, events + [next])
    ensures var files := Run(start, events).files;
      ReplyTo(next, IfNoneMatch(files)) == Answer(304, None) ==> next.served.Some? && Agrees(files, next.served.value)
  {
    var all, files := events + [next], Run(start, events).files;
    WellServedPrefix(start, all);
    assert all[..|events|] == events;
    MemoInvariant(start, events);
    VouchedNext(events, next, files, MemoOf(start));
    if ReplyTo(next, IfNoneMatch(files)) == Answer(304, None) {
      MatchMeansMemo(next, files);
    }
  }

  /** Never wedged: after any run whatever, one clear and fault-free Sync against a response
      that pairs ends in agreement with it, be it by a 304 or by a 200. */
  lemma NeverWedged(start: Files, events: seq<Event>, r: Response)
    requires var next := Event(Some(r), Clear, NO_FAULTS);
      WellServed(start, events + [next])
    requires Pairs(r.fullchain, r.key)
    ensures Agrees(Run(start, events + [Event(Some(r), Clear, NO_FAULTS)]).files, r)
  {
    var next := Event(Some(r), Clear, NO_FAULTS);
    var all := events + [next];
    assert all[..|all| - 1] == events;
    assert all[|all| - 1] == next && Deliverable(next);
    var files := Run(start, events).files;
    if ReplyTo(next, IfNoneMatch(files)) == Answer(304, None) {
      NotModifiedIsSound(start, events, next);
    } else {
      HealsExactly(files, r);
    }
  }

  // ---------- no reload loop ----------

  /** The last response the installer acted on. */
  function LastDelivered(start: Files, events: seq<Event>): Option<Response> {
    if events == [] then None
    else
      var n := |events| - 1;
      var r := DeliveredIn(Run(start, events[..n]).files, events[n]);
      if r.Some? then r else LastDelivered(start, events[..n])
  }

  /** How often what is delivered differs, in leaf or bundle, from what was delivered before; the
      first delivery counts. */
  function MaterialChanges(start: Files, events: seq<Event>): nat {
    if events == [] then 0
    else
      var n := |events| - 1;
      var r := DeliveredIn(Run(start, events[..n]).files, events[n]);
      var last := LastDelivered(start, events[..n]);
      MaterialChanges(start, events[..n])
      + (if r.Some? && (last.None? || !SameMaterial(r.value, last.value)) then 1 else 0)
  }

  lemma InstalledMeansAgrees(files: Files, r: Response, f: Faults)
    requires Pairs(r.fullchain, r.key) && Honest(r)
    ensures var o := Deliver(files, r, f);
      && (o.ending.Installed? ==> !Agrees(files, r) && Agrees(o.files, r))
      && (Agrees(files, r) ==> Agrees(o.files, r))
  {
    ChangedIffDisagrees(files, r);
    if Deliver(files, r, f).ending.Installed? {
      CompleteInstall(files, r, f);
    }
  }

  /** No reload loop: in every run from any directory, with any faults, the hook runs at most
      once for each change of the delivered leaf or bundle; as long as the directory lags behind
      the last delivery, even one time less. */
  lemma {:induction false} NoReloadLoop(start: Files, events: seq<Event>)
    requires AllHonest(events)
    ensures var s, last := Run(start, events), LastDelivered(start, events);
      && s.reloads <= MaterialChanges(start, events)
      && (last.Some? && !Agrees(s.files, last.value) ==> s.reloads + 1 <= MaterialChanges(start, events))
  {
    if events == [] {
    } else {
      var n := |events| - 1;
      assert forall i :: 0 <= i < n ==> events[..n][i] == events[i];
      NoReloadLoop(start, events[..n]);
      var before := Run(start, events[..n]).files;
      SyncShape(before, events[n]);
      var r := DeliveredIn(before, events[n]);
      if r.Some? {
        assert Deliverable(events[n]);
        InstalledMeansAgrees(before, r.value, events[n].faults);
      }
    }
  }

  /** How often what is served, delivered or not, differs in leaf or bundle from what was served
      before; the first counts. */
  function ServedChanges(events: seq<Event>): nat {
    if events == [] then 0
    else
      var n := |events| - 1;
      var last := LastServed(events[..n]);
      ServedChanges(events[..n])
      + (if events[n].served.Some? && (last.None? || !SameMaterial(events[n].served.value, last.value)) then 1 else 0)
  }

  /** Deliveries change no more often than what is served, and less often by one while the last
      material served has not been delivered. */
  lemma {:induction false} DeliveriesFollowServing(start: Files, events: seq<Event>)
    ensures var d, s := LastDelivered(start, events), LastServed(events);
      && MaterialChanges(start, events) <= ServedChanges(events)
      && (d.Some? ==> s.Some?)
      && (s.Some? && (d.None? || !SameMaterial(s.value, d.value)) ==>
            MaterialChanges(start, events) + 1 <= ServedChanges(events))
  {
    if events == [] {
    } else {
      var n := |events| - 1;
      DeliveriesFollowServing(start, events[..n]);
      SyncShape(Run(start, events[..n]).files, events[n]);
    }
  }

  ghost predicate ServesOnly(events: seq<Event>, r: Response) {
    forall i :: 0 <= i < |events| && events[i].served.Some? ==> SameMaterial(events[i].served.value, r)
  }

  /** The count counts no more than it should: a gateway that sticks to one leaf and bundle counts once,
      or not at all if it serves nothing, and it is no more than the times something is served. */
  lemma {:induction false} OneServingCountsOnce(events: seq<Event>, r: Response)
    requires ServesOnly(events, r)
    ensures ServedChanges(events) == if LastServed(events).Some? then 1 else 0
    ensures LastServed(events).Some? ==> SameMaterial(LastServed(events).value, r)
  {
    if events == [] {
    } else {
      var n := |events| - 1;
      assert ServesOnly(events[..n], r);
      OneServingCountsOnce(events[..n], r);
    }
  }

  /** Counted piece by piece there are at most as many changes as in the pieces. */
  lemma {:induction false} ServingsAddUp(a: seq<Event>, b: seq<Event>)
    ensures ServedChanges(a) <= ServedChanges(a + b) <= ServedChanges(a) + ServedChanges(b)
    ensures LastServed(a + b) == if LastServed(b).Some? then LastServed(b) else LastServed(a)
  {
    if b == [] {
      assert a + b == a;
    } else {
      var n := |b| - 1;
      assert (a + b)[..|a| + n] == a + b[..n];
      ServingsAddUp(a, b[..n]);
    }
  }

  /** The same bound in the gateway's terms: the hook runs at most once for each time the gateway
      comes to serve another leaf or bundle. */
  lemma ReloadsBoundedByServing(start: Files, events: seq<Event>)
    requires AllHonest(events)
    ensures Run(start, events).reloads <= ServedChanges(events)
  {
    NoReloadLoop(start, events);
    DeliveriesFollowServing(start, events);
  }

  /** The steady state: once a response with a validator has been taken in without a fault, the
      next request for it is answered 304, and changes nothing. */
  lemma SteadyStateIsNotModified(files: Files, r: Response)
    requires Pairs(r.fullchain, r.key) && Honest(r) && ETagOf(r) != ""
    ensures var now := Deliver(files, r, NO_FAULTS).files; var e := Event(Some(r), Clear, NO_FAULTS);
      && MemoOf(now) == ETagOf(r) && Agrees(now, r)
      && ReplyTo(e, IfNoneMatch(now)) == Answer(304, None) && SyncOnce(now, e).files == now
  {
    var now := Deliver(files, r, NO_FAULTS).files;
    DeliveredMemo(files, r);
    ChangedIffDisagrees(now, r);
  }

  lemma DeliveredMemo(files: Files, r: Response)
    requires Pairs(r.fullchain, r.key) && Honest(r) && ETagOf(r) != ""
    ensures var now := Deliver(files, r, NO_FAULTS).files; MemoOf(now) == ETagOf(r) && Agrees(now, r)
  {
    ChangedIffDisagrees(files, r);
    SplitKeepsBlocks(r.fullchain, r.key);
    if Changed(ReadDiskState(files), r) {
      CompleteInstall(files, r, NO_FAULTS);
      MemoSaved(InstallFiles(files, r, NO_FAULTS), r, Done);
    } else {
      MemoSaved(files, r, Done);
    }
  }
}
