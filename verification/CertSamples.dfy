/** Concrete runs in which a condition of the exact statements fails: each shows that the promise it
    belongs to is not kept by the code on every input. */
module CertSamples {
  import opened Wrappers
  import opened Pem
  import opened CertFiles
  import opened AtomicWriter
  import opened CertSync
  import opened CertRuns
  import opened CertLimits
  import opened CertStale
  import opened CertReturn
  import opened CertReloads

  function LeafBlock(serial: nat, key: nat): Block {
    Block("CERTIFICATE", CertificateDER(Certificate(serial, Comparable(key), 0)))
  }

  function KeyBlock(key: nat): Block {
    Block("EC PRIVATE KEY", KeyDER(Signer(Comparable(key))))
  }

  /** A served leaf with its key, its issuers, a bundle and a validator. */
  function Sample(serial: nat, key: nat, issuers: Text, bundle: Text, etag: string): Response {
    Response(Sha256(LeafBlock(serial, key).payload.cert), [Armored(LeafBlock(serial, key), 0)] + issuers,
             [Armored(KeyBlock(key), 0)], bundle, etag, "")
  }

  function Clearly(r: Response): Event {
    Event(Some(r), Clear, NO_FAULTS)
  }

  lemma SampleIsUsable(serial: nat, key: nat, issuers: Text, bundle: Text, etag: string)
    ensures var r := Sample(serial, key, issuers, bundle, etag);
      && Pairs(r.fullchain, r.key) && Honest(r)
      && LeafText(r.fullchain) == [Armored(LeafBlock(serial, key), 0)]
      && RestText(r.fullchain) == Encode(Blocks(issuers))
  {
    var r := Sample(serial, key, issuers, bundle, etag);
    assert r.fullchain[1..] == issuers;
    assert Blocks(r.fullchain) == [LeafBlock(serial, key)] + Blocks(issuers);
    assert Blocks(r.fullchain)[..1] == [LeafBlock(serial, key)] && Blocks(r.fullchain)[1..] == Blocks(issuers);
    assert Encode([LeafBlock(serial, key)]) == [Armored(LeafBlock(serial, key), 0)];
  }

  lemma SampleKeys(serial: nat, key: nat, other: nat)
    ensures Pairs([Armored(LeafBlock(serial, key), 0)], [Armored(KeyBlock(other), 0)]) <==> key == other
  {
  }

  lemma SampleETag(serial: nat, key: nat, issuers: Text, bundle: Text, etag: string)
    requires |etag| == 1 && !IsSpace(etag[0])
    ensures ETagOf(Sample(serial, key, issuers, bundle, etag)) == etag
  {
  }

  lemma TwoSyncs(first: Event, second: Event)
    ensures var one := SyncOnce(map[], first);
      && Run(map[], [first]).files == one.files
      && Run(map[], [first, second]).files == SyncOnce(one.files, second).files
  {
    OneMore(map[], [], first);
    OneMore(map[], [first], second);
    assert [] + [first] == [first] && [first] + [second] == [first, second];
  }

  /** A first install, file by file. */
  lemma FirstFiles(r: Response)
    requires Pairs(r.fullchain, r.key) && Honest(r) && ETagOf(r) != ""
    ensures var now := SyncOnce(map[], Clearly(r)).files;
      && Agrees(now, r) && MemoOf(now) == ETagOf(r)
      && Fullchain in now && now[Fullchain] == r.fullchain
      && Cert in now && now[Cert] == LeafText(r.fullchain)
      && Privkey in now && now[Privkey] == r.key
      && (RestText(r.fullchain) != [] ==> Chain in now && now[Chain] == RestText(r.fullchain))
  {
    FirstSync(r);
    SyncShape(map[], Clearly(r));
    SplitKeepsBlocks(r.fullchain, r.key);
    CompleteInstall(map[], r, NO_FAULTS);
    DeliveryShape(map[], r, NO_FAULTS, Fullchain);
    DeliveryShape(map[], r, NO_FAULTS, Cert);
    DeliveryShape(map[], r, NO_FAULTS, Chain);
  }

  /** A failed install may leave a directory other than the one it found. */
  lemma FailedInstallLeavesTraces()
    ensures var r, f := Sample(1, 7, [], [], "1"), NO_FAULTS.(renaming := FailAt(1));
      InstallFate(map[], r, f).Failed? && InstallFiles(map[], r, f) != map[]
  {
    var r, f := Sample(1, 7, [], [], "1"), NO_FAULTS.(renaming := FailAt(1));
    SampleIsUsable(1, 7, [], [], "1");
    AfterRenames(map[], r, 1, Fullchain);
    assert RenamesOf(r, f) == 1;
  }

  /** `a` is installed, and then `b` is served under the faults `f`. */
  function Then(a: Response, b: Response, f: Faults): seq<Event> {
    [Clearly(a), Event(Some(b), Clear, f)]
  }

  predicate Succeeds(a: Response, b: Response) {
    && Pairs(a.fullchain, a.key) && Honest(a) && ETagOf(a) != ""
    && Pairs(b.fullchain, b.key) && Honest(b) && ETagOf(b) != ETagOf(a) && b.fingerprint != a.fingerprint
  }

  /** The second Sync delivers `b` to the files of `a`. */
  lemma Delivered(a: Response, b: Response, f: Faults)
    requires Succeeds(a, b)
    ensures var files := SyncOnce(map[], Clearly(a)).files;
      !Agrees(files, b) && Run(map[], Then(a, b, f)).files == Deliver(files, b, f).files
  {
    FirstFiles(a);
    TwoSyncs(Clearly(a), Event(Some(b), Clear, f));
  }

  function Stopping(stop: Stop): Faults {
    NO_FAULTS.(renaming := stop)
  }

  /** The second Sync stops after the first renames, be it by a failure or by a death. */
  lemma StopsEarly(a: Response, b: Response, stop: Stop)
    requires Succeeds(a, b) && !stop.Never? && stop.at < |BatchOf(b)|
    ensures var files := SyncOnce(map[], Clearly(a)).files;
      && Run(map[], Then(a, b, Stopping(stop))).files == ApplyPrefix(files, BatchOf(b), stop.at)
      && !SyncOnce(files, Event(Some(b), Clear, Stopping(stop))).ending.Installed?
  {
    FirstFiles(a);
    InterruptedSync(SyncOnce(map[], Clearly(a)).files, b, stop);
    TwoSyncs(Clearly(a), Event(Some(b), Clear, Stopping(stop)));
  }

  predicate StopsAtOne(stop: Stop) {
    stop == FailAt(1) || stop == DieAt(1)
  }

  lemma NewKeyBreaksPair(a: Response, b: Response, stop: Stop)
    requires Succeeds(a, b) && !Pairs(b.fullchain, a.key) && StopsAtOne(stop)
    ensures Paired(SyncOnce(map[], Clearly(a)).files)
    ensures !Paired(Run(map[], Then(a, b, Stopping(stop))).files)
  {
    BatchOrder(b);
    FirstFiles(a);
    StopsEarly(a, b, stop);
    InterruptedPairExactly(SyncOnce(map[], Clearly(a)).files, b, 1);
  }

  lemma ReusedKeyLeavesCert(a: Response, b: Response, stop: Stop)
    requires Succeeds(a, b) && Pairs(b.fullchain, a.key) && b.bundle == [] && StopsAtOne(stop)
    requires LeafText(b.fullchain) != LeafText(a.fullchain)
    ensures var now := Run(map[], Then(a, b, Stopping(stop))).files; Agrees(now, b) && !Fits(now, Cert)
  {
    BatchOrder(b);
    FirstFiles(a);
    StopsEarly(a, b, stop);
    StaleCertIsFinal(SyncOnce(map[], Clearly(a)).files, b, []);
  }

  /** The directory after a first install and the first two renames of another chain and key. */
  lemma BrokenFiles(a: Response, b: Response)
    requires Succeeds(a, b)
    ensures var files := Run(map[], Then(a, b, Stopping(FailAt(2)))).files;
      && Cert in files && files[Cert] == LeafText(b.fullchain)
      && Fullchain in files && files[Fullchain] == b.fullchain
      && Privkey in files && files[Privkey] == a.key && MemoOf(files) == ETagOf(a)
  {
    BatchOrder(b);
    FirstFiles(a);
    StopsEarly(a, b, FailAt(2));
    AfterTwoRenames(SyncOnce(map[], Clearly(a)).files, b);
  }

  lemma AfterTwoRenames(files: Files, r: Response)
    ensures 2 <= |BatchOf(r)|
    ensures var now := ApplyPrefix(files, BatchOf(r), 2);
      && Cert in now && now[Cert] == LeafText(r.fullchain)
      && Fullchain in now && now[Fullchain] == r.fullchain
      && SameFile(now, files, Privkey) && MemoOf(now) == MemoOf(files)
  {
    BatchOrder(r);
    AfterRenames(files, r, 2, Fullchain);
    AfterRenames(files, r, 2, Cert);
    AfterRenames(files, r, 2, Privkey);
    AfterRenames(files, r, 2, ETagMemo);
  }

  /** `b` has another key than `a`, and `c` the same key again. */
  predicate ComesBack(a: Response, b: Response, c: Response) {
    && Succeeds(a, b) && !Pairs(b.fullchain, a.key)
    && Pairs(c.fullchain, c.key) && Honest(c) && Pairs(c.fullchain, a.key) && c.bundle == []
    && ETagOf(c) != ETagOf(a) && LeafText(c.fullchain) != LeafText(b.fullchain)
  }

  lemma OldKeyComesBack(a: Response, b: Response, c: Response)
    requires ComesBack(a, b, c)
    ensures var files := Run(map[], Then(a, b, Stopping(FailAt(2)))).files;
      var now := SyncOnce(files, Event(Some(c), Clear, Stopping(FailAt(1)))).files;
      !Paired(files) && Agrees(now, c) && !Fits(now, Cert)
  {
    var files := Run(map[], Then(a, b, Stopping(FailAt(2)))).files;
    BrokenFiles(a, b);
    BatchOrder(c);
    InterruptedSync(files, c, FailAt(1));
    StaleCertIsFinal(files, c, []);
  }

  lemma ShorterChainLeavesChain(a: Response, b: Response)
    requires Succeeds(a, b) && RestText(a.fullchain) != [] && RestText(b.fullchain) == []
    ensures var now := Run(map[], Then(a, b, NO_FAULTS.(removal := Failed))).files;
      Agrees(now, b) && !Fits(now, Chain)
  {
    var f, files := NO_FAULTS.(removal := Failed), SyncOnce(map[], Clearly(a)).files;
    FirstFiles(a);
    Delivered(a, b, f);
    CompleteDelivery(files, b, f);
    SplitKeepsBlocks(b.fullchain, b.key);
    StaleChainExactly(files, b, f);
  }

  lemma ReusedKeyLeavesChain(a: Response, b: Response, stop: Stop)
    requires Succeeds(a, b) && Pairs(b.fullchain, a.key) && b.bundle == []
    requires RestText(a.fullchain) != RestText(b.fullchain) && [] !in {RestText(a.fullchain), RestText(b.fullchain)}
    requires !stop.Never? && 1 <= stop.at <= 2
    ensures var now := Run(map[], Then(a, b, Stopping(stop))).files; Agrees(now, b) && !Fits(now, Chain)
  {
    var files := SyncOnce(map[], Clearly(a)).files;
    BatchOrder(b);
    FirstFiles(a);
    StopsEarly(a, b, stop);
    ChainNotReached(files, b, stop.at);
  }

  lemma ChainNotReached(files: Files, r: Response, k: nat)
    requires Honest(r) && KeyFits(files, r) && r.bundle == [] && 1 <= k <= 2 && RestText(r.fullchain) != []
    requires !(Chain in files && files[Chain] == RestText(r.fullchain))
    ensures k <= |BatchOf(r)|
    ensures var now := ApplyPrefix(files, BatchOf(r), k); Agrees(now, r) && !Fits(now, Chain)
  {
    BatchOrder(r);
    AfterRenames(files, r, k, Fullchain);
    AfterRenames(files, r, k, Privkey);
    AfterRenames(files, r, k, Chain);
  }

  /** A new leaf with a new key, and a failure or a death after the first rename: the pair is broken. */
  lemma BrokenPairExists(stop: Stop)
    requires StopsAtOne(stop)
    ensures var a, b := Sample(1, 7, [], [], "1"), Sample(2, 8, [], [], "2");
      Paired(SyncOnce(map[], Clearly(a)).files) && !Paired(Run(map[], Then(a, b, Stopping(stop))).files)
  {
    SampleSucceeds();
    NewKeyBreaksPair(Sample(1, 7, [], [], "1"), Sample(2, 8, [], [], "2"), stop);
  }

  /** A new leaf for the same key, and a failure or a death after the first rename: the directory
      agrees, and its cert.pem is not the leaf. */
  lemma StaleCertExists(stop: Stop)
    requires StopsAtOne(stop)
    ensures var a, b := Sample(1, 7, [], [], "1"), Sample(2, 7, [], [], "2");
      var now := Run(map[], Then(a, b, Stopping(stop))).files; Agrees(now, b) && !Fits(now, Cert)
  {
    SampleIsUsable(1, 7, [], [], "1");
    SampleIsUsable(2, 7, [], [], "2");
    ReusedKeyLeavesCert(Sample(1, 7, [], [], "1"), Sample(2, 7, [], [], "2"), stop);
  }

  lemma SampleComesBack()
    ensures ComesBack(Sample(1, 7, [], [], "1"), Sample(2, 8, [], [], "2"), Sample(3, 7, [], [], "3"))
  {
    SampleSucceeds();
    SampleReturns();
  }

  lemma SampleSucceeds()
    ensures var a, b := Sample(1, 7, [], [], "1"), Sample(2, 8, [], [], "2");
      Succeeds(a, b) && !Pairs(b.fullchain, a.key)
  {
    SampleIsUsable(1, 7, [], [], "1");
    SampleIsUsable(2, 8, [], [], "2");
    SampleETag(1, 7, [], [], "1");
    SampleETag(2, 8, [], [], "2");
    SampleKeys(2, 8, 7);
  }

  lemma SampleReturns()
    ensures var a, b, c := Sample(1, 7, [], [], "1"), Sample(2, 8, [], [], "2"), Sample(3, 7, [], [], "3");
      && Pairs(c.fullchain, c.key) && Honest(c) && Pairs(c.fullchain, a.key)
      && ETagOf(c) != ETagOf(a) && LeafText(c.fullchain) != LeafText(b.fullchain)
  {
    SampleIsUsable(2, 8, [], [], "2");
    SampleIsUsable(3, 7, [], [], "3");
    SampleETag(1, 7, [], [], "1");
    SampleETag(3, 7, [], [], "3");
    SampleKeys(3, 7, 7);
  }

  /** It comes about from a broken pair as well, when the key that was left fits the next leaf. */
  lemma StaleCertFromBrokenPair()
    ensures var a, b, c := Sample(1, 7, [], [], "1"), Sample(2, 8, [], [], "2"), Sample(3, 7, [], [], "3");
      var files := Run(map[], Then(a, b, Stopping(FailAt(2)))).files;
      var now := SyncOnce(files, Event(Some(c), Clear, Stopping(FailAt(1)))).files;
      !Paired(files) && Agrees(now, c) && !Fits(now, Cert)
  {
    SampleComesBack();
    OldKeyComesBack(Sample(1, 7, [], [], "1"), Sample(2, 8, [], [], "2"), Sample(3, 7, [], [], "3"));
  }

  /** One issuer. */
  function Issuer(serial: nat): Text {
    [Armored(LeafBlock(serial, 9), 0)]
  }

  lemma IssuerText(serial: nat)
    ensures Encode(Blocks(Issuer(serial))) == Issuer(serial)
  {
    assert Blocks(Issuer(serial)) == [LeafBlock(serial, 9)];
  }

  /** A chain of one after a chain of two, and a removal that fails: chain.pem is the old one. */
  lemma StaleChainExists()
    ensures var a, b := Sample(1, 7, Issuer(5), [], "1"), Sample(2, 8, [], [], "2");
      var now := Run(map[], Then(a, b, NO_FAULTS.(removal := Failed))).files; Agrees(now, b) && !Fits(now, Chain)
  {
    IssuerText(5);
    SampleIsUsable(1, 7, Issuer(5), [], "1");
    SampleIsUsable(2, 8, [], [], "2");
    ShorterChainLeavesChain(Sample(1, 7, Issuer(5), [], "1"), Sample(2, 8, [], [], "2"));
  }

  /** Another issuer and the same key, and a failure or a death after one or two renames: so it is. */
  lemma InterruptedChainExists(stop: Stop)
    requires !stop.Never? && 1 <= stop.at <= 2
    ensures var a, b := Sample(1, 7, Issuer(5), [], "1"), Sample(2, 7, Issuer(6), [], "2");
      var now := Run(map[], Then(a, b, Stopping(stop))).files; Agrees(now, b) && !Fits(now, Chain)
  {
    IssuerText(5);
    IssuerText(6);
    SampleIsUsable(1, 7, Issuer(5), [], "1");
    SampleIsUsable(2, 7, Issuer(6), [], "2");
    ReusedKeyLeavesChain(Sample(1, 7, Issuer(5), [], "1"), Sample(2, 7, Issuer(6), [], "2"), stop);
  }

  lemma DeathLosesReload(r: Response, n: nat)
    requires Pairs(r.fullchain, r.key) && Honest(r)
    ensures var now := SyncOnce(map[], Event(Some(r), Clear, NO_FAULTS.(diesBeforeHook := true)));
      now.ending.Crashed? && Agrees(now.files, r) && Run(now.files, Repeat(Clearly(r), n)).reloads == 0
  {
    var f := NO_FAULTS.(diesBeforeHook := true);
    SplitKeepsBlocks(r.fullchain, r.key);
    assert SyncOnce(map[], Event(Some(r), Clear, f)) == Deliver(map[], r, f);
    CompleteDelivery(map[], r, f);
    AgreementIsFinal(Deliver(map[], r, f).files, Repeat(Clearly(r), n), r, Fullchain);
  }

  /** A death between the install and the hook: the hook never runs for this certificate. */
  lemma LostReloadExists(n: nat)
    ensures var r := Sample(1, 7, [], [], "1");
      var now := SyncOnce(map[], Event(Some(r), Clear, NO_FAULTS.(diesBeforeHook := true)));
      now.ending.Crashed? && Agrees(now.files, r) && Run(now.files, Repeat(Clearly(r), n)).reloads == 0
  {
    SampleIsUsable(1, 7, [], [], "1");
    DeathLosesReload(Sample(1, 7, [], [], "1"), n);
  }

  lemma FailedRenameLosesReload(a: Response, b: Response, n: nat)
    requires Succeeds(a, b) && Pairs(b.fullchain, a.key) && b.bundle == []
    ensures var files := SyncOnce(map[], Clearly(a)).files;
      var now := SyncOnce(files, Event(Some(b), Clear, Stopping(FailAt(1))));
      now.ending.InstallFailed? && Agrees(now.files, b) && Run(now.files, Repeat(Clearly(b), n)).reloads == 0
  {
    var files := SyncOnce(map[], Clearly(a)).files;
    BatchOrder(b);
    FirstFiles(a);
    InterruptedSync(files, b, FailAt(1));
    AfterOneRename(files, b);
    AgreementIsFinal(ApplyPrefix(files, BatchOf(b), 1), Repeat(Clearly(b), n), b, Fullchain);
  }

  /** A failing rename does it too, if the key is the same: the new leaf is there, its hook never runs. */
  lemma LostReloadByFailedRename(n: nat)
    ensures var a, b := Sample(1, 7, [], [], "1"), Sample(2, 7, [], [], "2");
      var files := SyncOnce(map[], Clearly(a)).files;
      var now := SyncOnce(files, Event(Some(b), Clear, Stopping(FailAt(1))));
      now.ending.InstallFailed? && Agrees(now.files, b) && Run(now.files, Repeat(Clearly(b), n)).reloads == 0
  {
    SampleIsUsable(1, 7, [], [], "1");
    SampleIsUsable(2, 7, [], [], "2");
    FailedRenameLosesReload(Sample(1, 7, [], [], "1"), Sample(2, 7, [], [], "2"), n);
  }

  /** A fingerprint that is not the leaf's, and no validator: a reload on every Sync. */
  lemma DishonestGatewayLoops(n: nat)
    ensures var r := Sample(1, 7, [], [], "").(fingerprint := Absent);
      var s := Run(map[], Repeat(Clearly(r), n)); s.reloads == n && !Agrees(s.files, r)
  {
    var r := Sample(1, 7, [], [], "").(fingerprint := Absent);
    SampleIsUsable(1, 7, [], [], "");
    ReloadsForOneResponse(map[], r, n);
  }

  /** Two bundles for one leaf, a death before the last rename of the second, and the first again:
      the gateway answers 304 to a directory that does not agree. */
  lemma ReturningGatewayExists(n: nat)
    ensures var r1, r2 := Sample(1, 7, [], Plain("A"), "1"), Sample(1, 7, [], Plain("B"), "2");
      !Agrees(Run(map[], WedgingRun(r1, r2) + Repeat(Clearly(r1), n)).files, r1)
  {
    var r1, r2 := Sample(1, 7, [], Plain("A"), "1"), Sample(1, 7, [], Plain("B"), "2");
    assert Plain("A")[0] == Noise('A') && Plain("B")[0] == Noise('B');
    SampleIsUsable(1, 7, [], Plain("A"), "1");
    SampleIsUsable(1, 7, [], Plain("B"), "2");
    ReturningGatewayWedges(r1, r2, n);
  }
}
