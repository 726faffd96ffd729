/** How a Sync ends and what it reports, said of the answer, the directory and the faults alone
    (server-agent/internal/certinstall/fetch.go and install.go). */
module CertEndings {
  import opened Wrappers
  import opened Pem
  import opened CertFiles
  import opened AtomicWriter
  import opened CertSync

  // ---------- the endings ----------

  /** A decoded 200 whose chain and key pair. */
  predicate Delivers(reply: Reply) {
    && reply.Answer? && reply.status == 200 && reply.body.Some?
    && Pairs(reply.body.value.fullchain, reply.body.value.key)
  }

  /** Chain, leaf and key are always written, the issuers and the bundle if there are any. */
  function FileCount(r: Response): nat {
    3 + (if |Blocks(r.fullchain)| > 1 then 1 else 0) + (if r.bundle != [] then 1 else 0)
  }

  lemma FileCountIsBatch(r: Response)
    ensures |BatchOf(r)| == FileCount(r)
  {
    SplitKeepsBlocks(r.fullchain, r.key);
  }

  /** All `n` files get staged. */
  predicate StagesAll(n: nat, f: Faults) {
    !f.mkdirFails && (f.staging.Never? || (f.staging.FailAt? && n <= f.staging.at))
  }

  /** Making the directory, one of `n` stages, or one of `n` renames fails. */
  predicate StepFails(n: nat, f: Faults) {
    || f.mkdirFails
    || (f.staging.FailAt? && f.staging.at < n)
    || (StagesAll(n, f) && f.renaming.FailAt? && f.renaming.at < n)
  }

  /** The Sync is to return an error: it has something to install and a step of that fails. */
  predicate WriteFails(files: Files, reply: Reply, f: Faults) {
    Delivers(reply) && !Agrees(files, reply.body.value) && StepFails(FileCount(reply.body.value), f)
  }

  /** The process dies somewhere. */
  predicate HasDeath(f: Faults) {
    f.staging.DieAt? || f.renaming.DieAt? || f.removal.Died? || f.memo.Died? || f.diesBeforeHook
  }

  /** The process dies on a way that the Sync takes: while storing the memo, if there is a validator,
      and where something is installed also before it and before the hook. */
  predicate Dies(files: Files, r: Response, f: Faults) {
    || (ETagOf(r) != "" && f.memo.Died?)
    || (!Agrees(files, r) &&
          (|| f.staging.DieAt? || f.renaming.DieAt? || f.diesBeforeHook
           || (|Blocks(r.fullchain)| <= 1 && Chain in files && f.removal.Died?)))
  }

  lemma DeliveryEndsExactly(files: Files, r: Response, f: Faults)
    requires Pairs(r.fullchain, r.key)
    ensures Deliver(files, r, f).ending ==
      if !Agrees(files, r) && StepFails(FileCount(r), f) then InstallFailed
      else if Dies(files, r, f) then Crashed
      else if Agrees(files, r) then Unchanged
      else Installed
  {
    ChangedIffDisagrees(files, r);
    if !Agrees(files, r) {
      InstallEndsExactly(files, r, f);
    }
  }

  lemma InstallEndsExactly(files: Files, r: Response, f: Faults)
    requires Pairs(r.fullchain, r.key)
    ensures InstallFate(files, r, f) ==
      if StepFails(FileCount(r), f) then Failed
      else if || f.staging.DieAt? || f.renaming.DieAt?
              || (|Blocks(r.fullchain)| <= 1 && Chain in files && f.removal.Died?) then Died
      else Done
  {
    FileCountIsBatch(r);
    SplitKeepsBlocks(r.fullchain, r.key);
  }

  /** An error is returned exactly for a failing step of an install that is due; a Sync that does not
      live to its end met a death; and without one it ends as its answer, the directory and the
      failing steps say. */
  lemma EndsExactly(files: Files, reply: Reply, f: Faults)
    ensures var ending := Conclude(files, reply, f).ending;
      && (ending.InstallFailed? <==> WriteFails(files, reply, f))
      && (ending.Crashed? <==>
            Delivers(reply) && !WriteFails(files, reply, f) && Dies(files, reply.body.value, f))
      && (ending.Unchanged? <==>
            Delivers(reply) && Agrees(files, reply.body.value) && !Dies(files, reply.body.value, f))
      && (ending.Installed? <==>
            && Delivers(reply) && !Agrees(files, reply.body.value)
            && !WriteFails(files, reply, f) && !Dies(files, reply.body.value, f))
      && (ending.Crashed? ==> HasDeath(f))
  {
    PassiveKeepsFiles(files, reply, f);
    if Delivers(reply) {
      DeliveryEndsExactly(files, reply.body.value, f);
    }
  }

  /** The endings that install nothing, each for its own answers. */
  lemma PassiveEndsExactly(files: Files, reply: Reply, f: Faults)
    ensures var ending := Conclude(files, reply, f).ending;
      && (ending.FetchFailed? <==> reply.TransportError?)
      && (ending.NotModified? <==> reply.Answer? && reply.status == 304)
      && (ending.NotFound? <==> reply.Answer? && reply.status == 404)
      && (ending.Unauthorized? <==> reply.Answer? && reply.status in {401, 403})
      && (ending.UnexpectedStatus? <==> reply.Answer? && reply.status !in {200, 304, 401, 403, 404})
      && (ending.Undecodable? <==> reply.Answer? && reply.status == 200 && reply.body.None?)
      && (ending.Refused? <==> reply.Answer? && reply.status == 200 && reply.body.Some? && !Delivers(reply))
  {
    PassiveKeepsFiles(files, reply, f);
  }

  /** A directory that cannot be made, and staging that stops, touch no final file at all. */
  lemma StagingTouchesNothing(files: Files, reply: Reply, f: Faults)
    ensures Delivers(reply) && !Agrees(files, reply.body.value) && !StagesAll(FileCount(reply.body.value), f) ==>
      Conclude(files, reply, f).files == files
  {
    if Delivers(reply) {
      FileCountIsBatch(reply.body.value);
      ChangedIffDisagrees(files, reply.body.value);
    }
  }

  // ---------- the report ----------

  /** The first block of the text is this certificate. */
  predicate StartsWith(text: Text, cert: Certificate) {
    Blocks(text) != [] && Blocks(text)[0].payload == CertificateDER(cert)
  }

  lemma LeafExactly(text: Text, cert: Certificate)
    ensures ParseLeaf(text) == Some(cert) <==> StartsWith(text, cert)
    ensures LeafFingerprint(text) == Sha256(cert) <==> StartsWith(text, cert)
    ensures LeafFingerprint(text).Absent? <==> ParseLeaf(text).None?
  {
    FirstBlockDecides(text);
  }

  /** What is reported, field by field: the certificate that fullchain.pem starts with and when it
      expires, the mode, and the certificates of ca.pem; nothing of a file that is not there. */
  lemma ReportExactly(files: Files, mode: string, cert: Certificate, t: int)
    requires mode != MODE_OFF
    ensures var report := ReportOf(files, mode);
      && (report.fingerprint == Sha256(cert) <==> Fullchain in files && StartsWith(files[Fullchain], cert))
      && (report.fingerprint.Absent? <==> report.notAfter.None?)
      && report.mode == mode
      && report.caFingerprints == (if CA in files then CertificateFingerprints(Blocks(files[CA])) else [])
    ensures ReportOf(files, mode).notAfter == Some(t) <==>
      && Fullchain in files && Blocks(files[Fullchain]) != []
      && Blocks(files[Fullchain])[0].payload.CertificateDER?
      && Blocks(files[Fullchain])[0].payload.cert.notAfter == t
  {
    if Fullchain in files {
      LeafExactly(files[Fullchain], cert);
      FirstBlockDecides(files[Fullchain]);
    }
  }

  /** Switched off, the installer reports nothing. */
  lemma OffReportsNothing(files: Files)
    ensures var report := ReportOf(files, MODE_OFF);
      && report.fingerprint == Absent && report.notAfter == None && report.caFingerprints == []
      && report.mode == MODE_OFF
  {
  }

  /** A Sync that gets through reports the expiry of the served leaf. */
  lemma ReportTellsExpiry(files: Files, r: Response, f: Faults, mode: string, cert: Certificate)
    requires Pairs(r.fullchain, r.key) && Honest(r) && mode != MODE_OFF && StartsWith(r.fullchain, cert)
    requires Deliver(files, r, f).ending.Installed? || Deliver(files, r, f).ending.Unchanged?
    ensures ReportOf(Deliver(files, r, f).files, mode).notAfter == Some(cert.notAfter)
  {
    var now := Deliver(files, r, f).files;
    ReportTellsWhatWasServed(files, r, f, mode);
    LeafExactly(r.fullchain, cert);
    ReportExactly(now, mode, cert, cert.notAfter);
  }
}
