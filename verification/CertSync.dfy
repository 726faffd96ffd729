/** What one Sync decides and does, as functions of the directory, the gateway's answer and the
    faults it meets (server-agent/internal/certinstall/fetch.go and install.go).  The class in
    Installer.dfy is proved to do exactly this; CertRuns.dfy reasons about whole runs of it. */
module CertSync {
  import opened Wrappers
  import opened Pem
  import opened CertFiles
  import opened AtomicWriter

  // ---------- the etag memo ----------

  /** White space as `strings.TrimSpace` sees it. */
  predicate IsSpace(c: char) {
    || '\t' <= c <= '\r' || c == ' ' || c == '\U{85}' || c == '\U{A0}' || c == '\U{1680}'
    || '\U{2000}' <= c <= '\U{200A}' || c == '\U{2028}' || c == '\U{2029}' || c == '\U{202F}'
    || c == '\U{205F}' || c == '\U{3000}'
  }

  /** Line ends, tabs, no-break spaces and U+0085 are white space; a byte order mark is none. */
  lemma SpacesOfGo()
    ensures IsSpace(' ') && IsSpace('\t') && IsSpace('\n') && IsSpace('\r')
    ensures IsSpace('\U{A0}') && IsSpace('\U{2028}') && IsSpace('\U{85}')
    ensures !IsSpace('\U{FEFF}') && !IsSpace('\"')
  {
  }

  function TrimLeft(s: string): (r: string)
    ensures r != [] ==> !IsSpace(r[0])
    ensures s != [] && !IsSpace(s[0]) ==> r == s
  {
    if s != [] && IsSpace(s[0]) then TrimLeft(s[1..]) else s
  }

  function TrimRight(s: string): (r: string)
    ensures r <= s
    ensures r != [] ==> !IsSpace(r[|r| - 1])
    ensures s != [] && !IsSpace(s[|s| - 1]) ==> r == s
  {
    if s != [] && IsSpace(s[|s| - 1]) then TrimRight(s[..|s| - 1]) else s
  }

  function Trim(s: string): (r: string)
    ensures r != [] ==> !IsSpace(r[0]) && !IsSpace(r[|r| - 1])
  {
    TrimRight(TrimLeft(s))
  }

  ghost predicate AllSpace(s: string) {
    forall i :: 0 <= i < |s| ==> IsSpace(s[i])
  }

  /** Trimming takes away exactly the white space around a text. */
  lemma TrimExactly(left: string, core: string, right: string)
    requires AllSpace(left) && AllSpace(right)
    requires core != [] ==> !IsSpace(core[0]) && !IsSpace(core[|core| - 1])
    ensures Trim(left + core + right) == core
  {
    if core == [] {
      assert left + core + right == left + right + [];
      TrimLeftSpace(left + right, []);
    } else {
      assert left + core + right == left + (core + right);
      TrimLeftSpace(left, core + right);
      TrimRightSpace(core, right);
    }
  }

  lemma {:induction false} TrimLeftSpace(left: string, s: string)
    requires AllSpace(left) && (s != [] ==> !IsSpace(s[0]))
    ensures TrimLeft(left + s) == s
  {
    if left == [] {
      assert left + s == s;
    } else {
      assert (left + s)[1..] == left[1..] + s;
      TrimLeftSpace(left[1..], s);
    }
  }

  lemma {:induction false} TrimRightSpace(s: string, right: string)
    requires AllSpace(right) && (s != [] ==> !IsSpace(s[|s| - 1]))
    ensures TrimRight(s + right) == s
  {
    if right == [] {
      assert s + right == s;
    } else {
      var n := |right| - 1;
      assert (s + right)[..|s| + n] == s + right[..n];
      TrimRightSpace(s, right[..n]);
    }
  }

  /** A file that holds only characters. */
  function Plain(s: string): (text: Text)
    ensures |text| == |s|
    ensures forall i :: 0 <= i < |s| ==> text[i] == Noise(s[i])
  {
    seq(|s|, i requires 0 <= i < |s| => Noise(s[i]))
  }

  /** The characters of a file; of an armoured block only its opening matters here. */
  function Chars(text: Text): string {
    if text == [] then ""
    else (match text[0] case Noise(c) => [c] case Armored(_, _) => "-----BEGIN ") + Chars(text[1..])
  }

  lemma {:induction false} CharsOfPlain(s: string)
    ensures Chars(Plain(s)) == s
  {
    if s == [] {
    } else {
      assert Plain(s)[1..] == Plain(s[1..]);
      CharsOfPlain(s[1..]);
    }
  }

  // ---------- the wire ----------

  /** A decoded 200 answer. */
  datatype Response = Response(
    fingerprint: Fingerprint,
    fullchain: Text,
    key: Text,
    bundle: Text,
    etagHeader: string,
    etagField: string)

  /** `gwapi.ResponseETag`: the header verbatim, else the quoted body field. */
  function ETagOf(r: Response): string {
    var header := Trim(r.etagHeader);
    if header != "" then header
    else if r.etagField != "" then "\"" + r.etagField + "\""
    else ""
  }

  /** The header comes first, without the white space around it; only without one the field counts,
      in quotes; and without either there is no validator. */
  lemma ETagExactly(r: Response, left: string, core: string, right: string)
    requires AllSpace(left) && AllSpace(right) && r.etagHeader == left + core + right
    requires core != [] ==> !IsSpace(core[0]) && !IsSpace(core[|core| - 1])
    ensures core != [] ==> ETagOf(r) == core
    ensures core == [] && r.etagField != [] ==> ETagOf(r) == "\"" + r.etagField + "\""
    ensures core == [] && r.etagField == [] ==> ETagOf(r) == ""
  {
    TrimExactly(left, core, right);
  }

  /** What is stored as the memo is what is read back, verbatim. */
  lemma MemoReadsBack(r: Response)
    ensures Trim(Chars(Plain(ETagOf(r)))) == ETagOf(r)
  {
    CharsOfPlain(ETagOf(r));
  }

  datatype Reply = TransportError | Answer(status: int, body: Option<Response>)

  // ---------- what is on disk ----------

  datatype DiskState = DiskState(
    leaf: Option<Certificate>,
    leafFingerprint: Fingerprint,
    keyPaired: bool,
    etag: string,
    caText: Text)
  {
    predicate MemoValid() {
      leaf.Some? && keyPaired && etag != ""
    }
  }

  function ReadDiskState(files: Files): DiskState {
    var leaf := if Fullchain in files then ParseLeaf(files[Fullchain]) else None;
    DiskState(
      leaf,
      if leaf.Some? then Sha256(leaf.value) else Absent,
      leaf.Some? && Privkey in files && PublicKeysMatch(leaf, ParseKey(files[Privkey])),
      if ETagMemo in files then Trim(Chars(files[ETagMemo])) else "",
      if CA in files then files[CA] else [])
  }

  /** The If-None-Match value the next request carries; empty: the request is unconditional. */
  function IfNoneMatch(files: Files): string {
    var state := ReadDiskState(files);
    if state.MemoValid() then state.etag else ""
  }

  datatype Report = Report(
    fingerprint: Fingerprint,
    notAfter: Option<int>,
    mode: string,
    caFingerprints: seq<Fingerprint>)

  const MODE_OFF := "off"

  function ReportOf(files: Files, mode: string): Report {
    if mode == MODE_OFF then Report(Absent, None, MODE_OFF, [])
    else
      var leaf := if Fullchain in files then ParseLeaf(files[Fullchain]) else None;
      Report(
        if leaf.Some? then Sha256(leaf.value) else Absent,
        if leaf.Some? then Some(leaf.value.notAfter) else None,
        mode,
        if CA in files then CertificateFingerprints(Blocks(files[CA])) else [])
  }

  // ---------- the decision and the install ----------

  predicate Changed(state: DiskState, r: Response) {
    || !state.keyPaired
    || r.fingerprint != state.leafFingerprint
    || (r.bundle != [] && r.bundle != state.caText)
  }

  /** Everything that can go wrong after the answer has arrived. */
  datatype Faults = Faults(
    mkdirFails: bool,
    staging: Stop,
    renaming: Stop,
    removal: Fate,
    memo: Fate,
    diesBeforeHook: bool)

  const NO_FAULTS := Faults(false, Never, Never, Done, Done, false)

  /** The files of one install, in the order in which they are staged and renamed. */
  function BatchOf(r: Response): seq<Write> {
    [Write(Fullchain, r.fullchain), Write(Cert, LeafText(r.fullchain))]
    + (if RestText(r.fullchain) != [] then [Write(Chain, RestText(r.fullchain))] else [])
    + (if r.bundle != [] then [Write(CA, r.bundle)] else [])
    + [Write(Privkey, r.key)]
  }

  /** How many renames an install gets done. */
  function RenamesOf(r: Response, f: Faults): (k: nat)
    ensures k <= |BatchOf(r)|
  {
    var n := |BatchOf(r)|;
    if f.mkdirFails || LeafText(r.fullchain) == [] || !FateOf(n, f.staging).Done? then 0
    else Effective(n, f.renaming)
  }

  function InstallFate(files: Files, r: Response, f: Faults): Fate {
    var n := |BatchOf(r)|;
    if f.mkdirFails || LeafText(r.fullchain) == [] then Failed
    else if !FateOf(n, f.staging).Done? then FateOf(n, f.staging)
    else if !FateOf(n, f.renaming).Done? then FateOf(n, f.renaming)
    else if RestText(r.fullchain) == [] && Chain in files && f.removal.Died? then Died
    else Done
  }

  /** The final files after an install: the renamed prefix, and a stale chain.pem removed
      when the install got that far and the removal worked. */
  function InstallFiles(files: Files, r: Response, f: Faults): Files {
    var renamed := ApplyPrefix(files, BatchOf(r), RenamesOf(r, f));
    if InstallFate(files, r, f).Done? && RestText(r.fullchain) == [] && f.removal.Done?
    then renamed - {Chain}
    else renamed
  }

  function SaveMemo(files: Files, etag: string, fate: Fate): Files {
    if etag != "" && fate.Done? then files[ETagMemo := Plain(etag)] else files
  }

  predicate DiesSaving(etag: string, fate: Fate) {
    etag != "" && fate.Died?
  }

  /** How a Sync ends.  Only `Installed` runs the reload hook and reports a change. */
  datatype Ending =
    | FetchFailed | NotModified | NotFound | Unauthorized | UnexpectedStatus | Undecodable | Refused
    | Unchanged | InstallFailed | Installed | Crashed
  {
    /** The endings that decide nothing about the files. */
    predicate Passive() {
      FetchFailed? || NotModified? || NotFound? || Unauthorized? || UnexpectedStatus? || Undecodable? || Refused?
    }
  }

  datatype Outcome = Outcome(files: Files, ending: Ending, renamed: nat)

  /** Sync from the moment the answer is there; `files` is the directory at the re-read. */
  function Conclude(files: Files, reply: Reply, f: Faults): Outcome {
    match reply
    case TransportError => Outcome(files, FetchFailed, 0)
    case Answer(status, body) =>
      if status == 304 then Outcome(files, NotModified, 0)
      else if status == 404 then Outcome(files, NotFound, 0)
      else if status == 401 || status == 403 then Outcome(files, Unauthorized, 0)
      else if status != 200 then Outcome(files, UnexpectedStatus, 0)
      else if body.None? then Outcome(files, Undecodable, 0)
      else if !Pairs(body.value.fullchain, body.value.key) then Outcome(files, Refused, 0)
      else Deliver(files, body.value, f)
  }

  /** A decoded answer whose chain and key pair. */
  function Deliver(files: Files, r: Response, f: Faults): Outcome {
    if !Changed(ReadDiskState(files), r) then
      Outcome(SaveMemo(files, ETagOf(r), f.memo), if DiesSaving(ETagOf(r), f.memo) then Crashed else Unchanged, 0)
    else
      var installed := InstallFiles(files, r, f);
      var k := RenamesOf(r, f);
      match InstallFate(files, r, f)
      case Failed => Outcome(installed, InstallFailed, k)
      case Died => Outcome(installed, Crashed, k)
      case Done =>
        Outcome(SaveMemo(installed, ETagOf(r), f.memo),
                if DiesSaving(ETagOf(r), f.memo) || f.diesBeforeHook then Crashed else Installed, k)
  }

  // ---------- what one Sync guarantees ----------

  /** A usable certificate and key are installed. */
  predicate Paired(files: Files) {
    Fullchain in files && Privkey in files && Pairs(files[Fullchain], files[Privkey])
  }

  /** The directory already is what `r` asks for. */
  predicate Agrees(files: Files, r: Response) {
    && Paired(files)
    && LeafFingerprint(files[Fullchain]) == r.fingerprint
    && (r.bundle != [] ==> CA in files && files[CA] == r.bundle)
  }

  /** The served fingerprint is that of the served leaf. */
  predicate Honest(r: Response) {
    r.fingerprint == LeafFingerprint(r.fullchain)
  }

  lemma ChangedIffDisagrees(files: Files, r: Response)
    ensures Changed(ReadDiskState(files), r) <==> !Agrees(files, r)
    ensures ReadDiskState(files).keyPaired <==> Paired(files)
  {
  }

  /** The order of the batch: the chain first, the standalone leaf second, the key last. */
  lemma BatchOrder(r: Response)
    ensures DistinctNames(BatchOf(r)) && 3 <= |BatchOf(r)| <= 5
    ensures BatchOf(r)[0] == Write(Fullchain, r.fullchain)
    ensures BatchOf(r)[1] == Write(Cert, LeafText(r.fullchain))
    ensures BatchOf(r)[|BatchOf(r)| - 1] == Write(Privkey, r.key)
    ensures forall i :: 1 < i < |BatchOf(r)| - 1 ==>
      || (BatchOf(r)[i] == Write(Chain, RestText(r.fullchain)) && RestText(r.fullchain) != [])
      || (BatchOf(r)[i] == Write(CA, r.bundle) && r.bundle != [])
    ensures RestText(r.fullchain) != [] ==> BatchOf(r)[2].name == Chain
    ensures r.bundle != [] ==> BatchOf(r)[|BatchOf(r)| - 2] == Write(CA, r.bundle)
  {
  }

  /** The content the batch of `r` gives to `name`, if any. */
  function WriteOf(r: Response, name: FileName): Option<Text> {
    match name
    case Fullchain => Some(r.fullchain)
    case Cert => Some(LeafText(r.fullchain))
    case Chain => if RestText(r.fullchain) != [] then Some(RestText(r.fullchain)) else None
    case CA => if r.bundle != [] then Some(r.bundle) else None
    case Privkey => Some(r.key)
    case ETagMemo => None
  }

  /** The position of `name` in the batch of `r`; one past the end if it is not written. */
  function PositionOf(r: Response, name: FileName): nat {
    match name
    case Fullchain => 0
    case Cert => 1
    case Chain => if RestText(r.fullchain) != [] then 2 else |BatchOf(r)|
    case CA => if r.bundle != [] then |BatchOf(r)| - 2 else |BatchOf(r)|
    case Privkey => |BatchOf(r)| - 1
    case ETagMemo => |BatchOf(r)|
  }

  /** After `k` renames a file is new if its position is below `k`, and as before if not. */
  lemma AfterRenames(files: Files, r: Response, k: nat, name: FileName)
    requires k <= |BatchOf(r)|
    ensures var now := ApplyPrefix(files, BatchOf(r), k);
      if PositionOf(r, name) < k
      then WriteOf(r, name).Some? && name in now && now[name] == WriteOf(r, name).value
      else SameFile(now, files, name)
  {
  }

  /** The frame: an answer that is not a usable 200 changes no file. */
  lemma PassiveKeepsFiles(files: Files, reply: Reply, f: Faults)
    ensures var o := Conclude(files, reply, f);
      && (o.ending.Passive() ==> o.files == files)
      && (o.ending.Passive() <==>
            !(&& reply.Answer? && reply.status == 200 && reply.body.Some?
              && Pairs(reply.body.value.fullchain, reply.body.value.key)))
  {
  }

  /** What an install does to each final file: the renamed ones are new, the others are as they
      were, and only a stale chain.pem may go. */
  lemma FileAfterInstall(files: Files, r: Response, f: Faults, name: FileName)
    ensures var now := InstallFiles(files, r, f);
      if PositionOf(r, name) < RenamesOf(r, f)
      then WriteOf(r, name).Some? && name in now && now[name] == WriteOf(r, name).value
      else SameFile(now, files, name) || (name == Chain && Chain !in now && RestText(r.fullchain) == [])
  {
    var k := RenamesOf(r, f);
    AfterRenames(files, r, k, name);
    var renamed := ApplyPrefix(files, BatchOf(r), k);
    assert InstallFiles(files, r, f) == renamed
      || (InstallFiles(files, r, f) == renamed - {Chain} && RestText(r.fullchain) == []);
  }

  /** A delivered answer is an install or nothing, up to the memo. */
  lemma DeliveryShape(files: Files, r: Response, f: Faults, name: FileName)
    requires name != ETagMemo
    ensures var o := Deliver(files, r, f);
      if Changed(ReadDiskState(files), r)
      then o.renamed == RenamesOf(r, f) && SameFile(o.files, InstallFiles(files, r, f), name)
      else o.renamed == 0 && SameFile(o.files, files, name)
  {
  }

  lemma FileAfterDelivery(files: Files, r: Response, f: Faults, name: FileName)
    requires name != ETagMemo
    ensures var o := Deliver(files, r, f);
      if PositionOf(r, name) < o.renamed
      then WriteOf(r, name).Some? && name in o.files && o.files[name] == WriteOf(r, name).value
      else SameFile(o.files, files, name) || (name == Chain && Chain !in o.files && RestText(r.fullchain) == [])
  {
    DeliveryShape(files, r, f, name);
    FileAfterInstall(files, r, f, name);
  }

  /** No Sync removes or empties ca.pem, and what it then holds is the old bundle or the
      non-empty bundle of this very answer. */
  lemma BundleSurvives(files: Files, reply: Reply, f: Faults)
    ensures var now := Conclude(files, reply, f).files;
      && (CA in files ==> CA in now)
      && (CA in now ==>
            || (CA in files && now[CA] == files[CA])
            || (&& reply.Answer? && reply.body.Some?
                && reply.body.value.bundle != [] && now[CA] == reply.body.value.bundle))
  {
    PassiveKeepsFiles(files, reply, f);
    if !Conclude(files, reply, f).ending.Passive() {
      FileAfterDelivery(files, reply.body.value, f, CA);
    }
  }

  /** A complete install leaves the directory paired, with the served leaf and bundle. */
  lemma CompleteInstall(files: Files, r: Response, f: Faults)
    requires Pairs(r.fullchain, r.key) && InstallFate(files, r, f).Done?
    ensures var now := InstallFiles(files, r, f);
      && Fullchain in now && now[Fullchain] == r.fullchain
      && Cert in now && now[Cert] == LeafText(r.fullchain)
      && Privkey in now && now[Privkey] == r.key
      && (r.bundle != [] ==> CA in now && now[CA] == r.bundle)
      && (RestText(r.fullchain) != [] ==> Chain in now && now[Chain] == RestText(r.fullchain))
      && SameFile(now, files, ETagMemo)
  {
    var k := RenamesOf(r, f);
    assert k == |BatchOf(r)|;
    BatchOrder(r);
    AfterRenames(files, r, k, Fullchain);
    AfterRenames(files, r, k, Cert);
    AfterRenames(files, r, k, Privkey);
    AfterRenames(files, r, k, CA);
    AfterRenames(files, r, k, Chain);
    AfterRenames(files, r, k, ETagMemo);
  }

  /** Healing, exactly: from any directory whatever at the re-read, a fault-free Sync on a
      paired 200 ends in agreement with it if and only if the answer's fingerprint is its own
      leaf's, or the directory agreed before. */
  lemma HealsExactly(files: Files, r: Response)
    requires Pairs(r.fullchain, r.key)
    ensures var o := Conclude(files, Answer(200, Some(r)), NO_FAULTS);
      && (Agrees(o.files, r) <==> Honest(r) || Agrees(files, r))
      && Paired(o.files)
      && (o.ending.Installed? <==> !Agrees(files, r))
      && (o.ending.Unchanged? <==> Agrees(files, r))
  {
    ChangedIffDisagrees(files, r);
    if !Agrees(files, r) {
      SplitKeepsBlocks(r.fullchain, r.key);
      CompleteInstall(files, r, NO_FAULTS);
    }
  }

  /** An unpaired directory asks unconditionally. */
  lemma UnpairedAsksUnconditionally(files: Files)
    ensures IfNoneMatch(files) != "" ==> Paired(files)
    ensures IfNoneMatch(files) != "" ==> ETagMemo in files && IfNoneMatch(files) == Trim(Chars(files[ETagMemo]))
  {
  }

  /** Where a Sync on `r` meets a directory that agrees, no final file changes, no matter what. */
  lemma AgreementIsIdle(files: Files, reply: Reply, f: Faults, name: FileName)
    requires reply.Answer? && reply.body.Some? ==> Agrees(files, reply.body.value)
    requires name != ETagMemo
    ensures SameFile(Conclude(files, reply, f).files, files, name)
    ensures Conclude(files, reply, f).renamed == 0
    ensures !Conclude(files, reply, f).ending.Installed?
  {
    if reply.Answer? && reply.body.Some? {
      ChangedIffDisagrees(files, reply.body.value);
    }
  }

  /** A Sync that gets through reports the served leaf, and the roots of the served bundle. */
  lemma ReportTellsWhatWasServed(files: Files, r: Response, f: Faults, mode: string)
    requires Pairs(r.fullchain, r.key) && Honest(r) && mode != MODE_OFF
    requires Deliver(files, r, f).ending.Installed? || Deliver(files, r, f).ending.Unchanged?
    ensures var report := ReportOf(Deliver(files, r, f).files, mode);
      && report.fingerprint == r.fingerprint && report.mode == mode
      && (r.bundle != [] ==> report.caFingerprints == CertificateFingerprints(Blocks(r.bundle)))
  {
    ChangedIffDisagrees(files, r);
    if Changed(ReadDiskState(files), r) {
      CompleteInstall(files, r, f);
    }
  }

  /** The report and the decision read the same leaf. */
  lemma ReportReadsAsDecided(files: Files, mode: string)
    ensures mode != MODE_OFF ==> ReportOf(files, mode).fingerprint == ReadDiskState(files).leafFingerprint
    ensures Fullchain in files && mode != MODE_OFF ==>
      ReportOf(files, mode).fingerprint == LeafFingerprint(LeafText(files[Fullchain]))
  {
  }
}
