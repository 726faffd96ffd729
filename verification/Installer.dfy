/** The installer itself (server-agent/internal/certinstall/fetch.go and install.go): methods that
    work step by step on a directory, each proved to have exactly the effect CertSync gives. */
module Installer {
  import opened Wrappers
  import opened Pem
  import opened CertFiles
  import opened AtomicWriter
  import opened CertSync
  import opened CertEndings

  function StageFate(i: nat, stop: Stop): Fate {
    if stop == FailAt(i) then Failed else if stop == DieAt(i) then Died else Done
  }

  /** Old temp files stay; after anything but a death there are no new ones. */
  ghost predicate TempsKept(before: map<nat, Text>, now: map<nat, Text>, fate: Fate) {
    && (forall id :: id in before ==> id in now && now[id] == before[id])
    && (!fate.Died? ==> now == before)
  }

  class CertInstaller {
    const dir: Directory
    const mode: string
    /** How often the reload hook was run. */
    var reloads: nat

    constructor (dir: Directory, mode: string)
      ensures this.dir == dir && this.mode == mode && reloads == 0
    {
      this.dir, this.mode, this.reloads := dir, mode, 0;
    }

    /** `Report`: read fresh from disk. */
    method CurrentReport() returns (report: Report)
      ensures report == ReportOf(dir.files, mode)
    {
      if mode == MODE_OFF {
        return Report(Absent, None, MODE_OFF, []);
      }
      var fingerprint, notAfter := Absent, None;
      if Fullchain in dir.files {
        var leaf := ParseLeaf(dir.files[Fullchain]);
        if leaf.Some? {
          fingerprint, notAfter := Sha256(leaf.value), Some(leaf.value.notAfter);
        }
      }
      var roots := ReadCAFingerprints(if CA in dir.files then Some(dir.files[CA]) else None);
      report := Report(fingerprint, notAfter, mode, roots);
    }

    /** One `stage` call of `install`, made only when the file is `wanted`. */
    method StageNext(w: Writer, wanted: bool, file: Write, stop: Stop) returns (res: Fate)
      requires w.dir == dir && w.Valid()
      requires stop.Never? || |w.pending| <= stop.at
      modifies w, dir
      ensures w.Valid() && dir.files == old(dir.files) && w.Others() == old(w.Others())
      ensures res == if wanted then StageFate(|old(w.pending)|, stop) else Done
      ensures res.Done? ==> w.Batch() == old(w.Batch()) + (if wanted then [file] else [])
      ensures res.Done? ==> stop.Never? || |w.pending| <= stop.at
      ensures res.Failed? ==> w.pending == []
    {
      res := Done;
      if wanted {
        res := w.Stage(file.name, file.content, StageFate(|w.pending|, stop));
      }
    }

    /** The chain, the standalone leaf and, if there are any, the issuers. */
    method StageChain(w: Writer, fullchain: Text, leaf: Text, issuers: Text, stop: Stop) returns (res: Fate)
      requires w.dir == dir && w.Valid() && w.Batch() == []
      modifies w, dir
      ensures w.Valid() && dir.files == old(dir.files) && w.Others() == old(w.Others())
      ensures var chain := if issuers != [] then [Write(Chain, issuers)] else [];
        var staged := [Write(Fullchain, fullchain), Write(Cert, leaf)] + chain;
        if stop.Never? || |staged| <= stop.at then res.Done? && w.Batch() == staged
        else res == if stop.FailAt? then Failed else Died
      ensures res.Failed? ==> w.pending == []
    {
      res := StageNext(w, true, Write(Fullchain, fullchain), stop);
      if !res.Done? { return; }
      res := StageNext(w, true, Write(Cert, leaf), stop);
      if !res.Done? { return; }
      res := StageNext(w, issuers != [], Write(Chain, issuers), stop);
    }

    /** Stages the files of one answer; the batch is complete exactly when `res` is `Done`. */
    method StageAll(w: Writer, r: Response, leaf: Text, issuers: Text, stop: Stop) returns (res: Fate)
      requires w.dir == dir && w.Valid() && w.Batch() == []
      requires leaf == LeafText(r.fullchain) && issuers == RestText(r.fullchain)
      modifies w, dir
      ensures w.Valid() && dir.files == old(dir.files) && w.Others() == old(w.Others())
      ensures res == FateOf(|BatchOf(r)|, stop)
      ensures res.Done? ==> w.Batch() == BatchOf(r)
      ensures res.Failed? ==> w.pending == []
    {
      res := StageChain(w, r.fullchain, leaf, issuers, stop);
      if !res.Done? { return; }
      res := StageNext(w, r.bundle != [], Write(CA, r.bundle), stop);
      if !res.Done? { return; }
      res := StageNext(w, true, Write(Privkey, r.key), stop);
      if res.Done? && stop.DieAt? {
        res := Died;
      }
    }

    /** `install`. */
    method Install(r: Response, f: Faults) returns (res: Fate)
      requires dir.Valid()
      modifies dir
      ensures dir.Valid()
      ensures dir.files == InstallFiles(old(dir.files), r, f)
      ensures res == InstallFate(old(dir.files), r, f)
      ensures TempsKept(old(dir.temps), dir.temps, res)
    {
      if f.mkdirFails {
        return Failed;
      }
      var leaf, issuers := SplitChain(r.fullchain);
      if leaf == [] {
        return Failed;
      }
      var w := new Writer(dir);
      res := StageAll(w, r, leaf, issuers, f.staging);
      if !res.Done? {
        OthersAreKept(w, old(dir.temps));
        return;
      }
      res := w.Commit(f.renaming);
      OthersAreKept(w, old(dir.temps));
      if !res.Done? {
        return;
      }
      AfterRenames(old(dir.files), r, |BatchOf(r)|, Chain);
      if issuers == [] {
        res := RemoveStaleChain(f.removal);
      }
    }

    /** The best-effort end of `install`. */
    method RemoveStaleChain(fate: Fate) returns (res: Fate)
      requires dir.Valid()
      modifies dir
      ensures dir.Valid() && dir.temps == old(dir.temps)
      ensures res == if Chain in old(dir.files) && fate.Died? then Died else Done
      ensures dir.files == if fate.Done? then old(dir.files) - {Chain} else old(dir.files)
    {
      res := Done;
      if Chain in dir.files {
        if fate.Died? {
          return Died;
        }
        if fate.Done? {
          dir.files := dir.files - {Chain};
        }
      }
    }

    /** `saveETagSidecar`. */
    method SaveETagSidecar(value: string, fate: Fate) returns (died: bool)
      requires dir.Valid()
      modifies dir
      ensures dir.Valid() && dir.files == SaveMemo(old(dir.files), value, fate)
      ensures died <==> DiesSaving(value, fate)
      ensures TempsKept(old(dir.temps), dir.temps, if died then Died else Done)
    {
      if value == "" {
        return false;
      }
      if fate.Died? {
        return true;
      }
      var tmp := dir.WriteTemp(Plain(value), fate.Failed?);
      if tmp.Some? {
        dir.Rename(tmp.value, ETagMemo);
        assert dir.temps == old(dir.temps);
      }
      return false;
    }

    /** `Sync`: the conditional request, the decision on a second reading of the directory, the
        install, the memo and the hook.  `gateway` answers the If-None-Match value it is sent;
        `meanwhile` is the directory another writer leaves while the request is out.  `ending`
        is `None` when the installer is switched off. */
    method Sync(gateway: string -> Reply, meanwhile: Option<Files>, f: Faults)
      returns (report: Report, changed: bool, err: bool, ending: Option<Ending>)
      requires dir.Valid()
      modifies this, dir
      ensures dir.Valid()
      ensures mode == MODE_OFF ==> ending.None? && dir.files == old(dir.files) && dir.temps == old(dir.temps)
      ensures mode != MODE_OFF ==>
        var found := if meanwhile.Some? then meanwhile.value else old(dir.files);
        var o := Conclude(found, gateway(IfNoneMatch(old(dir.files))), f);
        && dir.files == o.files && ending == Some(o.ending)
        && TempsKept(old(dir.temps), dir.temps, if o.ending.Crashed? then Died else Done)
      ensures report == ReportOf(dir.files, mode)
      ensures changed <==> ending == Some(Installed)
      ensures err <==> ending == Some(InstallFailed)
      ensures mode == MODE_OFF ==> !changed && !err
      ensures mode != MODE_OFF ==>
        var found := if meanwhile.Some? then meanwhile.value else old(dir.files);
        var reply := gateway(IfNoneMatch(old(dir.files)));
        && (err <==> WriteFails(found, reply, f))
        && (!HasDeath(f) ==> ending != Some(Crashed) && dir.temps == old(dir.temps))
        && (!HasDeath(f) ==>
              (changed <==> Delivers(reply) && !Agrees(found, reply.body.value) && !WriteFails(found, reply, f)))
      ensures reloads == old(reloads) + (if changed then 1 else 0)
    {
      changed, err, ending := false, false, None;
      if mode == MODE_OFF {
        return Report(Absent, None, MODE_OFF, []), false, false, None;
      }
      var ifNoneMatch := "";
      var state := ReadDiskState(dir.files);
      if state.MemoValid() {
        ifNoneMatch := state.etag;
      }
      var reply := gateway(ifNoneMatch);
      if meanwhile.Some? {
        dir.files := meanwhile.value;
      }
      EndsExactly(dir.files, reply, f);
      var e := Decide(reply, f);
      ending := Some(e);
      if e.Installed? {
        reloads := reloads + 1;
      }
      changed, err := e.Installed?, e.InstallFailed?;
      report := CurrentReport();
    }

    /** The part of `Sync` that follows the answer, up to the hook. */
    method Decide(reply: Reply, f: Faults) returns (ending: Ending)
      requires dir.Valid()
      modifies dir
      ensures dir.Valid()
      ensures var o := Conclude(old(dir.files), reply, f); dir.files == o.files && ending == o.ending
      ensures TempsKept(old(dir.temps), dir.temps, if ending.Crashed? then Died else Done)
    {
      if reply.TransportError? {
        return FetchFailed;
      }
      if reply.status == 304 {
        return NotModified;
      } else if reply.status == 404 {
        return NotFound;
      } else if reply.status == 401 || reply.status == 403 {
        return Unauthorized;
      } else if reply.status != 200 {
        return UnexpectedStatus;
      }
      if reply.body.None? {
        return Undecodable;
      }
      var body := reply.body.value;
      if !Pairs(body.fullchain, body.key) {
        return Refused;
      }
      if !Changed(ReadDiskState(dir.files), body) {
        var died := SaveETagSidecar(ETagOf(body), f.memo);
        return if died then Crashed else Unchanged;
      }
      var res := Install(body, f);
      if !res.Done? {
        return if res.Failed? then InstallFailed else Crashed;
      }
      var died := SaveETagSidecar(ETagOf(body), f.memo);
      return if died || f.diesBeforeHook then Crashed else Installed;
    }
  }

  lemma OthersAreKept(w: Writer, before: map<nat, Text>)
    requires w.Valid() && w.Others() == before
    ensures forall id :: id in before ==> id in w.dir.temps && w.dir.temps[id] == before[id]
    ensures w.pending == [] ==> w.dir.temps == before
  {
  }
}
