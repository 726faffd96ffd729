/** The layout of cert_dir (server-agent/internal/certfiles/certfiles.go). */
module CertFiles {
  import opened Pem

  datatype FileName = Fullchain | Cert | Chain | CA | Privkey | ETagMemo

  type Files = map<FileName, Text>
}

/** The staged batch of renames (server-agent/internal/certinstall/atomic.go).  Every fallible
    step is told by its environment whether it works; in addition the process may die between
    any two steps, and then nothing after that point happens. */
module AtomicWriter {
  import opened Wrappers
  import opened Pem
  import opened CertFiles

  /** How a step, or a series of steps, went. */
  datatype Fate = Done | Failed | Died

  /** Where a series of steps stops: nowhere, with a failing step, or with the process dying
      just before that step (at the end, if the series is shorter). */
  datatype Stop = Never | FailAt(at: nat) | DieAt(at: nat)

  datatype Write = Write(name: FileName, content: Text)

  /** How many of `n` steps take effect. */
  function Effective(n: nat, stop: Stop): (k: nat)
    ensures k <= n
  {
    if stop.Never? || n <= stop.at then n else stop.at
  }

  function FateOf(n: nat, stop: Stop): Fate {
    match stop
    case Never => Done
    case FailAt(at) => if at < n then Failed else Done
    case DieAt(_) => Died
  }

  /** The final files once the first `k` writes of the batch have been renamed into place. */
  function ApplyPrefix(files: Files, batch: seq<Write>, k: nat): Files
    requires k <= |batch|
  {
    if k == 0 then files else ApplyPrefix(files, batch, k - 1)[batch[k - 1].name := batch[k - 1].content]
  }

  ghost predicate DistinctNames(batch: seq<Write>) {
    forall i, j :: 0 <= i < j < |batch| ==> batch[i].name != batch[j].name
  }

  /** Whether `files` holds for `name` what `before` holds: the same content, or nothing. */
  ghost predicate SameFile(files: Files, before: Files, name: FileName) {
    (name in files <==> name in before) && (name in files ==> files[name] == before[name])
  }

  ghost predicate Among(batch: seq<Write>, k: nat, name: FileName) {
    exists i :: 0 <= i < k && i < |batch| && batch[i].name == name
  }

  /** Wherever the renames stop, exactly the first `k` files of the batch are new and every
      other file is as it was. */
  lemma {:induction false} PrefixExactly(files: Files, batch: seq<Write>, k: nat)
    requires k <= |batch| && DistinctNames(batch)
    ensures forall i :: 0 <= i < k ==>
      batch[i].name in ApplyPrefix(files, batch, k) && ApplyPrefix(files, batch, k)[batch[i].name] == batch[i].content
    ensures forall name :: !Among(batch, k, name) ==> SameFile(ApplyPrefix(files, batch, k), files, name)
  {
    if k == 0 {
    } else {
      PrefixExactly(files, batch, k - 1);
      forall name | !Among(batch, k, name) ensures SameFile(ApplyPrefix(files, batch, k), files, name) {
        assert !Among(batch, k - 1, name);
        assert batch[k - 1].name != name;
      }
    }
  }

  lemma SameEverywhere(files: Files, other: Files)
    requires forall name :: SameFile(files, other, name)
    ensures files == other
  {
    assert forall name :: name in files <==> name in other by {
      forall name ensures name in files <==> name in other { assert SameFile(files, other, name); }
    }
    assert forall name :: name in files ==> files[name] == other[name] by {
      forall name | name in files ensures files[name] == other[name] { assert SameFile(files, other, name); }
    }
  }

  /** With no fault the loop of renames is one map update. */
  lemma WholeBatchIsOneUpdate(files: Files, batch: seq<Write>, update: Files)
    requires DistinctNames(batch)
    requires forall i :: 0 <= i < |batch| ==> batch[i].name in update && update[batch[i].name] == batch[i].content
    requires forall name :: name in update ==> Among(batch, |batch|, name)
    ensures ApplyPrefix(files, batch, |batch|) == files + update
  {
    PrefixExactly(files, batch, |batch|);
    var now := ApplyPrefix(files, batch, |batch|);
    forall name ensures SameFile(now, files + update, name) {
      if name in update {
        assert Among(batch, |batch|, name);
      } else {
        assert !Among(batch, |batch|, name);
        assert SameFile(now, files, name);
      }
    }
    SameEverywhere(now, files + update);
  }

  /** cert_dir: the final files, and the temp files beside them by number. */
  class Directory {
    var files: Files
    var temps: map<nat, Text>
    var issued: nat

    ghost predicate Valid() reads this {
      forall id :: id in temps ==> id < issued
    }

    constructor ()
      ensures Valid() && files == map[] && temps == map[]
    {
      files, temps, issued := map[], map[], 0;
    }

    /** `writeTempFile`: a failure removes what it had created. */
    method WriteTemp(content: Text, fails: bool) returns (tmp: Option<nat>)
      requires Valid()
      modifies this
      ensures Valid() && files == old(files)
      ensures fails ==> tmp.None? && temps == old(temps)
      ensures !fails ==> tmp.Some? && tmp.value !in old(temps) && temps == old(temps)[tmp.value := content]
    {
      if fails {
        return None;
      }
      tmp := Some(issued);
      temps := temps[issued := content];
      issued := issued + 1;
    }

    /** `os.Rename` of a temp file onto its final name, one atomic step. */
    method Rename(tmp: nat, name: FileName)
      requires Valid() && tmp in temps
      modifies this
      ensures Valid() && files == old(files)[name := old(temps)[tmp]] && temps == old(temps) - {tmp}
    {
      files := files[name := temps[tmp]];
      temps := temps - {tmp};
    }

    method RemoveTemp(tmp: nat)
      requires Valid()
      modifies this
      ensures Valid() && files == old(files) && temps == old(temps) - {tmp}
    {
      temps := temps - {tmp};
    }
  }

  datatype PendingFile = PendingFile(tmp: nat, name: FileName)

  ghost function Ids(pending: seq<PendingFile>): set<nat> {
    set i | 0 <= i < |pending| :: pending[i].tmp
  }

  /** `atomicWriter`. */
  class Writer {
    const dir: Directory
    var pending: seq<PendingFile>

    ghost predicate Valid() reads this, dir {
      && dir.Valid()
      && (forall i :: 0 <= i < |pending| ==> pending[i].tmp in dir.temps)
      && (forall i, j :: 0 <= i < j < |pending| ==> pending[i].tmp != pending[j].tmp)
    }

    /** The staged writes, in staging order. */
    ghost function Batch(): (batch: seq<Write>)
      requires Valid()
      reads this, dir
      ensures |batch| == |pending|
    {
      seq(|pending|, i requires 0 <= i < |pending| && Valid() reads this, dir =>
        Write(pending[i].name, dir.temps[pending[i].tmp]))
    }

    /** The temp files that are not of this batch. */
    ghost function Others(): map<nat, Text> reads this, dir {
      dir.temps - Ids(pending)
    }

    constructor (dir: Directory)
      requires dir.Valid()
      ensures Valid() && this.dir == dir && pending == []
      ensures Batch() == [] && Others() == dir.temps
    {
      this.dir := dir;
      pending := [];
    }

    /** A stage failure cleans up everything staged so far. */
    method Stage(name: FileName, content: Text, fate: Fate) returns (res: Fate)
      requires Valid()
      modifies this, dir
      ensures Valid() && res == fate && dir.files == old(dir.files) && Others() == old(Others())
      ensures fate.Done? ==> Batch() == old(Batch()) + [Write(name, content)]
      ensures fate.Failed? ==> pending == [] && dir.temps == old(Others())
      ensures fate.Died? ==> pending == old(pending) && dir.temps == old(dir.temps)
    {
      res := fate;
      if fate.Died? {
        return;
      }
      var tmp := dir.WriteTemp(content, fate.Failed?);
      if tmp.None? {
        Abort();
        return;
      }
      ghost var before := pending;
      pending := pending + [PendingFile(tmp.value, name)];
      IdsAppend(before, PendingFile(tmp.value, name));
      assert Batch() == old(Batch()) + [Write(name, content)];
    }

    /** `commit`: the renames in staging order, privkey.pem last because it is staged last. */
    method Commit(stop: Stop) returns (res: Fate)
      requires Valid()
      modifies this, dir
      ensures Valid() && res == FateOf(|old(pending)|, stop)
      ensures dir.files == ApplyPrefix(old(dir.files), old(Batch()), Effective(|old(pending)|, stop))
      ensures !res.Died? ==> pending == [] && dir.temps == old(Others())
      ensures res.Died? ==> pending == old(pending)[Effective(|old(pending)|, stop)..]
      ensures Others() == old(Others())
    {
      BatchIsReady();
      var i := RenameUntil(stop, Batch(), Others());
      MidwayRest(old(pending), old(Batch()), i, dir.temps, old(Others()));
      res := FateOf(|pending|, stop);
      pending := pending[i..];
      if res.Failed? {
        Abort();
      }
    }

    lemma BatchIsReady()
      requires Valid()
      ensures Midway(pending, Batch(), 0, dir.temps, Others())
    {
    }

    /** The loop of renames up to where it stops. */
    method RenameUntil(stop: Stop, ghost batch: seq<Write>, ghost others: map<nat, Text>) returns (i: nat)
      requires dir.Valid() && Midway(pending, batch, 0, dir.temps, others)
      modifies dir
      ensures |batch| == |pending| && i == Effective(|pending|, stop)
      ensures dir.Valid() && Midway(pending, batch, i, dir.temps, others)
      ensures dir.files == ApplyPrefix(old(dir.files), batch, i)
    {
      i := 0;
      while i < |pending|
        invariant 0 <= i <= |pending|
        invariant stop.Never? || i <= stop.at
        invariant dir.Valid() && Midway(pending, batch, i, dir.temps, others)
        invariant dir.files == ApplyPrefix(old(dir.files), batch, i)
      {
        if stop == DieAt(i) || stop == FailAt(i) {
          return;
        }
        MidwayStep(pending, batch, i, dir.temps, others);
        dir.Rename(pending[i].tmp, pending[i].name);
        i := i + 1;
      }
    }

    /** `abort`. */
    method Abort()
      requires Valid()
      modifies this, dir
      ensures Valid() && pending == [] && dir.files == old(dir.files) && dir.temps == old(Others())
      ensures Others() == old(Others())
    {
      var i := 0;
      while i < |pending|
        invariant 0 <= i <= |pending| && pending == old(pending)
        invariant dir.Valid() && dir.files == old(dir.files)
        invariant dir.temps == old(dir.temps) - Ids(pending[..i])
      {
        dir.RemoveTemp(pending[i].tmp);
        assert Ids(pending[..i + 1]) == Ids(pending[..i]) + {pending[i].tmp} by {
          assert pending[..i + 1] == pending[..i] + [pending[i]];
          IdsAppend(pending[..i], pending[i]);
        }
        i := i + 1;
      }
      assert pending[..i] == pending;
      pending := [];
    }
  }

  lemma IdsAppend(pending: seq<PendingFile>, last: PendingFile)
    ensures Ids(pending + [last]) == Ids(pending) + {last.tmp}
  {
    var all := pending + [last];
    forall id | id in Ids(pending) + {last.tmp} ensures id in Ids(all) {
      if id in Ids(pending) {
        var i :| 0 <= i < |pending| && pending[i].tmp == id;
        assert all[i].tmp == id;
      } else {
        assert all[|pending|].tmp == id;
      }
    }
  }

  /** The temp files after `i` renames of the batch. */
  ghost predicate Midway(pending: seq<PendingFile>, batch: seq<Write>, i: nat,
                         temps: map<nat, Text>, others: map<nat, Text>)
  {
    && |batch| == |pending|
    && (forall j :: 0 <= j < |pending| ==> batch[j].name == pending[j].name)
    && (forall j, k :: 0 <= j < k < |pending| ==> pending[j].tmp != pending[k].tmp)
    && (forall j :: i <= j < |pending| ==> pending[j].tmp in temps && temps[pending[j].tmp] == batch[j].content)
    && (forall j :: 0 <= j < i && j < |pending| ==> pending[j].tmp !in temps)
    && temps - Ids(pending) == others
  }

  lemma MidwayStep(pending: seq<PendingFile>, batch: seq<Write>, i: nat, temps: map<nat, Text>, others: map<nat, Text>)
    requires Midway(pending, batch, i, temps, others) && i < |pending|
    ensures pending[i].tmp in temps && temps[pending[i].tmp] == batch[i].content
    ensures Midway(pending, batch, i + 1, temps - {pending[i].tmp}, others)
  {
  }

  /** Once the first `i` temp files are gone, leaving out the rest is leaving out all. */
  lemma MidwayRest(pending: seq<PendingFile>, batch: seq<Write>, i: nat, temps: map<nat, Text>, others: map<nat, Text>)
    requires Midway(pending, batch, i, temps, others) && i <= |pending|
    ensures temps - Ids(pending[i..]) == others
    ensures i == |pending| ==> temps == others
  {
  }
}
