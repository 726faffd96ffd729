/** The agent's polling of the installer (server-agent/internal/agent/agent.go): Syncs run one
    after the other, never two at once, so a run of the class is a run of the model. */
module CertAgent {
  import opened Wrappers
  import opened CertSync
  import opened CertEndings
  import opened CertRuns
  import opened Installer

  /** One Sync per event, whatever became of the one before. */
  method Poll(installer: CertInstaller, events: seq<Event>)
    requires installer.mode != MODE_OFF && installer.dir.Valid()
    modifies installer, installer.dir
    ensures installer.dir.Valid()
    ensures installer.dir.files == Run(old(installer.dir.files), events).files
    ensures installer.reloads == old(installer.reloads) + Run(old(installer.dir.files), events).reloads
    ensures Deaths(old(installer.dir.files), events) == 0 ==> installer.dir.temps == old(installer.dir.temps)
    ensures (forall i :: 0 <= i < |events| ==> !HasDeath(events[i].faults)) ==>
      installer.dir.temps == old(installer.dir.temps)
  {
    var i := 0;
    while i < |events|
      invariant 0 <= i <= |events| && installer.dir.Valid()
      invariant installer.dir.files == Run(old(installer.dir.files), events[..i]).files
      invariant installer.reloads == old(installer.reloads) + Run(old(installer.dir.files), events[..i]).reloads
      invariant Deaths(old(installer.dir.files), events[..i]) == 0 ==> installer.dir.temps == old(installer.dir.temps)
    {
      var e := events[i];
      var _, _, _, _ := installer.Sync(ifNoneMatch => ReplyTo(e, ifNoneMatch), None, e.faults);
      assert events[..i + 1][..i] == events[..i];
      i := i + 1;
    }
    assert events[..i] == events;
    if forall i :: 0 <= i < |events| ==> !HasDeath(events[i].faults) {
      NoDeaths(old(installer.dir.files), events);
    }
  }
}
