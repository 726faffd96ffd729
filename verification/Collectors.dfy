/** The composite collectors (server-agent/internal/collector/collector.go): the first source that
    has a value wins.  A cycle is a snapshot: every source has one answer in it. */
module Collectors {
  import opened Wrappers

  /** A source, or a composite of collectors. */
  datatype Collector<R> = Source(available: bool, reading: R) | Group(subs: seq<Collector<R>>)

  predicate Available<R>(c: Collector<R>) {
    match c
    case Source(available, _) => available
    case Group(subs) => exists i :: 0 <= i < |subs| && Available(subs[i])
  }

  /** The sources of a nest of groups, from left to right. */
  function Flatten<R>(cs: seq<Collector<R>>): seq<Collector<R>> {
    if cs == [] then [] else Leaves(cs[0]) + Flatten(cs[1..])
  }

  function Leaves<R>(c: Collector<R>): seq<Collector<R>> {
    match c
    case Source(_, _) => [c]
    case Group(subs) => Flatten(subs)
  }

  lemma AvailableAppend<R>(a: seq<Collector<R>>, b: seq<Collector<R>>)
    ensures Available(Group(a + b)) <==> Available(Group(a)) || Available(Group(b))
  {
    var all := a + b;
    if Available(Group(a)) {
      var i :| 0 <= i < |a| && Available(a[i]);
      assert Available(all[i]);
    } else if Available(Group(b)) {
      var i :| 0 <= i < |b| && Available(b[i]);
      assert Available(all[|a| + i]);
    }
  }

  /** Nesting does not matter for the availability. */
  lemma {:induction false} NestedAvailabilityIsFlat<R>(cs: seq<Collector<R>>)
    ensures Available(Group(cs)) <==> Available(Group(Flatten(cs)))
  {
    if cs == [] {
    } else {
      NestedAvailabilityIsFlat(cs[1..]);
      if cs[0].Group? {
        NestedAvailabilityIsFlat(cs[0].subs);
      }
      assert cs == [cs[0]] + cs[1..];
      AvailableAppend([cs[0]], cs[1..]);
      AvailableAppend(Leaves(cs[0]), Flatten(cs[1..]));
      assert [cs[0]][0] == cs[0];
    }
  }

  /** A group, however nested, is available exactly if one of its sources is. */
  lemma AvailableExactly<R>(cs: seq<Collector<R>>)
    ensures Available(Group(cs)) <==>
      exists i :: 0 <= i < |Flatten(cs)| && Flatten(cs)[i].Source? && Flatten(cs)[i].available
  {
    NestedAvailabilityIsFlat(cs);
    OnlySources(cs);
  }

  lemma {:induction false} OnlySources<R>(cs: seq<Collector<R>>)
    ensures forall i :: 0 <= i < |Flatten(cs)| ==> Flatten(cs)[i].Source?
  {
    if cs == [] {
    } else {
      OnlySources(cs[1..]);
      match cs[0]
      case Source(_, _) => assert Leaves(cs[0]) == [cs[0]];
      case Group(subs) =>
        OnlySources(subs);
        assert Leaves(cs[0]) == Flatten(subs);
    }
  }

  /** `Available` of either composite. */
  method MultiAvailable<R>(subs: seq<Collector<R>>) returns (r: bool)
    ensures r <==> Available(Group(subs))
  {
    var i := 0;
    while i < |subs|
      invariant 0 <= i <= |subs| && forall j :: 0 <= j < i ==> !Available(subs[j])
    {
      if Available(subs[i]) {
        return true;
      }
      i := i + 1;
    }
    return false;
  }

  // ---------- power: two metrics, errors swallowed ----------

  datatype PowerReading = PowerReading(cpu: Option<real>, system: Option<real>, failed: bool)

  function FirstCPU(readings: seq<PowerReading>): Option<real> {
    if readings == [] then None
    else if !readings[0].failed && readings[0].cpu.Some? then readings[0].cpu
    else FirstCPU(readings[1..])
  }

  function FirstSystem(readings: seq<PowerReading>): Option<real> {
    if readings == [] then None
    else if !readings[0].failed && readings[0].system.Some? then readings[0].system
    else FirstSystem(readings[1..])
  }

  /** `Collect` of any collector, and of every member of a list. */
  function CollectPower(c: Collector<PowerReading>): PowerReading {
    match c
    case Source(_, reading) => reading
    case Group(subs) =>
      var readings := CollectEach(subs);
      PowerReading(FirstCPU(readings), FirstSystem(readings), false)
  }

  function CollectEach(cs: seq<Collector<PowerReading>>): (readings: seq<PowerReading>)
    ensures |readings| == |cs|
  {
    if cs == [] then [] else [CollectPower(cs[0])] + CollectEach(cs[1..])
  }

  lemma {:induction false} CollectAppend(a: seq<Collector<PowerReading>>, b: seq<Collector<PowerReading>>)
    ensures CollectEach(a + b) == CollectEach(a) + CollectEach(b)
  {
    if a == [] {
      assert a + b == b;
    } else {
      assert (a + b)[1..] == a[1..] + b;
      CollectAppend(a[1..], b);
    }
  }

  lemma {:induction false} FirstAppend(a: seq<PowerReading>, b: seq<PowerReading>)
    ensures FirstCPU(a + b) == if FirstCPU(a).Some? then FirstCPU(a) else FirstCPU(b)
    ensures FirstSystem(a + b) == if FirstSystem(a).Some? then FirstSystem(a) else FirstSystem(b)
  {
    if a == [] {
      assert a + b == b;
    } else {
      assert (a + b)[1..] == a[1..] + b;
      FirstAppend(a[1..], b);
    }
  }

  /** Nor for the values: a nest of groups reads as the flat group. */
  lemma {:induction false} NestedPowerIsFlat(cs: seq<Collector<PowerReading>>)
    ensures CollectPower(Group(cs)) == CollectPower(Group(Flatten(cs)))
  {
    if cs == [] {
    } else {
      NestedPowerIsFlat(cs[1..]);
      var head := Leaves(cs[0]);
      if cs[0].Group? {
        NestedPowerIsFlat(cs[0].subs);
      } else {
        assert CollectEach(head) == [cs[0].reading];
      }
      CollectAppend(head, Flatten(cs[1..]));
      FirstAppend(CollectEach(head), CollectEach(Flatten(cs[1..])));
    }
  }

  predicate HasCPU(r: PowerReading) {
    !r.failed && r.cpu.Some?
  }

  predicate HasSystem(r: PowerReading) {
    !r.failed && r.system.Some?
  }

  /** Reading `i` is the first that has a CPU value. */
  ghost predicate FirstCPUAt(readings: seq<PowerReading>, i: int) {
    0 <= i < |readings| && HasCPU(readings[i]) && forall j :: 0 <= j < i ==> !HasCPU(readings[j])
  }

  ghost predicate FirstSystemAt(readings: seq<PowerReading>, i: int) {
    0 <= i < |readings| && HasSystem(readings[i]) && forall j :: 0 <= j < i ==> !HasSystem(readings[j])
  }

  /** The first CPU value, said without the loop: it stands at the first place that has one, and
      there is none only if no place has. */
  lemma {:induction false} FirstCPUExactly(readings: seq<PowerReading>)
    ensures forall i :: FirstCPUAt(readings, i) ==> FirstCPU(readings) == readings[i].cpu
    ensures FirstCPU(readings).Some? <==> exists i :: 0 <= i < |readings| && HasCPU(readings[i])
  {
    if readings == [] {
    } else {
      var rest := readings[1..];
      assert forall i :: 1 <= i < |readings| ==> readings[i] == rest[i - 1];
      FirstCPUExactly(rest);
      forall i | FirstCPUAt(readings, i) && i > 0
        ensures FirstCPUAt(rest, i - 1)
      {
        assert forall j :: 0 <= j < i - 1 ==> rest[j] == readings[j + 1];
      }
    }
  }

  /** The same for the system value, whatever the CPU values are. */
  lemma {:induction false} FirstSystemExactly(readings: seq<PowerReading>)
    ensures forall i :: FirstSystemAt(readings, i) ==> FirstSystem(readings) == readings[i].system
    ensures FirstSystem(readings).Some? <==> exists i :: 0 <= i < |readings| && HasSystem(readings[i])
  {
    if readings == [] {
    } else {
      var rest := readings[1..];
      assert forall i :: 1 <= i < |readings| ==> readings[i] == rest[i - 1];
      FirstSystemExactly(rest);
      forall i | FirstSystemAt(readings, i) && i > 0
        ensures FirstSystemAt(rest, i - 1)
      {
        assert forall j :: 0 <= j < i - 1 ==> rest[j] == readings[j + 1];
      }
    }
  }

  /** `multiPowerCollector.Collect`. */
  method MultiPowerCollect(subs: seq<Collector<PowerReading>>) returns (cpu: Option<real>, system: Option<real>)
    ensures PowerReading(cpu, system, false) == CollectPower(Group(subs))
  {
    cpu, system := None, None;
    var i := 0;
    assert subs[..0] == [];
    while i < |subs|
      invariant 0 <= i <= |subs|
      invariant cpu == FirstCPU(CollectEach(subs[..i])) && system == FirstSystem(CollectEach(subs[..i]))
    {
      var r := CollectPower(subs[i]);
      assert subs[..i + 1] == subs[..i] + [subs[i]];
      CollectAppend(subs[..i], [subs[i]]);
      FirstAppend(CollectEach(subs[..i]), [r]);
      assert CollectEach([subs[i]]) == [r];
      i := i + 1;
      if r.failed {
        continue;
      }
      if cpu.None? && r.cpu.Some? {
        cpu := r.cpu;
      }
      if system.None? && r.system.Some? {
        system := r.system;
      }
    }
    assert subs[..i] == subs;
  }

  /** Source `i` read the CPU value `x` without an error, and no source before it read one. */
  ghost predicate FirstCPUSource(subs: seq<Collector<PowerReading>>, i: int, x: real) {
    && 0 <= i < |subs| && subs[i].Source? && !subs[i].reading.failed && subs[i].reading.cpu == Some(x)
    && forall j :: 0 <= j < i ==> subs[j].Source? && (subs[j].reading.failed || subs[j].reading.cpu.None?)
  }

  ghost predicate FirstSystemSource(subs: seq<Collector<PowerReading>>, i: int, x: real) {
    && 0 <= i < |subs| && subs[i].Source? && !subs[i].reading.failed && subs[i].reading.system == Some(x)
    && forall j :: 0 <= j < i ==> subs[j].Source? && (subs[j].reading.failed || subs[j].reading.system.None?)
  }

  /** A group of sources gives the CPU value of the first that read one, and the system value of the
      first that read one, each on its own; the group itself never fails. */
  lemma PowerOfSources(subs: seq<Collector<PowerReading>>, x: real)
    requires forall i :: 0 <= i < |subs| ==> subs[i].Source?
    ensures CollectPower(Group(subs)).cpu == Some(x) <==> exists i :: FirstCPUSource(subs, i, x)
    ensures CollectPower(Group(subs)).system == Some(x) <==> exists i :: FirstSystemSource(subs, i, x)
    ensures !CollectPower(Group(subs)).failed
  {
    CPUOfSources(subs, x);
    SystemOfSources(subs, x);
  }

  lemma {:induction false} CPUOfSources(subs: seq<Collector<PowerReading>>, x: real)
    requires forall i :: 0 <= i < |subs| ==> subs[i].Source?
    ensures FirstCPU(CollectEach(subs)) == Some(x) <==> exists i :: FirstCPUSource(subs, i, x)
  {
    if subs == [] {
    } else {
      var rest := subs[1..];
      CPUOfSources(rest, x);
      assert forall i :: 1 <= i < |subs| ==> subs[i] == rest[i - 1];
      if HasCPU(subs[0].reading) {
        assert subs[0].reading.cpu == Some(x) ==> FirstCPUSource(subs, 0, x);
      } else {
        if i :| FirstCPUSource(rest, i, x) {
          assert forall j :: 1 <= j < i + 1 ==> subs[j] == rest[j - 1];
          assert FirstCPUSource(subs, i + 1, x);
        }
        if i :| FirstCPUSource(subs, i, x) {
          assert forall j :: 0 <= j < i - 1 ==> rest[j] == subs[j + 1];
          assert FirstCPUSource(rest, i - 1, x);
        }
      }
    }
  }

  lemma {:induction false} SystemOfSources(subs: seq<Collector<PowerReading>>, x: real)
    requires forall i :: 0 <= i < |subs| ==> subs[i].Source?
    ensures FirstSystem(CollectEach(subs)) == Some(x) <==> exists i :: FirstSystemSource(subs, i, x)
  {
    if subs == [] {
    } else {
      var rest := subs[1..];
      SystemOfSources(rest, x);
      assert forall i :: 1 <= i < |subs| ==> subs[i] == rest[i - 1];
      if HasSystem(subs[0].reading) {
        assert subs[0].reading.system == Some(x) ==> FirstSystemSource(subs, 0, x);
      } else {
        if i :| FirstSystemSource(rest, i, x) {
          assert forall j :: 1 <= j < i + 1 ==> subs[j] == rest[j - 1];
          assert FirstSystemSource(subs, i + 1, x);
        }
        if i :| FirstSystemSource(subs, i, x) {
          assert forall j :: 0 <= j < i - 1 ==> rest[j] == subs[j + 1];
          assert FirstSystemSource(rest, i - 1, x);
        }
      }
    }
  }

  // ---------- temperature: one metric, the first error is kept ----------

  /** What a temperature collector answers: a value, nothing, or an error. */
  datatype TempReading = Measured(celsius: real) | Nothing | Failure(error: string)

  /** `Collect` of any collector: in a group unavailable members are passed over, the first value
      wins, and without one the first error is the answer. */
  function CollectTemp(c: Collector<TempReading>): TempReading {
    match c
    case Source(_, reading) => reading
    case Group(subs) => CollectFrom(subs, Nothing)
  }

  /** The same for the rest of the members, `sofar` being the first error or nothing. */
  function CollectFrom(cs: seq<Collector<TempReading>>, sofar: TempReading): TempReading {
    if cs == [] then sofar
    else if !Available(cs[0]) then CollectFrom(cs[1..], sofar)
    else
      var r := CollectTemp(cs[0]);
      if r.Measured? then r
      else CollectFrom(cs[1..], if sofar.Nothing? then r else sofar)
  }

  /** A value ends the search; otherwise it goes on with the first error so far. */
  lemma {:induction false} CollectFromAppend(a: seq<Collector<TempReading>>, b: seq<Collector<TempReading>>,
                                             sofar: TempReading)
    requires !sofar.Measured?
    ensures CollectFrom(a + b, sofar) ==
      var r := CollectFrom(a, sofar); if r.Measured? then r else CollectFrom(b, r)
  {
    if a == [] {
      assert a + b == b;
    } else {
      assert (a + b)[1..] == a[1..] + b;
      var r := CollectTemp(a[0]);
      if !Available(a[0]) {
        CollectFromAppend(a[1..], b, sofar);
      } else if !r.Measured? {
        CollectFromAppend(a[1..], b, if sofar.Nothing? then r else sofar);
      }
    }
  }

  /** The first error so far does not matter for a value, and wins over any later error. */
  lemma {:induction false} SofarWins(cs: seq<Collector<TempReading>>, sofar: TempReading)
    requires !sofar.Measured?
    ensures CollectFrom(cs, sofar) ==
      var r := CollectFrom(cs, Nothing); if r.Measured? || sofar.Nothing? then r else sofar
  {
    if cs == [] {
    } else {
      var r := CollectTemp(cs[0]);
      SofarWins(cs[1..], sofar);
      if !r.Measured? {
        SofarWins(cs[1..], r);
      }
    }
  }

  lemma {:induction false} UnavailableGivesNothing(cs: seq<Collector<TempReading>>)
    requires !Available(Group(cs))
    ensures CollectFrom(cs, Nothing) == Nothing
  {
    if cs == [] {
    } else {
      assert !Available(cs[0]);
      assert forall i :: 0 <= i < |cs| - 1 ==> cs[1..][i] == cs[i + 1];
      UnavailableGivesNothing(cs[1..]);
    }
  }

  /** A nest of groups gives the value, or else the error, of the flat group. */
  lemma {:induction false} NestedTempIsFlat(cs: seq<Collector<TempReading>>)
    ensures CollectTemp(Group(cs)) == CollectTemp(Group(Flatten(cs)))
  {
    if cs == [] {
    } else {
      var head, rest := Leaves(cs[0]), Flatten(cs[1..]);
      NestedTempIsFlat(cs[1..]);
      assert cs == [cs[0]] + cs[1..];
      CollectFromAppend([cs[0]], cs[1..], Nothing);
      CollectFromAppend(head, rest, Nothing);
      if cs[0].Group? {
        NestedTempIsFlat(cs[0].subs);
        if !Available(cs[0]) {
          UnavailableGivesNothing(cs[0].subs);
        }
      }
      var r := CollectFrom(head, Nothing);
      assert CollectFrom([cs[0]], Nothing) == r;
      if !r.Measured? {
        SofarWins(cs[1..], r);
        SofarWins(rest, r);
      }
    }
  }

  /** `multiTempCollector.Collect`: a value and no error, or no value and the first error. */
  method MultiTempCollect(subs: seq<Collector<TempReading>>) returns (celsius: Option<real>, err: Option<string>)
    ensures match CollectTemp(Group(subs))
            case Measured(t) => celsius == Some(t) && err.None?
            case Nothing => celsius.None? && err.None?
            case Failure(e) => celsius.None? && err == Some(e)
  {
    celsius, err := None, None;
    var i := 0;
    assert subs == subs[0..];
    while i < |subs|
      invariant 0 <= i <= |subs| && celsius.None?
      invariant CollectFrom(subs, Nothing) == CollectFrom(subs[i..], if err.Some? then Failure(err.value) else Nothing)
    {
      assert subs[i..][1..] == subs[i + 1..];
      var c := subs[i];
      i := i + 1;
      if !Available(c) {
        continue;
      }
      var r := CollectTemp(c);
      if r.Failure? {
        if err.None? {
          err := Some(r.error);
        }
        continue;
      }
      if r.Measured? {
        return Some(r.celsius), None;
      }
    }
  }

  predicate Measures(c: Collector<TempReading>) {
    c.Source? && c.available && c.reading.Measured?
  }

  /** Source `i` is available and measured `t`, and no available source before it measured. */
  ghost predicate FirstAt(cs: seq<Collector<TempReading>>, i: int, t: real) {
    && 0 <= i < |cs| && Measures(cs[i]) && cs[i].reading.celsius == t
    && forall j :: 0 <= j < i ==> !Measures(cs[j])
  }

  /** The first value, said without the loop. */
  lemma FirstMeasured(cs: seq<Collector<TempReading>>, t: real)
    requires forall i :: 0 <= i < |cs| ==> cs[i].Source?
    ensures CollectTemp(Group(cs)) == Measured(t) <==> exists i :: FirstAt(cs, i, t)
  {
    FirstMeasuredFrom(cs, Nothing, t);
  }

  lemma {:induction false} FirstMeasuredFrom(cs: seq<Collector<TempReading>>, sofar: TempReading, t: real)
    requires (forall i :: 0 <= i < |cs| ==> cs[i].Source?) && !sofar.Measured?
    ensures CollectFrom(cs, sofar) == Measured(t) <==> exists i :: FirstAt(cs, i, t)
  {
    if cs == [] {
    } else {
      if Measures(cs[0]) {
        assert FirstAt(cs, 0, cs[0].reading.celsius);
      } else {
        var rest := cs[1..];
        FirstMeasuredFrom(rest, if Available(cs[0]) && sofar.Nothing? then cs[0].reading else sofar, t);
        if i :| FirstAt(rest, i, t) {
          assert FirstAt(cs, i + 1, t) by {
            assert forall j :: 1 <= j < i + 1 ==> cs[j] == rest[j - 1];
          }
        }
        if i :| FirstAt(cs, i, t) {
          assert FirstAt(rest, i - 1, t) by {
            assert forall j :: 0 <= j < i - 1 ==> rest[j] == cs[j + 1];
          }
        }
      }
    }
  }

  predicate Fails(c: Collector<TempReading>) {
    c.Source? && c.available && c.reading.Failure?
  }

  /** Source `i` is available and failed with `error`, and no available source before it failed. */
  ghost predicate FirstErrorAt(cs: seq<Collector<TempReading>>, i: int, error: string) {
    && 0 <= i < |cs| && Fails(cs[i]) && cs[i].reading.error == error
    && forall j :: 0 <= j < i ==> !Fails(cs[j])
  }

  lemma {:induction false} SomeMeasures(cs: seq<Collector<TempReading>>, sofar: TempReading)
    requires (forall i :: 0 <= i < |cs| ==> cs[i].Source?) && !sofar.Measured?
    ensures CollectFrom(cs, sofar).Measured? <==> exists i :: 0 <= i < |cs| && Measures(cs[i])
  {
    if cs == [] {
    } else if !Measures(cs[0]) {
      SomeMeasures(cs[1..], if Available(cs[0]) && sofar.Nothing? then cs[0].reading else sofar);
      assert forall i :: 1 <= i < |cs| ==> cs[i] == cs[1..][i - 1];
    }
  }

  /** The error that is surfaced: the first one, and only if no available source measured. */
  lemma {:induction false} FirstError(cs: seq<Collector<TempReading>>, error: string)
    requires forall i :: 0 <= i < |cs| ==> cs[i].Source?
    ensures CollectTemp(Group(cs)) == Failure(error) <==>
      (exists i :: FirstErrorAt(cs, i, error)) && forall i :: 0 <= i < |cs| ==> !Measures(cs[i])
  {
    if cs == [] {
    } else {
      var rest := cs[1..];
      assert forall i :: 1 <= i < |cs| ==> cs[i] == rest[i - 1];
      SomeMeasures(cs, Nothing);
      SomeMeasures(rest, Nothing);
      if Fails(cs[0]) {
        SofarWins(rest, cs[0].reading);
        assert FirstErrorAt(cs, 0, cs[0].reading.error);
      } else {
        FirstError(rest, error);
        FirstErrorShifts(cs, error);
      }
    }
  }

  lemma FirstErrorShifts(cs: seq<Collector<TempReading>>, error: string)
    requires cs != [] && !Fails(cs[0])
    ensures (exists i :: FirstErrorAt(cs, i, error)) <==> exists i :: FirstErrorAt(cs[1..], i, error)
  {
    var rest := cs[1..];
    assert forall i :: 1 <= i < |cs| ==> cs[i] == rest[i - 1];
    if i :| FirstErrorAt(rest, i, error) {
      assert forall j :: 1 <= j < i + 1 ==> cs[j] == rest[j - 1];
      assert FirstErrorAt(cs, i + 1, error);
    }
    if i :| FirstErrorAt(cs, i, error) {
      assert forall j :: 0 <= j < i - 1 ==> rest[j] == cs[j + 1];
      assert FirstErrorAt(rest, i - 1, error);
    }
  }
}
