/**
 * Any number of `vetu run` processes setting up their networks: each finds a subnet and assigns an
 * address from it to its own TAP interface inside one global critical section. The interface goes with
 * the last of the processes that have it open: `vetu run` itself and the hypervisor it starts.
 */
module RunNetwork {
  import opened Bytes
  import opened PrefixTries
  import opened SubnetFinder

  /** A process started as `vetu run`; the number stays with its VM when the process has been killed. */
  type Pid = nat

  /** Where a process is in globallock.With around software.New or host.New, and after it. */
  datatype Phase =
    | Outside
    | Locked
    | Chosen(subnet: Prefix)
    | Assigned(subnet: Prefix, reported: Prefix)
    | Serving(subnet: Prefix, reported: Prefix)
    | Orphaned(subnet: Prefix, reported: Prefix)

  /** The process's interface, or that of the hypervisor it has left behind, has its address. */
  predicate HasAddress(phase: Phase) {
    phase.Assigned? || phase.Serving? || phase.Orphaned?
  }

  /** The holder of the global lock, the processes, and the blocks of all other interfaces. */
  datatype State = State(holder: Option<Pid>, procs: map<Pid, Phase>, others: set<Prefix>)

  function PhaseOf(s: State, p: Pid): Phase {
    if p in s.procs then s.procs[p] else Outside
  }

  /** What net.InterfaceAddrs reports. */
  ghost function Reported(s: State): set<Prefix> {
    s.others + set p | p in s.procs && HasAddress(s.procs[p]) :: s.procs[p].reported
  }

  const SUBNET_PREFIX_LENGTH := 29

  /** Which of the subnet's addresses the interface gets. */
  function InterfaceHost(software: bool): nat {
    if software then 3 else 1
  }

  /** Software networking gives the interface the third host address, host networking the first. */
  datatype Event =
    | Lock(p: Pid)
    | Find(p: Pid, subnet: Prefix)
    | Assign(p: Pid, software: bool, reported: Prefix)
    | Unlock(p: Pid)
    | Exit(p: Pid)
    | Kill(p: Pid)
    | HypervisorEnds(p: Pid)
    | ChangeOthers(others: set<Prefix>)

  /**
   * The address an interface gets is reported with the subnet's prefix length; it is read as some
   * block that contains the address and lies in the subnet: the address alone, or the whole subnet.
   */
  ghost predicate Enabled(s: State, e: Event) {
    match e
    case Lock(p) => s.holder.None? && PhaseOf(s, p).Outside?
    case Find(p, subnet) => PhaseOf(s, p).Locked? && IsFirstFit(Reported(s), SUBNET_PREFIX_LENGTH, subnet)
    case Assign(p, software, reported) =>
      && PhaseOf(s, p).Chosen?
      && var subnet := PhaseOf(s, p).subnet;
         && |subnet| == SUBNET_PREFIX_LENGTH
         && var address := HostAt(subnet, InterfaceHost(software));
            address.Some? && subnet <= reported <= address.value
    case Unlock(p) => PhaseOf(s, p).Assigned?
    case Exit(p) => !PhaseOf(s, p).Outside? && !PhaseOf(s, p).Orphaned?
    case Kill(p) => PhaseOf(s, p).Serving?
    case HypervisorEnds(p) => PhaseOf(s, p).Orphaned?
    case ChangeOthers(others) => forall u :: u in others ==> |u| <= WIDTH
  }

  ghost function Step(s: State, e: Event): State
    requires Enabled(s, e)
  {
    match e
    case Lock(p) => s.(holder := Some(p), procs := s.procs[p := Locked])
    case Find(p, subnet) => s.(procs := s.procs[p := Chosen(subnet)])
    case Assign(p, _, reported) => s.(procs := s.procs[p := Assigned(PhaseOf(s, p).subnet, reported)])
    case Unlock(p) =>
      s.(holder := None, procs := s.procs[p := Serving(PhaseOf(s, p).subnet, PhaseOf(s, p).reported)])
    // The process ends without a hypervisor, or after it: the kernel drops its lock and its interface.
    case Exit(p) => s.(holder := if s.holder == Some(p) then None else s.holder, procs := s.procs - {p})
    // The process is killed and its hypervisor keeps the VM running, and the interface with it.
    case Kill(p) => s.(procs := s.procs[p := Orphaned(PhaseOf(s, p).subnet, PhaseOf(s, p).reported)])
    case HypervisorEnds(p) => s.(procs := s.procs - {p})
    case ChangeOthers(others) => s.(others := others)
  }

  ghost function Run(s: State, events: seq<Event>): Option<State> {
    if events == [] then Some(s)
    else
      var before, last := Run(s, events[..|events| - 1]), events[|events| - 1];
      if before.Some? && Enabled(before.value, last) then Some(Step(before.value, last)) else None
  }

  ghost predicate Inv(s: State) {
    && (forall p :: p in s.procs && !s.procs[p].Outside? && !s.procs[p].Serving? && !s.procs[p].Orphaned? ==>
         s.holder == Some(p))
    && (forall p :: p in s.procs && (s.procs[p].Chosen? || HasAddress(s.procs[p])) ==>
         |s.procs[p].subnet| == SUBNET_PREFIX_LENGTH)
    && (forall p :: p in s.procs && HasAddress(s.procs[p]) ==> s.procs[p].subnet <= s.procs[p].reported)
    && (forall p, q :: p in s.procs && q in s.procs && p != q && HasAddress(s.procs[p])
                       && (s.procs[q].Chosen? || HasAddress(s.procs[q])) ==>
         s.procs[p].subnet != s.procs[q].subnet)
  }

  ghost predicate ReportedFit(s: State) {
    forall u :: u in Reported(s) ==> |u| <= WIDTH
  }

  /** A subnet the finder returns differs from that of every process that has its address assigned. */
  lemma FoundIsNew(s: State, subnet: Prefix, q: Pid)
    requires Inv(s) && ReportedFit(s) && q in s.procs && HasAddress(s.procs[q])
    requires IsFirstFit(Reported(s), SUBNET_PREFIX_LENGTH, subnet)
    ensures s.procs[q].subnet != subnet
  {
    var u := s.procs[q].reported;
    assert u in Reported(s);
    assert Reported(s) == Reported(s) + {u};
    FreeAfterUse(WIDTH, PRIVATE_BLOCKS, Reported(s), u, subnet);
  }

  /** A subnet found shares no address with any other interface of the host, nor with what any VM's reports. */
  lemma FoundAvoidsInterfaces(s: State, p: Pid, subnet: Prefix)
    requires ReportedFit(s) && Enabled(s, Find(p, subnet))
    ensures forall u :: u in s.others ==> !(u <= subnet) && !(subnet <= u)
    ensures forall q :: q in s.procs && HasAddress(s.procs[q]) ==>
              !(s.procs[q].reported <= subnet) && !(subnet <= s.procs[q].reported)
  {
    AvailableIsPrivateAndUnused(Reported(s), subnet);
    forall q | q in s.procs && HasAddress(s.procs[q])
      ensures s.procs[q].reported in Reported(s)
    {
    }
  }

  lemma FindKeepsInv(s: State, p: Pid, subnet: Prefix)
    requires Inv(s) && ReportedFit(s) && Enabled(s, Find(p, subnet))
    ensures Inv(Step(s, Find(p, subnet)))
  {
    hide IsFirstFit;
    hide Reported;
    hide ReportedFit;
    forall q | q in s.procs && HasAddress(s.procs[q])
      ensures s.procs[q].subnet != subnet
    {
      FoundIsNew(s, subnet, q);
    }
    FirstFitLength(Reported(s), subnet);
  }

  lemma StepKeepsInv(s: State, e: Event)
    requires Inv(s) && ReportedFit(s) && Enabled(s, e)
    ensures Inv(Step(s, e))
  {
    hide IsFirstFit;
    hide Reported;
    hide ReportedFit;
    hide HostAt;
    if e.Find? {
      FindKeepsInv(s, e.p, e.subnet);
    }
  }

  lemma StepKeepsReportedFit(s: State, e: Event)
    requires Inv(s) && ReportedFit(s) && Enabled(s, e)
    ensures ReportedFit(Step(s, e))
  {
    hide IsFirstFit;
    hide HostAt;
    var s' := Step(s, e);
    if e.Assign? {
      HostIsOffset(PhaseOf(s, e.p).subnet, InterfaceHost(e.software));
    }
    forall u | u in Reported(s')
      ensures |u| <= WIDTH
    {
      if u !in s'.others {
        var p :| p in s'.procs && HasAddress(s'.procs[p]) && s'.procs[p].reported == u;
        assert e != ChangeOthers(s'.others) && !(e.Assign? && e.p == p) ==> u in Reported(s);
      }
    }
  }

  lemma FirstFitLength(used: set<Prefix>, b: Prefix)
    requires IsFirstFit(used, SUBNET_PREFIX_LENGTH, b)
    ensures |b| == SUBNET_PREFIX_LENGTH
  {}

  lemma {:induction false} RunKeepsInv(s: State, events: seq<Event>)
    requires Inv(s) && ReportedFit(s) && Run(s, events).Some?
    ensures Inv(Run(s, events).value) && ReportedFit(Run(s, events).value)
    decreases |events|
  {
    if events != [] {
      hide Inv;
      hide ReportedFit;
      hide Enabled;
      hide Step;
      var before := Run(s, events[..|events| - 1]).value;
      RunKeepsInv(s, events[..|events| - 1]);
      StepKeepsInv(before, events[|events| - 1]);
      StepKeepsReportedFit(before, events[|events| - 1]);
    }
  }

  ghost function Initial(others: set<Prefix>): State {
    State(None, map[], others)
  }

  /**
   * In every run of any number of processes, whatever else happens to the host's interfaces, two VMs
   * whose interfaces have their addresses never share a single one of their subnets' addresses, also
   * when the processes that started them have been killed.
   */
  lemma LiveSubnetsAreDisjoint(others: set<Prefix>, events: seq<Event>, p: Pid, q: Pid, a: Prefix)
    requires forall u :: u in others ==> |u| <= WIDTH
    requires var r := Run(Initial(others), events);
             && r.Some? && p != q && p in r.value.procs && q in r.value.procs
             && (r.value.procs[p].Assigned? || r.value.procs[p].Serving? || r.value.procs[p].Orphaned?)
             && (r.value.procs[q].Assigned? || r.value.procs[q].Serving? || r.value.procs[q].Orphaned?)
    ensures var s := Run(Initial(others), events).value;
            !(s.procs[p].subnet <= a && s.procs[q].subnet <= a)
  {
    assert Inv(Initial(others));
    RunKeepsInv(Initial(others), events);
    var s := Run(Initial(others), events).value;
    DifferentSameLength(s.procs[p].subnet, s.procs[q].subnet, a);
  }

  lemma DifferentSameLength(x: Prefix, y: Prefix, a: Prefix)
    requires |x| == |y| && x != y
    ensures !(x <= a && y <= a)
  {}

  /**
   * The interface's address is none of the VM's: with software networking the second address is the
   * VM's and the first its gateway's, with host networking the interface is the gateway.
   */
  lemma InterfaceAddressIsItsOwn(subnet: Prefix, software: bool)
    requires |subnet| == SUBNET_PREFIX_LENGTH
    ensures HostAt(subnet, InterfaceHost(software)).Some? && HostAt(subnet, 2).Some? && HostAt(subnet, 1).Some?
    ensures HostAt(subnet, InterfaceHost(software)) != HostAt(subnet, 2)
    ensures HostAt(subnet, InterfaceHost(software)) == HostAt(subnet, 1) <==> !software
  {
    RoomForHosts(subnet);
    HostsDiffer(subnet, InterfaceHost(software), 2);
    if software {
      HostsDiffer(subnet, 3, 1);
    }
  }

  lemma RunSnoc(s: State, events: seq<Event>, e: Event)
    requires Run(s, events).Some? && Enabled(Run(s, events).value, e)
    ensures Run(s, events + [e]) == Some(Step(Run(s, events).value, e))
  {
    hide Enabled;
    hide Step;
    assert (events + [e])[..|events|] == events;
  }

  /** As long as a subnet is free and nobody has the lock, one more VM can be brought up in the first one. */
  lemma OneMoreVM(start: State, before: seq<Event>, p: Pid, software: bool, c: Prefix)
    returns (subnet: Prefix, events: seq<Event>)
    requires Run(start, before).Some?
    requires var s := Run(start, before).value;
             && s.holder == None && PhaseOf(s, p) == Outside
             && |c| == SUBNET_PREFIX_LENGTH && Available(Reported(s), c)
    ensures var s := Run(start, before).value;
            && IsFirstFit(Reported(s), SUBNET_PREFIX_LENGTH, subnet)
            && Run(start, events) == Some(s.(procs := s.procs[p := Serving(subnet, subnet)]))
  {
    hide IsFirstFit;
    hide Reported;
    hide HostAt;
    var s := Run(start, before).value;
    subnet := FirstFitExists(Reported(s), c);
    FirstFitLength(Reported(s), subnet);
    InterfaceAddressIsItsOwn(subnet, software);
    HostIsOffset(subnet, InterfaceHost(software));
    var s1 := Step(s, Lock(p));
    RunSnoc(start, before, Lock(p));
    ReportedUnchanged(s, p, Locked, Some(p));
    var s2 := Step(s1, Find(p, subnet));
    RunSnoc(start, before + [Lock(p)], Find(p, subnet));
    var s3 := Step(s2, Assign(p, software, subnet));
    RunSnoc(start, before + [Lock(p)] + [Find(p, subnet)], Assign(p, software, subnet));
    events := before + [Lock(p)] + [Find(p, subnet)] + [Assign(p, software, subnet)] + [Unlock(p)];
    RunSnoc(start, before + [Lock(p)] + [Find(p, subnet)] + [Assign(p, software, subnet)], Unlock(p));
    assert Step(s3, Unlock(p)).procs == s.procs[p := Serving(subnet, subnet)];
  }

  lemma ReportedUnchanged(s: State, p: Pid, phase: Phase, holder: Option<Pid>)
    requires PhaseOf(s, p) == Outside && !HasAddress(phase)
    ensures Reported(s.(holder := holder, procs := s.procs[p := phase])) == Reported(s)
  {
    var s' := s.(holder := holder, procs := s.procs[p := phase]);
    forall u
      ensures u in Reported(s') <==> u in Reported(s)
    {
      if u in Reported(s) && u !in s.others {
        var q :| q in s.procs && HasAddress(s.procs[q]) && s.procs[q].reported == u;
        assert q in s'.procs && s'.procs[q] == s.procs[q];
      }
    }
  }

  /** Two VMs can serve at once on a host without other private networks. */
  lemma TwoVMsCanServe() returns (events: seq<Event>, p: Pid, q: Pid)
    ensures Run(Initial({}), events).Some?
    ensures var s := Run(Initial({}), events).value;
            p != q && p in s.procs && q in s.procs && s.procs[p].Serving? && s.procs[q].Serving?
  {
    hide IsFirstFit;
    hide Available;
    p, q := 1, 2;
    var c, d := PRIVATE_ADDRESS_SPACE[1] + Repeat(false, 17), PRIVATE_ADDRESS_SPACE[2] + Repeat(false, 13);
    PrivateIsAvailable(1, c);
    PrivateIsAvailable(2, d);
    assert c[1] != d[1];
    assert Reported(Initial({})) == {};
    var a, first := OneMoreVM(Initial({}), [], p, true, c);
    var s := Run(Initial({}), first).value;
    assert Reported(s) == {a} by {
      assert p in s.procs && HasAddress(s.procs[p]) && s.procs[p].reported == a;
    }
    FirstFitLength({}, a);
    var other := if a == c then d else c;
    assert {} + {a} == {a} && !Comparable(a, other);
    StillAvailable(a, other);
    var b;
    b, events := OneMoreVM(Initial({}), first, q, false, other);
  }

  lemma StillAvailable(a: Prefix, other: Prefix)
    requires Available({}, other) && |a| <= WIDTH && !Comparable(a, other)
    ensures Available({a}, other)
  {
    var none: set<Prefix> := {};
    assert none + {a} == {a};
    FreeAfterUse(WIDTH, PRIVATE_BLOCKS, none, a, other);
  }

  /** How a process can end: with its hypervisor, taking everything along, or without, leaving its VM as it is. */
  lemma HowProcessesEnd(s: State, p: Pid)
    requires Inv(s) && p in s.procs && !s.procs[p].Outside?
    ensures !s.procs[p].Orphaned? ==>
              && Enabled(s, Exit(p))
              && Step(s, Exit(p)).holder != Some(p) && Step(s, Exit(p)).procs == s.procs - {p}
    ensures s.procs[p].Serving? ==>
              && Enabled(s, Kill(p))
              && var s' := Step(s, Kill(p));
                 && s'.holder == s.holder && Reported(s') == Reported(s)
                 && s'.procs == s.procs[p := Orphaned(s.procs[p].subnet, s.procs[p].reported)]
                 && Enabled(s', HypervisorEnds(p)) && Step(s', HypervisorEnds(p)).procs == s.procs - {p}
  {
    if s.procs[p].Serving? {
      var s' := Step(s, Kill(p));
      forall u
        ensures u in Reported(s') <==> u in Reported(s)
      {
        if u in Reported(s) && u !in s.others {
          var q :| q in s.procs && HasAddress(s.procs[q]) && s.procs[q].reported == u;
          assert q in s'.procs && HasAddress(s'.procs[q]) && s'.procs[q].reported == u;
        }
      }
    }
  }
}
