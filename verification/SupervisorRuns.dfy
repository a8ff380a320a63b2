/** Ports and workers over any run of requests, restarts of the process included. */
module SupervisorRuns {
  import opened CStrings
  import opened Supervisor

  /** A restart keeps the ODB and forgets the workers. */
  datatype Event = StartFrontend(host: string) | GiveMePort(host: string) | Restart

  /** A host is told a port, or a worker binds one for it. */
  datatype Answer = Told(host: string, port: nat) | Bound(id: nat, host: string, port: nat)

  function Step(s: State, e: Event, fPort: nat): State
  {
    match e
    case Restart => s.(running := [], alive := true)
    case StartFrontend(host) => if s.alive then Start(s, host, fPort) else s
    case GiveMePort(host) => if s.alive then Registered(s, host, fPort) else s
  }

  function AnswerTo(s: State, e: Event, fPort: nat): Option<Answer>
  {
    match e
    case Restart => None
    case StartFrontend(host) =>
      var id := IndexOf(s.hosts, host);
      if s.alive && id !in s.running then Some(Bound(id, host, PortOf(s, host, fPort))) else None
    case GiveMePort(host) => if s.alive then Some(Told(host, PortOf(s, host, fPort))) else None
  }

  function After(s: State, events: seq<Event>, fPort: nat): State
  {
    if events == [] then s else Step(After(s, events[..|events| - 1], fPort), events[|events| - 1], fPort)
  }

  function Answers(s: State, events: seq<Event>, fPort: nat): seq<Answer>
  {
    if events == [] then []
    else
      var n := |events| - 1;
      match AnswerTo(After(s, events[..n], fPort), events[n], fPort)
      case None => Answers(s, events[..n], fPort)
      case Some(a) => Answers(s, events[..n], fPort) + [a]
  }

  // ---------- the invariant ----------

  ghost predicate Distinct<T>(s: seq<T>)
  {
    forall i, j | 0 <= i < j < |s| :: s[i] != s[j]
  }

  /** Hosts are listed once, local_host first. Each has a port, given by its place; only the place of
      local_host may have been filled with zero. */
  ghost predicate Good(s: State, fPort: nat)
  {
    && |s.hosts| > 0 && s.hosts[0] == LOCAL_HOST && Distinct(s.hosts)
    && (|s.ports| == |s.hosts| || (|s.ports| == 0 && |s.hosts| == 1))
    && (|s.ports| > 0 ==> s.ports[0] == 0 || s.ports[0] == U16Of(fPort + 1))
    && (forall i | 0 < i < |s.ports| :: s.ports[i] == U16Of(fPort + i + 1))
    && Distinct(s.running) && forall i | 0 <= i < |s.running| :: s.running[i] < |s.ports|
  }

  lemma RegisteredGood(s: State, host: string, fPort: nat)
    requires Good(s, fPort)
    ensures var r := Registered(s, host, fPort);
            && Good(r, fPort) && |r.ports| == |r.hosts| && s.hosts <= r.hosts && s.ports <= r.ports
            && r.hosts[IndexOf(s.hosts, host)] == host && r.running == s.running && r.alive == s.alive
  {
  }

  lemma StepGood(s: State, e: Event, fPort: nat)
    requires Good(s, fPort)
    ensures var r := Step(s, e, fPort); Good(r, fPort) && s.hosts <= r.hosts && s.ports <= r.ports
  {
    hide Registered;
    match e
    case Restart =>
    case StartFrontend(host) => RegisteredGood(s, host, fPort);
    case GiveMePort(host) => RegisteredGood(s, host, fPort);
  }

  /** A host keeps its place, and so its worker number and its port. */
  lemma {:induction false} HostsAndPortsAreKept(s: State, events: seq<Event>, fPort: nat)
    requires Good(s, fPort)
    ensures var r := After(s, events, fPort); Good(r, fPort) && s.hosts <= r.hosts && s.ports <= r.ports
  {
    hide Step, Good;
    if events != [] {
      HostsAndPortsAreKept(s, events[..|events| - 1], fPort);
      StepGood(After(s, events[..|events| - 1], fPort), events[|events| - 1], fPort);
    }
  }

  // ---------- answers ----------

  /** The port is the one listed for that host. */
  ghost predicate Listed(s: State, a: Answer)
  {
    exists i :: 0 <= i < |s.hosts| && i < |s.ports| && s.hosts[i] == a.host && s.ports[i] == a.port &&
                (a.Bound? ==> a.id == i)
  }

  lemma AnswerListed(s: State, e: Event, fPort: nat)
    requires Good(s, fPort) && AnswerTo(s, e, fPort) != None
    ensures Listed(Step(s, e, fPort), AnswerTo(s, e, fPort).value)
  {
    RegisteredGood(s, e.host, fPort);
    var r, i := Step(s, e, fPort), IndexOf(s.hosts, e.host);
    assert r.hosts[i] == e.host && r.ports[i] == AnswerTo(s, e, fPort).value.port;
  }

  lemma StillListed(s: State, r: State, a: Answer)
    requires s.hosts <= r.hosts && s.ports <= r.ports && Listed(s, a)
    ensures Listed(r, a)
  {
    var i :| 0 <= i < |s.hosts| && i < |s.ports| && s.hosts[i] == a.host && s.ports[i] == a.port &&
             (a.Bound? ==> a.id == i);
    assert r.hosts[i] == a.host && r.ports[i] == a.port;
  }

  lemma {:induction false} AnswersListed(s: State, events: seq<Event>, fPort: nat, k: nat)
    requires Good(s, fPort) && k < |Answers(s, events, fPort)|
    ensures Listed(After(s, events, fPort), Answers(s, events, fPort)[k])
  {
    hide Step, AnswerTo, Good, Listed;
    var n := |events| - 1;
    var before := After(s, events[..n], fPort);
    HostsAndPortsAreKept(s, events[..n], fPort);
    StepGood(before, events[n], fPort);
    if k < |Answers(s, events[..n], fPort)| {
      AnswersListed(s, events[..n], fPort, k);
      StillListed(before, After(s, events, fPort), Answers(s, events, fPort)[k]);
    } else {
      AnswerListed(before, events[n], fPort);
    }
  }

  lemma ListedOnce(s: State, a: Answer, b: Answer, fPort: nat)
    requires Good(s, fPort) && Listed(s, a) && Listed(s, b) && a.host == b.host
    ensures a.port == b.port && (a.Bound? && b.Bound? ==> a.id == b.id)
  {
  }

  /** The port a client is told is the port its worker binds, and neither ever changes. */
  lemma OnePortPerHost(events: seq<Event>, fPort: nat, i: nat, j: nat)
    requires i < |Answers(FRESH, events, fPort)| && j < |Answers(FRESH, events, fPort)|
    ensures var a, b := Answers(FRESH, events, fPort)[i], Answers(FRESH, events, fPort)[j];
            a.host == b.host ==> a.port == b.port && (a.Bound? && b.Bound? ==> a.id == b.id)
  {
    hide Answers, After, Listed;
    HostsAndPortsAreKept(FRESH, events, fPort);
    AnswersListed(FRESH, events, fPort, i);
    AnswersListed(FRESH, events, fPort, j);
    var a, b := Answers(FRESH, events, fPort)[i], Answers(FRESH, events, fPort)[j];
    if a.host == b.host {
      ListedOnce(After(FRESH, events, fPort), a, b, fPort);
    }
  }

  // ---------- different hosts ----------

  lemma SameU16Iff(a: nat, b: nat)
    requires a <= b
    ensures U16Of(a) == U16Of(b) <==> (b - a) % PORTS == 0
  {
    assert a == PORTS * (a / PORTS) + a % PORTS && b == PORTS * (b / PORTS) + b % PORTS;
    if a % PORTS == b % PORTS {
      assert b - a == PORTS * (b / PORTS - a / PORTS);
    }
    if (b - a) % PORTS == 0 {
      assert b == a + PORTS * ((b - a) / PORTS);
    }
  }

  /** All hosts but local_host have ports of their own exactly as long as there are ports to give out. */
  lemma PortsDistinctIff(s: State, fPort: nat)
    requires Good(s, fPort)
    ensures Distinct(if |s.ports| == 0 then [] else s.ports[1..]) <==> |s.ports| <= PORTS + 1
  {
    if |s.ports| > 0 {
      var rest := s.ports[1..];
      if |s.ports| <= PORTS + 1 {
        forall i, j | 0 <= i < j < |rest| ensures rest[i] != rest[j] {
          SameU16Iff(fPort + i + 2, fPort + j + 2);
        }
      } else {
        SameU16Iff(fPort + 2, fPort + PORTS + 2);
        assert rest[0] == rest[PORTS];
      }
    }
  }

  /** Two hosts never share a port, as long as no more than 65536 of them have registered. */
  lemma DifferentHostsDifferentPorts(events: seq<Event>, fPort: nat, i: nat, j: nat)
    requires i < |Answers(FRESH, events, fPort)| && j < |Answers(FRESH, events, fPort)|
    requires |After(FRESH, events, fPort).hosts| <= PORTS + 1
    ensures var a, b := Answers(FRESH, events, fPort)[i], Answers(FRESH, events, fPort)[j];
            a.host != b.host && a.host != LOCAL_HOST && b.host != LOCAL_HOST ==> a.port != b.port
  {
    hide Answers, After, Listed;
    HostsAndPortsAreKept(FRESH, events, fPort);
    AnswersListed(FRESH, events, fPort, i);
    AnswersListed(FRESH, events, fPort, j);
    var a, b := Answers(FRESH, events, fPort)[i], Answers(FRESH, events, fPort)[j];
    if a.host != b.host && a.host != LOCAL_HOST && b.host != LOCAL_HOST {
      ListedApart(After(FRESH, events, fPort), a, b, fPort);
    }
  }

  lemma ListedApart(s: State, a: Answer, b: Answer, fPort: nat)
    requires Good(s, fPort) && Listed(s, a) && Listed(s, b) && a.host != b.host
    requires a.host != LOCAL_HOST && b.host != LOCAL_HOST && |s.hosts| <= PORTS + 1
    ensures a.port != b.port
  {
    var i :| 0 <= i < |s.hosts| && i < |s.ports| && s.hosts[i] == a.host && s.ports[i] == a.port &&
             (a.Bound? ==> a.id == i);
    var j :| 0 <= j < |s.hosts| && j < |s.ports| && s.hosts[j] == b.host && s.ports[j] == b.port &&
             (b.Bound? ==> b.id == j);
    PortsDistinctIff(s, fPort);
    assert s.ports[1..][i - 1] == s.ports[i] && s.ports[1..][j - 1] == s.ports[j];
  }

  // ---------- workers ----------

  /** The workers started, in order. */
  function Started(answers: seq<Answer>): seq<nat>
  {
    if answers == [] then []
    else
      var n := |answers| - 1;
      if answers[n].Bound? then Started(answers[..n]) + [answers[n].id] else Started(answers[..n])
  }

  lemma {:induction false} StartedAreRunning(s: State, events: seq<Event>, fPort: nat)
    requires Restart !in events
    ensures After(s, events, fPort).running == s.running + Started(Answers(s, events, fPort))
  {
    hide Step, AnswerTo;
    if events != [] {
      var n := |events| - 1;
      var before, answers := After(s, events[..n], fPort), Answers(s, events[..n], fPort);
      StartedAreRunning(s, events[..n], fPort);
      RunningStep(before, events[n], fPort);
      match AnswerTo(before, events[n], fPort)
      case None =>
      case Some(a) =>
        StartedLast(answers, a);
        if a.Bound? {
          AppendLast(s.running, Started(answers), a.id);
        }
    }
  }

  lemma AppendLast(xs: seq<nat>, ys: seq<nat>, y: nat)
    ensures xs + ys + [y] == xs + (ys + [y])
  {
  }

  lemma StartedLast(answers: seq<Answer>, a: Answer)
    ensures Started(answers + [a]) == if a.Bound? then Started(answers) + [a.id] else Started(answers)
  {
    assert (answers + [a])[..|answers|] == answers;
  }

  lemma RunningStep(s: State, e: Event, fPort: nat)
    requires e != Restart
    ensures Step(s, e, fPort).running ==
            match AnswerTo(s, e, fPort)
            case Some(Bound(id, _, _)) => s.running + [id]
            case _ => s.running
  {
  }

  /** Between restarts no worker is started twice, whatever happened before. */
  lemma NoWorkerStartedTwice(earlier: seq<Event>, events: seq<Event>, fPort: nat)
    requires Restart !in events
    ensures var s := After(FRESH, earlier, fPort);
            Distinct(s.running + Started(Answers(s, events, fPort)))
  {
    var s := After(FRESH, earlier, fPort);
    HostsAndPortsAreKept(FRESH, earlier, fPort);
    HostsAndPortsAreKept(s, events, fPort);
    StartedAreRunning(s, events, fPort);
  }

  // ---------- local_host ----------

  /** The first host to ask. */
  function FirstHost(events: seq<Event>): Option<string>
  {
    if events == [] then None
    else
      var n := |events| - 1;
      var earlier := FirstHost(events[..n]);
      if earlier != None || events[n].Restart? then earlier else Some(events[n].host)
  }

  /** The place of local_host is listed from the start, its port is not: if any other host asks first,
      the gap is filled and the port of local_host is zero for good. */
  lemma {:induction false} LocalHostPortIff(events: seq<Event>, fPort: nat)
    ensures var s := After(FRESH, events, fPort);
            match FirstHost(events)
            case None => s == FRESH
            case Some(first) =>
              |s.ports| > 0 && s.ports[0] == if first == LOCAL_HOST then U16Of(fPort + 1) else 0
  {
    if events != [] {
      var n := |events| - 1;
      LocalHostPortIff(events[..n], fPort);
      HostsAndPortsAreKept(FRESH, events[..n], fPort);
      StepGood(After(FRESH, events[..n], fPort), events[n], fPort);
      if FirstHost(events[..n]) == None && !events[n].Restart? {
        FirstRegistered(events[n].host, fPort);
      }
    }
  }

  lemma FirstRegistered(host: string, fPort: nat)
    ensures var r := Registered(FRESH, host, fPort);
            |r.ports| > 0 && r.ports[0] == if host == LOCAL_HOST then U16Of(fPort + 1) else 0
  {
    assert IndexOf(FRESH.hosts, host) == if host == LOCAL_HOST then 0 else 1;
  }

  /** From then on a request to start a worker for local_host stops the process. */
  lemma LocalHostStopsTheSupervisor(events: seq<Event>, fPort: nat)
    requires FirstHost(events) != None && FirstHost(events) != Some(LOCAL_HOST)
    requires After(FRESH, events, fPort).alive && 0 !in After(FRESH, events, fPort).running
    ensures !After(FRESH, events + [StartFrontend(LOCAL_HOST)], fPort).alive
  {
    hide FirstHost;
    LocalHostPortIff(events, fPort);
    HostsAndPortsAreKept(FRESH, events, fPort);
    assert (events + [StartFrontend(LOCAL_HOST)])[..|events|] == events;
  }

  // ---------- which port ----------

  /** `port` is what 16 bits keep of `n`. */
  ghost predicate In16Bits(port: int, n: int)
  {
    0 <= port < 65536 && exists q: int :: n == port + 65536 * q
  }

  lemma U16OfIs(n: nat)
    ensures In16Bits(U16Of(n), n) && (n < 65536 ==> U16Of(n) == n)
  {
    assert n == U16Of(n) + 65536 * (n / 65536);
  }

  /** Over every run, whatever a host other than local_host is told and whatever its worker binds is the port of the
      supervisor plus the place of the host plus one, in 16 bits. */
  lemma PortByPlace(events: seq<Event>, fPort: nat, k: nat) returns (i: nat)
    requires k < |Answers(FRESH, events, fPort)| && Answers(FRESH, events, fPort)[k].host != "local_host"
    ensures var a, hosts := Answers(FRESH, events, fPort)[k], After(FRESH, events, fPort).hosts;
            && 0 < i < |hosts| && hosts[i] == a.host && (a.Bound? ==> a.id == i)
            && In16Bits(a.port, fPort + i + 1) && (fPort + i + 1 < 65536 ==> a.port == fPort + i + 1)
  {
    hide Answers, After, U16Of;
    HostsAndPortsAreKept(FRESH, events, fPort);
    AnswersListed(FRESH, events, fPort, k);
    var s, a := After(FRESH, events, fPort), Answers(FRESH, events, fPort)[k];
    i :| 0 <= i < |s.hosts| && i < |s.ports| && s.hosts[i] == a.host && s.ports[i] == a.port && (a.Bound? ==> a.id == i);
    U16OfIs(fPort + i + 1);
  }

  /** And the same for local_host, at place zero, when it is the first to ask. */
  lemma PortOfLocalHost(events: seq<Event>, fPort: nat, k: nat)
    requires k < |Answers(FRESH, events, fPort)| && Answers(FRESH, events, fPort)[k].host == "local_host"
    requires FirstHost(events) == Some("local_host")
    ensures var a := Answers(FRESH, events, fPort)[k];
            && (a.Bound? ==> a.id == 0)
            && In16Bits(a.port, fPort + 1) && (fPort + 1 < 65536 ==> a.port == fPort + 1)
  {
    hide Answers, After, U16Of, FirstHost;
    HostsAndPortsAreKept(FRESH, events, fPort);
    AnswersListed(FRESH, events, fPort, k);
    LocalHostPortIff(events, fPort);
    U16OfIs(fPort + 1);
  }

  // ---------- which place ----------

  /** The hosts heard while the process was alive, in the order in which they first asked. */
  function FirstAsked(events: seq<Event>, fPort: nat): seq<string>
  {
    if events == [] then ["local_host"]
    else
      var n := |events| - 1;
      var earlier := FirstAsked(events[..n], fPort);
      if events[n].Restart? || !After(FRESH, events[..n], fPort).alive || events[n].host in earlier then earlier
      else earlier + [events[n].host]
  }

  /** Behind local_host, the hosts have their places in the order in which they first asked. */
  lemma {:induction false} PlacesByFirstAsked(events: seq<Event>, fPort: nat)
    ensures After(FRESH, events, fPort).hosts == FirstAsked(events, fPort)
  {
    if events != [] {
      var n := |events| - 1;
      PlacesByFirstAsked(events[..n], fPort);
      if !events[n].Restart? {
        HostIsAdded(After(FRESH, events[..n], fPort).hosts, events[n].host);
      }
    }
  }

  lemma HostIsAdded(hosts: seq<string>, host: string)
    ensures WithHost(hosts, host) == if host in hosts then hosts else hosts + [host]
  {
  }

  /** A host that asks is told, and one whose worker is not running gets it started. */
  lemma AskedIsAnswered(events: seq<Event>, host: string, fPort: nat)
    requires After(FRESH, events, fPort).alive
    ensures var s := After(FRESH, events, fPort);
            && (exists port :: Answers(FRESH, events + [GiveMePort(host)], fPort) ==
                                 Answers(FRESH, events, fPort) + [Told(host, port)])
            && (IndexOf(s.hosts, host) !in s.running ==>
                  exists port :: Answers(FRESH, events + [StartFrontend(host)], fPort) ==
                                   Answers(FRESH, events, fPort) + [Bound(IndexOf(s.hosts, host), host, port)])
  {
    var s, port := After(FRESH, events, fPort), PortOf(After(FRESH, events, fPort), host, fPort);
    assert (events + [GiveMePort(host)])[..|events|] == events;
    assert (events + [StartFrontend(host)])[..|events|] == events;
    assert Answers(FRESH, events + [GiveMePort(host)], fPort) == Answers(FRESH, events, fPort) + [Told(host, port)];
    assert AnswerTo(s, StartFrontend(host), fPort) ==
           if IndexOf(s.hosts, host) !in s.running then Some(Bound(IndexOf(s.hosts, host), host, port)) else None;
  }

  lemma FirstPort()
    ensures Answers(FRESH, [GiveMePort("pc1")], 12345) == [Told("pc1", 12347)]
  {
    var events := [GiveMePort("pc1")];
    assert events[..0] == [];
    assert IndexOf(FRESH.hosts, "pc1") == 1;
    assert AnswerTo(FRESH, events[0], 12345) == Some(Told("pc1", 12347));
  }

  // ---------- the ports no worker can use ----------

  /** The place is given port zero: its number wraps around to it, or it is that of local_host, left behind. */
  predicate ZeroPlace(events: seq<Event>, fPort: nat, id: nat)
  {
    (fPort + id + 1) % PORTS == 0 || (id == 0 && FirstHost(events) != Some(LOCAL_HOST))
  }

  lemma PortIsZeroIff(events: seq<Event>, fPort: nat, id: nat)
    requires id < |After(FRESH, events, fPort).ports|
    ensures After(FRESH, events, fPort).ports[id] == 0 <==> ZeroPlace(events, fPort, id)
  {
    hide After, FirstHost;
    LocalHostPortIff(events, fPort);
    HostsAndPortsAreKept(FRESH, events, fPort);
  }

  ghost predicate AliveUntilZero(s: State)
  {
    && (forall id | id in s.running :: id < |s.ports|)
    && (s.alive <==> forall id | id in s.running :: s.ports[id] != 0)
  }

  lemma AliveStep(s: State, e: Event, fPort: nat)
    requires Good(s, fPort) && AliveUntilZero(s)
    ensures AliveUntilZero(Step(s, e, fPort))
  {
    hide Registered;
    match e
    case Restart =>
    case GiveMePort(host) => RegisteredGood(s, host, fPort);
    case StartFrontend(host) =>
      RegisteredGood(s, host, fPort);
      var id := IndexOf(s.hosts, host);
      assert forall k | k in s.running + [id] :: k in s.running || k == id;
      assert id in s.running + [id] && forall k | k in s.running :: k in s.running + [id];
  }

  lemma {:induction false} AliveRun(events: seq<Event>, fPort: nat)
    ensures AliveUntilZero(After(FRESH, events, fPort))
  {
    hide Step, AliveUntilZero, Good;
    FreshIsAlive(fPort);
    if events != [] {
      var n := |events| - 1;
      AliveRun(events[..n], fPort);
      HostsAndPortsAreKept(FRESH, events[..n], fPort);
      AliveStep(After(FRESH, events[..n], fPort), events[n], fPort);
    }
  }

  lemma FreshIsAlive(fPort: nat)
    ensures AliveUntilZero(FRESH) && Good(FRESH, fPort)
  {
  }

  /** Over every run the process has stopped exactly when a worker started since the last restart has such a
      place. */
  lemma StoppedIff(events: seq<Event>, fPort: nat)
    ensures var s := After(FRESH, events, fPort);
            !s.alive <==> exists id :: id in s.running && ZeroPlace(events, fPort, id)
  {
    hide After, ZeroPlace;
    var s := After(FRESH, events, fPort);
    AliveRun(events, fPort);
    forall id | id in s.running ensures s.ports[id] == 0 <==> ZeroPlace(events, fPort, id) {
      PortIsZeroIff(events, fPort, id);
    }
  }

  /** And the place of a host is given the port of the supervisor itself exactly when it is one short of a
      multiple of 65536. */
  lemma SupervisorsPortIff(s: State, fPort: nat, id: nat)
    requires Good(s, fPort) && 0 < id < |s.ports|
    ensures s.ports[id] == U16Of(fPort) <==> (id + 1) % PORTS == 0
  {
    SameU16Iff(fPort, fPort + id + 1);
  }
}
