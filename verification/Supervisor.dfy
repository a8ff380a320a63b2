/** src/feGEMSupervisor.cxx, include/feGEMSupervisor.h: which worker a host gets, and on which port. */
module Supervisor {

  // ---------- the steps as functions ----------

  const LOCAL_HOST := "local_host"
  const PORTS: nat := 0x1_0000

  function U16Of(n: nat): nat
  {
    n % PORTS
  }

  function IndexOf(hosts: seq<string>, host: string): (i: nat)
    ensures i <= |hosts| && (i < |hosts| ==> hosts[i] == host)
    ensures forall k | 0 <= k < i :: hosts[k] != host
  {
    if hosts == [] || hosts[0] == host then 0 else 1 + IndexOf(hosts[1..], host)
  }

  lemma IndexOfIs(hosts: seq<string>, host: string, i: nat)
    requires i <= |hosts| && (i < |hosts| ==> hosts[i] == host)
    requires forall k | 0 <= k < i :: hosts[k] != host
    ensures IndexOf(hosts, host) == i
  {
  }

  function WithHost(hosts: seq<string>, host: string): seq<string>
  {
    if IndexOf(hosts, host) < |hosts| then hosts else hosts + [host]
  }

  /** Writing beyond the end of the ODB array fills the gap with zeros. */
  function WithPort(ports: seq<nat>, id: nat, fPort: nat): (r: seq<nat>)
    ensures id < |r| && ports <= r
  {
    if id < |ports| then ports
    else ports + seq(id - |ports|, _ => 0) + [U16Of(fPort + id + 1)]
  }

  /** A worker that has been started: the host it is for and the port it binds. */
  datatype Worker = Worker(id: nat, host: string, port: nat)

  /** The ODB arrays, and what the process holds. It stops when a worker is given port zero. */
  datatype State = State(
    hosts: seq<string>,
    ports: seq<nat>,
    running: seq<nat>,
    alive: bool)

  const FRESH := State([LOCAL_HOST], [], [], true)

  function Registered(s: State, host: string, fPort: nat): (r: State)
    ensures IndexOf(s.hosts, host) < |r.hosts| && IndexOf(s.hosts, host) < |r.ports|
  {
    var id := IndexOf(s.hosts, host);
    s.(hosts := WithHost(s.hosts, host), ports := WithPort(s.ports, id, fPort))
  }

  /** The port a host is told, or its worker binds. */
  function PortOf(s: State, host: string, fPort: nat): nat
  {
    Registered(s, host, fPort).ports[IndexOf(s.hosts, host)]
  }

  function Start(s: State, host: string, fPort: nat): State
  {
    var r, id := Registered(s, host, fPort), IndexOf(s.hosts, host);
    if id in s.running then r
    else r.(running := s.running + [id], alive := PortOf(s, host, fPort) > 0)
  }

  // ---------- the class ----------

  class feGEMSupervisor {
    const fPort: nat
    var HostName: seq<string>        // the two ODB arrays
    var Port: seq<nat>
    var RunningWorkers: seq<nat>
    var alive: bool
    var bound: seq<Worker>           // the sockets of the workers, in order

    constructor (fPort: nat, hosts: seq<string>, ports: seq<nat>)
      ensures this.fPort == fPort && Value() == State(hosts, ports, [], true) && bound == []
    {
      this.fPort := fPort;
      HostName, Port, RunningWorkers, alive, bound := hosts, ports, [], true, [];
    }

    ghost function Value(): State
      reads this
    {
      State(HostName, Port, RunningWorkers, alive)
    }

    method FindHostInWorkerList(hostname: string) returns (id: nat)
      modifies this`HostName
      ensures id == IndexOf(old(HostName), hostname) && HostName == WithHost(old(HostName), hostname)
    {
      for i := 0 to |HostName|
        invariant forall k | 0 <= k < i :: HostName[k] != hostname
      {
        if HostName[i] == hostname {
          IndexOfIs(HostName, hostname, i);
          return i;
        }
      }
      IndexOfIs(HostName, hostname, |HostName|);
      id := |HostName|;
      HostName := HostName + [hostname];
    }

    method AssignPortForWorker(workerID: nat) returns (port: nat)
      modifies this`Port
      ensures Port == WithPort(old(Port), workerID, fPort) && port == Port[workerID]
    {
      if workerID >= |Port| {
        port := U16Of(fPort + workerID + 1);
        while |Port| < workerID
          invariant |Port| <= workerID && Port == old(Port) + seq(|Port| - |old(Port)|, _ => 0) && old(|Port|) <= |Port|
        {
          Port := Port + [0];
        }
        Port := Port + [port];
      } else {
        port := Port[workerID];
      }
    }

    method WorkerIsRunning(workerID: nat) returns (r: bool)
      ensures r == (workerID in RunningWorkers)
    {
      for i := 0 to |RunningWorkers|
        invariant workerID !in RunningWorkers[..i]
      {
        if RunningWorkers[i] == workerID {
          return true;
        }
      }
      return false;
    }

    method WorkerStarted(workerID: nat)
      modifies this`RunningWorkers
      ensures RunningWorkers == old(RunningWorkers) + [workerID]
    {
      RunningWorkers := RunningWorkers + [workerID];
    }

    /** START_FRONTEND. The worker asserts that its port is positive. */
    method AddNewClient(hostname: string) returns (status: string)
      requires alive
      modifies this
      ensures Value() == Start(old(Value()), hostname, fPort)
      ensures var id := IndexOf(old(HostName), hostname);
              if id in old(RunningWorkers) then bound == old(bound) && status == "Frontend already running"
              else bound == old(bound) + [Worker(id, hostname, PortOf(old(Value()), hostname, fPort))]
                   && status == "New Frontend started"
    {
      var WorkerNo := FindHostInWorkerList(hostname);
      var port := AssignPortForWorker(WorkerNo);
      var running := WorkerIsRunning(WorkerNo);
      if !running {
        WorkerStarted(WorkerNo);
        bound := bound + [Worker(WorkerNo, hostname, port)];
        alive := port > 0;
        return "New Frontend started";
      }
      return "Frontend already running";
    }

    /** GIVE_ME_PORT */
    method GiveMePort(hostname: string) returns (port: nat)
      requires alive
      modifies this`HostName, this`Port
      ensures Value() == Registered(old(Value()), hostname, fPort) && port == PortOf(old(Value()), hostname, fPort)
    {
      var WorkerNo := FindHostInWorkerList(hostname);
      port := AssignPortForWorker(WorkerNo);
    }

    method BuildFrontendName(hostname: string) returns (name: string)
      ensures name == FrontendName(hostname)
    {
      name := FRONTEND_PREFIX + hostname;
      if |name| > 31 - 4 {
        var tmp := name;
        name := "";
        for i := 0 to 31 - 4
          invariant name == tmp[..i]
        {
          name := name + [tmp[i]];
        }
      }
    }
  }

  // ---------- equipment names ----------

  const FRONTEND_PREFIX := "feGEM_"

  function FrontendName(host: string): (name: string)
    ensures |name| <= 27
  {
    var name := FRONTEND_PREFIX + host;
    if |name| > 27 then name[..27] else name
  }

  function Front(host: string): string
  {
    if |host| > 21 then host[..21] else host
  }

  /** Two hosts log to the same equipment exactly when their first 21 characters agree. */
  lemma SharedEquipmentIff(host: string, host': string)
    ensures FrontendName(host) == FrontendName(host') <==> Front(host) == Front(host')
  {
    FrontendNameIs(host);
    FrontendNameIs(host');
    assert FrontendName(host)[6..] == Front(host) && FrontendName(host')[6..] == Front(host');
  }

  /** The name is the prefix and the first 21 characters of the host. */
  lemma FrontendNameIs(host: string)
    ensures FrontendName(host) == "feGEM_" + (if |host| <= 21 then host else host[..21])
  {
    assert |FRONTEND_PREFIX| == 6;
    assert |host| > 21 ==> (FRONTEND_PREFIX + host)[..27] == FRONTEND_PREFIX + host[..21];
  }
}
