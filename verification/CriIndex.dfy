/** The index of a CRI shim: sandbox and container records in memory and as checkpoint files on disk,
the calls that change them, and restart with reconciliation against the live workloads. */
module CriIndex {
  import opened Wrappers

  const SANDBOX_READY := 0
  const SANDBOX_NOTREADY := 1
  const CONTAINER_CREATED := 0
  const CONTAINER_RUNNING := 1
  const CONTAINER_EXITED := 2
  const CONTAINER_UNKNOWN := 3
  const KILLED := 137

  datatype Dns = Dns(servers: seq<string>, searches: seq<string>, options: seq<string>)

  /** What a record says for good, and what calls change. */
  datatype SandboxIdentity = SandboxIdentity(id: string, pullrunId: string, namespace: string, name: string,
                                             createdAt: int, runtimeClass: string, bridgeName: string,
                                             hostNetwork: bool, dns: Option<Dns>)

  datatype Sandbox = Sandbox(fixed: SandboxIdentity, state: int, internalIp: string)

  datatype ContainerIdentity = ContainerIdentity(id: string, sandboxId: string, pullrunId: string, name: string,
                                                 image: string, imageRef: string, createdAt: int)

  datatype Container = Container(fixed: ContainerIdentity, startedAt: int, state: int, exitCode: int)

  /** The serialized form of a sandbox: the DNS lists are flattened. */
  datatype SandboxCheckpoint = SandboxCheckpoint(
    id: string, pullrunId: string, namespace: string, name: string, createdAt: int, state: int,
    internalIp: string, runtimeClass: string, bridgeName: string, hostNetwork: bool,
    dnsServers: seq<string>, dnsSearches: seq<string>, dnsOptions: seq<string>)

  /** A checkpoint file, named after a record; it may fail to parse.  A container checkpoint has the
      fields of the container record. */
  datatype File<C> = Valid(checkpoint: C) | Invalid

  /** Both stores: the records in memory and the files on disk. */
  datatype Index = Index(sandboxes: map<string, Sandbox>, containers: map<string, Container>,
                         sandboxFiles: map<string, File<SandboxCheckpoint>>,
                         containerFiles: map<string, File<Container>>)

  function SaveSandbox(r: Sandbox): SandboxCheckpoint {
    var f := r.fixed;
    var dns := if f.dns.Some? then f.dns.value else Dns([], [], []);
    SandboxCheckpoint(f.id, f.pullrunId, f.namespace, f.name, f.createdAt, r.state, r.internalIp,
                      f.runtimeClass, f.bridgeName, f.hostNetwork, dns.servers, dns.searches, dns.options)
  }

  function LoadSandbox(c: SandboxCheckpoint): Sandbox {
    var dns := Some(Dns(c.dnsServers, c.dnsSearches, c.dnsOptions));
    Sandbox(SandboxIdentity(c.id, c.pullrunId, c.namespace, c.name, c.createdAt, c.runtimeClass,
                            c.bridgeName, c.hostNetwork, dns),
            c.state, c.internalIp)
  }

  /** Loading a checkpoint gives back the record it was written from, a missing DNS section becoming
      an empty one. */
  lemma CheckpointRoundTrip(r: Sandbox)
    ensures LoadSandbox(SaveSandbox(r)) ==
            r.(fixed := r.fixed.(dns := if r.fixed.dns.Some? then r.fixed.dns else Some(Dns([], [], []))))
  {
  }

  /** A container that was stopped or found dead; an exit code of zero becomes 137. */
  function Killed(c: Container): Container {
    c.(state := CONTAINER_EXITED, exitCode := if c.exitCode == 0 then KILLED else c.exitCode)
  }

  function PutSandbox(x: Index, r: Sandbox): Index {
    x.(sandboxes := x.sandboxes[r.fixed.id := r], sandboxFiles := x.sandboxFiles[r.fixed.id := Valid(SaveSandbox(r))])
  }

  function PutContainer(x: Index, r: Container): Index {
    x.(containers := x.containers[r.fixed.id := r], containerFiles := x.containerFiles[r.fixed.id := Valid(r)])
  }

  function RemoveContainer(x: Index, id: string): Index {
    x.(containers := x.containers - {id}, containerFiles := x.containerFiles - {id})
  }

  function ContainersOf(containers: map<string, Container>, sandboxId: string): set<string> {
    set c | c in containers && containers[c].fixed.sandboxId == sandboxId
  }

  /** Removes a sandbox and, with it, its containers. */
  function RemoveSandbox(x: Index, id: string): Index {
    var gone := ContainersOf(x.containers, id);
    Index(x.sandboxes - {id}, x.containers - gone, x.sandboxFiles - {id}, x.containerFiles - gone)
  }

  ghost predicate ExitCodeOk(r: Container) {
    r.state == CONTAINER_EXITED ==> r.exitCode != 0
  }

  /** r holds the same records as m up to changeable fields, and sound exit codes where m does. */
  ghost predicate SameContainers(m: map<string, Container>, r: map<string, Container>) {
    && r.Keys == m.Keys
    && forall k :: k in m ==> r[k].fixed == m[k].fixed && (ExitCodeOk(m[k]) ==> ExitCodeOk(r[k]))
  }

  ghost predicate SameSandboxes(m: map<string, Sandbox>, r: map<string, Sandbox>) {
    r.Keys == m.Keys && forall k :: k in m ==> r[k].fixed == m[k].fixed
  }

  function KillAll(containers: map<string, Container>, ids: set<string>): (r: map<string, Container>)
    ensures SameContainers(containers, r)
  {
    map c | c in containers :: if c in ids then Killed(containers[c]) else containers[c]
  }

  /** What loading one directory of checkpoints yields; file k is expected to hold record k. */
  ghost function LoadedSandboxes(files: map<string, File<SandboxCheckpoint>>): map<string, Sandbox> {
    map k | k in files && files[k].Valid? :: LoadSandbox(files[k].checkpoint)
  }

  ghost function LoadedContainers(files: map<string, File<Container>>): map<string, Container> {
    map k | k in files && files[k].Valid? :: files[k].checkpoint
  }

  /** A workload as the runtime lists it. */
  datatype Workload = Workload(id: string, state: string)

  predicate IsLiveState(state: string) {
    state in {"running", "created", "scheduled"}
  }

  function Alive(listing: seq<Workload>): set<string> {
    set w | w in listing && IsLiveState(w.state) :: w.id
  }

  function ReconciledSandbox(r: Sandbox, alive: set<string>): Sandbox {
    if r.fixed.pullrunId in alive then r else r.(state := SANDBOX_NOTREADY, internalIp := "")
  }

  function ReconciledContainer(r: Container, alive: set<string>): Container {
    if r.fixed.pullrunId in alive then r else Killed(r)
  }

  ghost function ReconciledSandboxes(m: map<string, Sandbox>, alive: set<string>): (r: map<string, Sandbox>)
    ensures SameSandboxes(m, r)
  {
    map k | k in m :: ReconciledSandbox(m[k], alive)
  }

  ghost function ReconciledContainers(m: map<string, Container>, alive: set<string>): (r: map<string, Container>)
    ensures SameContainers(m, r)
  {
    map k | k in m :: ReconciledContainer(m[k], alive)
  }

  ghost function Reconcile(x: Index, alive: set<string>): Index {
    x.(sandboxes := ReconciledSandboxes(x.sandboxes, alive), containers := ReconciledContainers(x.containers, alive))
  }

  /** A shim restart: memory is rebuilt from disk, then reconciled if the runtime answers. */
  ghost function Restart(x: Index, listing: Option<seq<Workload>>): Index {
    var y := x.(sandboxes := LoadedSandboxes(x.sandboxFiles), containers := LoadedContainers(x.containerFiles));
    if listing.None? then y else Reconcile(y, Alive(listing.value))
  }

  /** Interface names are limited to 15 characters. */
  function BridgeName(podId: string): (r: string)
    ensures 3 <= |r| <= 15 && r[..3] == "pr-"
  {
    "pr-" + if |podId| > 12 then podId[|podId| - 12..] else podId
  }

  /** The last twelve characters. */
  function Tail(s: string): string {
    if |s| <= 12 then s else s[|s| - 12..]
  }

  /** Pods share a bridge name if and only if their ids end alike. */
  lemma BridgeNamesAgreeIff(a: string, b: string)
    ensures BridgeName(a) == BridgeName(b) <==> Tail(a) == Tail(b)
  {
    assert BridgeName(a)[3..] == Tail(a) && BridgeName(b)[3..] == Tail(b);
    assert BridgeName(a) == "pr-" + Tail(a) && BridgeName(b) == "pr-" + Tail(b);
  }

  datatype PodRequest = PodRequest(uid: string, namespace: string, name: string, handler: string,
                                   hostNetwork: bool, bridged: bool, dns: Dns)

  datatype ContainerRequest = ContainerRequest(name: string, image: string)

  /** What the runtime answers: a workload it has started, and the state of one it runs. */
  datatype Started = Started(id: string, ip: string)

  datatype Live = Live(state: string, ip: string)

  /** A call of the shim's interface.  What the runtime answers, the clock and the generated
      container id are arguments; a missing answer is an error. */
  datatype Call =
    | RunPodSandbox(pod: Option<PodRequest>, image: Option<string>, run: Option<Started>, now: int)
    | StopPodSandbox(id: string, stopped: bool)
    | RemovePodSandbox(id: string)
    | PodSandboxStatus(id: string, live: Option<Live>)
    | CreateContainer(podId: string, req: Option<ContainerRequest>, cid: string, digest: Option<string>,
                      run: Option<Started>, now: int)
    | StartContainer(cid: string, live: Option<Live>, now: int)
    | StopContainer(cid: string, stopped: bool)
    | RemoveContainerCall(cid: string)
    | RestartShim(listing: Option<seq<Workload>>)

  function NewSandbox(pod: PodRequest, run: Started, now: int): Sandbox {
    Sandbox(SandboxIdentity(pod.uid, run.id, pod.namespace, pod.name, now, pod.handler,
                            if pod.bridged then BridgeName(pod.uid) else "", pod.hostNetwork, Some(pod.dns)),
            SANDBOX_READY, run.ip)
  }

  function RunPod(x: Index, pod: Option<PodRequest>, image: Option<string>, run: Option<Started>, now: int): Index {
    if pod.None? || image.None? || run.None? then x else PutSandbox(x, NewSandbox(pod.value, run.value, now))
  }

  /** Containers are marked dead first; the sandbox only if its workload could be stopped. */
  function StopPod(x: Index, id: string, stopped: bool): Index {
    var y := x.(containers := KillAll(x.containers, ContainersOf(x.containers, id)));
    if !stopped || id !in y.sandboxes then y
    else y.(sandboxes := y.sandboxes[id := y.sandboxes[id].(state := SANDBOX_NOTREADY)])
  }

  function Status(x: Index, id: string, live: Option<Live>): Index {
    if id !in x.sandboxes then x
    else
      var state := if live.Some? && IsLiveState(live.value.state) then SANDBOX_READY else SANDBOX_NOTREADY;
      var ip := if live.Some? && live.value.ip != "" then live.value.ip else x.sandboxes[id].internalIp;
      x.(sandboxes := x.sandboxes[id := x.sandboxes[id].(state := state, internalIp := ip)])
  }

  function Create(x: Index, podId: string, req: Option<ContainerRequest>, cid: string, digest: Option<string>,
                  run: Option<Started>, now: int): Index {
    if podId == "" || req.None? || podId !in x.sandboxes || x.sandboxes[podId].state != SANDBOX_READY
       || digest.None? || run.None? then x
    else PutContainer(x, Container(ContainerIdentity(cid, podId, run.value.id, req.value.name, req.value.image,
                                                     digest.value, now),
                                   0, CONTAINER_CREATED, 0))
  }

  function Start(x: Index, cid: string, live: Option<Live>, now: int): Index {
    if cid !in x.containers || live.None? || !IsLiveState(live.value.state) then x
    else PutContainer(x, x.containers[cid].(state := CONTAINER_RUNNING, startedAt := now, exitCode := 0))
  }

  function Stop(x: Index, cid: string, stopped: bool): Index {
    if cid !in x.containers || x.containers[cid].state in {CONTAINER_EXITED, CONTAINER_UNKNOWN} || !stopped then x
    else PutContainer(x, Killed(x.containers[cid]))
  }

  /** The effect of a call on both stores. */
  ghost function Step(x: Index, call: Call): Index {
    match call
    case RunPodSandbox(pod, image, run, now) => RunPod(x, pod, image, run, now)
    case StopPodSandbox(id, stopped) => StopPod(x, id, stopped)
    case RemovePodSandbox(id) => RemoveSandbox(x, id)
    case PodSandboxStatus(id, live) => Status(x, id, live)
    case CreateContainer(podId, req, cid, digest, run, now) => Create(x, podId, req, cid, digest, run, now)
    case StartContainer(cid, live, now) => Start(x, cid, live, now)
    case StopContainer(cid, stopped) => Stop(x, cid, stopped)
    case RemoveContainerCall(cid) => RemoveContainer(x, cid)
    case RestartShim(listing) => Restart(x, listing)
  }

  ghost function Run(x: Index, calls: seq<Call>): Index {
    if calls == [] then x else Step(Run(x, calls[..|calls| - 1]), calls[|calls| - 1])
  }

  const Empty := Index(map[], map[], map[], map[])

  /** A sandbox record and its checkpoint file, both kept under the key k. */
  ghost predicate SandboxOk(k: string, r: Sandbox, f: File<SandboxCheckpoint>) {
    && r.fixed.id == k
    && f.Valid? && LoadSandbox(f.checkpoint).fixed == r.fixed
  }

  /** A container record and its checkpoint file, both kept under the key k. */
  ghost predicate ContainerOk(k: string, r: Container, f: File<Container>, sandboxes: set<string>) {
    && r.fixed.id == k
    && f.Valid? && f.checkpoint.fixed == r.fixed
    && r.fixed.sandboxId in sandboxes
    && ExitCodeOk(r) && ExitCodeOk(f.checkpoint)
  }

  /** The index invariant: the same records in memory and on disk, each under its own id, with equal
      identity; every container's sandbox is there; an exited container has a non-zero exit code. */
  ghost predicate Inv(x: Index) {
    && x.sandboxes.Keys == x.sandboxFiles.Keys
    && x.containers.Keys == x.containerFiles.Keys
    && (forall k :: k in x.sandboxes ==> SandboxOk(k, x.sandboxes[k], x.sandboxFiles[k]))
    && (forall k :: k in x.containers ==>
          ContainerOk(k, x.containers[k], x.containerFiles[k], x.sandboxes.Keys))
  }

  /** y differs from x at most in the changeable fields of records in memory. */
  ghost predicate MemoryOnly(x: Index, y: Index) {
    && y.sandboxFiles == x.sandboxFiles && y.containerFiles == x.containerFiles
    && SameSandboxes(x.sandboxes, y.sandboxes) && SameContainers(x.containers, y.containers)
  }

  lemma MemoryOnlyKeepsInv(x: Index, y: Index)
    requires Inv(x) && MemoryOnly(x, y)
    ensures Inv(y)
  {
    hide LoadSandbox;
    forall k | k in y.sandboxes ensures SandboxOk(k, y.sandboxes[k], y.sandboxFiles[k]) {
      assert SandboxOk(k, x.sandboxes[k], x.sandboxFiles[k]);
    }
    forall k | k in y.containers ensures ContainerOk(k, y.containers[k], y.containerFiles[k], y.sandboxes.Keys) {
      assert ContainerOk(k, x.containers[k], x.containerFiles[k], x.sandboxes.Keys);
      assert y.containers[k].fixed == x.containers[k].fixed;
    }
  }

  lemma PutSandboxKeepsInv(x: Index, r: Sandbox)
    requires Inv(x) && r.fixed.dns.Some?
    ensures Inv(PutSandbox(x, r))
  {
    assert SandboxOk(r.fixed.id, r, Valid(SaveSandbox(r)));
    hide LoadSandbox, SaveSandbox;
    var y := PutSandbox(x, r);
    forall k | k in y.containers ensures ContainerOk(k, y.containers[k], y.containerFiles[k], y.sandboxes.Keys) {
      assert ContainerOk(k, x.containers[k], x.containerFiles[k], x.sandboxes.Keys);
    }
  }

  lemma PutContainerKeepsInv(x: Index, r: Container)
    requires Inv(x) && r.fixed.sandboxId in x.sandboxes && ExitCodeOk(r)
    ensures Inv(PutContainer(x, r))
  {
    assert ContainerOk(r.fixed.id, r, Valid(r), x.sandboxes.Keys);
    hide ContainerOk, SandboxOk;
  }

  lemma RemoveSandboxKeepsInv(x: Index, id: string)
    requires Inv(x)
    ensures Inv(RemoveSandbox(x, id))
  {
    hide SandboxOk;
    var y := RemoveSandbox(x, id);
    forall k | k in y.containers ensures ContainerOk(k, y.containers[k], y.containerFiles[k], y.sandboxes.Keys) {
      assert ContainerOk(k, x.containers[k], x.containerFiles[k], x.sandboxes.Keys);
    }
  }

  /** Rebuilding memory from disk changes nothing but the changeable fields. */
  lemma ReloadIsMemoryOnly(x: Index)
    requires Inv(x)
    ensures MemoryOnly(x, Restart(x, None))
  {
    forall k | k in x.sandboxes ensures SandboxOk(k, x.sandboxes[k], x.sandboxFiles[k]) {}
    forall k | k in x.containers ensures ContainerOk(k, x.containers[k], x.containerFiles[k], x.sandboxes.Keys) {}
  }

  lemma RestartKeepsInv(x: Index, listing: Option<seq<Workload>>)
    requires Inv(x)
    ensures Inv(Restart(x, listing))
  {
    hide Inv, ReconciledSandboxes, ReconciledContainers, SameSandboxes, SameContainers;
    ReloadIsMemoryOnly(x);
    MemoryOnlyKeepsInv(x, Restart(x, None));
    if listing.Some? {
      MemoryOnlyKeepsInv(Restart(x, None), Restart(x, listing));
    }
  }

  lemma StepKeepsInv(x: Index, call: Call)
    requires Inv(x)
    ensures Inv(Step(x, call))
  {
    match call
    case RunPodSandbox(pod, image, run, now) =>
      if pod.Some? && run.Some? { PutSandboxKeepsInv(x, NewSandbox(pod.value, run.value, now)); }
    case StopPodSandbox(id, stopped) => StopPodKeepsInv(x, id, stopped);
    case RemovePodSandbox(id) => RemoveSandboxKeepsInv(x, id);
    case PodSandboxStatus(id, live) => StatusKeepsInv(x, id, live);
    case CreateContainer(podId, req, cid, digest, run, now) => CreateKeepsInv(x, podId, req, cid, digest, run, now);
    case StartContainer(cid, live, now) => StartKeepsInv(x, cid, live, now);
    case StopContainer(cid, stopped) => StopKeepsInv(x, cid, stopped);
    case RemoveContainerCall(cid) => RemoveContainerKeepsInv(x, cid);
    case RestartShim(listing) => RestartKeepsInv(x, listing);
  }

  lemma CreateKeepsInv(x: Index, podId: string, req: Option<ContainerRequest>, cid: string,
                       digest: Option<string>, run: Option<Started>, now: int)
    requires Inv(x)
    ensures Inv(Create(x, podId, req, cid, digest, run, now))
  {
    var y := Create(x, podId, req, cid, digest, run, now);
    hide Inv;
    if y != x { PutContainerKeepsInv(x, y.containers[cid]); }
  }

  lemma StartKeepsInv(x: Index, cid: string, live: Option<Live>, now: int)
    requires Inv(x)
    ensures Inv(Start(x, cid, live, now))
  {
    if cid in x.containers { RecordFacts(x, cid); }
    hide Inv;
    var y := Start(x, cid, live, now);
    if y != x { PutContainerKeepsInv(x, y.containers[cid]); }
  }

  lemma StopKeepsInv(x: Index, cid: string, stopped: bool)
    requires Inv(x)
    ensures Inv(Stop(x, cid, stopped))
  {
    if cid in x.containers { RecordFacts(x, cid); }
    hide Inv;
    var y := Stop(x, cid, stopped);
    if y != x { PutContainerKeepsInv(x, y.containers[cid]); }
  }

  /** What the invariant says of one container. */
  lemma RecordFacts(x: Index, c: string)
    requires Inv(x) && c in x.containers
    ensures x.containers[c].fixed.id == c && x.containers[c].fixed.sandboxId in x.sandboxes &&
              ExitCodeOk(x.containers[c])
    ensures c in x.containerFiles && x.containerFiles[c].Valid?
    ensures x.containerFiles[c].checkpoint.fixed == x.containers[c].fixed
  {
    assert ContainerOk(c, x.containers[c], x.containerFiles[c], x.sandboxes.Keys);
  }

  lemma RemoveContainerKeepsInv(x: Index, id: string)
    requires Inv(x)
    ensures Inv(RemoveContainer(x, id))
  {
    hide SandboxOk, ContainerOk;
  }

  lemma StopPodKeepsInv(x: Index, id: string, stopped: bool)
    requires Inv(x)
    ensures Inv(StopPod(x, id, stopped))
  {
    hide Inv, KillAll, ContainersOf;
    MemoryOnlyKeepsInv(x, StopPod(x, id, stopped));
  }

  lemma StatusKeepsInv(x: Index, id: string, live: Option<Live>)
    requires Inv(x)
    ensures Inv(Status(x, id, live))
  {
    hide Inv;
    MemoryOnlyKeepsInv(x, Status(x, id, live));
  }

  /** Over every run of calls and restarts, starting with nothing, the index invariant holds. */
  lemma {:induction false} RunKeepsInv(x: Index, calls: seq<Call>)
    requires Inv(x)
    ensures Inv(Run(x, calls))
  {
    hide Inv, Step;
    if calls != [] {
      RunKeepsInv(x, calls[..|calls| - 1]);
      StepKeepsInv(Run(x, calls[..|calls| - 1]), calls[|calls| - 1]);
    }
  }

  /** A container that is reported dead: exited, with its exit code if it has one and otherwise 137. */
  ghost function Dead(r: Container): Container {
    r.(state := CONTAINER_EXITED, exitCode := if r.exitCode == 0 then 137 else r.exitCode)
  }

  /** A sandbox after a restart: dead if its workload is, else exactly as checkpointed. */
  ghost predicate TruthfulSandbox(r: Sandbox, f: File<SandboxCheckpoint>, alive: set<string>) {
    && f.Valid?
    && if f.checkpoint.pullrunId in alive then r == LoadSandbox(f.checkpoint)
       else r == LoadSandbox(f.checkpoint).(state := SANDBOX_NOTREADY, internalIp := "")
  }

  ghost predicate TruthfulContainer(r: Container, f: File<Container>, alive: set<string>) {
    && f.Valid?
    && if f.checkpoint.fixed.pullrunId in alive then r == f.checkpoint
       else r == Dead(f.checkpoint)
  }

  lemma RestartIsTruthful(x: Index, listing: seq<Workload>)
    requires Inv(x)
    ensures var y := Restart(x, Some(listing));
            && y.sandboxes.Keys == x.sandboxes.Keys && y.containers.Keys == x.containers.Keys
            && (forall k :: k in y.sandboxes ==> TruthfulSandbox(y.sandboxes[k], x.sandboxFiles[k], Alive(listing)))
            && (forall k :: k in y.containers ==>
                 TruthfulContainer(y.containers[k], x.containerFiles[k], Alive(listing)))
  {
    hide Alive, LoadSandbox;
    forall k | k in x.sandboxes ensures x.sandboxFiles[k].Valid? {
      assert SandboxOk(k, x.sandboxes[k], x.sandboxFiles[k]);
    }
    forall k | k in x.containers ensures x.containerFiles[k].Valid? {
      assert ContainerOk(k, x.containers[k], x.containerFiles[k], x.sandboxes.Keys);
    }
    assert x.sandboxes.Keys == x.sandboxFiles.Keys && x.containers.Keys == x.containerFiles.Keys;
    hide Inv;
    LoadKeepsWorkload(x);
  }

  lemma LoadKeepsWorkload(x: Index)
    ensures forall k :: k in x.sandboxFiles && x.sandboxFiles[k].Valid? ==>
              LoadSandbox(x.sandboxFiles[k].checkpoint).fixed.pullrunId == x.sandboxFiles[k].checkpoint.pullrunId
  {
  }

  /** Truthful restart, after every history: what has no live workload is reported dead - sandboxes
      not ready and without an address, containers exited with a non-zero code - and what has one is
      exactly as last checkpointed. */
  lemma TruthfulRestart(calls: seq<Call>, listing: seq<Workload>)
    ensures var x := Run(Empty, calls);
            var y := Run(Empty, calls + [RestartShim(Some(listing))]);
            && y.sandboxes.Keys == x.sandboxes.Keys == x.sandboxFiles.Keys
            && y.containers.Keys == x.containers.Keys == x.containerFiles.Keys
            && (forall k :: k in y.sandboxes ==> TruthfulSandbox(y.sandboxes[k], x.sandboxFiles[k], Alive(listing)))
            && (forall k :: k in y.containers ==>
                 TruthfulContainer(y.containers[k], x.containerFiles[k], Alive(listing)))
  {
    var x, all := Run(Empty, calls), calls + [RestartShim(Some(listing))];
    RunKeepsInv(Empty, calls);
    hide Restart, TruthfulSandbox, TruthfulContainer;
    RestartIsTruthful(x, listing);
    assert all[..|calls|] == calls;
  }

  /** The call may write or remove the checkpoint of container c of the given sandbox. */
  ghost predicate Touches(call: Call, c: string, sandboxId: string) {
    match call
    case CreateContainer(_, _, cid, _, _, _) => cid == c
    case StartContainer(cid, _, _) => cid == c
    case StopContainer(cid, _) => cid == c
    case RemoveContainerCall(cid) => cid == c
    case RemovePodSandbox(id) => id == sandboxId
    case _ => false
  }

  /** From x to y, container c stays in its sandbox and its checkpoint file is not touched. */
  ghost predicate KeepsFile(x: Index, y: Index, c: string) {
    && c in x.containers && c in y.containers && y.containers[c].fixed.sandboxId == x.containers[c].fixed.sandboxId
    && c in x.containerFiles && c in y.containerFiles && y.containerFiles[c] == x.containerFiles[c]
  }

  lemma RestartKeepsFile(x: Index, listing: Option<seq<Workload>>, c: string)
    requires Inv(x) && c in x.containers
    ensures KeepsFile(x, Restart(x, listing), c)
  {
    RecordFacts(x, c);
    hide Inv, Alive, LoadedSandboxes, ReconciledSandboxes, ReconciledContainers;
  }

  lemma RemovePodKeepsFile(x: Index, id: string, c: string)
    requires KeepsFile(x, x, c) && x.containers[c].fixed.sandboxId != id
    ensures KeepsFile(x, RemoveSandbox(x, id), c)
  {
  }

  lemma StopPodKeepsFile(x: Index, id: string, stopped: bool, c: string)
    requires KeepsFile(x, x, c)
    ensures KeepsFile(x, StopPod(x, id, stopped), c)
  {
  }

  lemma StepKeepsFile(x: Index, call: Call, c: string)
    requires Inv(x) && c in x.containers && !Touches(call, c, x.containers[c].fixed.sandboxId)
    ensures KeepsFile(x, Step(x, call), c)
  {
    RecordFacts(x, c);
    match call
    case RestartShim(listing) => RestartKeepsFile(x, listing, c);
    case RemovePodSandbox(id) => RemovePodKeepsFile(x, id, c);
    case StopPodSandbox(id, stopped) => StopPodKeepsFile(x, id, stopped, c);
    case StartContainer(cid, live, now) =>
      if cid in x.containers { RecordFacts(x, cid); }
      hide Inv, RunPod, StopPod, RemoveSandbox, Restart;
    case StopContainer(cid, stopped) =>
      if cid in x.containers { RecordFacts(x, cid); }
      hide Inv, RunPod, StopPod, RemoveSandbox, Restart;
    case _ =>
      hide Inv, StopPod, RemoveSandbox, Restart;
  }

  lemma {:induction false} RunKeepsFile(x: Index, calls: seq<Call>, c: string)
    requires Inv(x) && c in x.containers
    requires forall i :: 0 <= i < |calls| ==> !Touches(calls[i], c, x.containers[c].fixed.sandboxId)
    ensures KeepsFile(x, Run(x, calls), c)
  {
    assert x.containers.Keys == x.containerFiles.Keys;
    hide Inv, Step;
    if calls != [] {
      var n := |calls| - 1;
      RunKeepsFile(x, calls[..n], c);
      RunKeepsInv(x, calls[..n]);
      StepKeepsFile(Run(x, calls[..n]), calls[n], c);
    }
  }

  /** A call that changed the record of container c wrote it to disk as well. */
  ghost predicate JustWritten(x: Index, c: string) {
    c in x.containers && c in x.containerFiles && x.containerFiles[c] == Valid(x.containers[c])
  }

  /** From x to y the record of container c was put in place, memory and disk alike, and nothing else. */
  ghost predicate OnlyContainerPut(x: Index, y: Index, c: string) {
    && JustWritten(y, c)
    && y.containers == x.containers[c := y.containers[c]]
    && y.containerFiles == x.containerFiles[c := Valid(y.containers[c])]
    && y.sandboxes == x.sandboxes && y.sandboxFiles == x.sandboxFiles
  }

  /** The same, and the container keeps its identity. */
  ghost predicate OnlyContainerWritten(x: Index, y: Index, c: string) {
    OnlyContainerPut(x, y, c) && c in x.containers && y.containers[c].fixed == x.containers[c].fixed
  }

  /** From x to y the record of sandbox k was put in place, memory and disk alike, and nothing else. */
  ghost predicate OnlySandboxWritten(x: Index, y: Index, k: string) {
    && k in y.sandboxes && y.sandboxes == x.sandboxes[k := y.sandboxes[k]]
    && k in y.sandboxFiles && y.sandboxFiles[k].Valid? && LoadSandbox(y.sandboxFiles[k].checkpoint) == y.sandboxes[k]
    && y.sandboxFiles == x.sandboxFiles[k := y.sandboxFiles[k]]
    && y.containers == x.containers && y.containerFiles == x.containerFiles
  }

  lemma LifecycleCallsWrite(x: Index, call: Call)
    requires Inv(x) && (call.CreateContainer? || call.StartContainer? || call.StopContainer?)
    ensures Step(x, call) == x || JustWritten(Step(x, call), call.cid)
  {
    hide *;
    match call
    case CreateContainer(podId, req, cid, digest, run, now) => CreateWrites(x, podId, req, cid, digest, run, now);
    case StartContainer(cid, live, now) => StartWrites(x, cid, live, now);
    case StopContainer(cid, stopped) => StopWrites(x, cid, stopped);
  }

  lemma CreateWrites(x: Index, podId: string, req: Option<ContainerRequest>, cid: string,
                     digest: Option<string>, run: Option<Started>, now: int)
    ensures var y := Step(x, CreateContainer(podId, req, cid, digest, run, now)); y == x || JustWritten(y, cid)
  {
    hide RunPod, StopPod, Status, Start, Stop, RemoveSandbox, RemoveContainer, Restart;
  }

  lemma StartWrites(x: Index, cid: string, live: Option<Live>, now: int)
    requires Inv(x)
    ensures var y := Step(x, StartContainer(cid, live, now)); y == x || JustWritten(y, cid)
  {
    if cid in x.containers { RecordFacts(x, cid); }
    hide Inv, RunPod, StopPod, Status, Create, Stop, RemoveSandbox, RemoveContainer, Restart;
  }

  lemma StopWrites(x: Index, cid: string, stopped: bool)
    requires Inv(x)
    ensures var y := Step(x, StopContainer(cid, stopped)); y == x || JustWritten(y, cid)
  {
    if cid in x.containers { RecordFacts(x, cid); }
    hide Inv, RunPod, StopPod, Status, Create, Start, RemoveSandbox, RemoveContainer, Restart;
  }

  /** Whatever happens after a create, start or stop of a container, short of another such call or
      its removal, a restart brings back exactly the record written then, declared dead if its
      workload is gone. */
  lemma RestartRestoresLastWrite(x: Index, calls: seq<Call>, c: string, listing: seq<Workload>)
    requires Inv(x) && JustWritten(x, c)
    requires forall i :: 0 <= i < |calls| ==> !Touches(calls[i], c, x.containers[c].fixed.sandboxId)
    ensures var z := Step(Run(x, calls), RestartShim(Some(listing)));
            c in z.containers && z.containers[c] == ReconciledContainer(x.containers[c], Alive(listing))
  {
    RunKeepsFile(x, calls, c);
    hide Inv, Run;
  }

  /** What reconciliation reports is not written to disk: a later restart that cannot reach the
      runtime repeats the report on a container if and only if its workload was alive or its
      checkpoint says exited already. */
  lemma ReportSurvivesIff(x: Index, listing: seq<Workload>, c: string)
    requires Inv(x) && c in x.containers
    ensures var y := Step(x, RestartShim(Some(listing)));
            var z := Step(y, RestartShim(None));
            && x.containerFiles[c].Valid? && c in y.containers && c in z.containers
            && var r := x.containerFiles[c].checkpoint;
               z.containers[c].state == y.containers[c].state <==>
               r.fixed.pullrunId in Alive(listing) || r.state == CONTAINER_EXITED
  {
    RecordFacts(x, c);
    hide Inv;
  }

  /** The same for a sandbox: the report is repeated if and only if its workload was alive or its
      checkpoint says not ready, without an address, already. */
  lemma PodReportSurvivesIff(x: Index, listing: seq<Workload>, k: string)
    requires Inv(x) && k in x.sandboxes
    ensures var y := Step(x, RestartShim(Some(listing)));
            var z := Step(y, RestartShim(None));
            && x.sandboxFiles[k].Valid? && k in y.sandboxes && k in z.sandboxes
            && var f := x.sandboxFiles[k].checkpoint;
               z.sandboxes[k] == y.sandboxes[k] <==>
               f.pullrunId in Alive(listing) || (f.state == SANDBOX_NOTREADY && f.internalIp == "")
  {
    var y := Restart(x, Some(listing));
    RestartKeepsInv(x, Some(listing));
    RestartAt(x, Some(listing), k);
    RestartAt(y, None, k);
    hide Inv, Restart, Alive;
  }

  /** What a restart makes of one sandbox. */
  lemma RestartAt(x: Index, listing: Option<seq<Workload>>, k: string)
    requires Inv(x) && k in x.sandboxes
    ensures var y := Restart(x, listing);
            && k in y.sandboxes && k in x.sandboxFiles && x.sandboxFiles[k].Valid? && y.sandboxFiles == x.sandboxFiles
            && var r := LoadSandbox(x.sandboxFiles[k].checkpoint);
               && r.fixed == x.sandboxes[k].fixed
               && y.sandboxes[k] == if listing.None? then r else ReconciledSandbox(r, Alive(listing.value))
  {
    assert SandboxOk(k, x.sandboxes[k], x.sandboxFiles[k]);
    hide Inv, Alive, LoadedContainers, ReconciledContainers, LoadSandbox, ReconciledSandbox;
  }

  /** A removed pod stays gone: until the same pod is run again, no call and no restart brings back
      its sandbox or any container of it, in memory or on disk. */
  lemma {:induction false} RemovedPodStaysGone(x: Index, id: string, calls: seq<Call>)
    requires Inv(x)
    requires forall i :: 0 <= i < |calls| && calls[i].RunPodSandbox? && calls[i].pod.Some? ==>
              calls[i].pod.value.uid != id
    ensures var y := Run(RemoveSandbox(x, id), calls);
            && id !in y.sandboxes && id !in y.sandboxFiles
            && (forall c :: c in y.containers ==> y.containers[c].fixed.sandboxId != id)
            && (forall c :: c in y.containerFiles ==>
                  y.containerFiles[c].Valid? && y.containerFiles[c].checkpoint.fixed.sandboxId != id)
  {
    hide *;
    RemoveSandboxKeepsInv(x, id);
    RemovedIsAbsent(x, id);
    RunKeepsAbsent(RemoveSandbox(x, id), id, calls);
    RunKeepsInv(RemoveSandbox(x, id), calls);
    AbsentPodHasNothing(Run(RemoveSandbox(x, id), calls), id);
  }

  lemma RemovedIsAbsent(x: Index, id: string)
    ensures id !in RemoveSandbox(x, id).sandboxes
  {
  }

  lemma {:induction false} RunKeepsAbsent(x: Index, id: string, calls: seq<Call>)
    requires Inv(x) && id !in x.sandboxes
    requires forall i :: 0 <= i < |calls| && calls[i].RunPodSandbox? && calls[i].pod.Some? ==>
              calls[i].pod.value.uid != id
    ensures id !in Run(x, calls).sandboxes
  {
    hide Inv, Step;
    if calls != [] {
      var n := |calls| - 1;
      RunKeepsAbsent(x, id, calls[..n]);
      RunKeepsInv(x, calls[..n]);
      StepKeepsAbsent(Run(x, calls[..n]), id, calls[n]);
    }
  }

  lemma StepKeepsAbsent(x: Index, id: string, call: Call)
    requires Inv(x) && id !in x.sandboxes
    requires call.RunPodSandbox? && call.pod.Some? ==> call.pod.value.uid != id
    ensures id !in Step(x, call).sandboxes
  {
    assert x.sandboxes.Keys == x.sandboxFiles.Keys;
    hide Inv;
  }

  lemma AbsentPodHasNothing(x: Index, id: string)
    requires Inv(x) && id !in x.sandboxes
    ensures id !in x.sandboxFiles
    ensures forall c :: c in x.containers ==> x.containers[c].fixed.sandboxId != id
    ensures forall c :: c in x.containerFiles ==>
              x.containerFiles[c].Valid? && x.containerFiles[c].checkpoint.fixed.sandboxId != id
  {
    forall c | c in x.containers
      ensures x.containers[c].fixed.sandboxId != id
      ensures x.containerFiles[c].Valid? && x.containerFiles[c].checkpoint.fixed.sandboxId != id
    {
      RecordFacts(x, c);
    }
  }
}
