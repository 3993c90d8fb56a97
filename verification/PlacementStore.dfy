/** The control plane's store: nodes and workloads in memory and on disk, a submit that takes the
lock twice, and crashes that may catch a checkpoint file half written. */
module PlacementStore {
  import opened Wrappers
  import opened Placement

  type Tid = nat

  /** A checkpoint file: a record, or what a crash in the middle of writing one leaves. */
  datatype File<R> = Whole(record: R) | Torn

  /** Memory, disk, and the submits that have chosen a node but not yet recorded the workload. */
  datatype Store = Store(nodes: map<string, Node>, workloads: map<string, Workload>,
                         nodeFiles: map<string, File<Node>>, workloadFiles: map<string, File<Workload>>,
                         pending: map<Tid, Workload>)

  /** Which file, if any, a crash caught half written. */
  datatype Damage = NoFile | NodeFile(id: string) | WorkloadFile(id: string)

  /** One critical section, or a crash followed by a reload.  The clock, the generated workload id
      (in spec.id) and the order in which the node map is walked are arguments. */
  datatype Event =
    | Choose(t: Tid, spec: Workload, now: int, order: seq<string>)
    | Record(t: Tid)
    | Register(node: Node)
    | Heartbeat(id: string, now: int, running: nat)
    | Delete(id: string)
    | Crash(damage: Damage)

  predicate IdChar(c: char) {
    'a' <= c <= 'z' || 'A' <= c <= 'Z' || '0' <= c <= '9' || c in {'.', '_', '-'}
  }

  predicate ValidId(id: string) {
    1 <= |id| <= 128 && forall i :: 0 <= i < |id| ==> IdChar(id[i])
  }

  function PutNode(s: Store, n: Node): Store {
    s.(nodes := s.nodes[n.id := n], nodeFiles := s.nodeFiles[n.id := Whole(n)])
  }

  function PutWorkload(s: Store, w: Workload): Store {
    s.(workloads := s.workloads[w.id := w], workloadFiles := s.workloadFiles[w.id := Whole(w)])
  }

  function ViewFor(s: Store, spec: Workload, now: int): View {
    View(s.nodes, s.workloads, spec.imageRef, spec.backend, now)
  }

  /** The first critical section of a submit: choose a node, under the read lock. */
  ghost function ChooseNode(s: Store, t: Tid, spec: Workload, now: int, order: seq<string>): Store {
    if spec.backend == "" || !(forall id :: id in order <==> id in s.nodes) then s
    else
      var chosen := Best(ViewFor(s, spec, now), order).0;
      if chosen == "" then s
      else s.(pending := s.pending[t := spec.(nodeId := chosen, status := "scheduled")])
  }

  /** The second: record the workload, under the write lock. */
  function RecordWorkload(s: Store, t: Tid): Store {
    if t !in s.pending then s else PutWorkload(s.(pending := s.pending - {t}), s.pending[t])
  }

  function Registered(s: Store, n: Node): Store {
    if !ValidId(n.id) then s else PutNode(s, n.(runningCount := 0))
  }

  function BeatHeart(s: Store, id: string, now: int, running: nat): Store {
    if id !in s.nodes then s else PutNode(s, s.nodes[id].(lastHeartbeat := now, runningCount := running))
  }

  function Deleted(s: Store, id: string): Store {
    if !ValidId(id) then s else s.(workloads := s.workloads - {id}, workloadFiles := s.workloadFiles - {id})
  }

  ghost function Loaded<R>(files: map<string, File<R>>): map<string, R> {
    map k | k in files && files[k].Whole? :: files[k].record
  }

  /** The process dies, perhaps leaving one file torn, and a new one loads what it can read. */
  ghost function CrashAndReload(s: Store, damage: Damage): Store {
    var nodeFiles := if damage.NodeFile? then s.nodeFiles[damage.id := Torn] else s.nodeFiles;
    var workloadFiles := if damage.WorkloadFile? then s.workloadFiles[damage.id := Torn] else s.workloadFiles;
    Store(Loaded(nodeFiles), Loaded(workloadFiles), nodeFiles, workloadFiles, map[])
  }

  ghost function Step(s: Store, e: Event): Store {
    match e
    case Choose(t, spec, now, order) => ChooseNode(s, t, spec, now, order)
    case Record(t) => RecordWorkload(s, t)
    case Register(n) => Registered(s, n)
    case Heartbeat(id, now, running) => BeatHeart(s, id, now, running)
    case Delete(id) => Deleted(s, id)
    case Crash(damage) => CrashAndReload(s, damage)
  }

  const Empty := Store(map[], map[], map[], map[], map[])

  ghost function Run(events: seq<Event>): Store {
    if events == [] then Empty else Step(Run(events[..|events| - 1]), events[|events| - 1])
  }

  /** Memory is what disk holds, every node sits under its own valid id, and a submit under way has
      chosen a registered node. */
  ghost predicate Inv(s: Store) {
    && s.nodes == Loaded(s.nodeFiles) && s.workloads == Loaded(s.workloadFiles)
    && (forall k :: k in s.nodes ==> s.nodes[k].id == k && k != "")
    && (forall t :: t in s.pending ==> s.pending[t].nodeId in s.nodes)
  }

  /** No recorded workload names an unregistered node. */
  ghost predicate NodesKnown(s: Store) {
    forall w :: w in s.workloads ==> s.workloads[w].nodeId in s.nodes
  }

  lemma LoadedPut<R>(files: map<string, File<R>>, k: string, r: R)
    ensures Loaded(files[k := Whole(r)]) == Loaded(files)[k := r]
  {
  }

  lemma LoadedRemove<R>(files: map<string, File<R>>, k: string)
    ensures Loaded(files - {k}) == Loaded(files) - {k}
  {
  }

  lemma LoadedTorn<R>(files: map<string, File<R>>, k: string)
    ensures Loaded(files[k := Torn]) == Loaded(files) - {k}
  {
  }

  /** Choosing returns a registered node. */
  lemma ChooseKeeps(s: Store, t: Tid, spec: Workload, now: int, order: seq<string>)
    requires Inv(s)
    ensures Inv(ChooseNode(s, t, spec, now, order))
    ensures NodesKnown(s) ==> NodesKnown(ChooseNode(s, t, spec, now, order))
  {
    hide Loaded;
    if spec.backend != "" && forall id :: id in order <==> id in s.nodes {
      BestIsFirstMaximum(ViewFor(s, spec, now), order);
    }
  }

  lemma StepKeepsInv(s: Store, e: Event)
    requires Inv(s)
    ensures Inv(Step(s, e))
    ensures !e.Crash? && NodesKnown(s) ==> NodesKnown(Step(s, e))
  {
    match e
    case Choose(t, spec, now, order) => ChooseKeeps(s, t, spec, now, order);
    case Record(t) =>
      if t in s.pending { LoadedPut(s.workloadFiles, s.pending[t].id, s.pending[t]); }
      hide Loaded;
    case Register(n) =>
      LoadedPut(s.nodeFiles, n.id, n.(runningCount := 0));
      hide Loaded;
    case Heartbeat(id, now, running) =>
      if id in s.nodes { LoadedPut(s.nodeFiles, id, s.nodes[id].(lastHeartbeat := now, runningCount := running)); }
      hide Loaded;
    case Delete(id) =>
      LoadedRemove(s.workloadFiles, id);
      hide Loaded;
    case Crash(damage) =>
      if damage.NodeFile? { LoadedTorn(s.nodeFiles, damage.id); }
      hide Loaded;
  }

  lemma {:induction false} RunKeepsInv(events: seq<Event>)
    ensures Inv(Run(events))
  {
    hide Step, Inv;
    if events == [] {
      EmptyIsFine();
    } else {
      RunKeepsInv(events[..|events| - 1]);
      StepKeepsInv(Run(events[..|events| - 1]), events[|events| - 1]);
    }
  }

  lemma EmptyIsFine()
    ensures Inv(Empty) && NodesKnown(Empty)
  {
    assert Loaded<Node>(map[]) == map[] && Loaded<Workload>(map[]) == map[];
  }

  /** The damage hits the checkpoint of a node that some recorded workload runs on. */
  ghost predicate HitsUsedNode(s: Store, damage: Damage) {
    damage.NodeFile? && exists w :: w in s.workloads && s.workloads[w].nodeId == damage.id
  }

  /** A crash leaves every recorded workload on a registered node if and only if it did not catch
      the checkpoint of a node with workloads half written - which any heartbeat rewrites. */
  lemma CrashIsHarmlessIff(s: Store, damage: Damage)
    requires Inv(s) && NodesKnown(s)
    ensures NodesKnown(CrashAndReload(s, damage)) <==> !HitsUsedNode(s, damage)
  {
    var r := CrashAndReload(s, damage);
    if damage.NodeFile? { LoadedTorn(s.nodeFiles, damage.id); }
    if damage.WorkloadFile? { LoadedTorn(s.workloadFiles, damage.id); }
    hide Loaded;
    if HitsUsedNode(s, damage) {
      var w :| w in s.workloads && s.workloads[w].nodeId == damage.id;
      assert w in r.workloads && r.workloads[w].nodeId !in r.nodes;
    }
  }

  /** Over every interleaving of submits, registrations, heartbeats, deletions and crashes, a
      recorded workload never names an unregistered node, as long as no crash catches the checkpoint
      of a node with workloads half written. */
  lemma {:induction false} WorkloadsStayOnKnownNodes(events: seq<Event>)
    requires forall i :: 0 <= i < |events| && events[i].Crash? ==> !HitsUsedNode(Run(events[..i]), events[i].damage)
    ensures NodesKnown(Run(events))
  {
    hide Step, NodesKnown, HitsUsedNode;
    if events == [] {
      EmptyIsFine();
    } else {
      var n := |events| - 1;
      assert forall i :: 0 <= i < n ==> events[..n][..i] == events[..i];
      WorkloadsStayOnKnownNodes(events[..n]);
      RunKeepsInv(events[..n]);
      StepKeepsInv(Run(events[..n]), events[n]);
      if events[n].Crash? { CrashStep(Run(events[..n]), events[n].damage); }
    }
  }

  lemma CrashStep(s: Store, damage: Damage)
    requires Inv(s) && NodesKnown(s) && !HitsUsedNode(s, damage)
    ensures NodesKnown(Step(s, Crash(damage)))
  {
    CrashIsHarmlessIff(s, damage);
  }

  /** Register a node, place a workload on it, and crash while a heartbeat writes the checkpoint of
      the node: after the reload the workload names a node nobody knows. */
  lemma TornHeartbeatLosesNode(node: Node, spec: Workload)
    requires node.id == "n1" && node.backends == ["vm"] && node.lastHeartbeat == 0
    requires spec.id == "w1" && spec.backend == "vm"
    ensures var placed := Step(Step(Step(Empty, Register(node)), Choose(0, spec, 0, ["n1"])), Record(0));
            var s := Step(Step(placed, Heartbeat("n1", 10, 1)), Crash(NodeFile("n1")));
            "w1" in s.workloads && s.workloads["w1"].nodeId == "n1" && "n1" !in s.nodes
  {
    var s1 := Registered(Empty, node);
    var s2 := ChooseNode(s1, 0, spec, 0, ["n1"]);
    var s3 := RecordWorkload(s2, 0);
    assert "n1" in s1.nodes && s1.nodes.Keys == {"n1"};
    OnlyNodeIsChosen(ViewFor(s1, spec, 0));
    assert 0 in s2.pending && s2.pending[0] == spec.(nodeId := "n1", status := "scheduled");
    assert "w1" in s3.workloadFiles && s3.workloadFiles["w1"] == Whole(s2.pending[0]);
    assert BeatHeart(s3, "n1", 10, 1).workloadFiles == s3.workloadFiles;
  }

  lemma OnlyNodeIsChosen(v: View)
    requires "n1" in v.nodes && v.Fits("n1")
    ensures Best(v, ["n1"]).0 == "n1"
  {
    assert ["n1"][..0] == [];
  }

  /** From s to s' the node id was written, memory and checkpoint alike, and nothing else changed. */
  ghost predicate OnlyNodeWritten(s: Store, s': Store, id: string) {
    && id in s'.nodes && s'.nodes == s.nodes[id := s'.nodes[id]]
    && s'.nodeFiles == s.nodeFiles[id := Whole(s'.nodes[id])]
    && s'.workloads == s.workloads && s'.workloadFiles == s.workloadFiles
  }

  class ControlPlane {
    var nodes: map<string, Node>
    var workloads: map<string, Workload>
    var nodeFiles: map<string, File<Node>>
    var workloadFiles: map<string, File<Workload>>

    /** The store between calls, when no submit is under way. */
    ghost function AsStore(): Store
      reads this
    {
      Store(nodes, workloads, nodeFiles, workloadFiles, map[])
    }

    constructor ()
      ensures AsStore() == Empty
    {
      nodes, workloads, nodeFiles, workloadFiles := map[], map[], map[], map[];
    }

    /** A valid registration leaves the node idle, in memory as on disk, and touches nothing else. */
    method RegisterNode(req: Node) returns (ok: bool)
      modifies this`nodes, this`nodeFiles
      ensures AsStore() == Registered(old(AsStore()), req)
      ensures ok == ValidId(req.id) && (!ok ==> AsStore() == old(AsStore()))
      ensures ok ==> OnlyNodeWritten(old(AsStore()), AsStore(), req.id)
      ensures ok ==> nodes[req.id] == req.(runningCount := 0)
      ensures old(Inv(AsStore())) ==> Inv(AsStore()) && (old(NodesKnown(AsStore())) ==> NodesKnown(AsStore()))
    {
      ghost var before := AsStore();
      if !ValidId(req.id) { return false; }
      var rec := req.(runningCount := 0);
      nodes := nodes[req.id := rec];
      nodeFiles := nodeFiles[rec.id := Whole(rec)];
      ok := true;
      if Inv(before) { StepKeepsInv(before, Event.Register(req)); }
    }

    /** A heartbeat of a known node renews its time and count, in memory as on disk, keeps the rest of
        the node and touches nothing else. */
    method Heartbeat(id: string, now: int, running: nat) returns (ok: bool)
      requires Inv(AsStore())
      modifies this`nodes, this`nodeFiles
      ensures AsStore() == BeatHeart(old(AsStore()), id, now, running)
      ensures ok == (id in old(nodes)) && (!ok ==> AsStore() == old(AsStore()))
      ensures ok ==> OnlyNodeWritten(old(AsStore()), AsStore(), id)
      ensures ok ==> nodes[id].lastHeartbeat == now && nodes[id].runningCount == running
                     && nodes[id].address == old(nodes)[id].address && nodes[id].backends == old(nodes)[id].backends
      ensures Inv(AsStore()) && (old(NodesKnown(AsStore())) ==> NodesKnown(AsStore()))
    {
      ghost var before := AsStore();
      if id !in nodes { return false; }
      var rec := nodes[id].(lastHeartbeat := now, runningCount := running);
      nodes := nodes[id := rec];
      nodeFiles := nodeFiles[rec.id := Whole(rec)];
      ok := true;
      StepKeepsInv(before, Event.Heartbeat(id, now, running));
    }

    /** A valid deletion leaves no trace of the workload, in memory or on disk, known or not, and
        touches nothing else. */
    method DeleteWorkload(id: string) returns (ok: bool)
      modifies this`workloads, this`workloadFiles
      ensures AsStore() == Deleted(old(AsStore()), id)
      ensures ok == ValidId(id) && (!ok ==> AsStore() == old(AsStore()))
      ensures ok ==> id !in workloads && id !in workloadFiles
      ensures forall w :: w != id ==>
                (w in workloads <==> w in old(workloads)) && (w in workloads ==> workloads[w] == old(workloads)[w])
      ensures old(Inv(AsStore())) ==> Inv(AsStore()) && (old(NodesKnown(AsStore())) ==> NodesKnown(AsStore()))
    {
      ghost var before := AsStore();
      if !ValidId(id) { return false; }
      workloads := workloads - {id};
      workloadFiles := workloadFiles - {id};
      ok := true;
      if Inv(before) { StepKeepsInv(before, Event.Delete(id)); }
    }

    /** A submit that nothing interrupts: choose, then record.  It succeeds exactly when a backend is
        asked for and some node fits. */
    method SubmitWorkload(spec: Workload, now: int) returns (r: Option<Workload>, ghost order: seq<string>)
      requires Inv(AsStore())
      modifies this`workloads, this`workloadFiles
      ensures AsStore() == RecordWorkload(ChooseNode(old(AsStore()), 0, spec, now, order), 0)
      ensures r.Some? <==> spec.backend != "" && exists id :: id in nodes && Eligible(nodes[id], spec.backend, now)
      ensures r.None? ==> AsStore() == old(AsStore())
      ensures r.Some? ==>
                && workloads == old(workloads)[spec.id := r.value]
                && workloadFiles == old(workloadFiles)[spec.id := Whole(r.value)]
                && r.value == spec.(nodeId := r.value.nodeId, status := "scheduled")
                && r.value.nodeId in nodes && Eligible(nodes[r.value.nodeId], spec.backend, now)
                && forall id :: id in nodes && Eligible(nodes[id], spec.backend, now) ==>
                     Score(old(workloads), id, nodes[id], spec.imageRef) <=
                       Score(old(workloads), r.value.nodeId, nodes[r.value.nodeId], spec.imageRef)
    {
      order := [];
      if spec.backend == "" { return None, order; }
      var v := View(nodes, workloads, spec.imageRef, spec.backend, now);
      var choice;
      choice, order := ScheduleWorkload(v);
      assert forall id :: id in order <==> id in ToSet(order);
      ChoiceIsAnyMaximum(v, order);
      hide Best, Score;
      if choice.Err? { return None, order; }
      var rec := spec.(nodeId := choice.value, status := "scheduled");
      workloads := workloads[rec.id := rec];
      workloadFiles := workloadFiles[rec.id := Whole(rec)];
      assert map[0 := rec] - {0} == map[];
      r := Some(rec);
    }
  }
}
