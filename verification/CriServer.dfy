/** The CRI shim itself: an object whose handlers update the records in memory and the checkpoint
files.  Each handler is proved to have exactly the effect the index model gives it. */
module CriServer {
  import opened Wrappers
  import opened CriIndex

  /** Every checkpoint that parses sits in the file named after it. */
  ghost predicate Named(x: Index) {
    && (forall k :: k in x.sandboxFiles && x.sandboxFiles[k].Valid? ==> x.sandboxFiles[k].checkpoint.id == k)
    && (forall k :: k in x.containerFiles && x.containerFiles[k].Valid? ==>
         x.containerFiles[k].checkpoint.fixed.id == k)
  }

  lemma InvIsNamed(x: Index)
    requires Inv(x)
    ensures Named(x)
  {
    forall k | k in x.sandboxFiles ensures x.sandboxFiles[k].Valid? ==> x.sandboxFiles[k].checkpoint.id == k {
      assert SandboxOk(k, x.sandboxes[k], x.sandboxFiles[k]);
    }
    forall k | k in x.containerFiles
      ensures x.containerFiles[k].Valid? ==> x.containerFiles[k].checkpoint.fixed.id == k
    {
      assert ContainerOk(k, x.containers[k], x.containerFiles[k], x.sandboxes.Keys);
    }
  }

  class Server {
    var sandboxes: map<string, Sandbox>
    var containers: map<string, Container>
    var sandboxFiles: map<string, File<SandboxCheckpoint>>
    var containerFiles: map<string, File<Container>>

    ghost function View(): Index
      reads this
    {
      Index(sandboxes, containers, sandboxFiles, containerFiles)
    }

    /** A first start on an empty checkpoint directory. */
    constructor ()
      ensures View() == Empty && Inv(View())
    {
      sandboxes, containers, sandboxFiles, containerFiles := map[], map[], map[], map[];
    }

    method PutSandboxRecord(rec: Sandbox)
      modifies this
      ensures View() == PutSandbox(old(View()), rec)
    {
      sandboxes := sandboxes[rec.fixed.id := rec];
      sandboxFiles := sandboxFiles[rec.fixed.id := Valid(SaveSandbox(rec))];
    }

    method PutContainerRecord(rec: Container)
      modifies this
      ensures View() == PutContainer(old(View()), rec)
    {
      containers := containers[rec.fixed.id := rec];
      containerFiles := containerFiles[rec.fixed.id := Valid(rec)];
    }

    /** Cascades to the containers of the sandbox, found by going through all containers. */
    method RemoveSandboxRecord(id: string)
      modifies this
      ensures View() == RemoveSandbox(old(View()), id)
    {
      sandboxes := sandboxes - {id};
      sandboxFiles := sandboxFiles - {id};
      containers, containerFiles := DropContainersOf(containers, containerFiles, id);
    }

    method RunPodSandbox(pod: Option<PodRequest>, image: Option<string>, run: Option<Started>, now: int)
      returns (r: Option<string>)
      modifies this
      ensures View() == RunPod(old(View()), pod, image, run, now)
      ensures r == if pod.Some? && image.Some? && run.Some? then Some(pod.value.uid) else None
      ensures r.None? ==> View() == old(View())
      ensures r.Some? ==> OnlySandboxWritten(old(View()), View(), r.value)
      ensures r.Some? ==>
                var s := sandboxes[r.value];
                && s.state == SANDBOX_READY && s.internalIp == run.value.ip && s.fixed.pullrunId == run.value.id
                && s.fixed.id == pod.value.uid && s.fixed.namespace == pod.value.namespace
                && s.fixed.name == pod.value.name && s.fixed.runtimeClass == pod.value.handler
                && s.fixed.hostNetwork == pod.value.hostNetwork && s.fixed.dns == Some(pod.value.dns)
                && s.fixed.createdAt == now && (s.fixed.bridgeName != "" <==> pod.value.bridged)
      ensures old(Inv(View())) ==> Inv(View())
    {
      ghost var before := View();
      if Inv(before) { StepKeepsInv(before, Call.RunPodSandbox(pod, image, run, now)); }
      if pod.None? || image.None? || run.None? { return None; }
      PutSandboxRecord(NewSandbox(pod.value, run.value, now));
      r := Some(pod.value.uid);
    }

    /** Marks the containers one by one, then, if the workload stopped, the sandbox; no file changes. */
    method StopPodSandbox(id: string, stopped: bool) returns (ok: bool)
      modifies this`sandboxes, this`containers
      ensures View() == StopPod(old(View()), id, stopped) && ok == stopped
      ensures containers.Keys == old(containers).Keys
      ensures forall c :: c in containers ==>
                containers[c] == if old(containers)[c].fixed.sandboxId == id then Dead(old(containers)[c])
                                 else old(containers)[c]
      ensures sandboxes == if stopped && id in old(sandboxes)
                           then old(sandboxes)[id := old(sandboxes)[id].(state := SANDBOX_NOTREADY)]
                           else old(sandboxes)
      ensures old(Inv(View())) ==> Inv(View())
    {
      ghost var before := View();
      if Inv(before) { StopPodKeepsInv(before, id, stopped); }
      hide Inv;
      containers := KillContainersOf(containers, id);
      if !stopped { return false; }
      if id in sandboxes { sandboxes := sandboxes[id := sandboxes[id].(state := SANDBOX_NOTREADY)]; }
      ok := true;
    }

    method RemovePodSandbox(id: string)
      modifies this
      ensures View() == RemoveSandbox(old(View()), id)
      ensures sandboxes == old(sandboxes) - {id} && sandboxFiles == old(sandboxFiles) - {id}
      ensures forall c :: c in old(containers) ==>
                if old(containers)[c].fixed.sandboxId == id then c !in containers && c !in containerFiles
                else c in containers && containers[c] == old(containers)[c]
      ensures forall c :: c in old(containerFiles) && c !in old(containers) - containers.Keys ==>
                c in containerFiles && containerFiles[c] == old(containerFiles)[c]
      ensures old(Inv(View())) ==> Inv(View())
    {
      ghost var before := View();
      if Inv(before) { RemoveSandboxKeepsInv(before, id); }
      hide Inv;
      RemoveSandboxRecord(id);
    }

    /** Also reports the state and address it found. */
    method PodSandboxStatus(id: string, live: Option<Live>) returns (state: int, ip: string)
      modifies this`sandboxes
      ensures View() == Status(old(View()), id, live)
      ensures sandboxes == if id in old(sandboxes)
                           then old(sandboxes)[id := old(sandboxes)[id].(state := state, internalIp := ip)]
                           else old(sandboxes)
      ensures ip == if live.Some? && live.value.ip != "" then live.value.ip
                    else if id in old(sandboxes) then old(sandboxes)[id].internalIp else ""
      ensures state == if live.Some? && IsLiveState(live.value.state) then SANDBOX_READY else SANDBOX_NOTREADY
    {
      ip := if id in sandboxes then sandboxes[id].internalIp else "";
      state := SANDBOX_NOTREADY;
      if live.Some? {
        if IsLiveState(live.value.state) { state := SANDBOX_READY; }
        if live.value.ip != "" { ip := live.value.ip; }
      }
      if id in sandboxes { sandboxes := sandboxes[id := sandboxes[id].(state := state, internalIp := ip)]; }
    }

    method CreateContainer(podId: string, req: Option<ContainerRequest>, cid: string, digest: Option<string>,
                           run: Option<Started>, now: int) returns (ok: bool)
      modifies this
      ensures View() == Create(old(View()), podId, req, cid, digest, run, now)
      ensures ok <==>
                && podId != "" && podId in old(sandboxes) && old(sandboxes)[podId].state == SANDBOX_READY
                && req.Some? && digest.Some? && run.Some?
      ensures ok ==>
                && OnlyContainerPut(old(View()), View(), cid)
                && var c := containers[cid];
                   && c.state == CONTAINER_CREATED && c.startedAt == 0 && c.exitCode == 0
                   && c.fixed.id == cid && c.fixed.sandboxId == podId && c.fixed.pullrunId == run.value.id
                   && c.fixed.name == req.value.name && c.fixed.image == req.value.image
                   && c.fixed.imageRef == digest.value && c.fixed.createdAt == now
      ensures !ok ==> View() == old(View())
      ensures old(Inv(View())) ==> Inv(View())
    {
      ghost var before := View();
      if Inv(before) { CreateKeepsInv(before, podId, req, cid, digest, run, now); }
      hide Inv;
      if podId == "" || req.None? { return false; }
      if podId !in sandboxes || sandboxes[podId].state != SANDBOX_READY { return false; }
      if digest.None? || run.None? { return false; }
      var identity := ContainerIdentity(cid, podId, run.value.id, req.value.name, req.value.image, digest.value, now);
      PutContainerRecord(Container(identity, 0, CONTAINER_CREATED, 0));
      ok := true;
    }

    method StartContainer(cid: string, live: Option<Live>, now: int) returns (ok: bool)
      modifies this
      ensures View() == Start(old(View()), cid, live, now)
      ensures ok <==> cid in old(containers) && live.Some? && IsLiveState(live.value.state)
      ensures !ok ==> View() == old(View())
      ensures ok && old(Inv(View())) ==>
                && OnlyContainerWritten(old(View()), View(), cid)
                && containers[cid].state == CONTAINER_RUNNING && containers[cid].startedAt == now
                && containers[cid].exitCode == 0
      ensures old(Inv(View())) ==> Inv(View())
    {
      ghost var before := View();
      if Inv(before) {
        StartKeepsInv(before, cid, live, now);
        if cid in containers { RecordFacts(before, cid); }
      }
      hide Inv;
      if cid !in containers || live.None? { return false; }
      if !IsLiveState(live.value.state) { return false; }
      PutContainerRecord(containers[cid].(state := CONTAINER_RUNNING, startedAt := now, exitCode := 0));
      ok := true;
    }

    method StopContainer(cid: string, stopped: bool) returns (ok: bool)
      modifies this
      ensures View() == Stop(old(View()), cid, stopped)
      ensures ok <==>
                && cid in old(containers)
                && (stopped || old(containers)[cid].state in {CONTAINER_EXITED, CONTAINER_UNKNOWN})
      ensures !ok || old(containers)[cid].state in {CONTAINER_EXITED, CONTAINER_UNKNOWN} ==> View() == old(View())
      ensures ok && old(Inv(View())) && old(containers)[cid].state !in {CONTAINER_EXITED, CONTAINER_UNKNOWN} ==>
                && OnlyContainerWritten(old(View()), View(), cid)
                && containers[cid] == Dead(old(containers)[cid])
      ensures old(Inv(View())) ==> Inv(View())
    {
      ghost var before := View();
      if Inv(before) {
        StopKeepsInv(before, cid, stopped);
        if cid in containers { RecordFacts(before, cid); }
      }
      hide Inv;
      if cid !in containers { return false; }
      if containers[cid].state == CONTAINER_EXITED || containers[cid].state == CONTAINER_UNKNOWN { return true; }
      if !stopped { return false; }
      PutContainerRecord(Killed(containers[cid]));
      ok := true;
    }

    /** Removes a container, known or not, from memory and disk; its workload is stopped if it runs,
        and an error from that is ignored. */
    method RemoveContainer(cid: string)
      modifies this`containers, this`containerFiles
      ensures View() == CriIndex.RemoveContainer(old(View()), cid)
      ensures cid !in containers && cid !in containerFiles
      ensures forall c :: c in old(containers) && c != cid ==> c in containers && containers[c] == old(containers)[c]
      ensures forall c :: c in old(containerFiles) && c != cid ==>
                c in containerFiles && containerFiles[c] == old(containerFiles)[c]
      ensures old(Inv(View())) ==> Inv(View())
    {
      ghost var before := View();
      if Inv(before) { RemoveContainerKeepsInv(before, cid); }
      containers := containers - {cid};
      containerFiles := containerFiles - {cid};
    }

    /** Rebuilds memory from the checkpoint files, read in any order; files that do not parse are
        skipped. */
    method LoadAll()
      requires Named(View())
      modifies this`sandboxes, this`containers
      ensures View() == Restart(old(View()), None)
    {
      hide LoadedSandboxes, LoadedContainers;
      sandboxes := ReadSandboxes(sandboxFiles);
      containers := ReadContainers(containerFiles);
    }

    /** Compares every record with the runtime's list of workloads, if there is one. */
    method ReconcileStartup(listing: Option<seq<Workload>>)
      modifies this`sandboxes, this`containers
      ensures View() == if listing.None? then old(View()) else Reconcile(old(View()), Alive(listing.value))
    {
      hide ReconciledSandboxes, ReconciledContainers, Alive;
      if listing.None? { return; }
      var alive := LiveIds(listing.value);
      ReconcileSandboxes(alive);
      ReconcileContainers(alive);
    }

    method ReconcileSandboxes(alive: set<string>)
      modifies this`sandboxes
      ensures sandboxes == ReconciledSandboxes(old(sandboxes), alive)
    {
      ghost var before := sandboxes;
      var todo := sandboxes.Keys;
      while todo != {}
        invariant todo <= sandboxes.Keys == before.Keys
        invariant forall k :: k in before ==>
                    sandboxes[k] == if k in todo then before[k] else ReconciledSandbox(before[k], alive)
        decreases |todo|
      {
        var k :| k in todo;
        todo := todo - {k};
        if sandboxes[k].fixed.pullrunId !in alive {
          sandboxes := sandboxes[k := sandboxes[k].(state := SANDBOX_NOTREADY, internalIp := "")];
        }
      }
    }

    method ReconcileContainers(alive: set<string>)
      modifies this`containers
      ensures containers == ReconciledContainers(old(containers), alive)
    {
      ghost var before := containers;
      var todo := containers.Keys;
      while todo != {}
        invariant todo <= containers.Keys == before.Keys
        invariant forall k :: k in before ==>
                    containers[k] == if k in todo then before[k] else ReconciledContainer(before[k], alive)
        decreases |todo|
      {
        var k :| k in todo;
        todo := todo - {k};
        if containers[k].fixed.pullrunId !in alive { containers := containers[k := Killed(containers[k])]; }
      }
    }

    /** What main does at start: a store on the checkpoint directory, then reconciliation. */
    method RestartShim(listing: Option<seq<Workload>>)
      requires Inv(View())
      modifies this`sandboxes, this`containers
      ensures View() == Restart(old(View()), listing) && Inv(View())
    {
      InvIsNamed(View());
      RestartKeepsInv(View(), listing);
      LoadAll();
      ReconcileStartup(listing);
    }
  }

  method ReadSandboxes(files: map<string, File<SandboxCheckpoint>>) returns (loaded: map<string, Sandbox>)
    requires forall k :: k in files && files[k].Valid? ==> files[k].checkpoint.id == k
    ensures loaded == LoadedSandboxes(files)
  {
    hide LoadSandbox;
    loaded := map[];
    var todo := files.Keys;
    while todo != {}
      invariant todo <= files.Keys
      invariant forall k :: k in loaded <==> k in files && k !in todo && files[k].Valid?
      invariant forall k :: k in loaded ==> loaded[k] == LoadSandbox(files[k].checkpoint)
      decreases |todo|
    {
      var k :| k in todo;
      todo := todo - {k};
      if files[k].Valid? {
        var cp := files[k].checkpoint;
        loaded := loaded[cp.id := LoadSandbox(cp)];
      }
    }
  }

  method ReadContainers(files: map<string, File<Container>>) returns (loaded: map<string, Container>)
    requires forall k :: k in files && files[k].Valid? ==> files[k].checkpoint.fixed.id == k
    ensures loaded == LoadedContainers(files)
  {
    loaded := map[];
    var todo := files.Keys;
    while todo != {}
      invariant todo <= files.Keys
      invariant forall k :: k in loaded <==> k in files && k !in todo && files[k].Valid?
      invariant forall k :: k in loaded ==> loaded[k] == files[k].checkpoint
      decreases |todo|
    {
      var k :| k in todo;
      todo := todo - {k};
      if files[k].Valid? {
        var cp := files[k].checkpoint;
        loaded := loaded[cp.fixed.id := cp];
      }
    }
  }

  method DropContainersOf(containers: map<string, Container>, files: map<string, File<Container>>, id: string)
    returns (left: map<string, Container>, leftFiles: map<string, File<Container>>)
    ensures left == containers - ContainersOf(containers, id)
    ensures leftFiles == files - ContainersOf(containers, id)
  {
    left, leftFiles := containers, files;
    var todo := containers.Keys;
    while todo != {}
      invariant todo <= containers.Keys
      invariant forall k :: k in left <==> k in containers && (k in todo || containers[k].fixed.sandboxId != id)
      invariant forall k :: k in left ==> left[k] == containers[k]
      invariant forall k :: k in leftFiles <==>
                  k in files && (k !in containers || k in todo || containers[k].fixed.sandboxId != id)
      invariant forall k :: k in leftFiles ==> leftFiles[k] == files[k]
      decreases |todo|
    {
      var cid :| cid in todo;
      todo := todo - {cid};
      if left[cid].fixed.sandboxId == id {
        left, leftFiles := left - {cid}, leftFiles - {cid};
      }
    }
  }

  method KillContainersOf(containers: map<string, Container>, id: string) returns (r: map<string, Container>)
    ensures r == KillAll(containers, ContainersOf(containers, id))
  {
    var all := ContainersOf(containers, id);
    ContainersOfAreKeys(containers, id);
    hide KillAll, ContainersOf, Killed;
    r := containers;
    var todo := all;
    KillNone(containers);
    assert all - all == {};
    while todo != {}
      invariant todo <= all && r == KillAll(containers, all - todo)
      decreases |todo|
    {
      var c :| c in todo;
      KillOneMore(containers, all - todo, c);
      assert all - todo + {c} == all - (todo - {c});
      todo := todo - {c};
      r := r[c := Killed(r[c])];
    }
    assert all - {} == all;
  }

  lemma ContainersOfAreKeys(m: map<string, Container>, id: string)
    ensures ContainersOf(m, id) <= m.Keys
  {
  }

  lemma KillNone(m: map<string, Container>)
    ensures KillAll(m, {}) == m
  {
  }

  lemma KillOneMore(m: map<string, Container>, done: set<string>, c: string)
    requires c in m && c !in done
    ensures KillAll(m, done)[c := Killed(m[c])] == KillAll(m, done + {c}) && KillAll(m, done)[c] == m[c]
  {
  }

  /** The ids of the workloads that run or are about to. */
  method LiveIds(listing: seq<Workload>) returns (alive: set<string>)
    ensures alive == Alive(listing)
    ensures forall id :: id in alive <==>
              exists w :: w in listing && w.id == id && w.state in {"running", "created", "scheduled"}
  {
    alive := {};
    for i := 0 to |listing|
      invariant alive == Alive(listing[..i])
    {
      assert listing[..i + 1] == listing[..i] + [listing[i]];
      if IsLiveState(listing[i].state) { alive := alive + {listing[i].id}; }
    }
    assert listing[..|listing|] == listing;
  }
}
