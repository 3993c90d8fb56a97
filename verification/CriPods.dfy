/** What becomes of a stopped pod over a run of the shim. */
module CriPods {
  import opened Wrappers
  import opened CriIndex

  /** The pod is unknown or not ready, so a container cannot be created in it. */
  ghost predicate Asleep(x: Index, id: string) {
    id !in x.sandboxes || x.sandboxes[id].state != SANDBOX_READY
  }

  /** The call makes a pod ready: it is run again, or found alive by a status call, or loaded by a
      restart that cannot list workloads or finds its workload alive. */
  ghost predicate Wakes(x: Index, call: Call, id: string) {
    match call
    case RunPodSandbox(pod, image, run, _) => image.Some? && run.Some? && pod.Some? && pod.value.uid == id
    case PodSandboxStatus(pod, live) => pod == id && id in x.sandboxes && live.Some? && IsLiveState(live.value.state)
    case RestartShim(listing) =>
      id in x.sandboxes && (listing.None? || x.sandboxes[id].fixed.pullrunId in Alive(listing.value))
    case _ => false
  }

  /** Checkpoints are only written for ready pods. */
  ghost predicate ReadyOnDisk(x: Index) {
    forall k :: k in x.sandboxFiles && x.sandboxFiles[k].Valid? ==> x.sandboxFiles[k].checkpoint.state == SANDBOX_READY
  }

  lemma StepKeepsReadyOnDisk(x: Index, call: Call)
    requires ReadyOnDisk(x)
    ensures ReadyOnDisk(Step(x, call))
  {
    hide KillAll, ContainersOf, LoadedSandboxes, LoadedContainers, ReconciledSandboxes, ReconciledContainers, Alive;
  }

  lemma {:induction false} RunKeepsReadyOnDisk(calls: seq<Call>)
    ensures ReadyOnDisk(Run(Empty, calls))
  {
    if calls == [] {
    } else {
      RunKeepsReadyOnDisk(calls[..|calls| - 1]);
      hide Step;
      StepKeepsReadyOnDisk(Run(Empty, calls[..|calls| - 1]), calls[|calls| - 1]);
    }
  }

  /** A pod that is not ready becomes ready by exactly the calls that wake it. */
  lemma StepWakesIff(x: Index, call: Call, id: string)
    requires Inv(x) && ReadyOnDisk(x) && Asleep(x, id)
    ensures Asleep(Step(x, call), id) <==> !Wakes(x, call, id)
  {
    hide RunPod, StopPod, Status, Create, Start, Stop, RemoveSandbox, RemoveContainer, Restart, Inv, ReadyOnDisk,
         Asleep;
    match call {
      case RunPodSandbox(pod, image, run, now) => RunPodWakesIff(x, pod, image, run, now, id);
      case StopPodSandbox(pod, stopped) => StopsWakeNone(x, pod, stopped, id);
      case RemovePodSandbox(pod) => StopsWakeNone(x, pod, true, id);
      case PodSandboxStatus(pod, live) => StatusWakesIff(x, pod, live, id);
      case CreateContainer(pod, req, cid, digest, run, now) =>
        SameSandboxesWakeNone(x, Create(x, pod, req, cid, digest, run, now), id);
      case StartContainer(cid, live, now) => SameSandboxesWakeNone(x, Start(x, cid, live, now), id);
      case StopContainer(cid, stopped) => SameSandboxesWakeNone(x, Stop(x, cid, stopped), id);
      case RemoveContainerCall(cid) => SameSandboxesWakeNone(x, RemoveContainer(x, cid), id);
      case RestartShim(listing) => RestartWakesIff(x, listing, id);
    }
  }

  lemma RunPodWakesIff(x: Index, pod: Option<PodRequest>, image: Option<string>, run: Option<Started>, now: int,
                       id: string)
    requires Asleep(x, id)
    ensures Asleep(RunPod(x, pod, image, run, now), id) <==> !Wakes(x, RunPodSandbox(pod, image, run, now), id)
  {
    hide SaveSandbox;
  }

  lemma StatusWakesIff(x: Index, pod: string, live: Option<Live>, id: string)
    requires Asleep(x, id)
    ensures Asleep(Status(x, pod, live), id) <==> !Wakes(x, PodSandboxStatus(pod, live), id)
  {
  }

  lemma StopsWakeNone(x: Index, pod: string, stopped: bool, id: string)
    requires Asleep(x, id)
    ensures Asleep(StopPod(x, pod, stopped), id) && Asleep(RemoveSandbox(x, pod), id)
  {
    hide KillAll, ContainersOf;
  }

  lemma SameSandboxesWakeNone(x: Index, y: Index, id: string)
    requires Asleep(x, id)
    ensures y.sandboxes == x.sandboxes ==> Asleep(y, id)
    ensures forall pod, req, cid, digest, run, now :: y == Create(x, pod, req, cid, digest, run, now) ==> Asleep(y, id)
    ensures forall cid, live, now :: y == Start(x, cid, live, now) ==> Asleep(y, id)
    ensures forall cid, stopped :: y == Stop(x, cid, stopped) ==> Asleep(y, id)
    ensures forall cid :: y == RemoveContainer(x, cid) ==> Asleep(y, id)
  {
  }

  lemma RestartWakesIff(x: Index, listing: Option<seq<Workload>>, id: string)
    requires Inv(x) && ReadyOnDisk(x) && Asleep(x, id)
    ensures Asleep(Restart(x, listing), id) <==> !Wakes(x, RestartShim(listing), id)
  {
    if id in x.sandboxes {
      RestartAt(x, listing, id);
    } else {
      RestartKeepsInv(x, listing);
      StepKeepsAbsent(x, id, RestartShim(listing));
    }
    hide Inv, Restart, Alive;
  }

  ghost predicate SleepsThrough(x: Index, id: string, calls: seq<Call>) {
    forall n :: 0 <= n <= |calls| ==> Asleep(Run(x, calls[..n]), id)
  }

  lemma SleepsStep(x: Index, id: string, calls: seq<Call>)
    requires calls != []
    ensures var init := calls[..|calls| - 1];
            SleepsThrough(x, id, calls) <==> SleepsThrough(x, id, init) && Asleep(Run(x, calls), id)
  {
    hide Run, Asleep;
    var init := calls[..|calls| - 1];
    assert calls[..|calls|] == calls;
    forall n | 0 <= n <= |init| ensures Run(x, init[..n]) == Run(x, calls[..n]) { assert init[..n] == calls[..n]; }
    if SleepsThrough(x, id, init) && Asleep(Run(x, calls), id) {
      forall n | 0 <= n <= |calls| ensures Asleep(Run(x, calls[..n]), id) {
        if n < |calls| { assert Asleep(Run(x, init[..n]), id); }
      }
    }
    if SleepsThrough(x, id, calls) {
      forall n | 0 <= n <= |init| ensures Asleep(Run(x, init[..n]), id) { assert Asleep(Run(x, calls[..n]), id); }
    }
  }

  lemma WakesStep(x: Index, id: string, calls: seq<Call>)
    requires calls != []
    ensures var m := |calls| - 1;
            NothingWakes(x, id, calls) <==>
            NothingWakes(x, id, calls[..m]) && !Wakes(Run(x, calls[..m]), calls[m], id)
  {
    hide Run, Wakes;
    var m := |calls| - 1;
    var init := calls[..m];
    forall i | 0 <= i < m ensures Run(x, init[..i]) == Run(x, calls[..i]) && init[i] == calls[i] {
      assert init[..i] == calls[..i];
    }
    if NothingWakes(x, id, init) && !Wakes(Run(x, init), calls[m], id) {
      forall i | 0 <= i < |calls| ensures !Wakes(Run(x, calls[..i]), calls[i], id) {
        if i < m { assert !Wakes(Run(x, init[..i]), init[i], id); }
      }
    }
    if NothingWakes(x, id, calls) {
      forall i | 0 <= i < m ensures !Wakes(Run(x, init[..i]), init[i], id) {
        assert !Wakes(Run(x, calls[..i]), calls[i], id);
      }
    }
  }

  /** Over every run, a pod that is not ready stays so throughout if and only if no call wakes it. */
  lemma {:induction false} SleepsThroughIff(x: Index, id: string, calls: seq<Call>)
    requires Inv(x) && ReadyOnDisk(x) && Asleep(x, id)
    ensures SleepsThrough(x, id, calls) <==> NothingWakes(x, id, calls)
    ensures Inv(Run(x, calls)) && ReadyOnDisk(Run(x, calls))
    ensures SleepsThrough(x, id, calls) ==> Asleep(Run(x, calls), id)
  {
    if calls == [] {
      assert calls[..0] == calls;
    } else {
      var m := |calls| - 1;
      SleepsThroughIff(x, id, calls[..m]);
      SleepsStep(x, id, calls);
      WakesStep(x, id, calls);
      hide Inv, ReadyOnDisk, Asleep, Wakes, Step, SleepsThrough, NothingWakes;
      StepKeepsInv(Run(x, calls[..m]), calls[m]);
      StepKeepsReadyOnDisk(Run(x, calls[..m]), calls[m]);
      if SleepsThrough(x, id, calls[..m]) { StepWakesIff(Run(x, calls[..m]), calls[m], id); }
    }
  }

  ghost predicate NothingWakes(x: Index, id: string, calls: seq<Call>) {
    forall i :: 0 <= i < |calls| ==> !Wakes(Run(x, calls[..i]), calls[i], id)
  }

  /** Every container of the pod in y is one it has in x. */
  ghost predicate NoNewContainer(x: Index, y: Index, id: string) {
    forall c :: c in y.containers && y.containers[c].fixed.sandboxId == id ==>
      c in x.containers && x.containers[c].fixed == y.containers[c].fixed
  }

  lemma StepAddsNone(x: Index, call: Call, id: string)
    requires Inv(x) && Asleep(x, id)
    ensures NoNewContainer(x, Step(x, call), id)
  {
    hide RunPod, StopPod, Status, Create, Start, Stop, RemoveSandbox, RemoveContainer, Restart, NoNewContainer, Inv,
         Asleep;
    match call {
      case RunPodSandbox(pod, image, run, now) => SameContainersAddNone(x, RunPod(x, pod, image, run, now), id);
      case StopPodSandbox(pod, stopped) => StopPodAddsNone(x, pod, stopped, id);
      case RemovePodSandbox(pod) => RemovalsAddNone(x, pod, id);
      case PodSandboxStatus(pod, live) => SameContainersAddNone(x, Status(x, pod, live), id);
      case CreateContainer(pod, req, cid, digest, run, now) => CreateAddsNone(x, pod, req, cid, digest, run, now, id);
      case StartContainer(cid, live, now) => StartAddsNone(x, cid, live, now, id);
      case StopContainer(cid, stopped) => StopAddsNone(x, cid, stopped, id);
      case RemoveContainerCall(cid) => RemovalsAddNone(x, cid, id);
      case RestartShim(listing) => RestartAddsNone(x, listing, id);
    }
  }

  lemma SameContainersAddNone(x: Index, y: Index, id: string)
    ensures y.containers == x.containers ==> NoNewContainer(x, y, id)
    ensures forall pod, image, run, now :: y == RunPod(x, pod, image, run, now) ==> NoNewContainer(x, y, id)
    ensures forall pod, live :: y == Status(x, pod, live) ==> NoNewContainer(x, y, id)
  {
  }

  lemma StopPodAddsNone(x: Index, pod: string, stopped: bool, id: string)
    ensures NoNewContainer(x, StopPod(x, pod, stopped), id)
  {
    hide ContainersOf;
  }

  lemma RemovalsAddNone(x: Index, gone: string, id: string)
    ensures NoNewContainer(x, RemoveSandbox(x, gone), id) && NoNewContainer(x, RemoveContainer(x, gone), id)
  {
  }

  lemma CreateAddsNone(x: Index, pod: string, req: Option<ContainerRequest>, cid: string, digest: Option<string>,
                       run: Option<Started>, now: int, id: string)
    requires Asleep(x, id)
    ensures NoNewContainer(x, Create(x, pod, req, cid, digest, run, now), id)
  {
  }

  lemma StartAddsNone(x: Index, cid: string, live: Option<Live>, now: int, id: string)
    requires Inv(x)
    ensures NoNewContainer(x, Start(x, cid, live, now), id)
  {
    if cid in x.containers { RecordFacts(x, cid); }
    hide Inv;
  }

  lemma StopAddsNone(x: Index, cid: string, stopped: bool, id: string)
    requires Inv(x)
    ensures NoNewContainer(x, Stop(x, cid, stopped), id)
  {
    if cid in x.containers { RecordFacts(x, cid); }
    hide Inv;
  }

  lemma RestartAddsNone(x: Index, listing: Option<seq<Workload>>, id: string)
    requires Inv(x)
    ensures NoNewContainer(x, Restart(x, listing), id)
  {
    forall c | c in x.containers
      ensures c in x.containerFiles && x.containerFiles[c].Valid? &&
                x.containerFiles[c].checkpoint.fixed == x.containers[c].fixed
    {
      RecordFacts(x, c);
    }
    assert x.containers.Keys == x.containerFiles.Keys;
    hide Inv, Alive, LoadedSandboxes, ReconciledSandboxes;
  }

  lemma {:induction false} RunAddsNone(x: Index, id: string, calls: seq<Call>)
    requires Inv(x) && ReadyOnDisk(x) && Asleep(x, id) && NothingWakes(x, id, calls)
    ensures NoNewContainer(x, Run(x, calls), id)
  {
    if calls != [] {
      var m := |calls| - 1;
      WakesStep(x, id, calls);
      RunAddsNone(x, id, calls[..m]);
      SleepsThroughIff(x, id, calls[..m]);
      hide Inv, ReadyOnDisk, Asleep, Wakes, Step, SleepsThrough, NothingWakes;
      StepAddsNone(Run(x, calls[..m]), calls[m], id);
    }
  }

  /** After every history: a pod that was stopped takes no new container, in memory or on disk, as
      long as no call wakes it. */
  lemma StoppedPodTakesNoContainer(history: seq<Call>, id: string, calls: seq<Call>)
    requires NothingWakes(Run(Empty, history + [StopPodSandbox(id, true)]), id, calls)
    ensures var x := Run(Empty, history + [StopPodSandbox(id, true)]);
            var y := Run(x, calls);
            && Asleep(y, id) && NoNewContainer(x, y, id)
            && y.containerFiles.Keys == y.containers.Keys
  {
    var stop := history + [StopPodSandbox(id, true)];
    var x := Run(Empty, stop);
    assert stop[..|history|] == history;
    assert Asleep(x, id) by { hide Run, KillAll; }
    EmptyIsFine();
    RunKeepsInv(Empty, stop);
    RunKeepsReadyOnDisk(stop);
    RunAddsNone(x, id, calls);
    SleepsThroughIff(x, id, calls);
    assert Run(x, calls).containerFiles.Keys == Run(x, calls).containers.Keys;
  }

  lemma EmptyIsFine()
    ensures Inv(Empty)
  {
  }

  /** A ready pod does take one. */
  lemma ReadyPodTakesContainer(x: Index, id: string, req: ContainerRequest, cid: string, digest: string, run: Started,
                               now: int)
    requires !Asleep(x, id) && id != ""
    ensures var y := Step(x, CreateContainer(id, Some(req), cid, Some(digest), Some(run), now));
            cid in y.containers && y.containers[cid].fixed.sandboxId == id && cid in y.containerFiles
  {
    hide RunPod, StopPod, Status, Start, Stop, RemoveSandbox, RemoveContainer, Restart;
  }

  /** Stopping a pod is not written to disk: run, stopped and reloaded without a listing, the pod is
      ready and takes a container. */
  lemma RestartForgetsStop(pod: PodRequest, run: Started, req: ContainerRequest, cid: string, digest: string, now: int)
    requires pod.uid != ""
    ensures var stopped := Step(Step(Empty, RunPodSandbox(Some(pod), Some("pause"), Some(run), now)),
                                StopPodSandbox(pod.uid, true));
            var y := Step(Step(stopped, RestartShim(None)),
                          CreateContainer(pod.uid, Some(req), cid, Some(digest), Some(run), now));
            && Asleep(stopped, pod.uid)
            && cid in y.containers && y.containers[cid].fixed.sandboxId == pod.uid && cid in y.containerFiles
  {
    ReloadedIsReady(pod, run, now);
    var stopped := StopPod(RunPod(Empty, Some(pod), Some("pause"), Some(run), now), pod.uid, true);
    hide RunPod, StopPod, Create, Restart, Asleep;
    ReadyPodTakesContainer(Restart(stopped, None), pod.uid, req, cid, digest, run, now);
  }

  lemma ReloadedIsReady(pod: PodRequest, run: Started, now: int)
    ensures var stopped := StopPod(RunPod(Empty, Some(pod), Some("pause"), Some(run), now), pod.uid, true);
            Asleep(stopped, pod.uid) && !Asleep(Restart(stopped, None), pod.uid)
  {
    hide *;
    var ran := RunPod(Empty, Some(pod), Some("pause"), Some(run), now);
    var stopped := StopPod(ran, pod.uid, true);
    PodStarts(pod, run, now);
    StopPodKeepsInv(ran, pod.uid, true);
    StopIsNotWritten(ran, pod.uid);
    RestartAt(stopped, None, pod.uid);
    LoadedReady(Restart(stopped, None), pod, run, now);
  }

  lemma StopIsNotWritten(x: Index, id: string)
    requires id in x.sandboxes
    ensures var y := StopPod(x, id, true); Asleep(y, id) && id in y.sandboxes && y.sandboxFiles == x.sandboxFiles
  {
    hide KillAll, ContainersOf;
  }

  lemma LoadedReady(x: Index, pod: PodRequest, run: Started, now: int)
    requires pod.uid in x.sandboxes && x.sandboxes[pod.uid] == LoadSandbox(SaveSandbox(NewSandbox(pod, run, now)))
    ensures !Asleep(x, pod.uid)
  {
  }

  lemma PodStarts(pod: PodRequest, run: Started, now: int)
    ensures var ran := RunPod(Empty, Some(pod), Some("pause"), Some(run), now);
            && Inv(ran) && pod.uid in ran.sandboxes && ran.sandboxes[pod.uid].fixed.pullrunId == run.id
            && pod.uid in ran.sandboxFiles && ran.sandboxFiles[pod.uid] == Valid(SaveSandbox(NewSandbox(pod, run, now)))
  {
    EmptyIsFine();
    PutSandboxKeepsInv(Empty, NewSandbox(pod, run, now));
  }

  /** Reconciliation is not written to disk either: a pod found dead by one restart is ready again
      after another that cannot list workloads. */
  lemma PhantomReadyPod(pod: PodRequest, run: Started, now: int)
    ensures var dead := Step(Step(Empty, RunPodSandbox(Some(pod), Some("pause"), Some(run), now)),
              RestartShim(Some([])));
            Asleep(dead, pod.uid) && !Asleep(Step(dead, RestartShim(None)), pod.uid)
  {
    var ran := RunPod(Empty, Some(pod), Some("pause"), Some(run), now);
    PodStarts(pod, run, now);
    RestartAt(ran, Some([]), pod.uid);
    RestartKeepsInv(ran, Some([]));
    RestartAt(Restart(ran, Some([])), None, pod.uid);
    hide Inv, Restart;
  }

  /** The same for a container: reported exited by one restart, it is back to created after another
      that cannot list workloads. */
  lemma PhantomContainer(pod: PodRequest, run: Started, req: ContainerRequest, cid: string, digest: string, now: int)
    requires pod.uid != ""
    ensures var x := Create(RunPod(Empty, Some(pod), Some("pause"), Some(run), now),
                            pod.uid, Some(req), cid, Some(digest), Some(run), now);
            var y := Step(x, RestartShim(Some([])));
            var z := Step(y, RestartShim(None));
            && cid in y.containers && cid in z.containers
            && y.containers[cid].state != z.containers[cid].state
  {
    var ran := RunPod(Empty, Some(pod), Some("pause"), Some(run), now);
    var x := Create(ran, pod.uid, Some(req), cid, Some(digest), Some(run), now);
    PodStarts(pod, run, now);
    CreateKeepsInv(ran, pod.uid, Some(req), cid, Some(digest), Some(run), now);
    assert cid in x.containers && x.containerFiles[cid].Valid? &&
      x.containerFiles[cid].checkpoint.state == CONTAINER_CREATED;
    hide Inv, Step, Create, RunPod;
    ReportSurvivesIff(x, [], cid);
  }
}
