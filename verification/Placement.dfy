/** Placing a workload on a node: the scheduler's choice over an unordered map of nodes, with the
64-bit arithmetic of its scores. */
module Placement {
  import opened Wrappers

  const HEARTBEAT_LIMIT := 30_000_000_000
  const IMAGE_BONUS := 100
  const LOAD_PENALTY := 5
  const TWO_63 := 0x8000_0000_0000_0000
  const TWO_64 := 0x1_0000_0000_0000_0000

  datatype Node = Node(id: string, address: string, cpuCores: nat, memoryBytes: nat, backends: seq<string>,
                       lastHeartbeat: int, runningCount: nat)

  datatype Workload = Workload(id: string, name: string, imageRef: string, backend: string, cpuMillis: nat,
                               memoryB: nat, labels: map<string, string>, createdAt: int, nodeId: string,
                               status: string)

  datatype ScheduleError = NoNodes | NoBackend

  /** A signed 64-bit word holding x modulo 2^64. */
  function Int64(x: int): (r: int)
    ensures -TWO_63 <= r < TWO_63
  {
    (x + TWO_63) % TWO_64 - TWO_63
  }

  /** The workloads already placed on a node that use the image. */
  function Matches(workloads: map<string, Workload>, nodeId: string, image: string): set<string> {
    set w | w in workloads && workloads[w].nodeId == nodeId && workloads[w].imageRef == image
  }

  /** The score meant by the scheduler. */
  function TrueScore(workloads: map<string, Workload>, nodeId: string, n: Node, image: string): int {
    IMAGE_BONUS * |Matches(workloads, nodeId, image)| - LOAD_PENALTY * n.runningCount
  }

  /** The score it computes. */
  function Score(workloads: map<string, Workload>, nodeId: string, n: Node, image: string): int {
    Int64(TrueScore(workloads, nodeId, n, image))
  }

  lemma Int64Id(x: int)
    ensures Int64(x) == x <==> -TWO_63 <= x < TWO_63
  {
  }

  lemma Int64Quotient(x: int) returns (q: int)
    ensures x == Int64(x) + q * TWO_64
  {
    q := (x + TWO_63) / TWO_64;
  }

  lemma Int64Congruent(x: int, y: int, q: int)
    requires x == y + q * TWO_64
    ensures Int64(x) == Int64(y)
  {
    assert (x + TWO_63) == (y + TWO_63) + q * TWO_64;
    ModPlusMultiple(y + TWO_63, q);
  }

  lemma ModPlusMultiple(y: int, q: int)
    ensures (y + q * TWO_64) % TWO_64 == y % TWO_64
  {
    var d := y / TWO_64;
    assert y + q * TWO_64 == (d + q) * TWO_64 + y % TWO_64;
  }

  /** Wrapping inside a sum, a difference or a multiple changes nothing once the result is wrapped. */
  lemma Int64Add(a: int, b: int)
    ensures Int64(Int64(a) + b) == Int64(a + b)
  {
    hide Int64;
    var q := Int64Quotient(a);
    Int64Congruent(a + b, Int64(a) + b, q);
  }

  lemma Int64Sub(a: int, b: int)
    ensures Int64(a - Int64(b)) == Int64(a - b)
  {
    hide Int64;
    var q := Int64Quotient(b);
    Int64Congruent(a - Int64(b), a - b, q);
  }

  lemma Int64Scale(a: int)
    ensures Int64(Int64(a) * LOAD_PENALTY) == Int64(a * LOAD_PENALTY)
  {
    hide Int64;
    var q := Int64Quotient(a);
    Int64Congruent(a * LOAD_PENALTY, Int64(a) * LOAD_PENALTY, q * LOAD_PENALTY);
  }

  lemma FinalScore(workloads: map<string, Workload>, nodeId: string, n: Node, image: string)
    ensures Int64(Int64(IMAGE_BONUS * |Matches(workloads, nodeId, image)|)
                  - Int64(Int64(n.runningCount) * LOAD_PENALTY)) ==
            Score(workloads, nodeId, n, image)
  {
    hide Int64;
    var bonus, count := IMAGE_BONUS * |Matches(workloads, nodeId, image)|, n.runningCount;
    Int64Scale(count);
    Int64Sub(Int64(bonus), count * LOAD_PENALTY);
    Int64Add(bonus, -(count * LOAD_PENALTY));
  }

  /** The computed score is the meant one if and only if that fits a signed 64-bit word. */
  lemma ScoreIsTrueIff(workloads: map<string, Workload>, nodeId: string, n: Node, image: string)
    ensures Score(workloads, nodeId, n, image) == TrueScore(workloads, nodeId, n, image) <==>
            -TWO_63 <= TrueScore(workloads, nodeId, n, image) < TWO_63
  {
    Int64Id(TrueScore(workloads, nodeId, n, image));
  }

  lemma ScoreIs(workloads: map<string, Workload>, nodeId: string, n: Node, image: string)
    ensures Score(workloads, nodeId, n, image) == Int64(100 * |Matches(workloads, nodeId, image)| - 5 * n.runningCount)
  {
  }

  /** The scoring loop, over the workloads in any order, wrapping at every operation. */
  method ComputeScore(workloads: map<string, Workload>, nodeId: string, n: Node, image: string) returns (score: int)
    ensures score == Score(workloads, nodeId, n, image)
    ensures score == Int64(100 * |Matches(workloads, nodeId, image)| - 5 * n.runningCount)
  {
    ScoreIs(workloads, nodeId, n, image);
    hide *;
    score := 0;
    var todo := workloads.Keys;
    BonusAtEnds(workloads, nodeId, image);
    while todo != {}
      invariant todo <= workloads.Keys
      invariant score == Int64(Bonus(workloads, nodeId, image, todo))
      decreases |todo|
    {
      var w :| w in todo;
      BonusStep(workloads, nodeId, image, todo, w);
      if workloads[w].nodeId == nodeId && workloads[w].imageRef == image {
        Int64Add(Bonus(workloads, nodeId, image, todo), IMAGE_BONUS);
        score := Int64(score + IMAGE_BONUS);
      }
      todo := todo - {w};
    }
    FinalScore(workloads, nodeId, n, image);
    score := Int64(score - Int64(Int64(n.runningCount) * LOAD_PENALTY));
  }

  /** What the matching workloads seen so far are worth when `todo` are left. */
  ghost function Bonus(workloads: map<string, Workload>, nodeId: string, image: string, todo: set<string>): nat {
    IMAGE_BONUS * |Matches(workloads, nodeId, image) - todo|
  }

  lemma BonusAtEnds(workloads: map<string, Workload>, nodeId: string, image: string)
    ensures Bonus(workloads, nodeId, image, workloads.Keys) == 0 && Int64(0) == 0
    ensures Bonus(workloads, nodeId, image, {}) == IMAGE_BONUS * |Matches(workloads, nodeId, image)|
  {
    assert Matches(workloads, nodeId, image) - workloads.Keys == {};
    assert Matches(workloads, nodeId, image) - {} == Matches(workloads, nodeId, image);
  }

  lemma BonusStep(workloads: map<string, Workload>, nodeId: string, image: string, todo: set<string>, w: string)
    requires w in todo && todo <= workloads.Keys
    ensures Bonus(workloads, nodeId, image, todo - {w}) == Bonus(workloads, nodeId, image, todo)
              + if workloads[w].nodeId == nodeId && workloads[w].imageRef == image then IMAGE_BONUS else 0
  {
    var all := Matches(workloads, nodeId, image);
    if w in all {
      assert all - (todo - {w}) == all - todo + {w};
    } else {
      assert all - (todo - {w}) == all - todo;
    }
  }

  predicate Eligible(n: Node, backend: string, now: int) {
    now - n.lastHeartbeat <= HEARTBEAT_LIMIT && backend in n.backends
  }

  /** Everything the choice depends on. */
  datatype View = View(nodes: map<string, Node>, workloads: map<string, Workload>, image: string, backend: string,
                       now: int) {
    predicate Fits(id: string) {
      id in nodes && Eligible(nodes[id], backend, now)
    }

    function ScoreOf(id: string): int
      requires id in nodes
    {
      Score(workloads, id, nodes[id], image)
    }
  }

  /** The best node among those of the order, and its score, as the loop keeps them. */
  function Best(v: View, order: seq<string>): (string, int)
    requires forall id :: id in order ==> id in v.nodes
  {
    if order == [] then ("", -1)
    else
      var n := |order| - 1;
      var id := order[n];
      var (node, score) := Best(v, order[..n]);
      if v.Fits(id) && (node == "" || v.ScoreOf(id) > score) then (id, v.ScoreOf(id)) else (node, score)
  }

  /** id fits, and no fitting node of the order scores higher. */
  ghost predicate IsMaximal(v: View, order: seq<string>, id: string) {
    && v.Fits(id)
    && forall other :: other in order && v.Fits(other) ==> v.ScoreOf(other) <= v.ScoreOf(id)
  }

  /** The choice of the loop: nothing if no node of the order fits, else the first of those with the
      maximal score. */
  lemma {:induction false} BestIsFirstMaximum(v: View, order: seq<string>)
    requires (forall id :: id in order ==> id in v.nodes) && "" !in order
    ensures Best(v, order).0 == "" <==> forall id :: id in order ==> !v.Fits(id)
    ensures var (node, score) := Best(v, order);
            node != "" ==>
              exists i :: 0 <= i < |order| && order[i] == node && score == v.ScoreOf(node)
                && IsMaximal(v, order, node) && forall j :: 0 <= j < i ==> !IsMaximal(v, order, order[j])
  {
    if order != [] {
      var n := |order| - 1;
      var init, id := order[..n], order[n];
      assert order == init + [id];
      BestIsFirstMaximum(v, init);
      var (node, score) := Best(v, init);
      if node != "" {
        var i :| 0 <= i < n && init[i] == node && score == v.ScoreOf(node)
          && IsMaximal(v, init, node) && forall j :: 0 <= j < i ==> !IsMaximal(v, init, init[j]);
        StillFirst(v, init, id, i);
      } else if v.Fits(id) {
        assert IsMaximal(v, order, id);
        assert forall j :: 0 <= j < n ==> order[j] in init && !IsMaximal(v, order, order[j]);
        assert order[n] == id;
      }
    }
  }

  lemma StillFirst(v: View, init: seq<string>, id: string, i: nat)
    requires forall other :: other in init + [id] ==> other in v.nodes
    requires i < |init| && IsMaximal(v, init, init[i])
    requires forall j :: 0 <= j < i ==> !IsMaximal(v, init, init[j])
    ensures var order := init + [id];
            if v.Fits(id) && v.ScoreOf(id) > v.ScoreOf(init[i])
            then IsMaximal(v, order, id) && forall j :: 0 <= j < |init| ==> !IsMaximal(v, order, order[j])
            else IsMaximal(v, order, init[i]) && forall j :: 0 <= j < i ==> !IsMaximal(v, order, order[j])
  {
    var order := init + [id];
    forall j | 0 <= j < i ensures !IsMaximal(v, order, order[j]) {
      assert !IsMaximal(v, init, init[j]);
    }
    if v.Fits(id) && v.ScoreOf(id) > v.ScoreOf(init[i]) {
      forall j | 0 <= j < |init| ensures !IsMaximal(v, order, order[j]) {
        assert init[j] in init && order[|init|] == id;
      }
    }
  }

  /** Where no score of a fitting node leaves 64 bits, the choice maximises the meant score. */
  lemma ChoiceMaximisesTrueScore(v: View, order: seq<string>)
    requires (forall id :: id in order ==> id in v.nodes) && "" !in order
    requires forall id :: id in order && v.Fits(id) ==>
               -TWO_63 <= TrueScore(v.workloads, id, v.nodes[id], v.image) < TWO_63
    ensures var node := Best(v, order).0;
            node != "" ==>
              && node in order && v.Fits(node)
              && forall other :: other in order && v.Fits(other) ==>
                   TrueScore(v.workloads, other, v.nodes[other], v.image) <=
                     TrueScore(v.workloads, node, v.nodes[node], v.image)
  {
    hide Score, TrueScore, Best, Eligible;
    BestIsFirstMaximum(v, order);
    forall id | id in order && v.Fits(id) ensures v.ScoreOf(id) == TrueScore(v.workloads, id, v.nodes[id], v.image) {
      ScoreIsTrueIff(v.workloads, id, v.nodes[id], v.image);
    }
  }

  /** Where one does, it need not: a node that reports the largest count is chosen over an idle one,
      in whichever order they come. */
  lemma LargestCountWins(v: View)
    requires v.nodes.Keys == {"busy", "idle"} && v.workloads == map[] && v.Fits("busy") && v.Fits("idle")
    requires v.nodes["busy"].runningCount == TWO_64 - 1 && v.nodes["idle"].runningCount == 0
    ensures Best(v, ["busy", "idle"]).0 == Best(v, ["idle", "busy"]).0 == "busy"
    ensures TrueScore(v.workloads, "busy", v.nodes["busy"], v.image) <
            TrueScore(v.workloads, "idle", v.nodes["idle"], v.image)
  {
    assert Matches(v.workloads, "busy", v.image) == {} && Matches(v.workloads, "idle", v.image) == {};
    assert v.ScoreOf("busy") > v.ScoreOf("idle");
    hide Score, TrueScore, Eligible;
    BestOfTwo(v, "busy", "idle");
    BestOfTwo(v, "idle", "busy");
  }

  lemma BestOfTwo(v: View, a: string, b: string)
    requires v.Fits(a) && v.Fits(b) && a != ""
    ensures Best(v, [a, b]).0 == if v.ScoreOf(b) > v.ScoreOf(a) then b else a
  {
    hide Score, Eligible;
    assert [a, b][..1] == [a] && [a][..0] == [];
    assert Best(v, [a]) == (a, v.ScoreOf(a));
  }

  /** scheduleWorkload: walks the nodes in some order and returns the first best of that order. */
  method ScheduleWorkload(v: View) returns (r: Result<string, ScheduleError>, ghost order: seq<string>)
    requires "" !in v.nodes
    ensures NoDuplicates(order) && ToSet(order) == v.nodes.Keys
    ensures r == if v.nodes == map[] then Err(NoNodes)
                 else if Best(v, order).0 == "" then Err(NoBackend)
                 else Ok(Best(v, order).0)
  {
    order := [];
    if v.nodes == map[] { return Err(NoNodes), order; }
    var bestNode, bestScore := "", -1;
    var todo := v.nodes.Keys;
    while todo != {}
      invariant todo <= v.nodes.Keys && NoDuplicates(order) && ToSet(order) == v.nodes.Keys - todo
      invariant forall id :: id in order ==> id in ToSet(order) && id in v.nodes
      invariant Best(v, order) == (bestNode, bestScore)
      decreases |todo|
    {
      var id :| id in todo;
      todo := todo - {id};
      AppendNew(v, order, id);
      order := order + [id];
      var fits := HasBackend(v.nodes[id], v.backend, v.now);
      if !fits { continue; }
      var score := ComputeScore(v.workloads, id, v.nodes[id], v.image);
      if bestNode == "" || score > bestScore {
        bestNode, bestScore := id, score;
      }
    }
    if bestNode == "" { return Err(NoBackend), order; }
    r := Ok(bestNode);
  }

  /** The two reasons to pass over a node: a stale heartbeat, or no such backend. */
  method HasBackend(n: Node, backend: string, now: int) returns (fits: bool)
    ensures fits == Eligible(n, backend, now)
    ensures fits <==> now - n.lastHeartbeat <= 30_000_000_000 &&
                      exists i :: 0 <= i < |n.backends| && n.backends[i] == backend
  {
    if now - n.lastHeartbeat > HEARTBEAT_LIMIT { return false; }
    fits := false;
    for b := 0 to |n.backends|
      invariant backend !in n.backends[..b]
    {
      if n.backends[b] == backend { return true; }
      assert n.backends[..b + 1] == n.backends[..b] + [n.backends[b]];
    }
    assert n.backends[..|n.backends|] == n.backends;
  }

  lemma AppendNew(v: View, order: seq<string>, id: string)
    requires NoDuplicates(order) && ToSet(order) <= v.nodes.Keys && id in v.nodes && id !in ToSet(order)
    ensures NoDuplicates(order + [id]) && ToSet(order + [id]) == ToSet(order) + {id}
    ensures (order + [id])[..|order|] == order
  {
  }

  /** Order independence: whatever the iteration order, the scheduler fails exactly when no node
      fits, and otherwise returns a fitting node of maximal score; and every such node is returned
      for some order. */
  lemma ChoiceIsAnyMaximum(v: View, order: seq<string>)
    requires "" !in v.nodes && NoDuplicates(order) && ToSet(order) == v.nodes.Keys
    ensures Best(v, order).0 == "" <==> forall id :: id in v.nodes ==> !v.Fits(id)
    ensures Best(v, order).0 != "" ==> IsMaximal(v, order, Best(v, order).0)
    ensures forall id :: IsMaximal(v, order, id) ==>
              exists other :: ToSet(other) == v.nodes.Keys && NoDuplicates(other) && Best(v, other).0 == id
  {
    assert forall id :: id in order <==> id in v.nodes;
    BestIsFirstMaximum(v, order);
    forall id | IsMaximal(v, order, id)
      ensures exists other :: ToSet(other) == v.nodes.Keys && NoDuplicates(other) && Best(v, other).0 == id
    {
      var other := MovedToFront(v, order, id);
    }
  }

  lemma FrontIsPermutation(order: seq<string>, k: nat)
    requires k < |order| && NoDuplicates(order)
    ensures var other := [order[k]] + (order[..k] + order[k + 1..]);
            && NoDuplicates(other) && ToSet(other) == ToSet(order)
            && forall x :: x in other <==> x in order
  {
    var rest := order[..k] + order[k + 1..];
    assert forall i :: 0 <= i < |rest| ==> rest[i] == order[if i < k then i else i + 1];
    assert order == order[..k] + [order[k]] + order[k + 1..];
    assert forall x :: x in [order[k]] + rest <==> x in order;
  }

  lemma MovedToFront(v: View, order: seq<string>, id: string) returns (other: seq<string>)
    requires "" !in v.nodes && NoDuplicates(order) && ToSet(order) == v.nodes.Keys && IsMaximal(v, order, id)
    ensures ToSet(other) == v.nodes.Keys && NoDuplicates(other) && Best(v, other).0 == id
  {
    assert id in ToSet(order);
    var k :| 0 <= k < |order| && order[k] == id;
    other := [id] + (order[..k] + order[k + 1..]);
    FrontIsPermutation(order, k);
    hide ToSet;
    assert forall x :: x in other <==> x in order;
    BestIsFirstMaximum(v, other);
    assert other[0] == id && IsMaximal(v, other, id);
  }
}
