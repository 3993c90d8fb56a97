/** Per-key /24 subnets and the host addresses inside them: the keyed allocator that skips subnets
already routed on the host, and the host counter of each subnet.  The arithmetic on subnets wraps at
32 bits, as in a build without overflow checks; host addresses are plain sums, which stay below 2^32
in every subnet that does not cross the end of the address space. */
module SubnetPools {
  import opened Wrappers
  import opened Cidr

  const SUBNET_SIZE: nat := 256
  const MAX_PROBES: nat := 64
  /** After this many subnets the byte offset of a subnet wraps around the address space. */
  const SUBNETS_PER_WORD: nat := 0x100_0000

  /** The subnet counter, the subnet of each key, and the next host offset by subnet base. */
  datatype Pools = Pools(nextSubnet: nat, subnets: map<string, IpRange>, counters: map<nat, nat>)

  function Wrap(x: nat): (r: nat)
    ensures r < WORD
  {
    x % WORD
  }

  /** The counter value idx lies past the end of the range. */
  predicate PastEnd(range: IpRange, idx: nat) {
    Wrap(Wrap(idx + 1) * SUBNET_SIZE) > range.size
  }

  function Candidate(range: IpRange, idx: nat): IpRange {
    IpRange(Wrap(range.base + Wrap(idx * SUBNET_SIZE)), SUBNET_SIZE)
  }

  predicate Taken(subnets: map<string, IpRange>, base: nat) {
    exists k :: k in subnets && subnets[k].base == base
  }

  /** At most `probes` steps of the search: the counter afterwards, and the subnet found. */
  function Probe(range: IpRange, p: Pools, live: set<nat>, probes: nat): (nat, Option<IpRange>)
    decreases probes
  {
    if probes == 0 then (p.nextSubnet, None)
    else
      var idx := p.nextSubnet;
      var c := Candidate(range, idx);
      var p' := p.(nextSubnet := Wrap(idx + 1));
      if PastEnd(range, idx) then (p'.nextSubnet, None)
      else if c.base in live || Taken(p.subnets, c.base) then Probe(range, p', live, probes - 1)
      else (p'.nextSubnet, Some(c))
  }

  /** subnet_for, with the subnets routed on the host as an input. */
  function SubnetForSpec(range: IpRange, p: Pools, key: string, live: set<nat>): (Pools, Option<IpRange>) {
    if key in p.subnets then (p, Some(p.subnets[key]))
    else
      var (next, found) := Probe(range, p, live, MAX_PROBES);
      match found
      case None => (p.(nextSubnet := next), None)
      case Some(c) => (p.(nextSubnet := next, subnets := p.subnets[key := c]), Some(c))
  }

  /** allocate_in: the next host address of a subnet. */
  function AllocateInSpec(p: Pools, subnet: IpRange): (Pools, Option<nat>)
    requires subnet.size >= 1
  {
    var current := if subnet.base in p.counters then p.counters[subnet.base] else 2;
    if current >= subnet.size - 1 then (p.(counters := p.counters[subnet.base := current]), None)
    else (p.(counters := p.counters[subnet.base := current + 1]), Some(subnet.base + current))
  }

  class Ipam {
    const range: IpRange
    var nextSubnet: nat
    var subnets: map<string, IpRange>
    var counters: map<nat, nat>

    ghost function View(): Pools
      reads this
    {
      Pools(nextSubnet, subnets, counters)
    }

    ghost predicate Valid()
      reads this
    {
      forall b :: b in counters ==> counters[b] >= 2
    }

    /** The address was returned as a host of the subnet at the base address. */
    ghost predicate WasIssued(base: nat, a: nat)
      reads this
    {
      base + 2 <= a < base + if base in counters then counters[base] else 2
    }

    constructor (range: IpRange)
      ensures Valid() && this.range == range && View() == Pools(0, map[], map[])
    {
      this.range := range;
      nextSubnet, subnets, counters := 0, map[], map[];
    }

    method SubnetFor(key: string, live: set<nat>) returns (r: Option<IpRange>)
      modifies this`nextSubnet, this`subnets
      ensures (View(), r) == SubnetForSpec(range, old(View()), key, live)
    {
      if key in subnets { return Some(subnets[key]); }
      ghost var start := View();
      for probe := 0 to MAX_PROBES
        invariant subnets == start.subnets && counters == start.counters
        invariant Probe(range, start, live, MAX_PROBES) == Probe(range, View(), live, MAX_PROBES - probe)
      {
        var idx := nextSubnet;
        nextSubnet := Wrap(nextSubnet + 1);
        if Wrap(Wrap(idx + 1) * SUBNET_SIZE) > range.size { return None; }
        var subnet := IpRange(Wrap(range.base + Wrap(idx * SUBNET_SIZE)), SUBNET_SIZE);
        if subnet.base in live { continue; }
        if exists k :: k in subnets && subnets[k].base == subnet.base { continue; }
        subnets := subnets[key := subnet];
        return Some(subnet);
      }
      r := None;
    }

    /** Returns a host address of the subnet that was not returned before, as long as there is one. */
    method AllocateIn(subnet: IpRange) returns (r: Option<nat>)
      requires Valid() && subnet.size >= 1
      modifies this`counters
      ensures Valid() && (View(), r) == AllocateInSpec(old(View()), subnet)
      ensures r.None? <==> forall a :: IsHost(subnet, a) ==> old(WasIssued(subnet.base, a))
      ensures r.Some? ==> IsHost(subnet, r.value) && !old(WasIssued(subnet.base, r.value))
      ensures forall b: nat, a: nat :: WasIssued(b, a) <==> old(WasIssued(b, a)) || (b == subnet.base && r == Some(a))
    {
      if subnet.base !in counters { counters := counters[subnet.base := 2]; }
      var current := counters[subnet.base];
      assert counters == counters[subnet.base := current] == old(counters)[subnet.base := current];
      if current >= subnet.size - 1 { return None; }
      assert IsHost(subnet, subnet.base + current);
      counters := counters[subnet.base := current + 1];
      assert counters == old(counters)[subnet.base := current + 1];
      r := Some(subnet.base + current);
    }
  }

  /** An address of the subnet that is not its own, its gateway's or its last one. */
  predicate IsHost(subnet: IpRange, a: nat) {
    subnet.base + 1 < a < subnet.base + subnet.size - 1
  }

  lemma ScaleOnce(x: nat)
    ensures Wrap(x * SUBNET_SIZE) == (x % SUBNETS_PER_WORD) * SUBNET_SIZE
  {
    var q, r := x / SUBNETS_PER_WORD, x % SUBNETS_PER_WORD;
    assert x * SUBNET_SIZE == WORD * q + r * SUBNET_SIZE;
    RemainderIs(x * SUBNET_SIZE, WORD, q, r * SUBNET_SIZE);
  }

  lemma WrapKeepsLowBits(x: nat)
    ensures Wrap(x) % SUBNETS_PER_WORD == x % SUBNETS_PER_WORD
  {
    var q, y := x / WORD, Wrap(x);
    var i, r := y / SUBNETS_PER_WORD, y % SUBNETS_PER_WORD;
    assert x == SUBNETS_PER_WORD * (256 * q + i) + r;
    RemainderIs(x, SUBNETS_PER_WORD, 256 * q + i, r);
  }

  /** Multiplying by the subnet size modulo 2^32 only sees the counter modulo 2^24. */
  lemma ScaleWraps(x: nat)
    ensures Wrap(Wrap(x) * SUBNET_SIZE) == (x % SUBNETS_PER_WORD) * SUBNET_SIZE
    ensures Wrap(x * SUBNET_SIZE) == (x % SUBNETS_PER_WORD) * SUBNET_SIZE
  {
    hide Wrap;
    ScaleOnce(x);
    ScaleOnce(Wrap(x));
    WrapKeepsLowBits(x);
  }

  /** The i-th /24 after the counter lies inside the range and is neither routed nor held by a key. */
  ghost predicate Offered(range: IpRange, p: Pools, live: set<nat>, i: nat) {
    var base := range.base + 256 * (p.nextSubnet + i);
    && 256 * (p.nextSubnet + i + 1) <= range.size
    && base !in live
    && forall k :: k in p.subnets ==> p.subnets[k].base != base
  }

  /** The first of the next 64 that is, if there is one. */
  ghost predicate FirstOffered(range: IpRange, p: Pools, live: set<nat>, i: nat) {
    i < 64 && Offered(range, p, live, i) && forall j :: 0 <= j < i ==> !Offered(range, p, live, j)
  }

  /** A call for a new key, before the counter comes to wrap: it succeeds if and only if one of the
      next 64 subnets lies inside the range and is neither routed nor held, returns the first of
      these, and leaves the counter behind it. */
  lemma NewKeyGetsFirstOffered(range: IpRange, p: Pools, key: string, live: set<nat>)
    requires InAddressSpace(range) && p.nextSubnet + 64 < 16777216 && key !in p.subnets
    ensures var (p', r) := SubnetForSpec(range, p, key, live);
            && (r.Some? <==> exists i :: 0 <= i < 64 && Offered(range, p, live, i))
            && (forall i :: FirstOffered(range, p, live, i) ==>
                  && r == Some(IpRange(range.base + 256 * (p.nextSubnet + i), 256))
                  && p' == p.(nextSubnet := p.nextSubnet + i + 1, subnets := p.subnets[key := r.value]))
            && (r.None? ==> p'.subnets == p.subnets && p.nextSubnet < p'.nextSubnet <= p.nextSubnet + 64)
  {
    hide Offered, Probe;
    ProbeFindsFirst(range, p, live, 64, p, 0);
    ProbeAdvances(range, p, live, MAX_PROBES);
  }

  /** The search from i probes on. */
  lemma {:induction false} ProbeFindsFirst(range: IpRange, p: Pools, live: set<nat>, probes: nat, start: Pools, i: nat)
    requires InAddressSpace(range) && start.nextSubnet + 64 < 16777216 && i + probes == 64
    requires p == start.(nextSubnet := start.nextSubnet + i)
    requires forall j :: 0 <= j < i ==> !Offered(range, start, live, j)
    ensures var (next, found) := Probe(range, p, live, probes);
            && (found.Some? <==> exists j :: 0 <= j < 64 && Offered(range, start, live, j))
            && (forall j :: FirstOffered(range, start, live, j) ==>
                  && next == start.nextSubnet + j + 1
                  && found == Some(IpRange(range.base + 256 * (start.nextSubnet + j), 256)))
    decreases probes
  {
    if probes > 0 {
      OfferedIff(range, start, live, i);
      if PastEnd(range, p.nextSubnet) { NoneFurther(range, start, live, i); }
      hide Offered, PastEnd, Candidate, Taken;
      if !Offered(range, start, live, i) && !PastEnd(range, p.nextSubnet) {
        ProbeFindsFirst(range, p.(nextSubnet := Wrap(p.nextSubnet + 1)), live, probes - 1, start, i + 1);
      }
    }
  }

  /** One probe accepts its candidate if and only if it is offered. */
  lemma OfferedIff(range: IpRange, p: Pools, live: set<nat>, i: nat)
    requires InAddressSpace(range) && p.nextSubnet + i + 1 < 16777216
    ensures var idx := p.nextSubnet + i;
            && Wrap(idx + 1) == idx + 1
            && (PastEnd(range, idx) <==> 256 * (idx + 1) > range.size)
            && (!PastEnd(range, idx) ==> Candidate(range, idx) == IpRange(range.base + 256 * idx, 256))
            && (Offered(range, p, live, i) <==>
                !PastEnd(range, idx) && Candidate(range, idx).base !in live &&
                !Taken(p.subnets, Candidate(range, idx).base))
  {
    var idx := p.nextSubnet + i;
    ScaleWraps(idx + 1);
    ScaleWraps(idx);
    if 256 * (idx + 1) <= range.size { WrapOnce(range.base + 256 * idx); }
    hide Wrap;
  }

  lemma NoneFurther(range: IpRange, p: Pools, live: set<nat>, i: nat)
    requires 256 * (p.nextSubnet + i + 1) > range.size
    ensures forall j :: j >= i ==> !Offered(range, p, live, j)
  {
  }

  ghost predicate InAddressSpace(range: IpRange) {
    range.size < WORD && range.base + range.size <= WORD
  }

  /** The subnet offered at counter value idx lies inside the range if and only if idx + 1 is not a
      multiple of 2^24: there the end test wraps to zero and the offer is the /24 before the range. */
  lemma OfferInsideIff(range: IpRange, idx: nat)
    requires InAddressSpace(range) && !PastEnd(range, idx)
    ensures Nested(Candidate(range, idx), range) <==> (idx + 1) % SUBNETS_PER_WORD != 0
  {
    ScaleWraps(idx + 1);
    ScaleWraps(idx);
    PreviousIndex(idx);
    var r, offset := (idx + 1) % SUBNETS_PER_WORD, Wrap(idx * SUBNET_SIZE);
    WrapOnce(range.base + offset);
    hide Wrap;
    if r != 0 {
      assert offset + SUBNET_SIZE == r * SUBNET_SIZE <= range.size;
    } else {
      assert offset == WORD - SUBNET_SIZE;
    }
  }

  lemma PreviousIndex(idx: nat)
    ensures idx % SUBNETS_PER_WORD ==
            if (idx + 1) % SUBNETS_PER_WORD == 0 then SUBNETS_PER_WORD - 1 else (idx + 1) % SUBNETS_PER_WORD - 1
  {
  }

  lemma WrapOnce(x: nat)
    requires x < 2 * WORD
    ensures Wrap(x) == if x < WORD then x else x - WORD
  {
  }

  /** The probe that found a subnet did so at some counter value that was not past the end. */
  lemma {:induction false} ProbeFinds(range: IpRange, p: Pools, live: set<nat>, probes: nat) returns (idx: nat)
    requires Probe(range, p, live, probes).1.Some?
    ensures Probe(range, p, live, probes) == (Wrap(idx + 1), Some(Candidate(range, idx))) && !PastEnd(range, idx)
    ensures Candidate(range, idx).base !in live && !Taken(p.subnets, Candidate(range, idx).base)
    decreases probes
  {
    hide Wrap, PastEnd, Candidate, Taken;
    idx := p.nextSubnet;
    var c := Candidate(range, idx);
    if c.base in live || Taken(p.subnets, c.base) {
      idx := ProbeFinds(range, p.(nextSubnet := Wrap(idx + 1)), live, probes - 1);
    }
  }

  /** The subnets in use are /24s on the same grid, no two keys share one, and every host counter is
      between the first host and the last address. */
  ghost predicate PoolsInv(range: IpRange, p: Pools) {
    && (forall k :: k in p.subnets ==> OnGrid(range, p.subnets[k]))
    && (forall k, l :: k in p.subnets && l in p.subnets && k != l ==> p.subnets[k].base != p.subnets[l].base)
    && (forall b :: b in p.counters ==> 2 <= p.counters[b] <= SUBNET_SIZE - 1)
  }

  ghost predicate OnGrid(range: IpRange, s: IpRange) {
    s.size == SUBNET_SIZE && s.base % SUBNET_SIZE == range.base % SUBNET_SIZE
  }

  lemma CandidateOnGrid(range: IpRange, idx: nat)
    ensures OnGrid(range, Candidate(range, idx))
  {
    ScaleWraps(idx);
  }

  lemma GridDisjoint(range: IpRange, a: IpRange, b: IpRange)
    requires OnGrid(range, a) && OnGrid(range, b) && a.base != b.base
    ensures Disjoint(a, b)
  {
  }

  /** One call to subnet_for keeps the invariant, keeps every key's subnet, and gives a new key a
      subnet that was not routed on the host. */
  lemma SubnetForStep(range: IpRange, p: Pools, key: string, live: set<nat>)
    requires PoolsInv(range, p)
    ensures var (p', r) := SubnetForSpec(range, p, key, live);
            && PoolsInv(range, p') && p'.counters == p.counters && (key in p.subnets ==> p' == p)
            && (forall k :: k in p.subnets ==> k in p'.subnets && p'.subnets[k] == p.subnets[k])
            && (r.Some? <==> key in p'.subnets)
            && (r.Some? ==> p'.subnets[key] == r.value)
            && (r.Some? && key !in p.subnets ==> r.value.base !in live)
  {
    hide Probe, Candidate, Wrap, OnGrid;
    if key !in p.subnets && Probe(range, p, live, MAX_PROBES).1.Some? {
      var idx := ProbeFinds(range, p, live, MAX_PROBES);
      CandidateOnGrid(range, idx);
    }
  }

  lemma AllocateInStep(range: IpRange, p: Pools, key: string)
    requires PoolsInv(range, p) && key in p.subnets
    ensures PoolsInv(range, AllocateInSpec(p, p.subnets[key]).0)
  {
  }

  /** A call of the allocator; host addresses are asked for in the subnet of a key. */
  datatype Op = SubnetFor(key: string, live: set<nat>) | AllocateIn(key: string)

  datatype Grant = Grant(key: string, address: nat)

  /** The allocator and every host address it has returned, in order. */
  datatype World = World(pools: Pools, log: seq<Grant>)

  function Step(range: IpRange, w: World, op: Op): World {
    match op
    case SubnetFor(key, live) => w.(pools := SubnetForSpec(range, w.pools, key, live).0)
    case AllocateIn(key) =>
      if key !in w.pools.subnets || w.pools.subnets[key].size == 0 then w
      else
        var (p, r) := AllocateInSpec(w.pools, w.pools.subnets[key]);
        World(p, w.log + if r.Some? then [Grant(key, r.value)] else [])
  }

  function Run(range: IpRange, ops: seq<Op>): World {
    if ops == [] then World(Pools(0, map[], map[]), [])
    else Step(range, Run(range, ops[..|ops| - 1]), ops[|ops| - 1])
  }

  /** A logged address is a host offset of its key's subnet below that subnet's counter. */
  ghost predicate Logged(p: Pools, g: Grant) {
    && g.key in p.subnets
    && var b := p.subnets[g.key].base; b in p.counters && b + 2 <= g.address < b + p.counters[b]
  }

  ghost predicate WorldInv(range: IpRange, w: World) {
    && PoolsInv(range, w.pools)
    && (forall i :: 0 <= i < |w.log| ==> Logged(w.pools, w.log[i]))
    && NoDuplicates(w.log)
  }

  lemma StepKeepsInv(range: IpRange, w: World, op: Op)
    requires WorldInv(range, w)
    ensures WorldInv(range, Step(range, w, op))
  {
    match op
    case SubnetFor(key, live) => SubnetForStep(range, w.pools, key, live);
    case AllocateIn(key) =>
      if key in w.pools.subnets {
        AllocateInStep(range, w.pools, key);
        AllocateInLogs(range, w, key);
      }
  }

  lemma AllocateInLogs(range: IpRange, w: World, key: string)
    requires WorldInv(range, w) && key in w.pools.subnets
    ensures var w' := Step(range, w, AllocateIn(key));
            (forall i :: 0 <= i < |w'.log| ==> Logged(w'.pools, w'.log[i])) && NoDuplicates(w'.log)
  {
    hide OnGrid;
    var b := w.pools.subnets[key].base;
    var w' := Step(range, w, AllocateIn(key));
    forall i | 0 <= i < |w.log|
      ensures Logged(w'.pools, w.log[i])
      ensures b in w.pools.counters && w.log[i].key == key ==> w.log[i].address < b + w.pools.counters[b]
    {
      assert Logged(w.pools, w.log[i]);
    }
  }

  lemma {:induction false} RunKeepsInv(range: IpRange, ops: seq<Op>)
    ensures WorldInv(range, Run(range, ops))
  {
    if ops != [] {
      RunKeepsInv(range, ops[..|ops| - 1]);
      StepKeepsInv(range, Run(range, ops[..|ops| - 1]), ops[|ops| - 1]);
    }
  }

  /** Over every run, whatever the host routes: distinct keys hold disjoint /24s, and a key keeps the
      subnet it has. */
  lemma {:induction false} SubnetsStayApart(range: IpRange, ops: seq<Op>, n: nat)
    requires n <= |ops|
    ensures var p := Run(range, ops).pools;
            forall k, l :: k in p.subnets && l in p.subnets && k != l ==> Disjoint(p.subnets[k], p.subnets[l])
    ensures var p, p' := Run(range, ops[..n]).pools, Run(range, ops).pools;
            forall k :: k in p.subnets ==> k in p'.subnets && p'.subnets[k] == p.subnets[k]
  {
    RunKeepsInv(range, ops);
    var p := Run(range, ops).pools;
    forall k, l | k in p.subnets && l in p.subnets && k != l ensures Disjoint(p.subnets[k], p.subnets[l]) {
      GridDisjoint(range, p.subnets[k], p.subnets[l]);
    }
    if n < |ops| {
      var m := |ops| - 1;
      SubnetsStayApart(range, ops[..m], n);
      assert ops[..m][..n] == ops[..n];
      RunKeepsInv(range, ops[..m]);
      if ops[m].SubnetFor? { SubnetForStep(range, Run(range, ops[..m]).pools, ops[m].key, ops[m].live); }
    } else {
      assert ops[..n] == ops;
    }
  }

  /** A call that assigns a subnet assigns one inside the range if and only if it does not leave the
      counter at a multiple of 2^24. */
  lemma AssignedInsideIff(range: IpRange, p: Pools, key: string, live: set<nat>)
    requires InAddressSpace(range) && key !in p.subnets && SubnetForSpec(range, p, key, live).1.Some?
    ensures var (p', r) := SubnetForSpec(range, p, key, live);
            Nested(r.value, range) <==> p'.nextSubnet % SUBNETS_PER_WORD != 0
  {
    hide Probe, Wrap, PastEnd, Candidate;
    var idx := ProbeFinds(range, p, live, MAX_PROBES);
    OfferInsideIff(range, idx);
    WrapKeepsLowBits(idx + 1);
  }

  /** The counter is right before a multiple of 2^24, and nothing stands in the way of the offer there. */
  predicate AtWrap(range: IpRange, p: Pools, live: set<nat>) {
    var base := Candidate(range, p.nextSubnet).base;
    (p.nextSubnet + 1) % SUBNETS_PER_WORD == 0 && base !in live && !Taken(p.subnets, base)
  }

  /** The same told before the call, for ranges of less than the address space without one subnet: it
      assigns a subnet inside the range if and only if the counter is not right before a multiple of
      2^24 with the offer there neither routed nor taken. */
  lemma AssignedInsideIffBefore(range: IpRange, p: Pools, key: string, live: set<nat>)
    requires InAddressSpace(range) && range.size < WORD - SUBNET_SIZE
    requires key !in p.subnets && SubnetForSpec(range, p, key, live).1.Some?
    ensures Nested(SubnetForSpec(range, p, key, live).1.value, range) <==> !AtWrap(range, p, live)
  {
    var idx := p.nextSubnet;
    if (idx + 1) % SUBNETS_PER_WORD != 0 {
      ProbeStaysInside(range, p, live, MAX_PROBES);
    } else {
      WrapOffers(range, idx);
      hide PastEnd, Candidate, Taken, Nested;
      if !AtWrap(range, p, live) { ProbeStaysInside(range, p.(nextSubnet := Wrap(idx + 1)), live, MAX_PROBES - 1); }
    }
  }

  lemma WrapOffers(range: IpRange, idx: nat)
    requires InAddressSpace(range) && (idx + 1) % SUBNETS_PER_WORD == 0
    ensures !PastEnd(range, idx) && !Nested(Candidate(range, idx), range)
    ensures (Wrap(idx + 1) + 1) % SUBNETS_PER_WORD != 0
  {
    ScaleWraps(idx + 1);
    WrapKeepsLowBits(idx + 1);
    hide Wrap, Candidate;
    OfferInsideIff(range, idx);
  }

  /** One step before a multiple of 2^24 every search gives up. */
  lemma {:induction false} ProbeStaysInside(range: IpRange, p: Pools, live: set<nat>, probes: nat)
    requires InAddressSpace(range) && range.size < WORD - SUBNET_SIZE
    requires (p.nextSubnet + 1) % SUBNETS_PER_WORD != 0 && Probe(range, p, live, probes).1.Some?
    ensures Nested(Probe(range, p, live, probes).1.value, range)
    decreases probes
  {
    hide PastEnd, Candidate, Taken, Nested, Wrap;
    var idx := p.nextSubnet;
    OfferInsideIff(range, idx);
    var c := Candidate(range, idx);
    if c.base in live || Taken(p.subnets, c.base) {
      NotYetAtWrap(range, idx);
      ProbeStaysInside(range, p.(nextSubnet := Wrap(idx + 1)), live, probes - 1);
    }
  }

  lemma NotYetAtWrap(range: IpRange, idx: nat)
    requires range.size < WORD - SUBNET_SIZE && !PastEnd(range, idx)
    ensures (Wrap(idx + 1) + 1) % SUBNETS_PER_WORD != 0
  {
    ScaleWraps(idx + 1);
    WrapKeepsLowBits(idx + 1);
    hide Wrap;
    PreviousIndex(Wrap(idx + 1));
  }

  /** The n-th call of a run assigns a subnet to its key. */
  ghost predicate Assigns(range: IpRange, ops: seq<Op>, n: int): (yes: bool)
    ensures yes ==> 0 <= n < |ops|
  {
    && 0 <= n < |ops| && ops[n].SubnetFor?
    && ops[n].key !in Run(range, ops[..n]).pools.subnets
    && ops[n].key in Run(range, ops[..n + 1]).pools.subnets
  }

  /** No assignment of the run leaves the counter at a multiple of 2^24. */
  ghost predicate NeverWraps(range: IpRange, ops: seq<Op>) {
    forall n :: Assigns(range, ops, n) ==> Run(range, ops[..n + 1]).pools.nextSubnet % SUBNETS_PER_WORD != 0
  }

  ghost predicate AllInside(range: IpRange, p: Pools) {
    forall k :: k in p.subnets ==> Nested(p.subnets[k], range)
  }

  /** Over every run, whatever the host routes: all subnets held lie inside the range if and only if
      no assignment left the counter at a multiple of 2^24. */
  lemma {:induction false} SubnetsInsideIff(range: IpRange, ops: seq<Op>)
    requires InAddressSpace(range)
    ensures AllInside(range, Run(range, ops).pools) <==> NeverWraps(range, ops)
  {
    hide Nested;
    if ops != [] {
      var m := |ops| - 1;
      SubnetsInsideIff(range, ops[..m]);
      LastCall(range, ops);
      NeverWrapsStep(range, ops);
      RunKeepsInv(range, ops[..m]);
      var p, p' := Run(range, ops[..m]).pools, Run(range, ops).pools;
      hide Run, Assigns;
      if ops[m].SubnetFor? {
        SubnetForStep(range, p, ops[m].key, ops[m].live);
        OthersStay(range, p, ops[m].key, ops[m].live);
        if Assigns(range, ops, m) {
          AssignedInsideIff(range, p, ops[m].key, ops[m].live);
        }
      }
    }
  }

  /** The last call of a run. */
  lemma LastCall(range: IpRange, ops: seq<Op>)
    requires ops != []
    ensures var m := |ops| - 1;
            var p, p' := Run(range, ops[..m]).pools, Run(range, ops).pools;
            && (ops[m].SubnetFor? ==> p' == SubnetForSpec(range, p, ops[m].key, ops[m].live).0)
            && (ops[m].AllocateIn? ==> p'.subnets == p.subnets)
            && (Assigns(range, ops, m) <==> ops[m].SubnetFor? && ops[m].key !in p.subnets && ops[m].key in p'.subnets)
  {
    hide SubnetForSpec;
    assert ops[..|ops| - 1 + 1] == ops;
  }

  lemma EarlierCall(range: IpRange, ops: seq<Op>, m: nat, n: nat)
    requires n < m <= |ops|
    ensures Assigns(range, ops[..m], n) <==> Assigns(range, ops, n)
    ensures Run(range, ops[..m][..n + 1]) == Run(range, ops[..n + 1])
  {
    hide Run;
    assert ops[..m][..n] == ops[..n] && ops[..m][..n + 1] == ops[..n + 1];
  }

  lemma NeverWrapsStep(range: IpRange, ops: seq<Op>)
    requires ops != []
    ensures var m := |ops| - 1;
            NeverWraps(range, ops) <==>
            NeverWraps(range, ops[..m]) &&
            (Assigns(range, ops, m) ==> Run(range, ops).pools.nextSubnet % SUBNETS_PER_WORD != 0)
  {
    hide Run;
    var m := |ops| - 1;
    assert ops[..m + 1] == ops;
    forall n: nat | n < m
      ensures Assigns(range, ops[..m], n) <==> Assigns(range, ops, n)
      ensures Run(range, ops[..m][..n + 1]) == Run(range, ops[..n + 1])
    {
      EarlierCall(range, ops, m, n);
    }
  }

  lemma OthersStay(range: IpRange, p: Pools, key: string, live: set<nat>)
    ensures var p' := SubnetForSpec(range, p, key, live).0;
            && p'.subnets.Keys <= p.subnets.Keys + {key}
            && (key in p.subnets ==> p' == p)
            && (key !in p.subnets && key in p'.subnets ==>
                 SubnetForSpec(range, p, key, live).1 == Some(p'.subnets[key]))
  {
    hide Probe;
  }

  /** As long as the counter stays below 2^24, distinct keys hold disjoint /24s inside the range. */
  lemma SubnetsStayInside(range: IpRange, ops: seq<Op>)
    requires InAddressSpace(range)
    requires forall m :: 0 <= m <= |ops| ==> Run(range, ops[..m]).pools.nextSubnet < SUBNETS_PER_WORD
    ensures var p := Run(range, ops).pools;
            && (forall k :: k in p.subnets ==> Nested(p.subnets[k], range))
            && (forall k, l :: k in p.subnets && l in p.subnets && k != l ==> Disjoint(p.subnets[k], p.subnets[l]))
  {
    hide Nested, Run, Assigns, Disjoint;
    forall n | Assigns(range, ops, n)
      ensures Run(range, ops[..n + 1]).pools.nextSubnet % SUBNETS_PER_WORD != 0
    {
      AssigningMovesOn(range, ops, n);
    }
    SubnetsInsideIff(range, ops);
    SubnetsStayApart(range, ops, |ops|);
  }

  lemma AssigningMovesOn(range: IpRange, ops: seq<Op>, n: int)
    requires Assigns(range, ops, n) && Run(range, ops[..n]).pools.nextSubnet < SUBNETS_PER_WORD
    ensures 0 <= n < |ops| && Run(range, ops[..n + 1]).pools.nextSubnet > 0
  {
    hide Probe;
    assert ops[..n + 1][..n] == ops[..n];
    ProbeAdvances(range, Run(range, ops[..n]).pools, ops[n].live, MAX_PROBES);
  }

  /** The host routes every /24 of the range. */
  function AllRouted(range: IpRange): set<nat> {
    set i | 0 <= i < range.size / SUBNET_SIZE :: Candidate(range, i).base
  }

  /** Below the last index the test against the end of the range is exact. */
  lemma PastEndIff(range: IpRange, idx: nat)
    requires idx < SUBNETS_PER_WORD - 1
    ensures PastEnd(range, idx) <==> idx >= range.size / SUBNET_SIZE
  {
    ScaleWraps(idx + 1);
  }

  lemma LastIndexIsFree(range: IpRange)
    requires InAddressSpace(range)
    ensures var idx := SUBNETS_PER_WORD - 1;
            !PastEnd(range, idx) && Candidate(range, idx).base !in AllRouted(range) &&
              !Nested(Candidate(range, idx), range)
  {
    hide Candidate;
    var idx := SUBNETS_PER_WORD - 1;
    ScaleWraps(idx + 1);
    OfferInsideIff(range, idx);
    forall i: nat | i < range.size / SUBNET_SIZE ensures Candidate(range, i).base != Candidate(range, idx).base {
      OffersDiffer(range, i, idx);
    }
  }

  /** With everything routed and nothing assigned, a search moves the counter on and finds nothing
      until it comes to the last index, whose offer it accepts. */
  lemma {:induction false} SearchToEnd(range: IpRange, p: Pools, probes: nat)
    requires InAddressSpace(range) && p.subnets == map[] && p.nextSubnet < SUBNETS_PER_WORD
    ensures var (next, found) := Probe(range, p, AllRouted(range), probes);
            && (found.Some? ==> !Nested(found.value, range))
            && (found.None? ==> p.nextSubnet + (if probes == 0 then 0 else 1) <= next < SUBNETS_PER_WORD)
    decreases probes
  {
    hide PastEnd, Candidate, AllRouted, Nested;
    if probes > 0 {
      var idx := p.nextSubnet;
      assert Wrap(idx + 1) == idx + 1;
      if idx == SUBNETS_PER_WORD - 1 {
        LastIndexIsFree(range);
      } else {
        PastEndIff(range, idx);
        if !PastEnd(range, idx) {
          RoutedIn(range, idx);
          SearchToEnd(range, p.(nextSubnet := idx + 1), probes - 1);
        }
      }
    }
  }

  lemma RoutedIn(range: IpRange, idx: nat)
    requires idx < range.size / SUBNET_SIZE
    ensures Candidate(range, idx).base in AllRouted(range)
  {
  }

  /** For every range there is a run that ends with a subnet outside it: while the host routes all of
      the range each call for a key fails and moves the counter on, up to the 2^24-th offer. */
  lemma OutsideRun(range: IpRange) returns (ops: seq<Op>)
    requires InAddressSpace(range)
    ensures forall i :: 0 <= i < |ops| ==> ops[i] == SubnetFor("pod", AllRouted(range))
    ensures forall b :: b in AllRouted(range) ==> Contains(range, b)
    ensures var p := Run(range, ops).pools; "pod" in p.subnets && !Nested(p.subnets["pod"], range)
  {
    ops := FailingRun(range, []);
    RoutesLieInside(range);
  }

  lemma RoutesLieInside(range: IpRange)
    requires InAddressSpace(range)
    ensures forall b :: b in AllRouted(range) ==> Contains(range, b)
  {
    hide PastEnd, Wrap;
    forall i: nat | i < range.size / SUBNET_SIZE ensures Contains(range, Candidate(range, i).base) {
      PastEndIff(range, i);
      OfferInsideIff(range, i);
    }
  }

  lemma {:induction false} FailingRun(range: IpRange, done: seq<Op>) returns (ops: seq<Op>)
    requires InAddressSpace(range)
    requires forall i :: 0 <= i < |done| ==> done[i] == SubnetFor("pod", AllRouted(range))
    requires Run(range, done).pools.subnets == map[] && Run(range, done).pools.nextSubnet < SUBNETS_PER_WORD
    ensures forall i :: 0 <= i < |ops| ==> ops[i] == SubnetFor("pod", AllRouted(range))
    ensures var p := Run(range, ops).pools; "pod" in p.subnets && !Nested(p.subnets["pod"], range)
    decreases SUBNETS_PER_WORD - Run(range, done).pools.nextSubnet
  {
    hide Probe, AllRouted, Nested, WorldInv;
    ops := done + [SubnetFor("pod", AllRouted(range))];
    assert ops[..|done|] == done;
    var p := Run(range, done).pools;
    SearchToEnd(range, p, MAX_PROBES);
    assert Run(range, ops).pools == SubnetForSpec(range, p, "pod", AllRouted(range)).0;
    if Probe(range, p, AllRouted(range), MAX_PROBES).1.None? { ops := FailingRun(range, ops); }
  }

  /** Over every run, the host addresses returned are pairwise distinct across all keys, and each
      lies in its own key's subnet, after the gateway and before the last address. */
  lemma HostAddressesAreUnique(range: IpRange, ops: seq<Op>)
    ensures var w := Run(range, ops);
            && (forall i, j :: 0 <= i < j < |w.log| ==> w.log[i].address != w.log[j].address)
            && (forall i :: 0 <= i < |w.log| ==>
                  && w.log[i].key in w.pools.subnets
                  && IsHost(w.pools.subnets[w.log[i].key], w.log[i].address))
  {
    RunKeepsInv(range, ops);
    SubnetsStayApart(range, ops, |ops|);
    var w := Run(range, ops);
    forall i | 0 <= i < |w.log|
      ensures w.log[i].key in w.pools.subnets
      ensures Contains(w.pools.subnets[w.log[i].key], w.log[i].address)
    {
      assert Logged(w.pools, w.log[i]);
    }
  }

  /** The search without the comparison against the subnets in memory. */
  function UncheckedProbe(range: IpRange, p: Pools, live: set<nat>, probes: nat): (nat, Option<IpRange>)
    decreases probes
  {
    if probes == 0 then (p.nextSubnet, None)
    else
      var idx := p.nextSubnet;
      var c := Candidate(range, idx);
      var p' := p.(nextSubnet := Wrap(idx + 1));
      if PastEnd(range, idx) then (p'.nextSubnet, None)
      else if c.base in live then UncheckedProbe(range, p', live, probes - 1)
      else (p'.nextSubnet, Some(c))
  }

  /** Every subnet in use was offered at a smaller counter value. */
  ghost predicate OfferedBefore(range: IpRange, p: Pools) {
    forall k :: k in p.subnets ==> WasOffered(range, p.subnets[k], p.nextSubnet)
  }

  ghost predicate WasOffered(range: IpRange, s: IpRange, next: nat) {
    exists i :: 0 <= i < next && s == Candidate(range, i)
  }

  lemma OffersDiffer(range: IpRange, i: nat, j: nat)
    requires i < j < SUBNETS_PER_WORD
    ensures Candidate(range, i).base != Candidate(range, j).base
  {
    ScaleWraps(i);
    ScaleWraps(j);
    assert Candidate(range, i).base == Wrap(range.base + i * SUBNET_SIZE);
    assert Candidate(range, j).base == Wrap(range.base + j * SUBNET_SIZE);
  }

  /** As long as the search ends with the counter at most 2^24, comparing the offers with the
      subnets in memory changes nothing. */
  lemma {:induction false} CheckIsRedundant(range: IpRange, p: Pools, live: set<nat>, probes: nat)
    requires OfferedBefore(range, p) && p.nextSubnet <= SUBNETS_PER_WORD && probes <= MAX_PROBES
    requires Probe(range, p, live, probes).0 <= SUBNETS_PER_WORD
    ensures Probe(range, p, live, probes) == UncheckedProbe(range, p, live, probes)
    ensures var (next, found) := Probe(range, p, live, probes);
            p.nextSubnet <= next && (found.Some? ==> WasOffered(range, found.value, next))
    decreases probes
  {
    hide Candidate, PastEnd;
    ProbeAdvances(range, p, live, probes);
    if probes > 0 {
      var idx := p.nextSubnet;
      forall k | k in p.subnets ensures p.subnets[k].base != Candidate(range, idx).base {
        var i :| 0 <= i < idx && p.subnets[k] == Candidate(range, i);
        OffersDiffer(range, i, idx);
      }
      assert WasOffered(range, Candidate(range, idx), idx + 1);
      var p' := p.(nextSubnet := Wrap(idx + 1));
      forall k | k in p'.subnets ensures WasOffered(range, p'.subnets[k], p'.nextSubnet) {
        var i :| 0 <= i < idx && p.subnets[k] == Candidate(range, i);
      }
      if !PastEnd(range, idx) && Candidate(range, idx).base in live {
        CheckIsRedundant(range, p', live, probes - 1);
      }
    }
  }

  lemma {:induction false} ProbeAdvances(range: IpRange, p: Pools, live: set<nat>, probes: nat)
    requires p.nextSubnet + probes < WORD
    ensures p.nextSubnet + (if probes == 0 then 0 else 1) <= Probe(range, p, live, probes).0 <= p.nextSubnet + probes
    decreases probes
  {
    hide Candidate, PastEnd, Taken;
    if probes > 0 { ProbeAdvances(range, p.(nextSubnet := Wrap(p.nextSubnet + 1)), live, probes - 1); }
  }

  /** Over every run during which the counter has not passed 2^24, the comparison against the
      subnets in memory never rejects an offer: the counter alone keeps keys apart. */
  lemma {:induction false} CounterAloneSuffices(range: IpRange, ops: seq<Op>, n: nat)
    requires forall m :: 0 <= m <= |ops| ==> Run(range, ops[..m]).pools.nextSubnet <= SUBNETS_PER_WORD
    requires n < |ops| && ops[n].SubnetFor? && ops[n].key !in Run(range, ops[..n]).pools.subnets
    ensures var p := Run(range, ops[..n]).pools;
            Probe(range, p, ops[n].live, MAX_PROBES) == UncheckedProbe(range, p, ops[n].live, MAX_PROBES)
  {
    hide Probe, UncheckedProbe;
    RunOffers(range, ops, n);
    assert ops[..n + 1][..n] == ops[..n];
    assert Run(range, ops[..n + 1]).pools.nextSubnet <= SUBNETS_PER_WORD;
    CheckIsRedundant(range, Run(range, ops[..n]).pools, ops[n].live, MAX_PROBES);
  }

  lemma {:induction false} RunOffers(range: IpRange, ops: seq<Op>, n: nat)
    requires forall m :: 0 <= m <= |ops| ==> Run(range, ops[..m]).pools.nextSubnet <= SUBNETS_PER_WORD
    requires n <= |ops|
    ensures OfferedBefore(range, Run(range, ops[..n]).pools)
  {
    hide Probe, Candidate;
    if n > 0 {
      RunOffers(range, ops, n - 1);
      assert ops[..n][..n - 1] == ops[..n - 1];
      var q, op := Run(range, ops[..n - 1]).pools, ops[n - 1];
      assert Run(range, ops[..n]).pools.nextSubnet <= SUBNETS_PER_WORD;
      assert q.nextSubnet <= SUBNETS_PER_WORD;
      if op.SubnetFor? { SubnetForOffers(range, q, op.key, op.live); }
    }
  }

  lemma SubnetForOffers(range: IpRange, p: Pools, key: string, live: set<nat>)
    requires OfferedBefore(range, p) && p.nextSubnet <= SUBNETS_PER_WORD
    requires SubnetForSpec(range, p, key, live).0.nextSubnet <= SUBNETS_PER_WORD
    ensures OfferedBefore(range, SubnetForSpec(range, p, key, live).0)
  {
    hide Probe, UncheckedProbe, Candidate;
    if key !in p.subnets {
      CheckIsRedundant(range, p, live, MAX_PROBES);
      var p' := SubnetForSpec(range, p, key, live).0;
      forall k | k in p'.subnets ensures WasOffered(range, p'.subnets[k], p'.nextSubnet) {
        if k in p.subnets {
          var i :| 0 <= i < p.nextSubnet && p.subnets[k] == Candidate(range, i);
        }
      }
    }
  }
}
