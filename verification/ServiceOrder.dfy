/** The order in which compose services are started: a depth-first search over the dependencies
that tolerates cycles and visits the dependencies of a service in any order. */
module ServiceOrder {
  import opened Wrappers
  import opened Graph

  /** The services of a project with the names each depends on, known or not. */
  type Services = map<string, set<string>>

  /** The dependencies between known services. */
  ghost function Known(services: Services): map<string, set<string>> {
    map n | n in services :: set d | d in services[n] && d in services
  }

  /** In the order, v stands before u. */
  ghost predicate Before(order: seq<string>, v: string, u: string) {
    exists i, j :: 0 <= i < j < |order| && order[i] == v && order[j] == u
  }

  /** Every service of the order stands after each known dependency that does not depend on it in
      turn. */
  ghost predicate Ordered(services: Services, order: seq<string>) {
    forall u, v :: u in order && Edge(Known(services), u, v) && !Reaches(Known(services), v, u) ==> Before(order, v, u)
  }

  lemma KnownEdge(services: Services, n: string, d: string)
    ensures Edge(Known(services), n, d) <==> n in services && d in services[n] && d in services
  {
  }

  /** Some root depends on n, directly or not. */
  ghost predicate Needed(services: Services, roots: set<string>, n: string) {
    exists r :: r in roots && Reaches(Known(services), r, n)
  }

  /** Every service on the stack depends on n. */
  ghost predicate StackLeadsTo(services: Services, stack: set<string>, n: string) {
    forall s :: s in stack ==> Reaches(Known(services), s, n)
  }

  lemma Descend(services: Services, roots: set<string>, stack: set<string>, n: string, d: string)
    requires Needed(services, roots, n) && StackLeadsTo(services, stack, n)
    requires n in services && d in services[n] && d in services
    ensures Needed(services, roots, d) && StackLeadsTo(services, stack + {n}, d)
  {
    var g := Known(services);
    KnownEdge(services, n, d);
    ReachesSelf(g, n);
    forall s | s in stack + {n} ensures Reaches(g, s, d) { ReachesStep(g, s, n, d); }
    var r :| r in roots && Reaches(g, r, n);
    ReachesStep(g, r, n, d);
  }

  lemma BeforeAppend(order: seq<string>, v: string, u: string, name: string)
    ensures Before(order, v, u) ==> Before(order + [name], v, u)
    ensures v in order ==> Before(order + [name], v, name)
  {
    if Before(order, v, u) {
      var i, j :| 0 <= i < j < |order| && order[i] == v && order[j] == u;
      assert (order + [name])[i] == v && (order + [name])[j] == u;
    }
    if v in order {
      var i :| 0 <= i < |order| && order[i] == v;
      assert (order + [name])[i] == v && (order + [name])[|order|] == name;
    }
  }

  /** Appending a service all of whose dependencies were dealt with: each is already in the order or
      depends on the service itself. */
  lemma OrderedAppend(services: Services, stack: set<string>, order: seq<string>, name: string)
    requires Ordered(services, order) && StackLeadsTo(services, stack, name)
    requires name in services ==> forall d :: d in services[name] && d in services ==> d in order || d in stack + {name}
    ensures Ordered(services, order + [name])
  {
    var g := Known(services);
    ReachesSelf(g, name);
    forall v | Edge(g, name, v) ensures v in order || Reaches(g, v, name) {
      KnownEdge(services, name, v);
    }
    forall u, v | u in order + [name] && Edge(g, u, v) && !Reaches(g, v, u)
      ensures Before(order + [name], v, u)
    {
      BeforeAppend(order, v, u, name);
    }
  }

  class Sorter {
    const services: Services
    var visited: set<string>
    var inStack: set<string>
    var order: seq<string>

    constructor (services: Services)
      ensures this.services == services && visited == {} && inStack == {} && order == []
    {
      this.services := services;
      visited, inStack, order := {}, {}, [];
    }

    /** The order holds exactly the visited services, once each, in a proper order. */
    ghost predicate Valid()
      reads this
    {
      && NoDuplicates(order)
      && ToSet(order) == visited
      && visited !! inStack
      && Ordered(services, order)
      && (forall n, d :: n in visited && n in services && d in services[n] && d in services ==> d in visited + inStack)
    }

    /** Visits name and, before it, whatever it depends on.  Every service on the stack depends on
        name, and name is needed by some root; only needed services are visited. */
    method Visit(name: string, ghost roots: set<string>)
      requires Valid() && inStack <= services.Keys
      requires StackLeadsTo(services, inStack, name) && Needed(services, roots, name)
      modifies this`visited, this`inStack, this`order
      ensures Valid() && inStack == old(inStack) && old(visited) <= visited
      ensures name in visited + inStack
      ensures name !in old(visited + inStack) ==> order != [] && order[|order| - 1] == name
      ensures forall n :: n in visited - old(visited) ==> Needed(services, roots, n)
      decreases services.Keys - inStack
    {
      hide Ordered, Needed, StackLeadsTo;
      if name in visited { return; }
      if name in inStack { return; }
      ghost var stack, visited0 := inStack, visited;
      inStack := inStack + {name};
      var deps := if name in services then services[name] else {};
      ghost var done: set<string> := {};
      while deps != {}
        invariant Valid() && inStack == stack + {name} && visited0 <= visited
        invariant deps + done == if name in services then services[name] else {}
        invariant forall d :: d in done && d in services ==> d in visited + inStack
        invariant forall n :: n in visited - visited0 ==> Needed(services, roots, n)
        decreases |deps|
      {
        var dep :| dep in deps;
        deps := deps - {dep};
        if dep in services {
          Descend(services, roots, stack, name, dep);
          Visit(dep, roots);
        }
        done := done + {dep};
      }
      assert done == if name in services then services[name] else {};
      inStack := inStack - {name};
      visited := visited + {name};
      OrderedAppend(services, stack, order, name);
      order := order + [name];
    }
  }

  /** What the search leaves for the requested names: every needed service once, dependencies first,
      and a requested name last. */
  ghost predicate IsStartOrder(services: Services, names: seq<string>, order: seq<string>) {
    && NoDuplicates(order)
    && (forall n :: n in order <==> Needed(services, ToSet(names), n))
    && Ordered(services, order)
    && (order != [] ==> order[|order| - 1] in names)
  }

  /** copy(dst, src): as many elements as both have. */
  function CopyOver(dst: seq<string>, src: seq<string>): (r: seq<string>)
    ensures |r| == |dst|
  {
    if |src| <= |dst| then src + dst[|src|..] else src[..|dst|]
  }

  /** sortServices: terminates on every dependency graph and every iteration order, finds a start
      order of everything the names need, and overwrites the names with as much of it as fits. */
  method SortServices(names: array<string>, services: Services) returns (ghost order: seq<string>)
    modifies names
    ensures IsStartOrder(services, old(names[..]), order)
    ensures names[..] == CopyOver(old(names[..]), order)
  {
    var found := VisitAll(names[..], services);
    order := found;
    Copy(names, found);
  }

  /** The loop over the requested names. */
  method VisitAll(names: seq<string>, services: Services) returns (order: seq<string>)
    ensures IsStartOrder(services, names, order)
  {
    hide Needed, Ordered, StackLeadsTo, Known;
    ghost var roots := ToSet(names);
    var sorter := new Sorter(services);
    OrderedEmpty(services);
    for i := 0 to |names|
      invariant sorter.services == services && sorter.Valid() && sorter.inStack == {}
      invariant forall k :: 0 <= k < i ==> names[k] in sorter.visited
      invariant forall n :: n in sorter.visited ==> Needed(services, roots, n)
      invariant sorter.order != [] ==> sorter.order[|sorter.order| - 1] in names
    {
      if names[i] !in sorter.visited {
        NeedsItself(services, roots, names[i]);
        sorter.Visit(names[i], roots);
      }
    }
    order := sorter.order;
    forall n | Needed(services, roots, n) ensures n in sorter.visited {
      VisitedIsClosed(services, roots, sorter.visited, n);
    }
  }

  /** Go's copy. */
  method Copy(dst: array<string>, src: seq<string>)
    modifies dst
    ensures dst[..] == CopyOver(old(dst[..]), src)
  {
    var k := 0;
    while k < dst.Length && k < |src|
      invariant 0 <= k <= dst.Length && k <= |src|
      invariant forall i :: 0 <= i < k ==> dst[i] == src[i]
      invariant forall i :: k <= i < dst.Length ==> dst[i] == old(dst[i])
    {
      dst[k] := src[k];
      k := k + 1;
    }
  }

  lemma OrderedEmpty(services: Services)
    ensures Ordered(services, []) && forall n :: StackLeadsTo(services, {}, n)
  {
  }

  lemma NeedsItself(services: Services, roots: set<string>, n: string)
    requires n in roots
    ensures Needed(services, roots, n) && StackLeadsTo(services, {}, n)
  {
    ReachesSelf(Known(services), n);
  }

  lemma VisitedIsClosed(services: Services, roots: set<string>, visited: set<string>, n: string)
    requires roots <= visited && Needed(services, roots, n)
    requires forall m, d :: m in visited && m in services && d in services[m] && d in services ==> d in visited
    ensures n in visited
  {
    var r :| r in roots && Reaches(Known(services), r, n);
    var steps: nat :| ReachesIn(Known(services), r, n, steps);
    WalkStaysVisited(services, visited, r, n, steps);
  }

  lemma {:induction false} WalkStaysVisited(services: Services, visited: set<string>, r: string, n: string, steps: nat)
    requires r in visited && ReachesIn(Known(services), r, n, steps)
    requires forall m, d :: m in visited && m in services && d in services[m] && d in services ==> d in visited
    ensures n in visited
    decreases steps
  {
    if steps > 0 {
      var m :| ReachesIn(Known(services), r, m, steps - 1) && Edge(Known(services), m, n);
      WalkStaysVisited(services, visited, r, m, steps - 1);
      KnownEdge(services, m, n);
    }
  }

  /** The names contain every known dependency of theirs. */
  ghost predicate ClosedNames(services: Services, names: seq<string>) {
    forall n, d :: n in names && n in services && d in services[n] && d in services ==> d in names
  }

  /** No name is repeated before all of them have been listed. */
  ghost predicate RepeatsComeLast(names: seq<string>) {
    var k := |ToSet(names)|;
    k <= |names| && NoDuplicates(names[..k])
  }

  /** The names come out as a reordering of what was asked for if and only if they contain their own
      dependencies and repeat none before all are listed.  Otherwise something is lost: where a
      dependency is missing and the copy is cut off, it is the last name found. */
  lemma ReorderingIff(services: Services, names: seq<string>, order: seq<string>)
    requires IsStartOrder(services, names, order)
    ensures multiset(CopyOver(names, order)) == multiset(names) <==>
            ClosedNames(services, names) && RepeatsComeLast(names)
  {
    hide Reaches, Needed, Ordered;
    NoDuplicatesCardinality(order);
    if ClosedNames(services, names) {
      ClosedNamesAreAll(services, names, order);
      FullCopyIff(names, order);
    } else {
      MoreThanTheNames(services, names, order);
      if |names| < |order| { CutOff(names, order); } else { BringsIn(names, order); }
    }
  }

  /** A start order of just the names replaces the first of them. */
  lemma FullCopyIff(names: seq<string>, order: seq<string>)
    requires NoDuplicates(order) && ToSet(order) == ToSet(names)
    ensures |order| <= |names|
    ensures multiset(CopyOver(names, order)) == multiset(names) <==> RepeatsComeLast(names)
  {
    DistinctAreFewer(names);
    NoDuplicatesCardinality(order);
    var k := |order|;
    assert names == names[..k] + names[k..];
    assert multiset(names) == multiset(names[..k]) + multiset(names[k..]);
    assert multiset(CopyOver(names, order)) == multiset(order) + multiset(names[k..]);
    assert multiset(order) + multiset(names[k..]) - multiset(names[k..]) == multiset(order);
    assert multiset(names[..k]) + multiset(names[k..]) - multiset(names[k..]) == multiset(names[..k]);
    if multiset(order) == multiset(names[..k]) {
      SameMultiset(order, names[..k]);
    }
    if NoDuplicates(names[..k]) {
      NoDuplicatesCardinality(names[..k]);
      assert ToSet(names[..k]) <= ToSet(names);
      SubsetSize(ToSet(names[..k]), ToSet(names));
      SameElements(order, names[..k]);
    }
  }

  lemma {:induction false} DistinctAreFewer<T>(s: seq<T>)
    ensures |ToSet(s)| <= |s|
  {
    if s != [] {
      var n := |s| - 1;
      DistinctAreFewer(s[..n]);
      assert ToSet(s) == ToSet(s[..n]) + {s[n]};
    }
  }

  lemma SameMultiset<T>(a: seq<T>, b: seq<T>)
    requires NoDuplicates(a) && multiset(a) == multiset(b)
    ensures NoDuplicates(b)
  {
    NoDuplicatesMultiset(a);
    forall i, j | 0 <= i < j < |b| ensures b[i] != b[j] {
      assert b == b[..j] + [b[j]] + b[j + 1..];
      assert multiset(b) == multiset(b[..j]) + multiset{b[j]} + multiset(b[j + 1..]);
      assert b[..j][i] == b[i];
      assert multiset(b[..j])[b[i]] >= 1 && multiset(b)[b[j]] <= 1;
    }
  }

  /** A start order of more than the names, copied in full, brings in a name that was not there. */
  lemma BringsIn(names: seq<string>, order: seq<string>)
    requires |order| <= |names| && |ToSet(names)| < |ToSet(order)|
    ensures multiset(CopyOver(names, order)) != multiset(names)
  {
    if ToSet(order) <= ToSet(names) { SubsetSize(ToSet(order), ToSet(names)); }
    var x :| x in ToSet(order) && x !in ToSet(names);
    assert x in CopyOver(names, order) && x !in names;
    assert x in multiset(CopyOver(names, order)) && x !in multiset(names);
  }

  lemma MoreThanTheNames(services: Services, names: seq<string>, order: seq<string>)
    requires !ClosedNames(services, names) && IsStartOrder(services, names, order)
    ensures |ToSet(names)| < |ToSet(order)|
  {
    hide Reaches, Ordered;
    var n, d :| n in names && n in services && d in services[n] && d in services && d !in names;
    NamesAreNeeded(services, names, order);
    DependencyIsNeeded(services, names, n, d);
    assert d in ToSet(order) && d !in ToSet(names);
    SubsetSize(ToSet(names), ToSet(order));
  }

  /** A cut-off copy loses the last element of the source. */
  lemma CutOff(names: seq<string>, order: seq<string>)
    requires NoDuplicates(order) && |names| < |order| && order[|order| - 1] in names
    ensures multiset(CopyOver(names, order)) != multiset(names)
  {
    var last := order[|order| - 1];
    assert last in multiset(names) && last !in order[..|names|];
    assert last !in multiset(order[..|names|]);
  }

  lemma NamesAreNeeded(services: Services, names: seq<string>, order: seq<string>)
    requires IsStartOrder(services, names, order)
    ensures ToSet(names) <= ToSet(order)
  {
    forall n | n in names ensures n in order {
      assert n in ToSet(names);
      ReachesSelf(Known(services), n);
    }
  }

  lemma ClosedNamesAreAll(services: Services, names: seq<string>, order: seq<string>)
    requires ClosedNames(services, names) && IsStartOrder(services, names, order)
    ensures ToSet(order) == ToSet(names)
  {
    hide Ordered;
    NamesAreNeeded(services, names, order);
    forall n | n in order ensures n in names {
      VisitedIsClosed(services, ToSet(names), ToSet(names), n);
    }
  }

  lemma DependencyIsNeeded(services: Services, names: seq<string>, n: string, d: string)
    requires n in names && n in services && d in services[n] && d in services
    ensures Needed(services, ToSet(names), d)
  {
    assert n in ToSet(names);
    ReachesSelf(Known(services), n);
    KnownEdge(services, n, d);
    ReachesStep(Known(services), n, n, d);
  }

  lemma {:induction false} NoDuplicatesMultiset<T>(s: seq<T>)
    requires NoDuplicates(s)
    ensures multiset(s) == multiset(ToSet(s))
  {
    if s != [] {
      var n := |s| - 1;
      NoDuplicatesMultiset(s[..n]);
      assert s == s[..n] + [s[n]];
      assert ToSet(s) == ToSet(s[..n]) + {s[n]};
      assert s[n] !in ToSet(s[..n]);
    }
  }

  lemma SameElements<T>(a: seq<T>, b: seq<T>)
    requires NoDuplicates(a) && NoDuplicates(b) && ToSet(a) == ToSet(b)
    ensures multiset(a) == multiset(b)
  {
    NoDuplicatesMultiset(a);
    NoDuplicatesMultiset(b);
  }

  /** On names that contain their own dependencies, and without cycles, the result starts with a
      topological order of them: every known dependency stands before the service that needs it. */
  lemma TopologicalWithoutCycles(services: Services, names: seq<string>, order: seq<string>)
    requires ClosedNames(services, names) && IsStartOrder(services, names, order)
    requires forall u, v :: Edge(Known(services), u, v) ==> !Reaches(Known(services), v, u)
    ensures |order| == |ToSet(names)| <= |names| && CopyOver(names, order) == order + names[|order|..]
    ensures forall u, v :: u in names && Edge(Known(services), u, v) ==> Before(order, v, u)
  {
    hide Reaches, Needed, Before;
    ClosedNamesAreAll(services, names, order);
    DistinctAreFewer(names);
    NoDuplicatesCardinality(order);
    assert forall n :: n in names ==> n in ToSet(order);
  }

  /** Asking for one service that depends on another leaves only the dependency in the list. */
  lemma SingleNameIsLost(order: seq<string>)
    requires IsStartOrder(map["web" := {"db"}, "db" := {}], ["web"], order)
    ensures CopyOver(["web"], order) == ["db"]
  {
    hide Reaches, Needed;
    var services: Services := map["web" := {"db"}, "db" := {}];
    DbDoesNotNeedWeb(services);
    DependencyIsNeeded(services, ["web"], "web", "db");
    NeedsItself(services, ToSet(["web"]), "web");
    KnownEdge(services, "web", "db");
    assert Before(order, "db", "web");
    forall n | n in order ensures n in {"web", "db"} {
      VisitedIsClosed(services, ToSet(["web"]), {"web", "db"}, n);
    }
    NoDuplicatesCardinality(order);
    assert ToSet(order) == {"web", "db"};
  }

  lemma DbDoesNotNeedWeb(services: Services)
    requires services == map["web" := {"db"}, "db" := {}]
    ensures !Reaches(Known(services), "db", "web")
  {
    if Reaches(Known(services), "db", "web") {
      var steps: nat :| ReachesIn(Known(services), "db", "web", steps);
      WalkStaysVisited(services, {"db"}, "db", "web", steps);
      assert false;
    }
  }
}
