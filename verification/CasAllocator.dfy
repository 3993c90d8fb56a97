/** The lock-free address allocator as a protocol over any number of threads: every step is one
atomic load or one compare-exchange of the shared counter, in any interleaving. */
module CasAllocator {
  import opened Wrappers
  import opened Cidr

  type Tid = nat

  /** A thread is between two rounds of the loop, or holds the counter value it loaded. */
  datatype Thread = Idle | Loaded(current: nat)

  /** The counter, the threads, the addresses handed out in order, the number of failed
      compare-exchanges and of calls that returned nothing. */
  datatype State = State(next: nat, threads: map<Tid, Thread>, granted: seq<nat>, failures: nat, refusals: nat)

  /** Load: a thread enters a round, or gives up because the range is used up.
      Cas: a thread that loaded tries to advance the counter. */
  datatype Event = Load(t: Tid) | Cas(t: Tid)

  const Init := State(2, map[], [], 0, 0)

  function ThreadOf(s: State, t: Tid): Thread {
    if t in s.threads then s.threads[t] else Idle
  }

  function Apply(r: IpRange, s: State, e: Event): State
    requires r.size >= 1
  {
    match e
    case Load(t) =>
      if ThreadOf(s, t).Loaded? then s
      else if s.next >= r.size - 1 then s.(refusals := s.refusals + 1)
      else s.(threads := s.threads[t := Loaded(s.next)])
    case Cas(t) =>
      match ThreadOf(s, t)
      case Idle => s
      case Loaded(current) =>
        var s' := s.(threads := s.threads[t := Idle]);
        if s.next == current then s'.(next := current + 1, granted := s.granted + [r.base + current])
        else s'.(failures := s.failures + 1)
  }

  function Run(r: IpRange, events: seq<Event>): State
    requires r.size >= 1
  {
    if events == [] then Init else Apply(r, Run(r, events[..|events| - 1]), events[|events| - 1])
  }

  /** The most addresses a range can hand out: all but its base, its gateway and its last. */
  function Capacity(r: IpRange): nat {
    if r.size <= 3 then 0 else r.size - 3
  }

  ghost predicate Inv(r: IpRange, s: State) {
    && s.next == |s.granted| + 2
    && |s.granted| <= Capacity(r)
    && (forall i :: 0 <= i < |s.granted| ==> s.granted[i] == r.base + 2 + i)
    && (forall t :: t in s.threads && s.threads[t].Loaded? ==> s.threads[t].current < r.size - 1)
    && (forall t :: t in s.threads && s.threads[t].Loaded? ==> s.threads[t].current <= s.next)
    && (s.refusals > 0 ==> |s.granted| == Capacity(r))
  }

  lemma {:induction false} RunKeepsInv(r: IpRange, events: seq<Event>)
    requires r.size >= 1
    ensures Inv(r, Run(r, events))
  {
    if events != [] { RunKeepsInv(r, events[..|events| - 1]); }
  }

  /** Under every interleaving the completed calls return, in the order of their successful
      exchanges, exactly the addresses from the second after the base on: all different, strictly
      between the gateway and the last address, and at most Capacity many.  A call returns nothing
      only when all of them are taken. */
  lemma GrantsAreConsecutive(r: IpRange, events: seq<Event>)
    requires r.size >= 1
    ensures var s := Run(r, events);
            && NoDuplicates(s.granted)
            && |s.granted| <= Capacity(r)
            && (forall i :: 0 <= i < |s.granted| ==>
                  s.granted[i] == r.base + 2 + i && r.base + 1 < s.granted[i] < r.base + r.size - 1)
            && (s.refusals > 0 ==> |s.granted| == Capacity(r))
  {
    RunKeepsInv(r, events);
  }

  lemma RunOneMore(r: IpRange, events: seq<Event>, e: Event)
    requires r.size >= 1
    ensures Run(r, events + [e]) == Apply(r, Run(r, events), e)
  {
    assert (events + [e])[..|events|] == events;
  }

  /** Every call comes to an end: after every run, an idle thread that loads and exchanges undisturbed
      gets the next address, as long as one is left, and otherwise its load is a refusal. */
  lemma UndisturbedCallIsServed(r: IpRange, events: seq<Event>, t: Tid)
    requires r.size >= 1 && ThreadOf(Run(r, events), t).Idle?
    ensures var s := Run(r, events);
            if |s.granted| < Capacity(r) then
              var s' := Run(r, events + [Load(t)] + [Cas(t)]);
              && s'.granted == s.granted + [r.base + 2 + |s.granted|]
              && s'.failures == s.failures && s'.refusals == s.refusals && ThreadOf(s', t).Idle?
            else
              var s' := Run(r, events + [Load(t)]);
              && s'.granted == s.granted && s'.failures == s.failures
              && s'.refusals == s.refusals + 1 && ThreadOf(s', t).Idle?
  {
    RunKeepsInv(r, events);
    RunOneMore(r, events, Load(t));
    RunOneMore(r, events + [Load(t)], Cas(t));
    hide Run;
  }

  /** An exchange grants the loaded value if and only if it is still current; otherwise it fails and
      grants nothing.  Either way the thread is idle, so that after a failure its next round, if
      undisturbed, is served. */
  lemma FailedCallIsServedNext(r: IpRange, events: seq<Event>, t: Tid)
    requires r.size >= 1 && ThreadOf(Run(r, events), t).Loaded?
    ensures var s, s' := Run(r, events), Run(r, events + [Cas(t)]);
            && ThreadOf(s', t).Idle?
            && (if ThreadOf(s, t).current == s.next
                then s'.granted == s.granted + [r.base + s.next] && s'.failures == s.failures
                else s'.granted == s.granted && s'.failures == s.failures + 1)
            && (|s'.granted| < Capacity(r) ==>
                  Run(r, events + [Cas(t)] + [Load(t)] + [Cas(t)]).granted ==
                    s'.granted + [r.base + 2 + |s'.granted|])
  {
    RunOneMore(r, events, Cas(t));
    UndisturbedCallIsServed(r, events + [Cas(t)], t);
    hide Run;
  }

  /** Events of the run that advanced the counter. */
  ghost predicate Advances(r: IpRange, events: seq<Event>, k: nat)
    requires r.size >= 1 && k < |events|
  {
    && events[k].Cas?
    && ThreadOf(Run(r, events[..k]), events[k].t) == Loaded(Run(r, events[..k]).next)
  }

  lemma RunStep(r: IpRange, events: seq<Event>, k: nat)
    requires r.size >= 1 && k < |events|
    ensures Run(r, events[..k + 1]) == Apply(r, Run(r, events[..k]), events[k])
  {
    assert events[..k + 1][..k] == events[..k];
  }

  lemma OtherwiseStill(r: IpRange, events: seq<Event>, k: nat)
    requires r.size >= 1 && k < |events| && !Advances(r, events, k)
    ensures Run(r, events[..k + 1]).next == Run(r, events[..k]).next
  {
    hide Run;
    RunStep(r, events, k);
  }

  /** If the counter differs between two points of a run, some exchange in between advanced it. */
  lemma {:induction false} ChangeHasCause(r: IpRange, events: seq<Event>, i: nat, j: nat) returns (k: nat)
    requires r.size >= 1 && i <= j <= |events|
    requires Run(r, events[..i]).next != Run(r, events[..j]).next
    ensures i <= k < j && Advances(r, events, k)
    decreases j
  {
    hide Run, Advances;
    if Advances(r, events, j - 1) {
      k := j - 1;
    } else {
      OtherwiseStill(r, events, j - 1);
      k := ChangeHasCause(r, events, i, j - 1);
    }
  }

  lemma {:induction false} ThreadUntouched(r: IpRange, events: seq<Event>, i: nat, j: nat, t: Tid)
    requires r.size >= 1 && i <= j <= |events|
    requires forall k :: i <= k < j ==> events[k].t != t
    ensures ThreadOf(Run(r, events[..j]), t) == ThreadOf(Run(r, events[..i]), t)
    decreases j
  {
    if i < j {
      ThreadUntouched(r, events, i, j - 1, t);
      RunStep(r, events, j - 1);
    }
  }

  /** Lock freedom, one failure at a time: if the exchange of a round fails, then between that
      round's load and the exchange some other thread's exchange succeeded. */
  lemma FailureMeansProgress(r: IpRange, events: seq<Event>, i: nat, j: nat, t: Tid) returns (k: nat)
    requires r.size >= 1 && i < j < |events| && events[i] == Load(t) && events[j] == Cas(t)
    requires ThreadOf(Run(r, events[..i]), t).Idle?
    requires forall m :: i < m < j ==> events[m].t != t
    requires Run(r, events[..j + 1]).failures == Run(r, events[..j]).failures + 1
    ensures i < k < j && events[k].t != t && Advances(r, events, k)
  {
    RunStep(r, events, i);
    RunStep(r, events, j);
    ThreadUntouched(r, events, i + 1, j, t);
    k := ChangeHasCause(r, events, i + 1, j);
  }

  /** The threads of the set that hold a counter value that is no longer current. */
  ghost function Stale(s: State, threads: set<Tid>): set<Tid> {
    set t | t in threads && ThreadOf(s, t).Loaded? && ThreadOf(s, t).current != s.next
  }

  lemma StaleAfterSuccess(s: State, s': State, threads: set<Tid>, t: Tid)
    requires t in threads && ThreadOf(s', t).Idle?
    ensures |Stale(s', threads)| <= |threads| - 1
  {
    assert Stale(s', threads) <= threads - {t};
    SubsetSize(Stale(s', threads), threads - {t});
  }

  lemma StaleStep(r: IpRange, s: State, e: Event, threads: set<Tid>)
    requires r.size >= 1 && e.t in threads && Inv(r, s)
    ensures var s' := Apply(r, s, e);
            s'.failures + |Stale(s', threads)| <=
            s.failures + |Stale(s, threads)| + (|s'.granted| - |s.granted|) * (|threads| - 1)
  {
    var s' := Apply(r, s, e);
    if s'.failures > s.failures {
      assert Stale(s', threads) == Stale(s, threads) - {e.t};
    } else if s'.next == s.next {
      assert Stale(s', threads) == Stale(s, threads);
    } else {
      StaleAfterSuccess(s, s', threads, e.t);
    }
  }

  lemma {:induction false} FailuresAreCharged(r: IpRange, events: seq<Event>, threads: set<Tid>)
    requires r.size >= 1 && threads != {}
    requires forall i :: 0 <= i < |events| ==> events[i].t in threads
    ensures var s := Run(r, events); s.failures + |Stale(s, threads)| <= |s.granted| * (|threads| - 1)
  {
    hide Apply, Stale;
    var n := |events|;
    if n == 0 {
      NothingStale(threads);
    } else {
      var s, s' := Run(r, events[..n - 1]), Run(r, events);
      FailuresAreCharged(r, events[..n - 1], threads);
      RunKeepsInv(r, events[..n - 1]);
      StaleStep(r, s, events[n - 1], threads);
      Distribute(|s.granted|, |s'.granted|, |threads| - 1);
    }
  }

  lemma NothingStale(threads: set<Tid>)
    ensures Stale(Init, threads) == {}
  {
  }

  lemma Distribute(a: int, b: int, m: int)
    ensures a * m + (b - a) * m == b * m
  {
  }

  /** Lock freedom over whole runs: however n threads interleave, the compare-exchanges that fail
      number at most n - 1 per address handed out, so all retries together are bounded. */
  lemma RetriesAreBounded(r: IpRange, events: seq<Event>, threads: set<Tid>)
    requires r.size >= 1 && threads != {}
    requires forall i :: 0 <= i < |events| ==> events[i].t in threads
    ensures var s := Run(r, events);
            s.failures <= |s.granted| * (|threads| - 1) <= Capacity(r) * (|threads| - 1)
  {
    hide Run, Stale;
    FailuresAreCharged(r, events, threads);
    RunKeepsInv(r, events);
    MulMono(|threads| - 1, |Run(r, events).granted|, Capacity(r));
  }
}
