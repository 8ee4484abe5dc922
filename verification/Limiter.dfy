/**
 The concurrency limiter of one route: a channel used as a semaphore, made anew each time the
 configuration is compiled, while requests that arrived earlier go on with the channel they found.
 */
module Limiter {
  import opened Records

  type Gen = nat
  type Req = nat

  /** A generation's channel: its capacity and how many tokens it holds; None for unlimited. */
  datatype Channel = Channel(cap: nat, tokens: nat)

  /** A request belongs to the generation that was current when it arrived. */
  datatype State = State(
    current: Gen,
    channels: map<Gen, Option<Channel>>,
    waiting: map<Req, Gen>,
    serving: map<Req, Gen>)

  datatype Action =
    | Recompile(maxConcurrent: int)
    | Arrive(r: Req)
    | Acquire(r: Req)
    | Cancel(r: Req)
    | Finish(r: Req)

  function NewChannel(maxConcurrent: int): Option<Channel> {
    if maxConcurrent > 0 then Some(Channel(maxConcurrent, 0)) else None
  }

  function Init(maxConcurrent: int): State {
    State(0, map[0 := NewChannel(maxConcurrent)], map[], map[])
  }

  predicate Enabled(s: State, a: Action) {
    match a
    case Recompile(_) => true
    case Arrive(r) => r !in s.waiting && r !in s.serving && s.current in s.channels
    case Acquire(r) =>
      && r in s.waiting && s.waiting[r] in s.channels && s.channels[s.waiting[r]].Some?
      && s.channels[s.waiting[r]].value.tokens < s.channels[s.waiting[r]].value.cap
    case Cancel(r) => r in s.waiting
    case Finish(r) =>
      && r in s.serving && s.serving[r] in s.channels
      && (s.channels[s.serving[r]].Some? ==> s.channels[s.serving[r]].value.tokens > 0)
  }

  function Add(c: Option<Channel>, n: int): Option<Channel>
    requires c.Some? ==> c.value.tokens + n >= 0
  {
    match c case None => None case Some(ch) => Some(ch.(tokens := ch.tokens + n))
  }

  function Step(s: State, a: Action): State
    requires Enabled(s, a)
  {
    match a
    case Recompile(n) => s.(current := s.current + 1, channels := s.channels[s.current + 1 := NewChannel(n)])
    case Arrive(r) =>
      if s.channels[s.current].None? then s.(serving := s.serving[r := s.current])
      else s.(waiting := s.waiting[r := s.current])
    case Acquire(r) =>
      var g := s.waiting[r];
      s.(channels := s.channels[g := Add(s.channels[g], 1)], waiting := s.waiting - {r}, serving := s.serving[r := g])
    case Cancel(r) => s.(waiting := s.waiting - {r})
    case Finish(r) =>
      var g := s.serving[r];
      s.(channels := s.channels[g := Add(s.channels[g], -1)], serving := s.serving - {r})
  }

  ghost predicate Trace(s: State, acts: seq<Action>, t: State)
    decreases acts
  {
    if acts == [] then s == t else Enabled(s, acts[0]) && Trace(Step(s, acts[0]), acts[1..], t)
  }

  function Served(s: State, g: Gen): set<Req> { set r | r in s.serving && s.serving[r] == g }

  ghost predicate Inv(s: State) {
    && Refers(s)
    && AllExact(s)
  }

  /** The tokens held are the requests being served, and never more than the capacity. */
  ghost predicate Exact(s: State, g: Gen)
    requires g in s.channels && s.channels[g].Some?
  {
    s.channels[g].value.tokens == |Served(s, g)| <= s.channels[g].value.cap
  }

  lemma ServedChanges(s: State, r: Req, g: Gen, h: Gen)
    requires r !in s.serving
    ensures Served(s.(serving := s.serving[r := g]), h) == if h == g then Served(s, h) + {r} else Served(s, h)
  {}

  ghost predicate AllExact(s: State) {
    forall g | g in s.channels && s.channels[g].Some? :: Exact(s, g)
  }

  lemma RecompileExact(s: State, n: int)
    requires Inv(s)
    ensures AllExact(Step(s, Recompile(n)))
  {}

  lemma ArriveExact(s: State, r: Req)
    requires Inv(s) && Enabled(s, Arrive(r))
    ensures AllExact(Step(s, Arrive(r)))
  {
    var t := Step(s, Arrive(r));
    forall g | g in t.channels && t.channels[g].Some?
      ensures Exact(t, g)
    {
      assert Exact(s, g);
      ServedChanges(s, r, s.current, g);
      assert Served(t, g) == Served(s, g);
    }
  }

  lemma AcquireExact(s: State, r: Req)
    requires Inv(s) && Enabled(s, Acquire(r))
    ensures AllExact(Step(s, Acquire(r)))
  {
    var t := Step(s, Acquire(r));
    forall g | g in t.channels && t.channels[g].Some?
      ensures Exact(t, g)
    {
      assert Exact(s, g);
      assert r !in Served(s, g);
      assert Served(t, g) == if g == s.waiting[r] then Served(s, g) + {r} else Served(s, g);
    }
  }

  lemma LeaveExact(s: State, r: Req, a: Action)
    requires Inv(s) && Enabled(s, a) && a in {Cancel(r), Finish(r)}
    ensures AllExact(Step(s, a))
  {
    var t := Step(s, a);
    forall g | g in t.channels && t.channels[g].Some?
      ensures Exact(t, g)
    {
      assert Exact(s, g);
      assert Served(t, g) == if a.Finish? && g == s.serving[r] then Served(s, g) - {r} else Served(s, g);
    }
  }

  /** The bookkeeping: which generations exist, and what each request refers to. */
  ghost predicate Refers(s: State) {
    && (forall g: Gen :: g in s.channels <==> g <= s.current)
    && (forall r | r in s.serving :: s.serving[r] in s.channels)
    && (forall r | r in s.waiting :: s.waiting[r] in s.channels && s.channels[s.waiting[r]].Some?)
    && s.waiting.Keys !! s.serving.Keys
  }

  lemma StepRefers(s: State, a: Action)
    requires Refers(s) && Enabled(s, a)
    ensures Refers(Step(s, a))
  {}

  lemma StepInv(s: State, a: Action)
    requires Inv(s) && Enabled(s, a)
    ensures Inv(Step(s, a))
  {
    StepRefers(s, a);
    match a
    case Recompile(n) => RecompileExact(s, n);
    case Arrive(r) => ArriveExact(s, r);
    case Acquire(r) => AcquireExact(s, r);
    case Cancel(r) => LeaveExact(s, r, a);
    case Finish(r) => LeaveExact(s, r, a);
  }

  lemma {:induction false} TraceInv(s: State, acts: seq<Action>, t: State)
    requires Inv(s) && Trace(s, acts, t)
    ensures Inv(t)
    decreases acts
  {
    if acts != [] {
      StepInv(s, acts[0]);
      TraceInv(Step(s, acts[0]), acts[1..], t);
    }
  }

  /**
   What becomes of a request: it waits if it finds a limited generation and is served at once otherwise, a
   waiting one is served by the generation it found, and a cancelled or finished one is gone.
   */
  lemma RequestsMoveExactly(s: State, a: Action, r: Req)
    requires Enabled(s, a)
    ensures var t := Step(s, a);
      && (r in t.waiting <==>
            (a == Arrive(r) && s.channels[s.current].Some?) || (r in s.waiting && a != Cancel(r) && a != Acquire(r)))
      && (r in t.serving <==>
            (a == Arrive(r) && s.channels[s.current].None?) || a == Acquire(r) || (r in s.serving && a != Finish(r)))
      && (r in t.waiting ==> t.waiting[r] == if a == Arrive(r) then s.current else s.waiting[r])
      && (a == Arrive(r) && r in t.serving ==> t.serving[r] == s.current)
      && (a == Acquire(r) ==> t.serving[r] == s.waiting[r])
  {}

  /// The limits that were configured

  /** The numbers of the reloads in a run. */
  function Reloads(acts: seq<Action>): seq<int> {
    if acts == [] then []
    else (if acts[0].Recompile? then [acts[0].maxConcurrent] else []) + Reloads(acts[1..])
  }

  /** Generation by generation: limited exactly if the configured number is positive, and then to that number. */
  ghost predicate Configured(s: State, limits: seq<int>) {
    && |limits| == s.current + 1
    && forall g: Gen | g < |limits| ::
         && g in s.channels
         && (s.channels[g].Some? <==> limits[g] > 0)
         && (s.channels[g].Some? ==> s.channels[g].value.cap == limits[g])
  }

  lemma StepConfigured(s: State, a: Action, limits: seq<int>)
    requires Enabled(s, a) && Configured(s, limits)
    ensures Configured(Step(s, a), limits + if a.Recompile? then [a.maxConcurrent] else [])
  {}

  lemma ReloadsStep(limits: seq<int>, acts: seq<Action>)
    requires acts != []
    ensures limits + Reloads(acts) ==
            (limits + if acts[0].Recompile? then [acts[0].maxConcurrent] else []) + Reloads(acts[1..])
  {}

  lemma {:induction false} TraceConfigured(s: State, acts: seq<Action>, t: State, limits: seq<int>)
    requires Trace(s, acts, t) && Configured(s, limits)
    ensures Configured(t, limits + Reloads(acts))
    decreases acts
  {
    if acts == [] {
      assert limits + Reloads(acts) == limits;
    } else {
      StepConfigured(s, acts[0], limits);
      ReloadsStep(limits, acts);
      TraceConfigured(Step(s, acts[0]), acts[1..], t,
                      limits + if acts[0].Recompile? then [acts[0].maxConcurrent] else []);
    }
  }

  /** The number the route is configured with at the end of a run. */
  function LastLimit(maxConcurrent: int, acts: seq<Action>): int {
    var limits := [maxConcurrent] + Reloads(acts);
    limits[|limits| - 1]
  }

  /**
   In every run each generation has the limit it was configured with, or none if that number is not
   positive, and serves at most so many requests at once.
   */
  lemma LimitsAreConfigured(maxConcurrent: int, acts: seq<Action>, s: State, g: Gen)
    requires Trace(Init(maxConcurrent), acts, s) && g <= s.current
    ensures var limits := [maxConcurrent] + Reloads(acts);
      && |limits| == s.current + 1 && g in s.channels
      && (s.channels[g].Some? <==> limits[g] > 0)
      && (limits[g] > 0 ==> |Served(s, g)| <= limits[g])
    ensures Limited(s) <==> LastLimit(maxConcurrent, acts) > 0
    ensures Limited(s) ==> CapOf(s) == LastLimit(maxConcurrent, acts)
  {
    var s0 := Init(maxConcurrent);
    TraceConfigured(s0, acts, s, [maxConcurrent]);
    assert forall h | h in s0.channels && s0.channels[h].Some? :: Served(s0, h) == {};
    TraceInv(s0, acts, s);
    if s.channels[g].Some? {
      assert Exact(s, g);
    }
  }

  /**
   In every interleaving of arrivals, cancellations, completions and reloads a limited generation holds
   one token per request it serves and serves at most its limit; once it serves nobody all its slots
   are back.
   */
  lemma LimitHoldsPerGeneration(maxConcurrent: int, acts: seq<Action>, s: State, g: Gen)
    requires Trace(Init(maxConcurrent), acts, s) && g in s.channels && s.channels[g].Some?
    ensures s.channels[g].value.tokens == |Served(s, g)| <= s.channels[g].value.cap
    ensures g < |[maxConcurrent] + Reloads(acts)| && s.channels[g].value.cap == ([maxConcurrent] + Reloads(acts))[g]
    ensures Served(s, g) == {} ==> s.channels[g].value.tokens == 0
  {
    var s0 := Init(maxConcurrent);
    TraceConfigured(s0, acts, s, [maxConcurrent]);
    assert forall h | h in s0.channels && s0.channels[h].Some? :: Served(s0, h) == {};
    TraceInv(s0, acts, s);
  }

  /** Giving a slot back never blocks: the channel still holds the request's token. */
  lemma ReleaseNeverBlocks(maxConcurrent: int, acts: seq<Action>, s: State, r: Req)
    requires Trace(Init(maxConcurrent), acts, s) && r in s.serving
    ensures Enabled(s, Finish(r))
  {
    var s0 := Init(maxConcurrent);
    assert forall h | h in s0.channels && s0.channels[h].Some? :: Served(s0, h) == {};
    TraceInv(s0, acts, s);
    if s.channels[s.serving[r]].Some? {
      assert Exact(s, s.serving[r]) && r in Served(s, s.serving[r]);
    }
  }

  /** Once earlier generations have drained, the limit is that of the route. */
  lemma LimitHoldsOnceDrained(maxConcurrent: int, acts: seq<Action>, s: State)
    requires Trace(Init(maxConcurrent), acts, s) && s.current in s.channels && s.channels[s.current].Some?
    requires forall g | g in s.channels && g != s.current :: Served(s, g) == {}
    ensures |s.serving| <= s.channels[s.current].value.cap == LastLimit(maxConcurrent, acts)
  {
    LimitsAreConfigured(maxConcurrent, acts, s, s.current);
    OnlyCurrentServed(maxConcurrent, acts, s);
    ServedIsAll(s);
  }

  lemma OnlyCurrentServed(maxConcurrent: int, acts: seq<Action>, s: State)
    requires Trace(Init(maxConcurrent), acts, s)
    requires forall g | g in s.channels && g != s.current :: Served(s, g) == {}
    ensures forall r | r in s.serving :: s.serving[r] == s.current
  {
    var s0 := Init(maxConcurrent);
    assert forall h | h in s0.channels && s0.channels[h].Some? :: Served(s0, h) == {};
    TraceInv(s0, acts, s);
    forall r | r in s.serving
      ensures s.serving[r] == s.current
    {
      assert r in Served(s, s.serving[r]);
    }
  }

  /** A request that waits is let in, or some request of its own generation is being served. */
  lemma WaitingIsForSomebody(maxConcurrent: int, acts: seq<Action>, s: State, r: Req)
    requires Trace(Init(maxConcurrent), acts, s) && r in s.waiting
    ensures Enabled(s, Cancel(r))
    ensures Enabled(s, Acquire(r)) || exists q | q in s.serving :: s.serving[q] == s.waiting[r] && Enabled(s, Finish(q))
  {
    var s0 := Init(maxConcurrent);
    assert forall h | h in s0.channels && s0.channels[h].Some? :: Served(s0, h) == {};
    TraceInv(s0, acts, s);
    CapsArePositive(s0, acts, s);
    var g := s.waiting[r];
    assert Exact(s, g);
    if !Enabled(s, Acquire(r)) {
      assert |Served(s, g)| > 0;
      var q :| q in Served(s, g);
      assert s.serving[q] == g;
    }
  }

  ghost predicate PositiveCaps(s: State) {
    forall g | g in s.channels && s.channels[g].Some? :: s.channels[g].value.cap > 0
  }

  lemma {:induction false} CapsArePositive(s: State, acts: seq<Action>, t: State)
    requires PositiveCaps(s) && Trace(s, acts, t)
    ensures PositiveCaps(t)
    decreases acts
  {
    if acts != [] {
      CapsArePositive(Step(s, acts[0]), acts[1..], t);
    }
  }

  /// Across a reload the limit is per generation, not per route.

  ghost predicate NoReload(acts: seq<Action>) {
    forall a | a in acts :: !a.Recompile?
  }

  /** Nobody who is under way arrived before the last reload. */
  ghost predicate AllCurrent(s: State) {
    && (forall r | r in s.serving :: s.serving[r] == s.current)
    && (forall r | r in s.waiting :: s.waiting[r] == s.current)
  }

  /** However requests come and go until the next reload, so many at most are served together. */
  ghost predicate StaysWithin(s: State, limit: nat) {
    forall acts, t | Trace(s, acts, t) && NoReload(acts) :: |t.serving| <= limit
  }

  function CapOf(s: State): nat
    requires s.current in s.channels && s.channels[s.current].Some?
  {
    s.channels[s.current].value.cap
  }

  predicate Limited(s: State) {
    s.current in s.channels && s.channels[s.current].Some?
  }

  lemma {:induction false} CurrentLasts(s: State, acts: seq<Action>, t: State)
    requires Inv(s) && AllCurrent(s) && Limited(s) && Trace(s, acts, t) && NoReload(acts)
    ensures Limited(t) && CapOf(t) == CapOf(s) && |t.serving| <= CapOf(s)
    decreases acts
  {
    if acts == [] {
      ServedIsAll(s);
      assert Exact(s, s.current);
    } else {
      assert acts[0] in acts && forall a | a in acts[1..] :: a in acts;
      StepInv(s, acts[0]);
      CurrentLasts(Step(s, acts[0]), acts[1..], t);
    }
  }

  lemma ServedIsAll(s: State)
    requires forall r | r in s.serving :: s.serving[r] == s.current
    ensures |Served(s, s.current)| == |s.serving|
  {
    assert Served(s, s.current) == s.serving.Keys;
  }

  lemma {:induction false} Fresh(s: set<Req>) returns (r: Req)
    ensures forall x | x in s :: x < r
    decreases |s|
  {
    if s == {} {
      return 0;
    }
    var x :| x in s;
    var below := Fresh(s - {x});
    r := if below <= x then x + 1 else below;
    forall y | y in s
      ensures y < r
    {
      assert y == x || y in s - {x};
    }
  }

  /** A newcomer that is let in at once, because the current generation has a slot left. */
  lemma Admit(s: State) returns (r: Req, t: State)
    requires Limited(s) && s.channels[s.current].value.tokens < CapOf(s)
    ensures Trace(s, [Arrive(r), Acquire(r)], t)
    ensures t.current == s.current && Limited(t) && CapOf(t) == CapOf(s)
    ensures t.channels[t.current].value.tokens == s.channels[s.current].value.tokens + 1
    ensures r !in s.serving && t.serving == s.serving[r := s.current]
  {
    r := Fresh(s.waiting.Keys + s.serving.Keys);
    assert r !in s.waiting.Keys + s.serving.Keys;
    var s1 := Step(s, Arrive(r));
    t := Step(s1, Acquire(r));
    assert [Arrive(r), Acquire(r)][1..] == [Acquire(r)];
    assert Trace(s1, [Acquire(r)], t);
  }

  /** While somebody from an earlier generation is served, newcomers can fill all the current slots. */
  lemma {:induction false} Fill(s: State, q: Req) returns (acts: seq<Action>, t: State)
    requires Inv(s) && Limited(s) && q in s.serving && s.serving[q] != s.current
    ensures Trace(s, acts, t) && NoReload(acts) && |t.serving| > CapOf(s)
    decreases CapOf(s) - s.channels[s.current].value.tokens
  {
    assert Exact(s, s.current);
    if s.channels[s.current].value.tokens == CapOf(s) {
      Overfull(s, q);
      return [], s;
    }
    var r, s2 := Admit(s);
    var first := [Arrive(r), Acquire(r)];
    TraceInv(s, first, s2);
    assert q in s2.serving && s2.serving[q] == s.serving[q];
    var rest: seq<Action>;
    rest, t := Fill(s2, q);
    Chain(s, first, s2, rest, t);
    acts := first + rest;
  }

  lemma Overfull(s: State, q: Req)
    requires q in s.serving && s.serving[q] != s.current
    ensures |s.serving| > |Served(s, s.current)|
  {
    var some := Served(s, s.current) + {q};
    assert |some| == |Served(s, s.current)| + 1;
    Subset(some, s.serving.Keys);
    assert |s.serving| == |s.serving.Keys|;
  }

  lemma {:induction false} Subset<T>(a: set<T>, b: set<T>)
    requires a <= b
    ensures |a| <= |b|
    decreases |a|
  {
    if a != {} {
      var x :| x in a;
      Subset(a - {x}, b - {x});
    }
  }

  lemma {:induction false} Chain(s: State, acts: seq<Action>, t: State, more: seq<Action>, u: State)
    requires Trace(s, acts, t) && Trace(t, more, u)
    ensures Trace(s, acts + more, u)
    decreases acts
  {
    if acts == [] {
      assert acts + more == more;
    } else {
      assert (acts + more)[1..] == acts[1..] + more;
      Chain(Step(s, acts[0]), acts[1..], t, more, u);
    }
  }

  /** Somebody from before the reload is served, or can be after one step. */
  lemma Lingers(s: State) returns (acts: seq<Action>, t: State, q: Req)
    requires Inv(s) && PositiveCaps(s) && Limited(s) && !AllCurrent(s)
    ensures Trace(s, acts, t) && NoReload(acts) && t.current == s.current && Limited(t) && CapOf(t) == CapOf(s)
    ensures q in t.serving && t.serving[q] != t.current
  {
    if exists p | p in s.serving :: s.serving[p] != s.current {
      q :| q in s.serving && s.serving[q] != s.current;
      return [], s, q;
    }
    var w :| w in s.waiting && s.waiting[w] != s.current;
    var g := s.waiting[w];
    assert Exact(s, g);
    assert Served(s, g) == {};
    t := Step(s, Acquire(w));
    acts := [Acquire(w)];
    assert acts[1..] == [] && Trace(t, [], t);
    q := w;
  }

  /**
   After a reload the route as a whole is sure to keep its limit exactly if nobody under way, served or
   waiting, arrived before it: a single such request leaves room for one too many.
   */
  lemma LimitHoldsExactly(maxConcurrent: int, acts: seq<Action>, s: State)
    requires Trace(Init(maxConcurrent), acts, s) && LastLimit(maxConcurrent, acts) > 0
    ensures StaysWithin(s, LastLimit(maxConcurrent, acts)) <==> AllCurrent(s)
  {
    LimitsAreConfigured(maxConcurrent, acts, s, s.current);
    var s0 := Init(maxConcurrent);
    assert forall h | h in s0.channels && s0.channels[h].Some? :: Served(s0, h) == {};
    TraceInv(s0, acts, s);
    CapsArePositive(s0, acts, s);
    if AllCurrent(s) {
      forall more, t | Trace(s, more, t) && NoReload(more)
        ensures |t.serving| <= CapOf(s)
      {
        CurrentLasts(s, more, t);
      }
    } else {
      var first, t, q := Lingers(s);
      TraceInv(s, first, t);
      var rest, u := Fill(t, q);
      Chain(s, first, t, rest, u);
      assert NoReload(first + rest);
      assert !StaysWithin(s, CapOf(s));
    }
  }

  /** A run into the other case: a limit of one, a request under way, and a reload. */
  lemma ReloadLeavesOneTooMany() returns (acts: seq<Action>, s: State)
    ensures Trace(Init(1), acts, s) && acts == [Arrive(0), Acquire(0), Recompile(1)]
    ensures Limited(s) && CapOf(s) == 1 && !AllCurrent(s) && !StaysWithin(s, 1)
  {
    var s1 := Step(Init(1), Arrive(0));
    var s2 := Step(s1, Acquire(0));
    s := Step(s2, Recompile(1));
    acts := [Arrive(0), Acquire(0), Recompile(1)];
    assert [Acquire(0), Recompile(1)][1..] == [Recompile(1)] && acts[1..] == [Acquire(0), Recompile(1)];
    assert Trace(s2, [Recompile(1)], s);
    assert Trace(s1, [Acquire(0), Recompile(1)], s);
    assert 0 in s.serving && s.serving[0] == 0 && s.current == 1;
    LimitHoldsExactly(1, acts, s);
  }
}
