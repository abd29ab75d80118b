/** singleinflight.go: concurrent callers of Do as a state machine, one step for each section that the
    lock or the wait group makes atomic; and what Client.Exchange (client.go) hands to its callers. */
module Singleflight {
  import opened Bytes

  /** A call of Do, by its caller. */
  type Tid = nat

  /** What fn returned; an answer is nil or some message. */
  datatype Result = Result(val: Option<nat>, err: Error)

  /** The call struct. result is what the leader stored in it, done whether its wait group is released. */
  datatype Call = Call(key: str, leader: Tid, result: Option<Result>, done: bool, dups: nat)

  /** Where a caller stands; c is the index of its call. */
  datatype Pc =
    | Leading(c: nat)   // the call is in the map, fn runs
    | Filled(c: nat)    // fn returned, its results are stored
    | Released(c: nat)  // wg.Done
    | Removed(c: nat)   // the call is deleted from the map
    | Joined(c: nat)    // counted in dups, in wg.Wait
    | Finished(c: nat, result: Result, shared: bool, led: bool)

  datatype State = State(m: map<str, nat>, calls: seq<Call>, pcs: map<Tid, Pc>)

  datatype Step =
    | Enter(t: Tid, key: str)
    | Execute(t: Tid, r: Result)
    | Release(t: Tid)
    | Remove(t: Tid)
    | Return(t: Tid)

  const INITIAL := State(map[], [], map[])

  /** The first critical section: join the call in the map, or put a new one there. */
  function EnterStep(s: State, t: Tid, key: str): Option<State> {
    if t in s.pcs then None
    else if key in s.m then
      var c := s.m[key];
      if c >= |s.calls| then None
      else Some(State(s.m, s.calls[c := s.calls[c].(dups := s.calls[c].dups + 1)], s.pcs[t := Joined(c)]))
    else
      Some(State(s.m[key := |s.calls|], s.calls + [Call(key, t, None, false, 0)], s.pcs[t := Leading(|s.calls|)]))
  }

  /** What a caller returns from where it stands, if it can. */
  function ReturnStep(s: State, t: Tid): Option<State> {
    if t !in s.pcs then None
    else
      match s.pcs[t]
      case Removed(c) =>
        if c < |s.calls| && s.calls[c].result.Some?
        then Some(s.(pcs := s.pcs[t := Finished(c, s.calls[c].result.value, s.calls[c].dups > 0, true)])) else None
      case Joined(c) =>
        if c < |s.calls| && s.calls[c].done && s.calls[c].result.Some?
        then Some(s.(pcs := s.pcs[t := Finished(c, s.calls[c].result.value, true, false)])) else None
      case _ => None
  }

  /** One step, if its caller stands where it can take it. */
  function Next(s: State, step: Step): Option<State> {
    match step
    case Enter(t, key) => EnterStep(s, t, key)
    case Execute(t, r) =>
      if t in s.pcs && s.pcs[t].Leading? && s.pcs[t].c < |s.calls| then
        var c := s.pcs[t].c;
        Some(State(s.m, s.calls[c := s.calls[c].(result := Some(r))], s.pcs[t := Filled(c)]))
      else None
    case Release(t) =>
      if t in s.pcs && s.pcs[t].Filled? && s.pcs[t].c < |s.calls| then
        var c := s.pcs[t].c;
        Some(State(s.m, s.calls[c := s.calls[c].(done := true)], s.pcs[t := Released(c)]))
      else None
    case Remove(t) =>
      if t in s.pcs && s.pcs[t].Released? && s.pcs[t].c < |s.calls| then
        var c := s.pcs[t].c;
        Some(State(s.m - {s.calls[c].key}, s.calls, s.pcs[t := Removed(c)]))
      else None
    case Return(t) => ReturnStep(s, t)
  }

  /** The state after a run of steps, in any interleaving. */
  function Run(steps: seq<Step>): Option<State> {
    if steps == [] then Some(INITIAL)
    else
      match Run(steps[..|steps| - 1])
      case None => None
      case Some(s) => Next(s, steps[|steps| - 1])
  }

  // ---------- The invariant ----------

  /** The leader is between inserting its call and deleting it. */
  predicate InMap(pc: Pc) {
    pc.Leading? || pc.Filled? || pc.Released?
  }

  predicate Leads(pc: Pc) {
    InMap(pc) || pc.Removed? || (pc.Finished? && pc.led)
  }

  /** The callers that joined call c. */
  function Joiners(pcs: map<Tid, Pc>, c: nat): set<Tid> {
    set t | t in pcs && !Leads(pcs[t]) && pcs[t].c == c
  }

  ghost predicate KeyOk(s: State, key: str)
    requires key in s.m
  {
    var c := s.m[key];
    && c < |s.calls| && s.calls[c].key == key
    && s.calls[c].leader in s.pcs && InMap(s.pcs[s.calls[c].leader]) && s.pcs[s.calls[c].leader].c == c
  }

  ghost predicate CallOk(s: State, c: nat)
    requires c < |s.calls|
  {
    && s.calls[c].leader in s.pcs && Leads(s.pcs[s.calls[c].leader]) && s.pcs[s.calls[c].leader].c == c
    && (s.calls[c].done ==> s.calls[c].result.Some?)
    && s.calls[c].dups == |Joiners(s.pcs, c)|
  }

  ghost predicate CallerOk(s: State, t: Tid)
    requires t in s.pcs
  {
    var pc := s.pcs[t];
    && pc.c < |s.calls|
    && var call := s.calls[pc.c];
       && (call.leader == t <==> Leads(pc))
       && (InMap(pc) ==> call.key in s.m && s.m[call.key] == pc.c)
       && (pc.Leading? ==> call.result.None? && !call.done)
       && (pc.Filled? ==> call.result.Some? && !call.done)
       && (pc.Released? || pc.Removed? || (pc.Finished? && pc.led) ==> call.done && call.result.Some?)
       && (pc.Finished? ==> call.done && call.result == Some(pc.result))
       && (pc.Finished? ==> (pc.shared <==> call.dups > 0))
       && (!Leads(pc) ==> call.dups > 0)
  }

  ghost predicate Inv(s: State) {
    && (forall key | key in s.m :: KeyOk(s, key))
    && (forall c | 0 <= c < |s.calls| :: CallOk(s, c))
    && (forall t | t in s.pcs :: CallerOk(s, t))
  }

  lemma JoinersAfter(pcs: map<Tid, Pc>, t: Tid, pc: Pc, c: nat)
    ensures var now := pcs[t := pc];
            Joiners(now, c) == Joiners(pcs, c) - {t} + if !Leads(pc) && pc.c == c then {t} else {}
  {
  }

  lemma NoJoiners(s: State, c: nat)
    requires Inv(s) && c >= |s.calls|
    ensures Joiners(s.pcs, c) == {}
  {
    forall t | t in s.pcs
      ensures s.pcs[t].c != c
    {
      assert CallerOk(s, t);
    }
  }

  lemma NotYet(pcs: map<Tid, Pc>, t: Tid, c: nat)
    requires t !in pcs
    ensures t !in Joiners(pcs, c)
  {
  }

  /** What the invariant says of one key, one call and one caller. */
  lemma InvAt(s: State)
    requires Inv(s)
    ensures forall key | key in s.m :: KeyOk(s, key)
    ensures forall c | 0 <= c < |s.calls| :: CallOk(s, c)
    ensures forall t | t in s.pcs :: CallerOk(s, t)
  {
    hide KeyOk, CallOk, CallerOk;
  }

  // A caller enters: it joins a call, or starts one.

  lemma EnterCall(s: State, t: Tid, key: str, c: nat)
    requires Inv(s) && EnterStep(s, t, key).Some? && c < |EnterStep(s, t, key).value.calls|
    ensures CallOk(EnterStep(s, t, key).value, c)
  {
    hide Joiners, Inv, CallerOk, CallOk, KeyOk;
    InvAt(s);
    if c < |s.calls| {
      EnterOld(s, t, key, c);
    } else {
      NoJoiners(s, c);
      EnterNew(s, t, key, c);
    }
  }

  /** A call that is there already, joined or not. */
  lemma EnterOld(s: State, t: Tid, key: str, c: nat)
    requires EnterStep(s, t, key).Some? && c < |s.calls| && CallOk(s, c)
    ensures CallOk(EnterStep(s, t, key).value, c)
  {
    hide Joiners, Leads;
    var s1 := EnterStep(s, t, key).value;
    JoinersAfter(s.pcs, t, s1.pcs[t], c);
    NotYet(s.pcs, t, c);
    var j := Joiners(s.pcs, c);
    assert j - {t} == j;
    EnteredPc(s, t, key);
    if key in s.m && s.m[key] == c {
      assert |j + {t}| == |j| + 1;
    } else {
      assert j + {} == j;
    }
  }

  lemma EnteredPc(s: State, t: Tid, key: str)
    requires EnterStep(s, t, key).Some?
    ensures var pc := EnterStep(s, t, key).value.pcs[t];
            if key in s.m then !Leads(pc) && pc.c == s.m[key] else Leads(pc) && pc.c == |s.calls|
  {
  }

  /** The call that is new. */
  lemma EnterNew(s: State, t: Tid, key: str, c: nat)
    requires EnterStep(s, t, key).Some? && c == |s.calls| < |EnterStep(s, t, key).value.calls|
    requires Joiners(s.pcs, c) == {}
    ensures CallOk(EnterStep(s, t, key).value, c)
  {
    hide Joiners;
    JoinersAfter(s.pcs, t, EnterStep(s, t, key).value.pcs[t], c);
  }

  lemma EnterKey(s: State, t: Tid, key: str, k: str)
    requires Inv(s) && EnterStep(s, t, key).Some? && k in EnterStep(s, t, key).value.m
    ensures KeyOk(EnterStep(s, t, key).value, k)
  {
    hide Inv, CallOk, CallerOk;
    InvAt(s);
    if k in s.m {
      assert KeyOk(s, k);
    }
  }

  lemma EnterCaller(s: State, t: Tid, key: str, u: Tid)
    requires Inv(s) && EnterStep(s, t, key).Some? && u in EnterStep(s, t, key).value.pcs
    ensures CallerOk(EnterStep(s, t, key).value, u)
  {
    hide Inv, CallOk;
    InvAt(s);
    if key in s.m {
      assert KeyOk(s, key);
    }
    if u != t {
      assert CallerOk(s, u);
    }
  }

  lemma EnterKeeps(s: State, t: Tid, key: str)
    requires Inv(s) && EnterStep(s, t, key).Some?
    ensures Inv(EnterStep(s, t, key).value)
  {
    hide CallOk, KeyOk, CallerOk, EnterStep;
    var s1 := EnterStep(s, t, key).value;
    forall c | 0 <= c < |s1.calls| ensures CallOk(s1, c) { EnterCall(s, t, key, c); }
    forall k | k in s1.m ensures KeyOk(s1, k) { EnterKey(s, t, key, k); }
    forall u | u in s1.pcs ensures CallerOk(s1, u) { EnterCaller(s, t, key, u); }
  }

  // A caller moves on within its call.

  /** It stays a leader or a joiner; it changes only its own call, and only before that is done; it takes
      at most its own key out of the map, and then it has left the map. */
  ghost predicate Moves(s: State, t: Tid, s1: State) {
    && t in s.pcs && t in s1.pcs && s1.pcs == s.pcs[t := s1.pcs[t]]
    && s1.pcs[t].c == s.pcs[t].c && (Leads(s1.pcs[t]) <==> Leads(s.pcs[t]))
    && |s1.calls| == |s.calls|
    && (forall c | 0 <= c < |s.calls| :: SameCall(s.calls[c], s1.calls[c], c == s.pcs[t].c && Leads(s.pcs[t])))
    && (forall k | k in s1.m ::
          k in s.m && s1.m[k] == s.m[k] && (s1.m[k] == s.pcs[t].c && InMap(s.pcs[t]) ==> InMap(s1.pcs[t])))
    && (forall k | k in s.m && k !in s1.m :: s.m[k] == s.pcs[t].c && InMap(s.pcs[t]) && !InMap(s1.pcs[t]))
  }

  predicate SameCall(call: Call, now: Call, mine: bool) {
    && now.key == call.key && now.leader == call.leader && now.dups == call.dups
    && (!mine || call.done ==> now == call)
  }

  lemma MoveCall(s: State, t: Tid, s1: State, c: nat)
    requires Inv(s) && Moves(s, t, s1) && CallerOk(s1, t) && c < |s1.calls|
    ensures CallOk(s1, c)
  {
    hide Joiners, Inv;
    InvAt(s);
    assert CallOk(s, c) && CallerOk(s, t) && SameCall(s.calls[c], s1.calls[c], c == s.pcs[t].c && Leads(s.pcs[t]));
    JoinersSame(s.pcs, t, s1.pcs[t], c);
  }

  lemma JoinersSame(pcs: map<Tid, Pc>, t: Tid, pc: Pc, c: nat)
    requires t in pcs && pc.c == pcs[t].c && (Leads(pc) <==> Leads(pcs[t]))
    ensures Joiners(pcs[t := pc], c) == Joiners(pcs, c)
  {
  }

  lemma MoveKey(s: State, t: Tid, s1: State, k: str)
    requires Inv(s) && Moves(s, t, s1) && k in s1.m
    ensures KeyOk(s1, k)
  {
    hide Inv, CallOk, CallerOk;
    InvAt(s);
    assert KeyOk(s, k);
    assert SameCall(s.calls[s.m[k]], s1.calls[s.m[k]], s.m[k] == s.pcs[t].c && Leads(s.pcs[t]));
  }

  lemma MoveCaller(s: State, t: Tid, s1: State, u: Tid)
    requires Inv(s) && Moves(s, t, s1) && CallerOk(s1, t) && u in s1.pcs
    ensures CallerOk(s1, u)
  {
    hide Inv, CallOk, KeyOk;
    InvAt(s);
    assert CallerOk(s, u) && CallerOk(s, t);
    var c := s.pcs[u].c;
    assert SameCall(s.calls[c], s1.calls[c], c == s.pcs[t].c && Leads(s.pcs[t]));
  }

  lemma MoveKeeps(s: State, t: Tid, s1: State)
    requires Inv(s) && Moves(s, t, s1) && CallerOk(s1, t)
    ensures Inv(s1)
  {
    hide CallOk, KeyOk, CallerOk, Moves;
    forall c | 0 <= c < |s1.calls| ensures CallOk(s1, c) { MoveCall(s, t, s1, c); }
    forall k | k in s1.m ensures KeyOk(s1, k) { MoveKey(s, t, s1, k); }
    forall u | u in s1.pcs ensures CallerOk(s1, u) { MoveCaller(s, t, s1, u); }
  }

  lemma StepMoves(s: State, step: Step)
    requires Inv(s) && Next(s, step).Some? && !step.Enter?
    ensures Moves(s, step.t, Next(s, step).value) && CallerOk(Next(s, step).value, step.t)
  {
    hide Inv, CallOk, KeyOk, Joiners;
    InvAt(s);
    assert step.t in s.pcs;
    assert CallerOk(s, step.t);
    if step.Remove? { RemovedKeys(s, step.t); }
  }

  lemma RemovedKeys(s: State, t: Tid)
    requires Inv(s) && Next(s, Remove(t)).Some?
    ensures forall k | k in Next(s, Remove(t)).value.m :: Next(s, Remove(t)).value.m[k] != s.pcs[t].c
  {
    hide Inv, CallOk, CallerOk, Joiners;
    InvAt(s);
    var m1 := Next(s, Remove(t)).value.m;
    forall k | k in m1
      ensures m1[k] != s.pcs[t].c
    {
      assert KeyOk(s, k);
    }
  }

  /** Every step of every caller keeps the invariant. */
  lemma StepKeeps(s: State, step: Step)
    requires Inv(s) && Next(s, step).Some?
    ensures Inv(Next(s, step).value)
  {
    hide Inv, Moves, CallerOk, EnterStep, ReturnStep;
    match step
    case Enter(t, key) => EnterKeeps(s, t, key);
    case _ =>
      StepMoves(s, step);
      MoveKeeps(s, step.t, Next(s, step).value);
  }

  lemma {:induction false} RunKeeps(steps: seq<Step>)
    requires Run(steps).Some?
    ensures Inv(Run(steps).value)
    decreases |steps|
  {
    hide Inv, Next;
    if steps == [] {
      InitialKeeps();
    } else {
      RunKeeps(steps[..|steps| - 1]);
      StepKeeps(Run(steps[..|steps| - 1]).value, steps[|steps| - 1]);
    }
  }

  lemma InitialKeeps()
    ensures Inv(INITIAL)
  {
  }

  // ---------- What every run guarantees ----------

  predicate Running(s: State, t: Tid, key: str) {
    t in s.pcs && s.pcs[t].Leading? && s.pcs[t].c < |s.calls| && s.calls[s.pcs[t].c].key == key
  }

  /** At most one execution per key is in flight, and as long as it runs, its call is the one in the map. */
  lemma OneInFlight(steps: seq<Step>, t: Tid, u: Tid, key: str)
    requires Run(steps).Some?
    requires Running(Run(steps).value, t, key) && Running(Run(steps).value, u, key)
    ensures t == u
    ensures var s := Run(steps).value; key in s.m && s.m[key] == s.pcs[t].c
  {
    hide Run, Inv, CallOk;
    RunKeeps(steps);
    var s := Run(steps).value;
    InvAt(s);
    assert CallerOk(s, t) && CallerOk(s, u);
  }

  /** A key leaves the map only when the leader of its call deletes it. */
  lemma OnlyLeaderDeletes(steps: seq<Step>, step: Step, key: str)
    requires Run(steps).Some? && Next(Run(steps).value, step).Some?
    requires key in Run(steps).value.m
    requires key !in Next(Run(steps).value, step).value.m
             || Next(Run(steps).value, step).value.m[key] != Run(steps).value.m[key]
    ensures var s := Run(steps).value;
            s.m[key] < |s.calls| && step == Remove(s.calls[s.m[key]].leader) && s.calls[s.m[key]].done
  {
    hide Run, Inv, CallOk;
    RunKeeps(steps);
    var s := Run(steps).value;
    InvAt(s);
    assert KeyOk(s, key);
    if step.Remove? {
      assert CallerOk(s, step.t);
    }
  }

  predicate FinishedCall(s: State, t: Tid, c: nat) {
    t in s.pcs && s.pcs[t].Finished? && s.pcs[t].c == c
  }

  /** All callers of one call return the same results, and all of them report them shared exactly when
      somebody joined the leader. */
  lemma SameResult(steps: seq<Step>, t: Tid, u: Tid, c: nat)
    requires Run(steps).Some?
    requires FinishedCall(Run(steps).value, t, c) && FinishedCall(Run(steps).value, u, c)
    ensures var s := Run(steps).value;
            && s.pcs[t].result == s.pcs[u].result
            && (s.pcs[t].shared <==> Joiners(s.pcs, c) != {})
            && (t != u ==> s.pcs[t].shared && s.pcs[u].shared)
  {
    hide Run, Inv, Joiners;
    RunKeeps(steps);
    var s := Run(steps).value;
    InvAt(s);
    assert CallerOk(s, t) && CallerOk(s, u) && CallOk(s, c);
  }

  /** What a step finds finished stays as it is, and a caller that joins later joins another call. */
  lemma FinishedStays(steps: seq<Step>, step: Step, t: Tid, c: nat)
    requires Run(steps).Some? && Next(Run(steps).value, step).Some? && FinishedCall(Run(steps).value, t, c)
    ensures var s, s1 := Run(steps).value, Next(Run(steps).value, step).value;
            && t in s1.pcs && s1.pcs[t] == s.pcs[t]
            && (s.pcs[t].led ==> Joiners(s1.pcs, c) == Joiners(s.pcs, c))
  {
    hide Run, Inv, Joiners;
    RunKeeps(steps);
    var s := Run(steps).value;
    InvAt(s);
    var s1 := Next(s, step).value;
    assert CallerOk(s, t);
    if step.Enter? {
      NotYet(s.pcs, step.t, c);
      JoinersAfter(s.pcs, step.t, s1.pcs[step.t], c);
      if step.key in s.m {
        assert KeyOk(s, step.key);
      }
    } else {
      StepMoves(s, step);
      JoinersSame(s.pcs, step.t, s1.pcs[step.t], c);
    }
  }

  /** The step that brings t nearer to its return: its own, or its leader's while t waits. */
  function Forward(s: State, t: Tid): Step
    requires t in s.pcs
  {
    var pc := s.pcs[t];
    match pc
    case Leading(_) => Execute(t, Result(None, NoError))
    case Filled(_) => Release(t)
    case Released(_) => Remove(t)
    case Joined(c) =>
      if c >= |s.calls| || s.calls[c].done then Return(t)
      else if s.calls[c].result.None? then Execute(s.calls[c].leader, Result(None, NoError))
      else Release(s.calls[c].leader)
    case _ => Return(t)
  }

  /** How many steps, of a caller or of the leader it waits for, are left until it returns. */
  function Rank(s: State, t: Tid): nat
    requires t in s.pcs
  {
    match s.pcs[t]
    case Leading(_) => 4
    case Filled(_) => 3
    case Released(_) => 2
    case Removed(_) => 1
    case Joined(c) => if c >= |s.calls| || s.calls[c].done then 1 else if s.calls[c].result.Some? then 2 else 3
    case Finished(_, _, _, _) => 0
  }

  /** While a caller has not returned, it or the leader it waits for can take a step that brings it nearer. */
  lemma NeverStuck(steps: seq<Step>, t: Tid)
    requires Run(steps).Some? && t in Run(steps).value.pcs && !Run(steps).value.pcs[t].Finished?
    ensures var s := Run(steps).value;
            var s1 := Next(s, Forward(s, t));
            s1.Some? && t in s1.value.pcs && Rank(s1.value, t) == Rank(s, t) - 1
  {
    hide Run, Inv, Joiners;
    RunKeeps(steps);
    var s := Run(steps).value;
    InvAt(s);
    assert CallerOk(s, t);
    var c := s.pcs[t].c;
    assert CallOk(s, c);
    assert CallerOk(s, s.calls[c].leader);
  }

  /** No step of anybody takes a caller further from its return. */
  lemma NeverFurther(steps: seq<Step>, step: Step, t: Tid)
    requires Run(steps).Some? && Next(Run(steps).value, step).Some? && t in Run(steps).value.pcs
    ensures var s, s1 := Run(steps).value, Next(Run(steps).value, step).value;
            t in s1.pcs && Rank(s1, t) <= Rank(s, t)
  {
    hide Run, Inv, Joiners;
    RunKeeps(steps);
    var s := Run(steps).value;
    InvAt(s);
    assert CallerOk(s, t);
    if !step.Enter? && step.t in s.pcs {
      assert CallerOk(s, step.t);
    }
  }

  /** Nobody waits for ever: after any run, four steps at most see a caller through. */
  lemma {:induction false} AllReturn(steps: seq<Step>, t: Tid) returns (more: seq<Step>)
    requires Run(steps).Some? && t in Run(steps).value.pcs
    ensures |more| == Rank(Run(steps).value, t) <= 4
    ensures Run(steps + more).Some? && t in Run(steps + more).value.pcs && Run(steps + more).value.pcs[t].Finished?
    decreases Rank(Run(steps).value, t)
  {
    hide Next, Forward;
    var s := Run(steps).value;
    if s.pcs[t].Finished? {
      more := [];
      assert steps + more == steps;
    } else {
      NeverStuck(steps, t);
      var step := Forward(s, t);
      var all := steps + [step];
      assert all[..|all| - 1] == steps;
      var rest := AllReturn(all, t);
      more := [step] + rest;
      assert all + rest == steps + more;
    }
  }

  // ---------- Client.Exchange ----------

  /** The message object a caller is handed: the one fn returned for the call, or a copy of its own. */
  datatype Handed = Nil | Original(c: nat) | CopyFor(t: Tid)

  /** if r != nil && shared { r = r.Copy() } */
  function Exchange(s: State, t: Tid): Handed
    requires t in s.pcs && s.pcs[t].Finished?
  {
    var pc := s.pcs[t];
    if pc.result.val == None then Nil else if pc.shared then CopyFor(t) else Original(pc.c)
  }

  /** No two callers are ever handed the same message object. */
  lemma OwnMessage(steps: seq<Step>, t: Tid, u: Tid)
    requires Run(steps).Some? && t != u
    requires var s := Run(steps).value; t in s.pcs && u in s.pcs && s.pcs[t].Finished? && s.pcs[u].Finished?
    ensures var s := Run(steps).value; Exchange(s, t) == Exchange(s, u) ==> Exchange(s, t) == Nil
  {
    hide Run;
    var s := Run(steps).value;
    if s.pcs[t].c == s.pcs[u].c {
      SameResult(steps, t, u, s.pcs[t].c);
    }
  }
}
