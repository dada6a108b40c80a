/**
 The handle registry (src/impl/handle_registry.cpp) as a state machine. Any number of operations
 run at once; one action is one atomic step of one of them, and a run is any sequence of actions.
 Every operation has an identity of its own and is carried out once.
 */
module HandleRegistry {
  import opened Common

  /** What a shared pointer points to; the null pointer is `None`. */
  datatype Target = Target(address: nat)

  type OpId = nat

  /** Where an allocation is: the next atomic step it takes. */
  datatype AllocPc =
    | CheckClosed
    | ReadFastCtr
    | IncFastCtr
    | StoreFast(fastIdx: int)
    | RecheckFast(fastIdx: int)
    | UndoFast(fastIdx: int)
    | IncSlowCtr
    | PutSlow(slowIdx: int)
    | RecheckSlow(slowIdx: int)
    | UndoSlow(slowIdx: int)
    | Returned(result: int)

  datatype ClosePc = CompareAndSet | Sweeping | Finished

  datatype Operation =
    | Allocate(target: Target, critical: bool, safe: bool, at: AllocPc)
    | Release(hnd: int, done: bool)
    | Close(closeAt: ClosePc)

  /** How far the one close that won the flag has cleaned up. */
  datatype Sweep = Open | SweepFast(next: nat) | SweepSlow(next: nat) | Swept

  /** `issued` records which operation drew a handle from a counter; the registry does not keep it. */
  datatype State = State(
    fast: seq<Option<Target>>, slow: seq<map<int, Target>>, fastCtr: int, slowCtr: int, closed: bool,
    sweep: Sweep, ops: map<OpId, Operation>, issued: map<int, OpId>)

  datatype Event = Quiet | Stored(hnd: int, target: Target) | Removed(hnds: set<int>)

  datatype Action = Begin(id: OpId, op: Operation) | Step(id: OpId)

  function Initial(fastCap: nat, segments: nat): State
    requires segments > 0
  {
    State(seq(fastCap, _ => None), seq(segments, _ => map[]), 0, fastCap, false, Open, map[], map[])
  }

  /** An operation as it is when it starts. */
  predicate Fresh(op: Operation) {
    match op
    case Allocate(_, _, _, at) => at == CheckClosed
    case Release(_, done) => !done
    case Close(at) => at == CompareAndSet
  }

  predicate Running(op: Operation) {
    match op
    case Allocate(_, _, _, at) => !at.Returned?
    case Release(_, done) => !done
    case Close(at) => at != Finished
  }

  predicate Enabled(s: State, a: Action) {
    match a
    case Begin(id, op) => id !in s.ops && Fresh(op)
    case Step(id) => id in s.ops && Running(s.ops[id])
  }

  /** The entry of a handle: what `Get` returns for a handle that is not negative. */
  function Get(s: State, h: int): Option<Target>
    requires |s.slow| > 0 && h >= 0
  {
    if h < |s.fast| then s.fast[h]
    else
      var segment := s.slow[h % |s.slow|];
      if h in segment then Some(segment[h]) else None
  }

  /** The state without the entry of h. */
  function Without(s: State, h: int): State
    requires |s.slow| > 0
  {
    if h < 0 then s
    else if h < |s.fast| then s.(fast := s.fast[h := None])
    else
      var i := h % |s.slow|;
      s.(slow := s.slow[i := s.slow[i] - {h}])
  }

  function MovedTo(s: State, id: OpId, op: Operation, at: AllocPc): map<OpId, Operation>
    requires op.Allocate?
  {
    s.ops[id := op.(at := at)]
  }

  function StepAllocate(s: State, id: OpId, op: Operation): (State, Event)
    requires |s.slow| > 0 && op.Allocate? && !op.at.Returned?
  {
    match op.at
    case CheckClosed =>
      var next := if s.closed then Returned(-1) else if op.critical then ReadFastCtr else IncSlowCtr;
      (s.(ops := MovedTo(s, id, op, next)), Quiet)
    case ReadFastCtr =>
      (s.(ops := MovedTo(s, id, op, if s.fastCtr < |s.fast| then IncFastCtr else IncSlowCtr)), Quiet)
    case IncFastCtr =>
      var i := s.fastCtr;
      if i < |s.fast| then
        (s.(fastCtr := i + 1, issued := s.issued[i := id], ops := MovedTo(s, id, op, StoreFast(i))), Quiet)
      else (s.(fastCtr := i + 1, ops := MovedTo(s, id, op, IncSlowCtr)), Quiet)
    case StoreFast(i) =>
      if 0 <= i < |s.fast| then
        (s.(fast := s.fast[i := Some(op.target)], ops := MovedTo(s, id, op, RecheckFast(i))), Stored(i, op.target))
      else (s, Quiet)
    case RecheckFast(i) =>
      (s.(ops := MovedTo(s, id, op, if op.safe && s.closed then UndoFast(i) else Returned(i))), Quiet)
    case UndoFast(i) =>
      (Without(s, i).(ops := MovedTo(s, id, op, Returned(-1))), Removed({i}))
    case IncSlowCtr =>
      var i := s.slowCtr;
      (s.(slowCtr := i + 1, issued := s.issued[i := id], ops := MovedTo(s, id, op, PutSlow(i))), Quiet)
    case PutSlow(i) =>
      var k := i % |s.slow|;
      var slow := s.slow[k := s.slow[k][i := op.target]];
      (s.(slow := slow, ops := MovedTo(s, id, op, RecheckSlow(i))), Stored(i, op.target))
    case RecheckSlow(i) =>
      (s.(ops := MovedTo(s, id, op, if op.safe && s.closed then UndoSlow(i) else Returned(i))), Quiet)
    case UndoSlow(i) =>
      (Without(s, i).(ops := MovedTo(s, id, op, Returned(-1))), Removed({i}))
  }

  function StepClose(s: State, id: OpId, at: ClosePc): (State, Event)
    requires at != Finished
  {
    if at == CompareAndSet then
      if s.closed then (s.(ops := s.ops[id := Close(Finished)]), Quiet)
      else (s.(closed := true, sweep := SweepFast(0), ops := s.ops[id := Close(Sweeping)]), Quiet)
    else
      match s.sweep
      case SweepFast(i) =>
        if i < |s.fast| then (s.(fast := s.fast[i := None], sweep := SweepFast(i + 1)), Removed({i}))
        else (s.(sweep := SweepSlow(0)), Quiet)
      case SweepSlow(i) =>
        if i < |s.slow| then (s.(slow := s.slow[i := map[]], sweep := SweepSlow(i + 1)), Removed(s.slow[i].Keys))
        else (s.(sweep := Swept, ops := s.ops[id := Close(Finished)]), Quiet)
      case _ => (s, Quiet)
  }

  function Apply(s: State, a: Action): (State, Event)
    requires |s.slow| > 0 && Enabled(s, a)
  {
    match a
    case Begin(id, op) => (s.(ops := s.ops[id := op]), Quiet)
    case Step(id) =>
      match s.ops[id]
      case Allocate(_, _, _, _) => StepAllocate(s, id, s.ops[id])
      case Release(h, _) => (Without(s, h).(ops := s.ops[id := Release(h, true)]), Removed({h}))
      case Close(at) => StepClose(s, id, at)
  }

  // ---------------------------------------------------------------- what every step keeps

  /** The handle that an allocation has drawn and may still return, or has returned. */
  function Drawn(at: AllocPc): Option<int> {
    match at
    case StoreFast(i) => Some(i)
    case RecheckFast(i) => Some(i)
    case UndoFast(i) => Some(i)
    case PutSlow(i) => Some(i)
    case RecheckSlow(i) => Some(i)
    case UndoSlow(i) => Some(i)
    case Returned(r) => if r >= 0 then Some(r) else None
    case _ => None
  }

  /** Fast handles are below the capacity and drawn from one counter, slow ones from the other. */
  predicate InRange(s: State, h: int) {
    if h < |s.fast| then 0 <= h < s.fastCtr else h < s.slowCtr
  }

  predicate PcInRange(s: State, at: AllocPc) {
    match at
    case StoreFast(i) => i < |s.fast|
    case RecheckFast(i) => i < |s.fast|
    case UndoFast(i) => i < |s.fast|
    case PutSlow(i) => i >= |s.fast|
    case RecheckSlow(i) => i >= |s.fast|
    case UndoSlow(i) => i >= |s.fast|
    case _ => true
  }

  /** The state of one operation fits the shared state. */
  predicate OpOk(s: State, id: OpId)
    requires id in s.ops
  {
    match s.ops[id]
    case Allocate(_, _, safe, at) =>
      PcInRange(s, at)
      && (Drawn(at).Some? ==> Drawn(at).value in s.issued && s.issued[Drawn(at).value] == id)
      && (at.Returned? && at.result < 0 ==> at.result == -1 && s.closed)
      && (at.UndoFast? || at.UndoSlow? ==> safe && s.closed)
    case Release(_, _) => true
    case Close(at) => at != CompareAndSet ==> s.closed && (at == Sweeping ==> s.sweep.SweepFast? || s.sweep.SweepSlow?)
  }

  /** An allocation that has put its target in place and not given up on it. */
  predicate Published(at: AllocPc, h: int) {
    at == RecheckFast(h) || at == UndoFast(h) || at == RecheckSlow(h) || at == UndoSlow(h) || at == Returned(h)
    || at == Returned(-1)
  }

  /** A safe allocation that is still to look at the close flag again, or to clean up. */
  predicate Pending(at: AllocPc) {
    at.RecheckFast? || at.UndoFast? || at.RecheckSlow? || at.UndoSlow?
  }

  /** The sweep has not come to h yet. */
  predicate NotYetSwept(s: State, h: int)
    requires |s.slow| > 0
  {
    match s.sweep
    case Open => true
    case SweepFast(i) => i <= h
    case SweepSlow(i) => h >= |s.fast| && i <= h % |s.slow|
    case Swept => false
  }

  /** An entry is the target of the operation that drew its handle. */
  predicate EntryOk(s: State, h: int)
    requires |s.slow| > 0 && h >= 0 && Get(s, h).Some?
  {
    && h in s.issued && s.issued[h] in s.ops && s.ops[s.issued[h]].Allocate?
    && var op := s.ops[s.issued[h]];
       && Get(s, h).value == op.target && Published(op.at, h) && op.at != Returned(-1)
       && (op.safe ==> Pending(op.at) || NotYetSwept(s, h))
  }

  /** Every slow entry is in the segment that its handle selects. */
  ghost predicate Placed(s: State) {
    |s.slow| > 0 && forall i, h :: 0 <= i < |s.slow| && h in s.slow[i] ==> h >= |s.fast| && h % |s.slow| == i
  }

  ghost predicate Inv(s: State) {
    && Placed(s) && 0 <= s.fastCtr && |s.fast| <= s.slowCtr
    && (s.closed <==> s.sweep != Open)
    && (forall h :: h in s.issued ==> InRange(s, h))
    && (forall id :: id in s.ops ==> OpOk(s, id))
    && (forall i, j :: i in s.ops && j in s.ops && s.ops[i] == Close(Sweeping) == s.ops[j] ==> i == j)
    && (forall h :: h >= 0 && Get(s, h).Some? ==> EntryOk(s, h))
  }

  lemma {:induction false} InitialInv(fastCap: nat, segments: nat)
    requires segments > 0
    ensures Inv(Initial(fastCap, segments))
  {}

  /** What an event does to the entry of one handle. */
  function Effect(e: Event, h: int, before: Option<Target>): Option<Target> {
    match e
    case Quiet => before
    case Stored(k, t) => if h == k then Some(t) else before
    case Removed(ks) => if h in ks then None else before
  }

  /** The event of a step tells its whole effect on the entries, and placement is kept. */
  lemma {:induction false} StepEffect(s: State, a: Action)
    requires Inv(s) && Enabled(s, a)
    ensures var (s', e) := Apply(s, a);
      |s'.slow| == |s.slow| && |s'.fast| == |s.fast| && Placed(s')
      && forall h :: h >= 0 ==> Get(s', h) == Effect(e, h, Get(s, h))
  {
    if a.Step? {
      var op := s.ops[a.id];
      assert OpOk(s, a.id);
      if op.Allocate? { AllocateEffect(s, a.id, op); }
      if op.Release? { WithoutEffect(s, op.hnd); }
    }
  }

  lemma {:induction false} WithoutEffect(s: State, h: int)
    requires Placed(s)
    ensures var s' := Without(s, h);
      |s'.slow| == |s.slow| && |s'.fast| == |s.fast| && Placed(s')
      && forall k :: k >= 0 ==> Get(s', k) == if k == h then None else Get(s, k)
  {}

  lemma {:induction false} AllocateEffect(s: State, id: OpId, op: Operation)
    requires Placed(s) && op.Allocate? && !op.at.Returned? && PcInRange(s, op.at)
    requires op.at.StoreFast? ==> op.at.fastIdx >= 0
    ensures var (s', e) := StepAllocate(s, id, op);
      |s'.slow| == |s.slow| && |s'.fast| == |s.fast| && Placed(s')
      && forall h :: h >= 0 ==> Get(s', h) == Effect(e, h, Get(s, h))
  {
    if op.at.UndoFast? { WithoutEffect(s, op.at.fastIdx); }
    if op.at.UndoSlow? { WithoutEffect(s, op.at.slowIdx); }
  }

  /** The shared fields that a step changes, and the operations it leaves alone. */
  lemma {:induction false} StepFields(s: State, a: Action)
    requires Inv(s) && Enabled(s, a)
    ensures var s' := Apply(s, a).0;
      && s.fastCtr <= s'.fastCtr && s.slowCtr <= s'.slowCtr && (s.closed ==> s'.closed)
      && (s'.closed <==> s'.sweep != Open)
      && (forall id :: id in s.ops && id != a.id ==> id in s'.ops && s'.ops[id] == s.ops[id])
      && (forall id :: id in s'.ops ==> id == a.id || id in s.ops)
  {
    if a.Step? {
      assert OpOk(s, a.id);
      if s.ops[a.id].Allocate? { AllocateFields(s, a.id, s.ops[a.id]); }
    }
  }

  lemma {:induction false} AllocateFields(s: State, id: OpId, op: Operation)
    requires |s.slow| > 0 && id in s.ops && op.Allocate? && !op.at.Returned?
    ensures var s' := StepAllocate(s, id, op).0;
      && s.fastCtr <= s'.fastCtr && s.slowCtr <= s'.slowCtr && s.closed == s'.closed && s.sweep == s'.sweep
      && id in s'.ops && s'.ops == s.ops[id := s'.ops[id]]
  {
    var s' := StepAllocate(s, id, op).0;
    assert id in s'.ops;
    assert s'.ops == s.ops[id := s'.ops[id]];
  }

  /** A handle is drawn once, by the operation that takes the step. */
  lemma {:induction false} StepIssued(s: State, a: Action)
    requires Inv(s) && Enabled(s, a)
    ensures var s' := Apply(s, a).0;
      && (forall h :: h in s.issued ==> h in s'.issued && s'.issued[h] == s.issued[h])
      && (forall h :: h in s'.issued ==> InRange(s', h) && (h in s.issued || s'.issued[h] == a.id))
  {
    StepEffect(s, a);
    if a.Step? {
      assert OpOk(s, a.id);
      assert s.fastCtr !in s.issued || s.fastCtr >= |s.fast|;
      assert s.slowCtr !in s.issued;
    }
  }

  /** Only the one close that won the flag moves the sweep, and never backwards. */
  lemma {:induction false} StepSweep(s: State, a: Action, h: int)
    requires Inv(s) && Enabled(s, a) && h >= 0
    ensures var (s', e) := Apply(s, a);
      |s'.slow| > 0 && (NotYetSwept(s, h) && !NotYetSwept(s', h) ==> e.Removed? && (Get(s, h).Some? ==> h in e.hnds))
  {
    StepEffect(s, a);
    if a.Step? { assert OpOk(s, a.id); }
  }

  /** The operation that takes the step ends in a state that fits. */
  lemma {:induction false} StepOwnOp(s: State, a: Action)
    requires Inv(s) && Enabled(s, a)
    ensures a.id in Apply(s, a).0.ops && OpOk(Apply(s, a).0, a.id)
  {
    StepEffect(s, a);
    if a.Step? {
      assert OpOk(s, a.id);
      if s.ops[a.id].Allocate? {
        var op := s.ops[a.id];
        if Drawn(op.at).Some? { assert InRange(s, Drawn(op.at).value); }
        if op.at.CheckClosed? || op.at.ReadFastCtr? { OwnCheck(s, a.id, op); }
        else if op.at.IncFastCtr? || op.at.StoreFast? || op.at.RecheckFast? || op.at.UndoFast? { OwnFast(s, a.id, op); }
        else { OwnSlow(s, a.id, op); }
      }
    }
  }

  predicate Ready(s: State, id: OpId, op: Operation) {
    |s.slow| > 0 && 0 <= s.fastCtr && |s.fast| <= s.slowCtr
    && id in s.ops && s.ops[id] == op && op.Allocate? && !op.at.Returned? && OpOk(s, id)
    && (Drawn(op.at).Some? ==> InRange(s, Drawn(op.at).value))
  }

  lemma {:induction false} OwnFast(s: State, id: OpId, op: Operation)
    requires Ready(s, id, op) && (op.at.IncFastCtr? || op.at.StoreFast? || op.at.RecheckFast? || op.at.UndoFast?)
    ensures id in StepAllocate(s, id, op).0.ops && OpOk(StepAllocate(s, id, op).0, id)
  {}

  lemma {:induction false} OwnSlow(s: State, id: OpId, op: Operation)
    requires Ready(s, id, op) && (op.at.IncSlowCtr? || op.at.PutSlow? || op.at.RecheckSlow? || op.at.UndoSlow?)
    ensures id in StepAllocate(s, id, op).0.ops && OpOk(StepAllocate(s, id, op).0, id)
  {}

  lemma {:induction false} OwnCheck(s: State, id: OpId, op: Operation)
    requires Ready(s, id, op) && (op.at.CheckClosed? || op.at.ReadFastCtr?)
    ensures id in StepAllocate(s, id, op).0.ops && OpOk(StepAllocate(s, id, op).0, id)
  {}

  /** The others still fit. */
  lemma {:induction false} StepOtherOp(s: State, a: Action, id: OpId)
    requires Inv(s) && Enabled(s, a) && id in s.ops && id != a.id
    ensures id in Apply(s, a).0.ops && OpOk(Apply(s, a).0, id)
  {
    StepEffect(s, a);
    StepFields(s, a);
    StepIssued(s, a);
    assert OpOk(s, id);
    if a.Step? { assert OpOk(s, a.id); }
  }

  /** Two operations never sweep at once. */
  lemma {:induction false} StepOneSweeper(s: State, a: Action, i: OpId, j: OpId)
    requires Inv(s) && Enabled(s, a)
    requires var s' := Apply(s, a).0; i in s'.ops && j in s'.ops && s'.ops[i] == Close(Sweeping) == s'.ops[j]
    ensures i == j
  {
    StepFields(s, a);
    if i in s.ops { assert OpOk(s, i); }
    if j in s.ops { assert OpOk(s, j); }
  }

  /** An entry that a step stores is in order. */
  lemma {:induction false} StepNewEntry(s: State, a: Action)
    requires Inv(s) && Enabled(s, a) && Apply(s, a).1.Stored?
    ensures var (s', e) := Apply(s, a);
      |s'.slow| > 0 && e.hnd >= 0 && Get(s', e.hnd) == Some(e.target) && EntryOk(s', e.hnd)
  {
    StepEffect(s, a);
    StepIssued(s, a);
    assert OpOk(s, a.id);
    assert InRange(s, Drawn(s.ops[a.id].at).value);
  }

  /** An entry that a step leaves alone stays in order. */
  lemma {:induction false} StepOldEntry(s: State, a: Action, h: int)
    requires Inv(s) && Enabled(s, a) && h >= 0 && Get(s, h).Some?
    requires var (s', e) := Apply(s, a); |s'.slow| > 0 && Get(s', h) == Get(s, h) && !(e.Removed? && h in e.hnds)
    ensures EntryOk(Apply(s, a).0, h)
  {
    StepEffect(s, a);
    StepFields(s, a);
    StepIssued(s, a);
    StepSweep(s, a, h);
    assert EntryOk(s, h);
    var owner := s.issued[h];
    assert OpOk(s, owner);
    if owner == a.id { OwnerStep(s, a, h); }
  }

  /** An allocation that published h goes on to return it, or to take it back. */
  lemma {:induction false} OwnerStep(s: State, a: Action, h: int)
    requires Inv(s) && Enabled(s, a) && h >= 0 && Get(s, h).Some? && EntryOk(s, h) && s.issued[h] == a.id
    ensures var (s', e) := Apply(s, a);
      a.id in s'.ops && s'.ops[a.id].Allocate?
      && s'.ops[a.id].target == s.ops[a.id].target && s'.ops[a.id].safe == s.ops[a.id].safe
      && (h in RemovedBy(e) || (Published(s'.ops[a.id].at, h) && s'.ops[a.id].at != Returned(-1)
          && (s.ops[a.id].safe ==> Pending(s'.ops[a.id].at) || !s.closed)))
  {
    assert OpOk(s, a.id);
  }

  function RemovedBy(e: Event): set<int> { if e.Removed? then e.hnds else {} }

  /** Every step of every operation keeps the invariant. */
  lemma {:induction false} StepInv(s: State, a: Action)
    requires Inv(s) && Enabled(s, a)
    ensures Inv(Apply(s, a).0)
  {
    hide Get, OpOk, EntryOk, Apply, Enabled, InRange, Placed;
    StepEffect(s, a);
    StepFields(s, a);
    StepIssued(s, a);
    var (s', e) := Apply(s, a);
    forall id | id in s'.ops ensures OpOk(s', id) {
      if id == a.id { StepOwnOp(s, a); } else { StepOtherOp(s, a, id); }
    }
    forall i, j | i in s'.ops && j in s'.ops && s'.ops[i] == Close(Sweeping) == s'.ops[j] ensures i == j {
      StepOneSweeper(s, a, i, j);
    }
    forall h | h >= 0 && Get(s', h).Some? ensures EntryOk(s', h) {
      if e.Stored? && e.hnd == h { StepNewEntry(s, a); } else { StepOldEntry(s, a, h); }
    }
  }

  // ---------------------------------------------------------------- runs

  predicate Follows(s: State, a: Action, s': State) {
    |s.slow| > 0 && Enabled(s, a) && s' == Apply(s, a).0
  }

  /** Any sequence of actions from an empty registry, with the states it goes through. */
  ghost predicate IsRun(states: seq<State>, actions: seq<Action>) {
    |states| == |actions| + 1
    && (exists fastCap: nat, segments: nat :: segments > 0 && states[0] == Initial(fastCap, segments))
    && (forall i :: 0 <= i < |actions| ==> Follows(states[i], actions[i], states[i + 1]))
  }

  lemma {:induction false} RunInv(states: seq<State>, actions: seq<Action>, k: nat)
    requires IsRun(states, actions) && k < |states|
    ensures Inv(states[k])
  {
    if k == 0 {
      var fastCap: nat, segments: nat :| segments > 0 && states[0] == Initial(fastCap, segments);
      InitialInv(fastCap, segments);
    } else {
      RunInv(states, actions, k - 1);
      assert Follows(states[k - 1], actions[k - 1], states[k]);
      StepInv(states[k - 1], actions[k - 1]);
    }
  }

  /** A sweep that is under way has a close that carries it out. */
  ghost predicate HasSweeper(s: State) {
    s.sweep.SweepFast? || s.sweep.SweepSlow? ==> exists id :: id in s.ops && s.ops[id] == Close(Sweeping)
  }

  lemma {:induction false} StepSweeper(s: State, a: Action)
    requires Inv(s) && HasSweeper(s) && Enabled(s, a)
    ensures HasSweeper(Apply(s, a).0)
  {
    StepFields(s, a);
    var s' := Apply(s, a).0;
    if a.Step? && s.ops[a.id].Allocate? { AllocateFields(s, a.id, s.ops[a.id]); }
    if a.Step? && s.ops[a.id].Close? {
      assert a.id in s'.ops;
    } else if s.sweep.SweepFast? || s.sweep.SweepSlow? {
      var id :| id in s.ops && s.ops[id] == Close(Sweeping);
      assert id in s'.ops && s'.ops[id] == Close(Sweeping);
    }
  }

  lemma {:induction false} RunSweeper(states: seq<State>, actions: seq<Action>, k: nat)
    requires IsRun(states, actions) && k < |states|
    ensures HasSweeper(states[k])
  {
    hide HasSweeper, Inv, Apply;
    if k == 0 {
      assert states[0].sweep == Open;
      NoSweepYet(states[0]);
    } else {
      RunInv(states, actions, k - 1);
      RunSweeper(states, actions, k - 1);
      assert Follows(states[k - 1], actions[k - 1], states[k]);
      StepSweeper(states[k - 1], actions[k - 1]);
    }
  }

  lemma {:induction false} NoSweepYet(s: State)
    requires s.sweep == Open
    ensures HasSweeper(s)
  {}

  /** A close has returned, and neither another close nor a safe allocation is on its way. */
  ghost predicate ClosedDown(s: State) {
    && (exists c :: c in s.ops && s.ops[c] == Close(Finished))
    && (forall id :: id in s.ops ==> s.ops[id] != Close(Sweeping))
    && (forall id :: id in s.ops ==> (s.ops[id].Allocate? && s.ops[id].safe ==> s.ops[id].at.Returned?))
  }

  /**
   Once the closes and the safe allocations have returned, no entry of a safe allocation is left,
   in the fast array or in any segment.
   */
  lemma {:induction false} NothingSafeLeft(states: seq<State>, actions: seq<Action>, k: nat, h: int)
    requires IsRun(states, actions) && k < |states| && ClosedDown(states[k])
    requires h >= 0 && |states[k].slow| > 0 && Get(states[k], h).Some?
    ensures h in states[k].issued && states[k].issued[h] in states[k].ops
    ensures var op := states[k].ops[states[k].issued[h]]; op.Allocate? && !op.safe
  {
    hide IsRun, Get;
    RunInv(states, actions, k);
    RunSweeper(states, actions, k);
    var c :| c in states[k].ops && states[k].ops[c] == Close(Finished);
    assert OpOk(states[k], c);
    assert EntryOk(states[k], h);
  }

  /**
   Waiting for one close is not enough: whatever entries are left while another close sweeps, a
   close that comes second returns at once and leaves them.
   */
  lemma {:induction false} SecondCloseLeavesAll(states: seq<State>, actions: seq<Action>, id: OpId)
    returns (s1: State, s2: State)
    requires IsRun(states, actions) && states[|actions|].closed && id !in states[|actions|].ops
    ensures IsRun(states + [s1, s2], actions + [Begin(id, Close(CompareAndSet)), Step(id)])
    ensures s2.ops == states[|actions|].ops[id := Close(Finished)] && |s2.slow| > 0 && |states[|actions|].slow| > 0
    ensures forall h :: h >= 0 ==> Get(s2, h) == Get(states[|actions|], h)
  {
    var s, n := states[|actions|], |actions|;
    RunInv(states, actions, n);
    s1 := s.(ops := s.ops[id := Close(CompareAndSet)]);
    s2 := s1.(ops := s1.ops[id := Close(Finished)]);
    var states', actions' := states + [s1, s2], actions + [Begin(id, Close(CompareAndSet)), Step(id)];
    assert Follows(s, actions'[n], s1) && Follows(s1, actions'[n + 1], s2);
    hide Get, Inv, Apply, Enabled, Follows;
    assert states'[0] == states[0];
    forall i | 0 <= i < |actions'| ensures Follows(states'[i], actions'[i], states'[i + 1]) {
      if i < n { assert Follows(states[i], actions[i], states[i + 1]); }
    }
  }

  /** A registry without fast slots and with one segment, and the safe allocation of t in it. */
  function Alone(t: Target, at: AllocPc, segment: map<int, Target>, ctr: int, issued: map<int, OpId>): State {
    State([], [segment], 0, ctr, false, Open, map[0 := Allocate(t, false, true, at)], issued)
  }

  /** The allocation carried out by itself, and a close that has set the flag. */
  function AllocateThenClose(t: Target): seq<State> {
    var done := Alone(t, Returned(0), map[0 := t], 1, map[0 := 0]);
    [Initial(0, 1),
     Alone(t, CheckClosed, map[], 0, map[]),
     Alone(t, IncSlowCtr, map[], 0, map[]),
     Alone(t, PutSlow(0), map[], 1, map[0 := 0]),
     Alone(t, RecheckSlow(0), map[0 := t], 1, map[0 := 0]),
     done,
     done.(ops := done.ops[1 := Close(CompareAndSet)]),
     done.(ops := done.ops[1 := Close(Sweeping)], closed := true, sweep := SweepFast(0))]
  }

  function AllocateThenCloseActions(t: Target): seq<Action> {
    [Begin(0, Allocate(t, false, true, CheckClosed)), Step(0), Step(0), Step(0), Step(0),
     Begin(1, Close(CompareAndSet)), Step(1)]
  }

  lemma {:induction false} AllocateThenCloseIsRun(t: Target)
    ensures IsRun(AllocateThenClose(t), AllocateThenCloseActions(t))
  {
    var states, actions := AllocateThenClose(t), AllocateThenCloseActions(t);
    forall i | 0 <= i < |actions| ensures Follows(states[i], actions[i], states[i + 1]) {
      if i < 3 { FirstSteps(t, i); } else { LastSteps(t, i); }
    }
    assert states[0] == Initial(0, 1);
  }

  lemma {:induction false} FirstSteps(t: Target, i: nat)
    requires i < 3
    ensures Follows(AllocateThenClose(t)[i], AllocateThenCloseActions(t)[i], AllocateThenClose(t)[i + 1])
  {
    assert Initial(0, 1).fast == [] && Initial(0, 1).slow == [map[]];
  }

  lemma {:induction false} LastSteps(t: Target, i: nat)
    requires 3 <= i < 7
    ensures Follows(AllocateThenClose(t)[i], AllocateThenCloseActions(t)[i], AllocateThenClose(t)[i + 1])
  {}

  /**
   And it does: a run in which a close has returned and every allocation, a safe one, has returned,
   while its entry is still there. So no close may still be sweeping in `ClosedDown`.
   */
  lemma {:induction false} OneCloseIsNotEnough(t: Target) returns (states: seq<State>, actions: seq<Action>)
    ensures IsRun(states, actions) && var s := states[|actions|];
      && s.ops.Keys == {0, 1, 2} && s.ops[2] == Close(Finished) && s.ops[1] == Close(Sweeping)
      && s.ops[0] == Allocate(t, false, true, Returned(0))
      && |s.slow| > 0 && Get(s, 0) == Some(t)
  {
    states, actions := AllocateThenClose(t), AllocateThenCloseActions(t);
    AllocateThenCloseIsRun(t);
    var last := states[7];
    assert Get(last, 0) == Some(t) && last.ops.Keys == {0, 1};
    var s1, s2 := SecondCloseLeavesAll(states, actions, 2);
    hide IsRun, Get;
    states, actions := states + [s1, s2], actions + [Begin(2, Close(CompareAndSet)), Step(2)];
  }

  /** An allocation returns -1 only once the registry is closed. */
  lemma {:induction false} RefusedOnlyWhenClosed(states: seq<State>, actions: seq<Action>, k: nat, id: OpId)
    requires IsRun(states, actions) && k < |states| && id in states[k].ops
    requires states[k].ops[id].Allocate? && states[k].ops[id].at.Returned? && states[k].ops[id].at.result < 0
    ensures states[k].ops[id].at.result == -1 && states[k].closed
  {
    RunInv(states, actions, k);
    assert OpOk(states[k], id);
  }

  /** Two allocations never return the same handle. */
  lemma {:induction false} HandlesAreUnique(states: seq<State>, actions: seq<Action>, k: nat, i: OpId, j: OpId)
    requires IsRun(states, actions) && k < |states| && i in states[k].ops && j in states[k].ops
    requires states[k].ops[i].Allocate? && states[k].ops[i].at.Returned? && states[k].ops[i].at.result >= 0
    requires states[k].ops[j].Allocate? && states[k].ops[j].at == states[k].ops[i].at
    ensures i == j
  {
    RunInv(states, actions, k);
    assert OpOk(states[k], i) && OpOk(states[k], j);
  }

  /** The operation that drew h has published it, at some time. */
  predicate PublishedOnce(s: State, h: int) {
    h in s.issued && s.issued[h] in s.ops && s.ops[s.issued[h]].Allocate? && Published(s.ops[s.issued[h]].at, h)
  }

  lemma {:induction false} StaysPublished(s: State, a: Action, h: int)
    requires Inv(s) && Enabled(s, a) && h >= 0 && PublishedOnce(s, h)
    ensures PublishedOnce(Apply(s, a).0, h)
    ensures !(Apply(s, a).1.Stored? && Apply(s, a).1.hnd == h)
  {
    StepFields(s, a);
    StepIssued(s, a);
    if a.Step? { assert OpOk(s, a.id); }
  }

  lemma {:induction false} StoringPublishes(s: State, a: Action)
    requires Inv(s) && Enabled(s, a) && Apply(s, a).1.Stored?
    ensures var (s', e) := Apply(s, a); e.hnd >= 0 && PublishedOnce(s', e.hnd) && !PublishedOnce(s, e.hnd)
  {
    StepNewEntry(s, a);
    assert OpOk(s, a.id);
  }

  ghost function EventAt(states: seq<State>, actions: seq<Action>, i: nat): Event
    requires IsRun(states, actions) && i < |actions|
  {
    assert Follows(states[i], actions[i], states[i + 1]);
    Apply(states[i], actions[i]).1
  }

  /** The entry of h is taken away by one of the steps from k on, before j. */
  ghost predicate RemovedWithin(states: seq<State>, actions: seq<Action>, k: nat, j: nat, h: int)
    requires IsRun(states, actions) && j <= |actions|
  {
    exists i :: k <= i < j && h in RemovedBy(EventAt(states, actions, i))
  }

  /** Before its store a handle has no entry, whatever happens. */
  lemma {:induction false} NoEntryBefore(states: seq<State>, actions: seq<Action>, k: nat, j: nat, h: int)
    requires IsRun(states, actions) && j <= k < |actions| && h >= 0
    requires EventAt(states, actions, k).Stored? && EventAt(states, actions, k).hnd == h
    ensures |states[j].slow| > 0 && Get(states[j], h) == None && !PublishedOnce(states[j], h)
    decreases k - j
  {
    hide Get, OpOk, EntryOk, Apply, Enabled, Published;
    RunInv(states, actions, j);
    assert Follows(states[j], actions[j], states[j + 1]);
    if j == k {
      StoringPublishes(states[k], actions[k]);
    } else {
      NoEntryBefore(states, actions, k, j + 1, h);
      if PublishedOnce(states[j], h) { StaysPublished(states[j], actions[j], h); }
    }
    if Get(states[j], h).Some? { EntryIsPublished(states[j], h); }
  }

  lemma {:induction false} EntryIsPublished(s: State, h: int)
    requires Inv(s) && h >= 0 && Get(s, h).Some?
    ensures PublishedOnce(s, h)
  {
    assert EntryOk(s, h);
  }

  /**
   The registry refines one map. A handle is stored by one step only; from then on `Get` yields the
   stored target exactly until a step of a release, of the sweep or of its own allocation removes it,
   and nothing after that.
   */
  lemma {:induction false} EntryHistory(states: seq<State>, actions: seq<Action>, k: nat, j: nat, h: int)
    requires IsRun(states, actions) && k < |actions| && j < |states| && h >= 0
    requires EventAt(states, actions, k).Stored? && EventAt(states, actions, k).hnd == h
    ensures |states[j].slow| > 0
    ensures Get(states[j], h) == if k < j && !RemovedWithin(states, actions, k, j, h)
                                 then Some(EventAt(states, actions, k).target) else None
    ensures k < j ==> PublishedOnce(states[j], h)
    decreases j
  {
    hide Get, OpOk, EntryOk, Apply, Enabled, Published;
    RunInv(states, actions, j);
    if j <= k {
      NoEntryBefore(states, actions, k, j, h);
    } else {
      var i := j - 1;
      RunInv(states, actions, i);
      assert Follows(states[i], actions[i], states[j]);
      StepEffect(states[i], actions[i]);
      EntryHistory(states, actions, k, i, h);
      var e := EventAt(states, actions, i);
      if i == k {
        StoringPublishes(states[k], actions[k]);
      } else {
        StaysPublished(states[i], actions[i], h);
        assert RemovedWithin(states, actions, k, j, h)
          <==> RemovedWithin(states, actions, k, i, h) || h in RemovedBy(e);
      }
    }
  }

  /** An allocation that has put its target in place under handle h. */
  predicate Holds(at: AllocPc, h: int) {
    h >= 0 && at != Returned(-1) && Published(at, h)
  }

  lemma {:induction false} HeldStep(s: State, a: Action, id: OpId, h: int)
    requires Inv(s) && Enabled(s, a) && id in Apply(s, a).0.ops
    requires Apply(s, a).0.ops[id].Allocate? && Holds(Apply(s, a).0.ops[id].at, h)
    ensures var (s', e) := Apply(s, a);
      e == Stored(h, s'.ops[id].target)
      || (id in s.ops && s.ops[id].Allocate? && s.ops[id].target == s'.ops[id].target && Holds(s.ops[id].at, h))
  {
    if id != a.id {
      StepFields(s, a);
    } else if a.Step? {
      assert OpOk(s, a.id);
      if s.ops[a.id].Allocate? { OwnHeldStep(s, a.id, s.ops[a.id], h); }
    }
  }

  lemma {:induction false} OwnHeldStep(s: State, id: OpId, op: Operation, h: int)
    requires |s.slow| > 0 && op.Allocate? && !op.at.Returned? && id in s.ops && s.ops[id] == op && OpOk(s, id)
    ensures var (s', e) := StepAllocate(s, id, op);
      id in s'.ops && s'.ops[id].Allocate? && s'.ops[id].target == op.target
      && (Holds(s'.ops[id].at, h) ==> e == Stored(h, op.target) || Holds(op.at, h))
  {}

  /** An allocation that holds or has returned a handle stored its target under it, in a step of the run. */
  lemma {:induction false} HeldWasStored(states: seq<State>, actions: seq<Action>, j: nat, id: OpId, h: int)
    returns (k: nat)
    requires IsRun(states, actions) && j < |states| && id in states[j].ops
    requires states[j].ops[id].Allocate? && Holds(states[j].ops[id].at, h)
    ensures k < j && EventAt(states, actions, k) == Stored(h, states[j].ops[id].target)
    decreases j
  {
    hide Apply, Enabled, Holds, Inv;
    if j == 0 {
      assert false;
    } else {
      RunInv(states, actions, j - 1);
      assert Follows(states[j - 1], actions[j - 1], states[j]);
      HeldStep(states[j - 1], actions[j - 1], id, h);
      if EventAt(states, actions, j - 1) == Stored(h, states[j].ops[id].target) {
        k := j - 1;
      } else {
        k := HeldWasStored(states, actions, j - 1, id, h);
      }
    }
  }

  /**
   What a client sees: an allocation that returned handle h has stored its target under h, and from
   then on `Get(h)` is that target until a step removes it, and nothing after that.
   */
  lemma {:induction false} ReturnedHandleFindsTarget(states: seq<State>, actions: seq<Action>, j: nat, m: nat, id: OpId)
    returns (k: nat)
    requires IsRun(states, actions) && j <= m < |states| && id in states[j].ops
    requires states[j].ops[id].Allocate? && states[j].ops[id].at.Returned? && states[j].ops[id].at.result >= 0
    ensures var op := states[j].ops[id]; var h := op.at.result;
      && k < j && EventAt(states, actions, k) == Stored(h, op.target) && |states[m].slow| > 0
      && Get(states[m], h) == if RemovedWithin(states, actions, k, m, h) then None else Some(op.target)
  {
    hide Get, EventAt, Follows;
    var op := states[j].ops[id];
    k := HeldWasStored(states, actions, j, id, op.at.result);
    EntryHistory(states, actions, k, m, op.at.result);
  }

  /** Only a release of h, the sweep of a close, or the allocation of h itself takes the entry of h away. */
  lemma {:induction false} WhoRemoves(s: State, a: Action, h: int)
    requires Inv(s) && Enabled(s, a) && h >= 0 && Get(s, h).Some? && h in RemovedBy(Apply(s, a).1)
    ensures a.Step? && match s.ops[a.id]
      case Release(k, _) => k == h
      case Close(at) => at == Sweeping && s.closed
      case Allocate(_, _, safe, _) => safe && s.closed && s.issued[h] == a.id
  {
    assert OpOk(s, a.id);
    assert EntryOk(s, h);
  }

  // ---------------------------------------------------------------- what releasing and closing do

  /** A release that is carried out leaves no entry for its handle. */
  lemma {:induction false} ReleaseStep(s: State, a: Action, h: int)
    requires Inv(s) && Enabled(s, a) && a.Step? && s.ops[a.id] == Release(h, false) && h >= 0
    ensures |Apply(s, a).0.slow| > 0 && Get(Apply(s, a).0, h) == None
  {
    WithoutEffect(s, h);
  }

  /** Once a handle that was stored has no entry, it never has one again. */
  lemma {:induction false} StaysGone(states: seq<State>, actions: seq<Action>, i: nat, j: nat, h: int)
    requires IsRun(states, actions) && i <= j < |states| && h >= 0 && |states[i].slow| > 0
    requires PublishedOnce(states[i], h) && Get(states[i], h) == None
    ensures |states[j].slow| > 0 && PublishedOnce(states[j], h) && Get(states[j], h) == None
    decreases j
  {
    hide Get, OpOk, EntryOk, Apply, Enabled, Published, PublishedOnce, Inv;
    if i == j {
    } else {
      StaysGone(states, actions, i, j - 1, h);
      RunInv(states, actions, j - 1);
      assert Follows(states[j - 1], actions[j - 1], states[j]);
      StepEffect(states[j - 1], actions[j - 1]);
      StaysPublished(states[j - 1], actions[j - 1], h);
    }
  }

  /**
   A release removes: right after it the handle has no entry, and none in any later state, unless
   the allocation that drew the handle had not put its target in place by then.
   */
  lemma {:induction false} ReleaseRemoves(states: seq<State>, actions: seq<Action>, i: nat, j: nat, id: OpId, h: int)
    requires IsRun(states, actions) && i < j < |states| && h >= 0
    requires actions[i] == Step(id) && id in states[i].ops && states[i].ops[id] == Release(h, false)
    ensures |states[i + 1].slow| > 0 && Get(states[i + 1], h) == None
    ensures |states[j].slow| > 0 && (Get(states[j], h) == None || !PublishedOnce(states[i], h))
  {
    hide Get, OpOk, EntryOk, Apply, Enabled, Published, PublishedOnce;
    RunInv(states, actions, i);
    RunInv(states, actions, j);
    assert Follows(states[i], actions[i], states[i + 1]);
    ReleaseStep(states[i], actions[i], h);
    if PublishedOnce(states[i], h) {
      StaysPublished(states[i], actions[i], h);
      StaysGone(states, actions, i + 1, j, h);
    }
  }

  /** What a client sees: after the release of a handle that an allocation has returned, `Get` finds nothing. */
  lemma {:induction false} ReleasedHandleFindsNothing(states: seq<State>, actions: seq<Action>, i: nat, j: nat,
                                                      id: OpId, owner: OpId, h: int)
    requires IsRun(states, actions) && i < j < |states| && h >= 0
    requires actions[i] == Step(id) && id in states[i].ops && states[i].ops[id] == Release(h, false)
    requires owner in states[i].ops && states[i].ops[owner].Allocate? && states[i].ops[owner].at == Returned(h)
    ensures |states[j].slow| > 0 && Get(states[j], h) == None
  {
    RunInv(states, actions, i);
    assert OpOk(states[i], owner);
    ReleaseRemoves(states, actions, i, j, id, h);
  }

  /** An entry that the sweep has yet to pass, or that is gone. */
  ghost predicate DueOrGone(s: State, h: int) {
    |s.slow| > 0 && h >= 0 && PublishedOnce(s, h) && (NotYetSwept(s, h) || Get(s, h) == None)
  }

  lemma {:induction false} StepDue(s: State, a: Action, h: int)
    requires Inv(s) && Enabled(s, a) && DueOrGone(s, h)
    ensures DueOrGone(Apply(s, a).0, h)
  {
    hide Get, OpOk, EntryOk, Apply, Enabled, Published, PublishedOnce, NotYetSwept, Inv;
    StepEffect(s, a);
    StepSweep(s, a, h);
    StaysPublished(s, a, h);
  }

  lemma {:induction false} RunDue(states: seq<State>, actions: seq<Action>, i: nat, j: nat, h: int)
    requires IsRun(states, actions) && i <= j < |states| && DueOrGone(states[i], h)
    ensures DueOrGone(states[j], h)
    decreases j
  {
    hide DueOrGone, Inv, Apply, Enabled;
    if i == j {
    } else {
      RunDue(states, actions, i, j - 1, h);
      RunInv(states, actions, j - 1);
      assert Follows(states[j - 1], actions[j - 1], states[j]);
      StepDue(states[j - 1], actions[j - 1], h);
    }
  }

  /** Closing removes every entry, safe or not, that was there while the registry was open. */
  lemma {:induction false} CloseRemoves(states: seq<State>, actions: seq<Action>, i: nat, j: nat, h: int)
    requires IsRun(states, actions) && i <= j < |states| && h >= 0 && |states[i].slow| > 0
    requires !states[i].closed && Get(states[i], h).Some?
    requires exists c :: c in states[j].ops && states[j].ops[c] == Close(Finished)
    requires forall id :: id in states[j].ops ==> states[j].ops[id] != Close(Sweeping)
    ensures |states[j].slow| > 0 && Get(states[j], h) == None
  {
    hide Get, IsRun;
    RunInv(states, actions, i);
    EntryIsPublished(states[i], h);
    RunDue(states, actions, i, j, h);
    RunInv(states, actions, j);
    RunSweeper(states, actions, j);
    var c :| c in states[j].ops && states[j].ops[c] == Close(Finished);
    assert OpOk(states[j], c);
  }

  // ---------------------------------------------------------------- which allocations succeed

  lemma {:induction false} RefusedStep(s: State, a: Action, id: OpId)
    requires Inv(s) && Enabled(s, a) && s.closed && id in s.ops && s.ops[id].Allocate?
    requires s.ops[id].at == CheckClosed || s.ops[id].at == Returned(-1)
    ensures var s' := Apply(s, a).0;
      s'.closed && id in s'.ops && s'.ops[id].Allocate?
      && (s'.ops[id].at == Returned(-1) || (s'.ops[id].at == CheckClosed && a != Step(id)))
  {
    StepFields(s, a);
  }

  /** An allocation that starts once the registry is closed never gets a handle, whatever its kind. */
  lemma {:induction false} LateAllocationIsRefused(states: seq<State>, actions: seq<Action>, i: nat, j: nat, id: OpId)
    requires IsRun(states, actions) && i <= j < |states| && states[i].closed && id in states[i].ops
    requires states[i].ops[id].Allocate? && states[i].ops[id].at == CheckClosed
    ensures states[j].closed && id in states[j].ops && states[j].ops[id].Allocate?
    ensures states[j].ops[id].at == CheckClosed || states[j].ops[id].at == Returned(-1)
    decreases j
  {
    hide Inv, Apply, Enabled;
    if i == j {
    } else {
      LateAllocationIsRefused(states, actions, i, j - 1, id);
      RunInv(states, actions, j - 1);
      assert Follows(states[j - 1], actions[j - 1], states[j]);
      RefusedStep(states[j - 1], actions[j - 1], id);
    }
  }

  /** An allocation on the way to a fast slot, or one for which there was none. */
  predicate RightSide(s: State, op: Operation)
    requires op.Allocate?
  {
    && (op.at == ReadFastCtr || op.at == IncFastCtr ==> op.critical)
    && (op.at == IncSlowCtr && op.critical ==> |s.fast| <= s.fastCtr)
    && (Drawn(op.at).Some? ==>
          if Drawn(op.at).value < |s.fast| then op.critical else op.critical ==> |s.fast| <= s.fastCtr)
  }

  lemma {:induction false} StepRightSide(s: State, a: Action, id: OpId)
    requires Inv(s) && Enabled(s, a) && id in Apply(s, a).0.ops && Apply(s, a).0.ops[id].Allocate?
    requires id in s.ops && s.ops[id].Allocate? ==> RightSide(s, s.ops[id])
    ensures RightSide(Apply(s, a).0, Apply(s, a).0.ops[id])
  {
    StepFields(s, a);
    StepEffect(s, a);
    if a.Step? {
      assert OpOk(s, a.id);
      if id == a.id && s.ops[id].Allocate? { OwnRightSide(s, id, s.ops[id]); }
    }
  }

  lemma {:induction false} OwnRightSide(s: State, id: OpId, op: Operation)
    requires |s.slow| > 0 && |s.fast| <= s.slowCtr && op.Allocate? && !op.at.Returned? && id in s.ops && s.ops[id] == op
    requires OpOk(s, id) && RightSide(s, op)
    ensures var s' := StepAllocate(s, id, op).0;
      id in s'.ops && s'.ops[id].Allocate? && RightSide(s', s'.ops[id])
  {}

  lemma {:induction false} RunRightSide(states: seq<State>, actions: seq<Action>, j: nat, id: OpId)
    requires IsRun(states, actions) && j < |states| && id in states[j].ops && states[j].ops[id].Allocate?
    ensures RightSide(states[j], states[j].ops[id])
    decreases j
  {
    hide RightSide, Inv, Apply, Enabled;
    if j == 0 {
      assert false;
    } else {
      var s := states[j - 1];
      RunInv(states, actions, j - 1);
      assert Follows(s, actions[j - 1], states[j]);
      if id in s.ops && s.ops[id].Allocate? { RunRightSide(states, actions, j - 1, id); }
      StepRightSide(s, actions[j - 1], id);
    }
  }

  /** Fast handles go to critical allocations only, which get others only when all fast ones are drawn. */
  lemma {:induction false} FastHandlesAreForCritical(states: seq<State>, actions: seq<Action>, j: nat, id: OpId)
    requires IsRun(states, actions) && j < |states| && id in states[j].ops && states[j].ops[id].Allocate?
    requires states[j].ops[id].at.Returned? && states[j].ops[id].at.result >= 0
    ensures states[j].ops[id].at.result < |states[j].fast| ==> states[j].ops[id].critical
    ensures states[j].ops[id].at.result >= |states[j].fast| && states[j].ops[id].critical ==>
      |states[j].fast| <= states[j].fastCtr
  {
    RunRightSide(states, actions, j, id);
  }

  /** A safe allocation that returns a handle has seen the registry open with its target in place. */
  lemma {:induction false} SafeReturnSawOpen(states: seq<State>, actions: seq<Action>, j: nat, id: OpId)
    returns (i: nat)
    requires IsRun(states, actions) && j < |states| && id in states[j].ops && states[j].ops[id].Allocate?
    requires states[j].ops[id].safe && states[j].ops[id].at.Returned? && states[j].ops[id].at.result >= 0
    ensures i < j && !states[i].closed && id in states[i].ops && states[i].ops[id].Allocate?
    ensures states[i].ops[id].at == RecheckFast(states[j].ops[id].at.result)
         || states[i].ops[id].at == RecheckSlow(states[j].ops[id].at.result)
    decreases j
  {
    hide Inv, Apply, Enabled;
    if j == 0 {
      assert false;
    } else {
      RunInv(states, actions, j - 1);
      assert Follows(states[j - 1], actions[j - 1], states[j]);
      ReturnStep(states[j - 1], actions[j - 1], id);
      if states[j - 1].ops[id].at.Returned? {
        i := SafeReturnSawOpen(states, actions, j - 1, id);
      } else {
        i := j - 1;
      }
    }
  }

  lemma {:induction false} ReturnStep(s: State, a: Action, id: OpId)
    requires Inv(s) && Enabled(s, a) && id in Apply(s, a).0.ops && Apply(s, a).0.ops[id].Allocate?
    requires var op := Apply(s, a).0.ops[id]; op.safe && op.at.Returned? && op.at.result >= 0
    ensures id in s.ops && s.ops[id].Allocate? && s.ops[id].safe
    ensures var h := Apply(s, a).0.ops[id].at.result;
      s.ops[id].at == Returned(h) || (!s.closed && (s.ops[id].at == RecheckFast(h) || s.ops[id].at == RecheckSlow(h)))
  {
    if id != a.id {
      StepFields(s, a);
    } else if a.Step? {
      assert OpOk(s, a.id);
    }
  }
}
