/**
 Data-at-execution: `SQLParamData` and `SQLPutData` on a statement's parameters
 (src/statement.cpp, src/app/parameter_set.cpp, src/app/parameter.cpp). What the buffer says of a
 parameter is abstract: whether its data comes at execution, and how many bytes are declared.
 */
module DataAtExecution {
  import opened Common
  import opened Words

  const SQL_NULL_DATA := -1
  const SQL_NTSL := -3
  const SQL_DEFAULT_PARAM := -5

  datatype BufferType = Char | Binary | Fixed

  /** A bound parameter. Bindings hold it by value. */
  datatype Parameter =
    Parameter(bufferType: BufferType, atExec: bool, declared: nat, stored: seq<Byte>, nullData: bool)
  {

    predicate IsDataReady() {
      !atExec || |stored| == declared
    }

    function Reset(): Parameter {
      this.(stored := [])
    }

    /** The bytes that a call puts: a terminated string, a counted piece, or none. */
    function Piece(data: seq<Byte>, len: int): seq<Byte> {
      var n := if bufferType == Char && len == SQL_NTSL then FirstZero(data) else len;
      if n <= 0 then [] else if n <= |data| then data[..n] else data
    }

    /** Pieces of character and binary data are appended; any other data is stored whole. */
    function Put(data: seq<Byte>, len: int): Parameter {
      if len == SQL_DEFAULT_PARAM then this
      else if len == SQL_NULL_DATA then this.(nullData := true)
      else if bufferType != Fixed then this.(stored := stored + Piece(data, len))
      else this.(stored := if declared <= |data| then data[..declared] else data)
    }
  }

  /** How many bytes there are before the first zero, or in all. */
  function FirstZero(data: seq<Byte>): (k: nat)
    ensures k <= |data| && (k < |data| ==> data[k] == 0) && forall i :: 0 <= i < k ==> data[i] != 0
  {
    if |data| == 0 || data[0] == 0 then 0 else 1 + FirstZero(data[1..])
  }

  type Bindings = map<nat, Parameter>

  /** The first binding from i on whose data is not complete. */
  function FirstNotReady(b: Bindings, i: nat): Option<nat>
    decreases 0x1_0000 - i
  {
    if i >= 0x1_0000 then None
    else if i in b && !b[i].IsDataReady() then Some(i)
    else FirstNotReady(b, i + 1)
  }

  lemma {:induction false} FirstNotReadyIsFirst(b: Bindings, i: nat)
    ensures match FirstNotReady(b, i)
      case Some(k) =>
        i <= k < 0x1_0000 && k in b && !b[k].IsDataReady()
        && forall j :: i <= j < k && j in b ==> b[j].IsDataReady()
      case None => forall j :: i <= j < 0x1_0000 && j in b ==> b[j].IsDataReady()
    decreases 0x1_0000 - i
  {
    if i >= 0x1_0000 || (i in b && !b[i].IsDataReady()) {
    } else {
      FirstNotReadyIsFirst(b, i + 1);
    }
  }

  class ParameterSet {
    var parameters: Bindings
    var currentParamIdx: nat

    method Prepare()
      modifies this
      ensures currentParamIdx == old(currentParamIdx)
      ensures parameters.Keys == old(parameters).Keys
      ensures forall i :: i in parameters ==> parameters[i] == old(parameters)[i].(stored := [])
    {
      parameters := map i | i in parameters :: parameters[i].Reset();
    }

    /** The bindings are visited by increasing index, as an ordered map does. */
    method SelectNextParameter() returns (selected: Option<nat>)
      modifies this
      ensures parameters == old(parameters) && selected == FirstNotReady(parameters, 0)
      ensures currentParamIdx == if selected.Some? then selected.value else old(currentParamIdx)
    {
      var idx := 0;
      while idx < 0x1_0000
        invariant 0 <= idx <= 0x1_0000 && parameters == old(parameters) && currentParamIdx == old(currentParamIdx)
        invariant FirstNotReady(parameters, 0) == FirstNotReady(parameters, idx)
      {
        if idx in parameters && !parameters[idx].IsDataReady() {
          currentParamIdx := idx;
          return Some(idx);
        }
        idx := idx + 1;
      }
      return None;
    }

    method IsDataAtExecNeeded() returns (needed: bool)
      ensures needed <==> FirstNotReady(parameters, 0).Some?
    {
      var idx := 0;
      while idx < 0x1_0000
        invariant 0 <= idx <= 0x1_0000 && FirstNotReady(parameters, 0) == FirstNotReady(parameters, idx)
      {
        if idx in parameters && !parameters[idx].IsDataReady() { return true; }
        idx := idx + 1;
      }
      return false;
    }
  }

  // ---------------------------------------------------------------- calls

  /** The state that the two calls work on. */
  datatype State = State(bindings: Bindings, current: nat)

  datatype Call = ParamData | PutData(data: seq<Byte>, len: int, isNull: bool)

  datatype Answer = Selected(index: nat) | Executed | Accepted | Refused

  function Answered(s: State, call: Call): (State, Answer) {
    match call
    case ParamData =>
      if s.current in s.bindings && !s.bindings[s.current].IsDataReady() then (s, Refused)
      else
        (match FirstNotReady(s.bindings, 0)
         case Some(i) => (s.(current := i), Selected(i))
         case None => (s, Executed))
    case PutData(data, len, isNull) =>
      if isNull && len != 0 && len != SQL_DEFAULT_PARAM && len != SQL_NULL_DATA then (s, Refused)
      else if s.current == 0 || s.current !in s.bindings then (s, Refused)
      else (s.(bindings := s.bindings[s.current := s.bindings[s.current].Put(data, len)]), Accepted)
  }

  class Statement {
    const parameters: ParameterSet

    constructor (parameters: ParameterSet)
      ensures this.parameters == parameters
    {
      this.parameters := parameters;
    }

    ghost function View(): State
      reads this, parameters
    {
      State(parameters.parameters, parameters.currentParamIdx)
    }

    /** The query's own result is a parameter; anything but success is reported with a warning. */
    method InternalSelectParam(hasPointer: bool, hasQuery: bool, executeResult: SqlResult)
      returns (result: SqlResult, selected: Option<nat>)
      modifies parameters
      ensures !hasPointer || !hasQuery ==> result == Error && View() == old(View()) && selected == None
      ensures hasPointer && hasQuery ==>
        var (s, answer) := Answered(old(View()), ParamData);
        View() == s && match answer
          case Selected(i) => result == NeedData && selected == Some(i)
          case Executed => result == (if executeResult == Success then Success else SuccessWithInfo) && selected == None
          case _ => result == Error && selected == None
    {
      if !hasPointer || !hasQuery { return Error, None; }
      var idx := parameters.currentParamIdx;
      if idx in parameters.parameters && !parameters.parameters[idx].IsDataReady() { return Error, None; }
      selected := parameters.SelectNextParameter();
      if selected.Some? { return NeedData, selected; }
      result := if executeResult == Success then Success else SuccessWithInfo;
    }

    method InternalPutData(data: seq<Byte>, len: int, isNull: bool) returns (result: SqlResult)
      modifies parameters
      ensures var (s, answer) := Answered(old(View()), PutData(data, len, isNull));
        View() == s && result == if answer == Accepted then Success else Error
    {
      if isNull && len != 0 && len != SQL_DEFAULT_PARAM && len != SQL_NULL_DATA { return Error; }
      if parameters.currentParamIdx == 0 { return Error; }
      var idx := parameters.currentParamIdx;
      if idx !in parameters.parameters { return Error; }
      parameters.parameters := parameters.parameters[idx := parameters.parameters[idx].Put(data, len)];
      return Success;
    }
  }

  // ---------------------------------------------------------------- runs

  /** Indices are bound from 1 on; those below the selected one are complete. */
  ghost predicate InOrder(s: State) {
    (forall i :: i in s.bindings ==> 0 < i < 0x1_0000)
    && forall i :: i in s.bindings && i < s.current ==> s.bindings[i].IsDataReady()
  }

  /** The states and answers of a sequence of calls. */
  ghost predicate IsRun(states: seq<State>, calls: seq<Call>) {
    |states| == |calls| + 1
    && (forall k :: 0 <= k < |calls| ==> states[k + 1] == Answered(states[k], calls[k]).0)
  }

  /**
   Every call keeps the order. Asking for the next parameter is refused while the selected one is
   incomplete, and a refused call changes nothing.
   */
  lemma {:induction false} KeepsOrder(s: State, call: Call)
    requires InOrder(s)
    ensures InOrder(Answered(s, call).0) && s.current <= Answered(s, call).0.current
    ensures Answered(s, call).1.Selected? ==> s.current < Answered(s, call).1.index == Answered(s, call).0.current
    ensures Answered(s, call).1 == Refused ==> Answered(s, call).0 == s
    ensures call == ParamData ==>
      (Answered(s, call).1 == Refused <==> s.current in s.bindings && !s.bindings[s.current].IsDataReady())
  {
    FirstNotReadyIsFirst(s.bindings, 0);
  }

  lemma {:induction false} RunInOrder(states: seq<State>, calls: seq<Call>, j: nat, k: nat)
    requires IsRun(states, calls) && j <= k < |states| && InOrder(states[0])
    ensures InOrder(states[j]) && InOrder(states[k]) && states[j].current <= states[k].current
    decreases j + k
  {
    if j < k {
      RunInOrder(states, calls, j, k - 1);
      KeepsOrder(states[k - 1], calls[k - 1]);
    } else if k > 0 {
      RunInOrder(states, calls, k - 1, k - 1);
      KeepsOrder(states[k - 1], calls[k - 1]);
    }
  }

  /** Over a whole run parameters are asked for in strictly increasing order. */
  lemma {:induction false} SelectedInIncreasingOrder(states: seq<State>, calls: seq<Call>, j: nat, k: nat)
    requires IsRun(states, calls) && j < k < |calls| && InOrder(states[0])
    requires Answered(states[j], calls[j]).1.Selected? && Answered(states[k], calls[k]).1.Selected?
    ensures Answered(states[j], calls[j]).1.index < Answered(states[k], calls[k]).1.index
  {
    RunInOrder(states, calls, j, j);
    RunInOrder(states, calls, j + 1, k);
    KeepsOrder(states[j], calls[j]);
    KeepsOrder(states[k], calls[k]);
  }

  /** The query is executed only when every parameter holds exactly its declared length. */
  lemma {:induction false} ExecutedOnlyWhenComplete(states: seq<State>, calls: seq<Call>, k: nat, i: nat)
    requires IsRun(states, calls) && k < |calls| && InOrder(states[0])
    requires Answered(states[k], calls[k]).1 == Executed && i in states[k].bindings && states[k].bindings[i].atExec
    ensures |states[k].bindings[i].stored| == states[k].bindings[i].declared
  {
    RunInOrder(states, calls, k, k);
    FirstNotReadyIsFirst(states[k].bindings, 0);
  }

  // ---------------------------------------------------------------- what is sent

  /** What a put to character or binary data sends: as many bytes as it says, or a terminated string. */
  function Bytes(bufferType: BufferType, data: seq<Byte>, len: int): seq<Byte> {
    if len > 0 then data[..Min(len, |data|)]
    else if len == SQL_NTSL && bufferType == Char then data[..FirstZero(data)]
    else []
  }

  /** A put to character or binary data appends what it sends, and a null is only noted. */
  lemma {:induction false} PutAppends(p: Parameter, data: seq<Byte>, len: int)
    requires p.bufferType != Fixed
    ensures p.Put(data, len)
         == p.(stored := p.stored + Bytes(p.bufferType, data, len), nullData := p.nullData || len == SQL_NULL_DATA)
  {}

  /** A counted put appends exactly that many bytes. */
  lemma {:induction false} CountedPut(p: Parameter, data: seq<Byte>, len: int)
    requires p.bufferType != Fixed && 0 < len <= |data|
    ensures p.Put(data, len) == p.(stored := p.stored + data[..len])
  {
    PutAppends(p, data, len);
  }

  /** A terminated put of character data appends the bytes before the first zero. */
  lemma {:induction false} TerminatedPut(p: Parameter, data: seq<Byte>, k: nat)
    requires p.bufferType == Char && k < |data| && data[k] == 0 && forall i :: 0 <= i < k ==> data[i] != 0
    ensures p.Put(data, SQL_NTSL) == p.(stored := p.stored + data[..k])
  {
    PutAppends(p, data, SQL_NTSL);
  }

  /** No length, or a negative one without a meaning for the data, appends nothing. */
  lemma {:induction false} EmptyPut(p: Parameter, data: seq<Byte>, len: int)
    requires p.bufferType != Fixed && len <= 0 && len != SQL_NULL_DATA && !(len == SQL_NTSL && p.bufferType == Char)
    ensures p.Put(data, len) == p
  {
    PutAppends(p, data, len);
  }

  /** A put of fixed-size data replaces it by as much as is declared, whatever the length says. */
  lemma {:induction false} FixedPut(p: Parameter, data: seq<Byte>, len: int)
    requires p.bufferType == Fixed
    ensures p.Put(data, len) ==
      if len == SQL_DEFAULT_PARAM then p
      else if len == SQL_NULL_DATA then p.(nullData := true)
      else p.(stored := data[..Min(p.declared, |data|)])
  {}

  /** A put is for the selected parameter alone, and is refused exactly without one or without data to read. */
  lemma {:induction false} PutAnswer(s: State, data: seq<Byte>, len: int, isNull: bool)
    requires InOrder(s)
    ensures var (next, answer) := Answered(s, PutData(data, len, isNull));
      && next.current == s.current && next.bindings.Keys == s.bindings.Keys
      && (forall i :: i in s.bindings && (i != s.current || answer == Refused) ==> next.bindings[i] == s.bindings[i])
      && (answer == Accepted ==> next.bindings[s.current] == s.bindings[s.current].Put(data, len))
      && (answer == Accepted || answer == Refused)
      && (answer == Accepted <==> s.current in s.bindings && (isNull ==> len in {0, SQL_DEFAULT_PARAM, SQL_NULL_DATA}))
  {}

  /** The bytes that a call adds to the data of parameter i, if it is character or binary data. */
  function Sent(s: State, call: Call, i: nat): seq<Byte>
    requires i in s.bindings
  {
    if call.PutData? && s.current == i && Answered(s, call).1 == Accepted
    then Bytes(s.bindings[i].bufferType, call.data, call.len)
    else []
  }

  /** A parameter's binding stays as it is but for its data. */
  predicate SameBinding(p: Parameter, q: Parameter) {
    p.bufferType == q.bufferType && p.atExec == q.atExec && p.declared == q.declared
  }

  /** The bytes that the first k calls send for parameter i, in the order of the calls. */
  ghost function AllSent(states: seq<State>, calls: seq<Call>, k: nat, i: nat): seq<Byte>
    requires IsRun(states, calls) && k <= |calls| && i in states[0].bindings
    ensures i in states[k].bindings && SameBinding(states[k].bindings[i], states[0].bindings[i])
  {
    if k == 0 then []
    else
      var before := AllSent(states, calls, k - 1, i);
      assert states[k] == Answered(states[k - 1], calls[k - 1]).0;
      before + Sent(states[k - 1], calls[k - 1], i)
  }

  /** Character and binary data is what was there followed by every piece sent for it; no other call touches it. */
  lemma {:induction false} DataIsWhatWasSent(states: seq<State>, calls: seq<Call>, k: nat, i: nat)
    requires IsRun(states, calls) && k <= |calls| && i in states[0].bindings && i != 0
    requires states[0].bindings[i].bufferType != Fixed
    ensures i in states[k].bindings
    ensures states[k].bindings[i].stored == states[0].bindings[i].stored + AllSent(states, calls, k, i)
  {
    hide Sent, Answered;
    if k == 0 {
    } else {
      var s, before := states[k - 1], AllSent(states, calls, k - 1, i);
      DataIsWhatWasSent(states, calls, k - 1, i);
      assert states[k] == Answered(s, calls[k - 1]).0;
      SentIsStored(s, calls[k - 1], i);
      assert AllSent(states, calls, k, i) == before + Sent(s, calls[k - 1], i);
    }
  }

  lemma {:induction false} SentIsStored(s: State, call: Call, i: nat)
    requires i in s.bindings && s.bindings[i].bufferType != Fixed
    ensures i in Answered(s, call).0.bindings
    ensures Answered(s, call).0.bindings[i].stored == s.bindings[i].stored + Sent(s, call, i)
  {
    if call.PutData? { PutAppends(s.bindings[i], call.data, call.len); }
  }

  /** The data of a fixed-size parameter is that of the last put for it, as far as it is declared. */
  lemma {:induction false} FixedDataIsLastPut(states: seq<State>, calls: seq<Call>, j: nat, k: nat, i: nat)
    requires IsRun(states, calls) && j < k <= |calls| && i in states[0].bindings && i != 0
    requires states[0].bindings[i].bufferType == Fixed
    requires calls[j].PutData? && states[j].current == i && Answered(states[j], calls[j]).1 == Accepted
    requires calls[j].len != SQL_DEFAULT_PARAM && calls[j].len != SQL_NULL_DATA
    requires forall m :: j < m < k && calls[m].PutData? && states[m].current == i ==>
      Answered(states[m], calls[m]).1 == Refused || calls[m].len == SQL_DEFAULT_PARAM || calls[m].len == SQL_NULL_DATA
    ensures i in states[k].bindings
    ensures states[k].bindings[i].stored == calls[j].data[..Min(states[0].bindings[i].declared, |calls[j].data|)]
    decreases k
  {
    var before := AllSent(states, calls, k - 1, i);
    assert states[k] == Answered(states[k - 1], calls[k - 1]).0;
    if k == j + 1 {
    } else {
      FixedDataIsLastPut(states, calls, j, k - 1, i);
    }
  }

  /**
   So the query is executed with exactly the data that was sent: for each parameter that was clear at
   the start, the pieces sent for it, joined in order, have its declared length and are its data.
   */
  lemma {:induction false} ExecutedWithWhatWasSent(states: seq<State>, calls: seq<Call>, k: nat, i: nat)
    requires IsRun(states, calls) && k < |calls| && InOrder(states[0])
    requires Answered(states[k], calls[k]).1 == Executed
    requires i in states[0].bindings && states[0].bindings[i].atExec
    requires states[0].bindings[i].bufferType != Fixed && states[0].bindings[i].stored == []
    ensures i in states[k].bindings && states[k].bindings[i].stored == AllSent(states, calls, k, i)
    ensures |AllSent(states, calls, k, i)| == states[0].bindings[i].declared
  {
    DataIsWhatWasSent(states, calls, k, i);
    ExecutedOnlyWhenComplete(states, calls, k, i);
  }

  /** The counted pieces put while i is selected, joined in the order of the calls. */
  ghost function Pieces(states: seq<State>, calls: seq<Call>, k: nat, i: nat): seq<Byte>
    requires k <= |calls| && k <= |states|
    requires forall m :: 0 <= m < k && calls[m].PutData? && states[m].current == i ==>
      0 < calls[m].len <= |calls[m].data|
  {
    if k == 0 then []
    else
      Pieces(states, calls, k - 1, i)
      + if calls[k - 1].PutData? && states[k - 1].current == i then calls[k - 1].data[..calls[k - 1].len] else []
  }

  lemma {:induction false} CountedIsSent(states: seq<State>, calls: seq<Call>, k: nat, i: nat)
    requires IsRun(states, calls) && InOrder(states[0]) && k <= |calls| && i in states[0].bindings
    requires forall m :: 0 <= m < k && calls[m].PutData? && states[m].current == i ==>
      0 < calls[m].len <= |calls[m].data| && !calls[m].isNull
    ensures Pieces(states, calls, k, i) == AllSent(states, calls, k, i)
  {
    hide InOrder, Answered;
    if k == 0 {
    } else {
      CountedIsSent(states, calls, k - 1, i);
      RunInOrder(states, calls, k - 1, k - 1);
      var s, call, before := states[k - 1], calls[k - 1], AllSent(states, calls, k - 1, i);
      if call.PutData? && s.current == i { PutAnswer(s, call.data, call.len, call.isNull); }
    }
  }

  /** With counted pieces only, the query is executed with their concatenation, of the declared length. */
  lemma {:induction false} ExecutedWithCountedPieces(states: seq<State>, calls: seq<Call>, k: nat, i: nat)
    requires IsRun(states, calls) && k < |calls| && InOrder(states[0])
    requires Answered(states[k], calls[k]).1 == Executed
    requires i in states[0].bindings && states[0].bindings[i].atExec
    requires states[0].bindings[i].bufferType != Fixed && states[0].bindings[i].stored == []
    requires forall m :: 0 <= m < k && calls[m].PutData? && states[m].current == i ==>
      0 < calls[m].len <= |calls[m].data| && !calls[m].isNull
    ensures i in states[k].bindings && states[k].bindings[i].stored == Pieces(states, calls, k, i)
    ensures |Pieces(states, calls, k, i)| == states[0].bindings[i].declared
  {
    hide Answered, InOrder, AllSent, Pieces;
    CountedIsSent(states, calls, k, i);
    ExecutedWithWhatWasSent(states, calls, k, i);
  }

  /** The data comes at execution and is not as long as declared. */
  predicate Waiting(p: Parameter) { p.atExec && |p.stored| != p.declared }

  /**
   Which answer asking for the next parameter gets: execution exactly when all data that comes at
   execution is complete, else the first parameter that is not, unless the selected one is not.
   */
  lemma {:induction false} ParamDataAnswer(s: State)
    requires InOrder(s)
    ensures var answer := Answered(s, ParamData).1;
      && (answer == Executed <==> forall i :: i in s.bindings ==> !Waiting(s.bindings[i]))
      && (answer == Refused <==> s.current in s.bindings && Waiting(s.bindings[s.current]))
      && (answer.Selected? ==> answer.index in s.bindings && Waiting(s.bindings[answer.index]))
      && answer != Accepted
  {
    FirstNotReadyIsFirst(s.bindings, 0);
  }

  // ---------------------------------------------------------------- preparing again

  /**
   Preparing again clears the data but keeps the selection, so the next run starts with its first
   incomplete parameter exactly when the one selected last no longer waits for data.
   */
  lemma {:induction false} NextRunStarts(s: State, first: nat)
    requires FirstNotReady(Cleared(s.bindings), 0) == Some(first)
    ensures Answered(State(Cleared(s.bindings), s.current), ParamData).1 == Selected(first)
       <==> !(s.current in s.bindings && s.bindings[s.current].atExec && s.bindings[s.current].declared > 0)
  {}

  function Cleared(b: Bindings): Bindings {
    map i | i in b :: b[i].Reset()
  }
}
