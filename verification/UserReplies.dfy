/** The reply object in the user's hands: a small automaton driven by the slots the engine
    posts and by the user's own abort. */
module UserReplies {
  import opened CoapTypes
  import opened Exchanges

  datatype UserSignal =
    | Finished
    | Notified(message: Message)
    | ErrorEmitted(error: Error)
    | AbortedEmitted(token: Token)

  /** The fields of a reply and the signals it has emitted. */
  datatype ReplyState = ReplyState(token: Token, id: uint16, message: Message, code: byte, error: Error,
                                   running: bool, finished: bool, aborted: bool, emitted: seq<UserSignal>)
  {
    predicate IsFinished() {
      finished || aborted
    }

    predicate IsRunning() {
      running && !IsFinished()
    }

    predicate IsSuccessful() {
      finished && !IsError(code) && error == Ok
    }
  }

  function NewReply(token: Token): ReplyState {
    ReplyState(token, 0, NO_MESSAGE, INVALID_CODE, Ok, false, false, false, [])
  }

  // The slots

  function WithError(r: ReplyState, e: Error): ReplyState {
    if r.error == e then r else r.(error := e, emitted := r.emitted + [ErrorEmitted(e)])
  }

  function Finishing(r: ReplyState): ReplyState {
    r.(finished := true, running := false)
  }

  function Emitting(r: ReplyState, signal: UserSignal): ReplyState {
    r.(emitted := r.emitted + [signal])
  }

  function Invoke(r: ReplyState, slot: Slot): ReplyState {
    match slot
    case SetRunning(token, id) => r.(token := token, id := id, running := true)
    case SetContent(_, message, code) =>
      if r.IsFinished() then r
      else
        var r' := r.(message := message, code := code);
        if IsError(code) then WithError(r', ErrorForResponseCode(code)) else r'
    case SetError(e) => WithError(r, e)
    case SetFinished(e) =>
      if r.IsFinished() then r
      else Emitting(if e != Ok then WithError(Finishing(r), e) else Finishing(r), Finished)
    case SetNotified => if r.IsFinished() then r else Emitting(r, Notified(r.message))
    case SetObserveCancelled => if r.IsFinished() then Finishing(r) else Emitting(Finishing(r), Finished)
  }

  /** The user's abort, also run by the destructor. */
  function Abort(r: ReplyState): ReplyState {
    if r.IsFinished() then r
    else Emitting(Emitting(r.(aborted := true, finished := true, running := false), AbortedEmitted(r.token)), Finished)
  }

  /** The reply object. */
  class UserReply {
    var token: Token
    var id: uint16
    var message: Message
    var code: byte
    var error: Error
    var running: bool
    var finished: bool
    var aborted: bool
    var emitted: seq<UserSignal>

    constructor (token: Token)
      ensures State() == NewReply(token)
    {
      this.token, id, message, code, error := token, 0, NO_MESSAGE, INVALID_CODE, Ok;
      running, finished, aborted, emitted := false, false, false, [];
    }

    function State(): ReplyState
      reads this
    {
      ReplyState(token, id, message, code, error, running, finished, aborted, emitted)
    }

    predicate IsFinished()
      reads this
    {
      finished || aborted
    }

    method SetRunningSlot(token: Token, id: uint16)
      modifies this
      ensures State() == Invoke(old(State()), SetRunning(token, id))
    {
      this.token := token;
      this.id := id;
      running := true;
    }

    method SetContentSlot(sender: Address, message: Message, code: byte)
      modifies this
      ensures State() == Invoke(old(State()), SetContent(sender, message, code))
    {
      if IsFinished() {
        return;
      }
      this.message := message;
      this.code := code;
      if IsError(code) {
        SetErrorSlot(ErrorForResponseCode(code));
      }
    }

    method SetNotifiedSlot()
      modifies this
      ensures State() == Invoke(old(State()), SetNotified)
    {
      if !IsFinished() {
        emitted := emitted + [Notified(message)];
      }
    }

    method SetObserveCancelledSlot()
      modifies this
      ensures State() == Invoke(old(State()), SetObserveCancelled)
    {
      var alreadyFinished := IsFinished();
      finished := true;
      running := false;
      if !alreadyFinished {
        emitted := emitted + [Finished];
      }
    }

    method SetFinishedSlot(newError: Error)
      modifies this
      ensures State() == Invoke(old(State()), SetFinished(newError))
    {
      if IsFinished() {
        return;
      }
      finished := true;
      running := false;
      if newError != Ok {
        SetErrorSlot(newError);
      }
      emitted := emitted + [Finished];
    }

    method SetErrorSlot(newError: Error)
      modifies this
      ensures State() == Invoke(old(State()), SetError(newError))
    {
      if error == newError {
        return;
      }
      error := newError;
      emitted := emitted + [ErrorEmitted(newError)];
    }

    method AbortRequest()
      modifies this
      ensures State() == Abort(old(State()))
    {
      if IsFinished() {
        return;
      }
      aborted := true;
      finished := true;
      running := false;
      emitted := emitted + [AbortedEmitted(token)];
      emitted := emitted + [Finished];
    }
  }

  // Every sequence of slots and aborts

  datatype UserOp = Slotted(slot: Slot) | AbortCall

  function Applied(r: ReplyState, op: UserOp): ReplyState {
    match op
    case Slotted(slot) => Invoke(r, slot)
    case AbortCall => Abort(r)
  }

  function AppliedAll(r: ReplyState, ops: seq<UserOp>): ReplyState {
    if ops == [] then r else Applied(AppliedAll(r, ops[..|ops| - 1]), ops[|ops| - 1])
  }

  predicate FinishesReply(slot: Slot) {
    slot.SetFinished? || slot.SetObserveCancelled?
  }

  predicate IsFinishing(op: UserOp) {
    op.AbortCall? || FinishesReply(op.slot)
  }

  function FinishedCount(emitted: seq<UserSignal>): nat {
    if emitted == [] then 0
    else FinishedCount(emitted[..|emitted| - 1]) + if emitted[|emitted| - 1] == Finished then 1 else 0
  }

  /** No notification comes behind `Finished`. */
  ghost predicate QuietAfterFinished(emitted: seq<UserSignal>) {
    forall i, j :: 0 <= i < j < |emitted| && emitted[i] == Finished ==> emitted[j].ErrorEmitted?
  }

  /** `finished` has been emitted once if the reply is finished, and not at all otherwise. */
  ghost predicate ReplyInvariant(r: ReplyState) {
    && (r.aborted ==> r.finished)
    && FinishedCount(r.emitted) == (if r.finished then 1 else 0)
    && (Finished in r.emitted ==> r.finished)
    && QuietAfterFinished(r.emitted)
  }

  lemma EmittingCounts(emitted: seq<UserSignal>, signal: UserSignal)
    ensures FinishedCount(emitted + [signal]) == FinishedCount(emitted) + if signal == Finished then 1 else 0
  {
    assert (emitted + [signal])[..|emitted|] == emitted;
  }

  lemma EmittingQuiet(emitted: seq<UserSignal>, signal: UserSignal)
    requires QuietAfterFinished(emitted)
    requires signal.ErrorEmitted? || Finished !in emitted
    ensures QuietAfterFinished(emitted + [signal])
  {
  }

  lemma NewReplyInvariant(token: Token)
    ensures ReplyInvariant(NewReply(token))
  {
  }

  lemma WithErrorKeepsInvariant(r: ReplyState, e: Error)
    requires QuietAfterFinished(r.emitted)
    ensures WithError(r, e).(error := r.error, emitted := r.emitted) == r
    ensures FinishedCount(WithError(r, e).emitted) == FinishedCount(r.emitted)
    ensures Finished in WithError(r, e).emitted <==> Finished in r.emitted
    ensures QuietAfterFinished(WithError(r, e).emitted)
  {
    EmittingError(r.emitted, e);
  }

  lemma EmittingError(emitted: seq<UserSignal>, e: Error)
    requires QuietAfterFinished(emitted)
    ensures var more := emitted + [ErrorEmitted(e)];
            && FinishedCount(more) == FinishedCount(emitted) && QuietAfterFinished(more)
            && (Finished in more <==> Finished in emitted)
  {
    EmittingCounts(emitted, ErrorEmitted(e));
    EmittingQuiet(emitted, ErrorEmitted(e));
    EmittedMember(emitted, ErrorEmitted(e), Finished);
  }

  lemma EmittedMember(emitted: seq<UserSignal>, signal: UserSignal, other: UserSignal)
    requires signal != other
    ensures other in emitted + [signal] <==> other in emitted
  {
  }

  lemma EmitFinished(r: ReplyState)
    requires r.finished && FinishedCount(r.emitted) == 0 && Finished !in r.emitted && QuietAfterFinished(r.emitted)
    ensures ReplyInvariant(Emitting(r, Finished))
  {
    EmittingCounts(r.emitted, Finished);
    EmittingQuiet(r.emitted, Finished);
  }

  lemma ContentKeepsInvariant(r: ReplyState, slot: Slot)
    requires ReplyInvariant(r) && slot.SetContent?
    ensures ReplyInvariant(Invoke(r, slot)) && Invoke(r, slot).IsFinished() == r.IsFinished()
  {
    WithErrorKeepsInvariant(r.(message := slot.message, code := slot.code), ErrorForResponseCode(slot.code));
  }

  lemma FinishingKeepsInvariant(r: ReplyState, slot: Slot)
    requires ReplyInvariant(r) && slot.SetFinished? && !r.IsFinished()
    ensures ReplyInvariant(Invoke(r, slot)) && Invoke(r, slot).IsFinished()
  {
    var e := slot.error;
    WithErrorKeepsInvariant(Finishing(r), e);
    EmitFinished(if e != Ok then WithError(Finishing(r), e) else Finishing(r));
  }

  lemma InvokeKeepsInvariant(r: ReplyState, slot: Slot)
    requires ReplyInvariant(r)
    ensures ReplyInvariant(Invoke(r, slot))
    ensures Invoke(r, slot).IsFinished() == (r.IsFinished() || FinishesReply(slot))
  {
    match slot {
      case SetRunning(_, _) =>
      case SetContent(_, message, code) => ContentKeepsInvariant(r, slot);
      case SetError(e) =>
        WithErrorKeepsInvariant(r, e);
      case SetFinished(e) =>
        if !r.IsFinished() {
          FinishingKeepsInvariant(r, slot);
        }
      case SetNotified =>
        if !r.IsFinished() {
          EmittingCounts(r.emitted, Notified(r.message));
          EmittingQuiet(r.emitted, Notified(r.message));
        }
      case SetObserveCancelled =>
        if !r.IsFinished() {
          EmitFinished(Finishing(r));
        }
    }
  }

  lemma AbortKeepsInvariant(r: ReplyState)
    requires ReplyInvariant(r)
    ensures ReplyInvariant(Abort(r)) && Abort(r).IsFinished()
  {
    if !r.IsFinished() {
      var r' := Emitting(r.(aborted := true, finished := true, running := false), AbortedEmitted(r.token));
      EmittingCounts(r.emitted, AbortedEmitted(r.token));
      EmittingQuiet(r.emitted, AbortedEmitted(r.token));
      EmitFinished(r');
    }
  }

  ghost predicate SomeFinishing(ops: seq<UserOp>) {
    exists i :: 0 <= i < |ops| && IsFinishing(ops[i])
  }

  lemma SomeFinishingStep(ops: seq<UserOp>, op: UserOp)
    ensures SomeFinishing(ops + [op]) <==> SomeFinishing(ops) || IsFinishing(op)
  {
    if SomeFinishing(ops) {
      var i :| 0 <= i < |ops| && IsFinishing(ops[i]);
      assert IsFinishing((ops + [op])[i]);
    }
    assert (ops + [op])[|ops|] == op;
  }

  /** Whatever happens to a reply, `finished` is emitted exactly once if anything finished it,
      and never otherwise; behind it come neither notifications nor aborts. */
  lemma {:induction false} FinishedExactlyOnce(token: Token, ops: seq<UserOp>)
    ensures var r := AppliedAll(NewReply(token), ops);
            && ReplyInvariant(r)
            && (r.IsFinished() <==> SomeFinishing(ops))
            && FinishedCount(r.emitted) == (if SomeFinishing(ops) then 1 else 0)
  {
    if ops != [] {
      var front, op := ops[..|ops| - 1], ops[|ops| - 1];
      FinishedExactlyOnce(token, front);
      SomeFinishingStep(front, op);
      assert ops == front + [op];
      var r := AppliedAll(NewReply(token), front);
      match op {
        case Slotted(slot) => InvokeKeepsInvariant(r, slot);
        case AbortCall => AbortKeepsInvariant(r);
      }
    }
  }

  /** A finished reply is frozen: no operation changes its content or un-finishes it. */
  lemma {:induction false} FrozenWhenFinished(r: ReplyState, ops: seq<UserOp>)
    requires r.IsFinished()
    ensures var r' := AppliedAll(r, ops);
            && r'.IsFinished() && r'.message == r.message && r'.code == r.code && r'.aborted == r.aborted
            && r.emitted <= r'.emitted
            && forall i :: |r.emitted| <= i < |r'.emitted| ==> r'.emitted[i].ErrorEmitted?
  {
    if ops != [] {
      FrozenWhenFinished(r, ops[..|ops| - 1]);
    }
  }

  /** The one signal a finished reply can still emit is an error, and it does so exactly when it
      is told of one it does not already have. The documentation promises `finished` behind
      every error; an abort between the two posted slots of a failed request breaks that. */
  lemma ErrorBehindFinishedExactly(r: ReplyState, slot: Slot)
    requires r.IsFinished()
    ensures Invoke(r, slot).emitted != r.emitted <==> slot.SetError? && slot.error != r.error
  {
    if slot.SetError? && slot.error != r.error {
      assert |Invoke(r, slot).emitted| == |r.emitted| + 1;
    }
  }

  lemma ErrorAfterFinished()
    ensures var r := AppliedAll(NewReply([1]), [AbortCall, Slotted(SetError(TimeOut)), Slotted(SetFinished(Ok))]);
            r.emitted == [AbortedEmitted([1]), Finished, ErrorEmitted(TimeOut)]
  {
    var r := NewReply([1]);
    AppliedStep(r, [], AbortCall);
    AppliedStep(r, [AbortCall], Slotted(SetError(TimeOut)));
    AppliedStep(r, [AbortCall, Slotted(SetError(TimeOut))], Slotted(SetFinished(Ok)));
  }

  lemma AppliedStep(r: ReplyState, ops: seq<UserOp>, op: UserOp)
    ensures AppliedAll(r, ops + [op]) == Applied(AppliedAll(r, ops), op)
  {
    assert (ops + [op])[..|ops|] == ops;
  }
}
