/** What a reply shows to its user, read off the slots and aborts it has seen. */
module ReplyHistory {
  import opened CoapTypes
  import opened Exchanges
  import opened UserReplies

  /** The operations before the first one that finishes the reply. */
  function Live(ops: seq<UserOp>): (r: seq<UserOp>)
    ensures r <= ops
  {
    if ops == [] then []
    else
      var front := Live(ops[..|ops| - 1]);
      if |front| == |ops| - 1 && !IsFinishing(ops[|ops| - 1]) then ops else front
  }

  lemma {:induction false} LiveExactly(ops: seq<UserOp>)
    ensures Live(ops) == ops <==> !SomeFinishing(ops)
  {
    if ops != [] {
      var front, op := ops[..|ops| - 1], ops[|ops| - 1];
      LiveExactly(front);
      SomeFinishingStep(front, op);
      assert ops == front + [op];
    }
  }

  lemma LiveMore(ops: seq<UserOp>, op: UserOp)
    ensures Live(ops + [op]) == if Live(ops) == ops && !IsFinishing(op) then ops + [op] else Live(ops)
  {
    assert (ops + [op])[..|ops|] == ops;
  }

  // What a step emits

  /** The error an operation tells the reply of, if it is not finished yet. */
  function ErrorOf(op: UserOp, finished: bool): seq<Error> {
    if op.AbortCall? then []
    else
      match op.slot
      case SetError(e) => [e]
      case SetContent(_, _, code) => if !finished && IsError(code) then [ErrorForResponseCode(code)] else []
      case SetFinished(e) => if !finished && e != Ok then [e] else []
      case _ => []
  }

  /** An error that is news, and behind it what the operation itself announces. */
  function Emission(r: ReplyState, op: UserOp): seq<UserSignal> {
    var errors := ErrorOf(op, r.IsFinished());
    (if errors != [] && errors[0] != r.error then [ErrorEmitted(errors[0])] else [])
    + if r.IsFinished() then []
      else if op.AbortCall? then [AbortedEmitted(r.token), Finished]
      else if FinishesReply(op.slot) then [Finished]
      else if op.slot.SetNotified? then [Notified(r.message)]
      else []
  }

  lemma EmitsExactly(r: ReplyState, op: UserOp)
    ensures Applied(r, op).emitted == r.emitted + Emission(r, op)
    ensures |Emission(r, op)| <= 2
  {
    var e := r.emitted;
    assert e + [] == e;
    if op.AbortCall? {
      assert (e + [AbortedEmitted(r.token)]) + [Finished] == e + ([] + [AbortedEmitted(r.token), Finished]);
    } else if op.slot.SetFinished? {
      assert (e + [ErrorEmitted(op.slot.error)]) + [Finished] == e + ([ErrorEmitted(op.slot.error)] + [Finished]);
    }
  }

  lemma FieldsAfter(r: ReplyState, op: UserOp)
    ensures var r' := Applied(r, op);
            var content := op.Slotted? && op.slot.SetContent? && !r.IsFinished();
            var told := op.Slotted? && op.slot.SetRunning?;
            var errors := ErrorOf(op, r.IsFinished());
            && r'.message == (if content then op.slot.message else r.message)
            && r'.code == (if content then op.slot.code else r.code)
            && r'.token == (if told then op.slot.token else r.token) && r'.id == (if told then op.slot.id else r.id)
            && r'.error == (if errors != [] then errors[0] else r.error)
            && r'.aborted == (r.aborted || (op.AbortCall? && !r.IsFinished()))
            && r'.running == (told || (r.running && !Stops(op, r.IsFinished())))
  {
  }

  // Content

  /** Message and code of the last content. */
  function LastContent(ops: seq<UserOp>): Option<(Message, byte)> {
    if ops == [] then None
    else
      var op := ops[|ops| - 1];
      if op.Slotted? && op.slot.SetContent? then Some((op.slot.message, op.slot.code))
      else LastContent(ops[..|ops| - 1])
  }

  function LastMessage(ops: seq<UserOp>): Message {
    if LastContent(ops).Some? then LastContent(ops).value.0 else NO_MESSAGE
  }

  function LastCode(ops: seq<UserOp>): byte {
    if LastContent(ops).Some? then LastContent(ops).value.1 else INVALID_CODE
  }

  lemma LastContentMore(ops: seq<UserOp>, op: UserOp)
    ensures LastContent(ops + [op])
         == if op.Slotted? && op.slot.SetContent? then Some((op.slot.message, op.slot.code)) else LastContent(ops)
  {
    assert (ops + [op])[..|ops|] == ops;
  }

  /** The messages the reply has notified its user of. */
  function Notices(emitted: seq<UserSignal>): seq<Message> {
    if emitted == [] then []
    else
      var last := emitted[|emitted| - 1];
      Notices(emitted[..|emitted| - 1]) + if last.Notified? then [last.message] else []
  }

  /** For every notification among the operations, the message of the last content ahead of it. */
  function NoticesDue(ops: seq<UserOp>): seq<Message> {
    if ops == [] then []
    else
      var front := ops[..|ops| - 1];
      NoticesDue(front) + if ops[|ops| - 1] == Slotted(SetNotified) then [LastMessage(front)] else []
  }

  lemma NoticesDueMore(ops: seq<UserOp>, op: UserOp)
    ensures NoticesDue(ops + [op]) == NoticesDue(ops) + if op == Slotted(SetNotified) then [LastMessage(ops)] else []
  {
    assert (ops + [op])[..|ops|] == ops;
  }

  lemma {:induction false} NoticesConcat(a: seq<UserSignal>, b: seq<UserSignal>)
    ensures Notices(a + b) == Notices(a) + Notices(b)
    decreases |b|
  {
    if b == [] {
      assert a + b == a;
    } else {
      NoticesConcat(a, b[..|b| - 1]);
      assert (a + b)[..|a + b| - 1] == a + b[..|b| - 1];
    }
  }

  lemma NoticesOfTwo(emitted: seq<UserSignal>)
    requires |emitted| <= 2
    ensures Notices(emitted)
         == (if |emitted| > 0 && emitted[0].Notified? then [emitted[0].message] else [])
            + (if |emitted| > 1 && emitted[1].Notified? then [emitted[1].message] else [])
  {
    if |emitted| == 2 {
      assert emitted[..1][..0] == [];
    }
  }

  lemma NoticesOfEmission(r: ReplyState, op: UserOp)
    ensures Notices(Emission(r, op)) == if op == Slotted(SetNotified) && !r.IsFinished() then [r.message] else []
  {
    EmitsExactly(r, op);
    NoticesOfTwo(Emission(r, op));
  }

  lemma NoticesStep(r: ReplyState, op: UserOp)
    ensures Notices(Applied(r, op).emitted)
         == Notices(r.emitted) + if op == Slotted(SetNotified) && !r.IsFinished() then [r.message] else []
  {
    EmitsExactly(r, op);
    NoticesConcat(r.emitted, Emission(r, op));
    NoticesOfEmission(r, op);
  }

  /** Over every sequence of slots and aborts: message and code are those of the last content before the
      reply was finished, the initial ones if there was none, and it has notified exactly of the
      messages that were its content at each notification before it was finished. */
  lemma {:induction false} ContentIsTheLast(token: Token, ops: seq<UserOp>)
    ensures var r := AppliedAll(NewReply(token), ops);
            && r.message == LastMessage(Live(ops)) && r.code == LastCode(Live(ops))
            && Notices(r.emitted) == NoticesDue(Live(ops))
  {
    if ops != [] {
      var front, op := ops[..|ops| - 1], ops[|ops| - 1];
      assert ops == front + [op];
      ContentIsTheLast(token, front);
      FinishedExactlyOnce(token, front);
      LiveExactly(front);
      LiveMore(front, op);
      FieldsAfter(AppliedAll(NewReply(token), front), op);
      NoticesStep(AppliedAll(NewReply(token), front), op);
      LastContentMore(front, op);
      NoticesDueMore(front, op);
    }
  }

  // Token and id

  /** Token and message id of the last running slot. */
  function LastRunning(ops: seq<UserOp>): Option<(Token, uint16)> {
    if ops == [] then None
    else
      var op := ops[|ops| - 1];
      if op.Slotted? && op.slot.SetRunning? then Some((op.slot.token, op.slot.id))
      else LastRunning(ops[..|ops| - 1])
  }

  function LastToken(token: Token, ops: seq<UserOp>): Token {
    if LastRunning(ops).Some? then LastRunning(ops).value.0 else token
  }

  /** The tokens under which the reply has announced an abort. */
  function AbortSignals(emitted: seq<UserSignal>): seq<Token> {
    if emitted == [] then []
    else
      var last := emitted[|emitted| - 1];
      AbortSignals(emitted[..|emitted| - 1]) + if last.AbortedEmitted? then [last.token] else []
  }

  /** An abort is announced if nothing has finished the reply before. */
  function AbortsDue(token: Token, ops: seq<UserOp>): seq<Token> {
    if |Live(ops)| < |ops| && ops[|Live(ops)|].AbortCall? then [LastToken(token, Live(ops))] else []
  }

  lemma {:induction false} AbortSignalsConcat(a: seq<UserSignal>, b: seq<UserSignal>)
    ensures AbortSignals(a + b) == AbortSignals(a) + AbortSignals(b)
    decreases |b|
  {
    if b == [] {
      assert a + b == a;
    } else {
      AbortSignalsConcat(a, b[..|b| - 1]);
      assert (a + b)[..|a + b| - 1] == a + b[..|b| - 1];
    }
  }

  lemma AbortSignalsOfTwo(emitted: seq<UserSignal>)
    requires |emitted| <= 2
    ensures AbortSignals(emitted)
         == (if |emitted| > 0 && emitted[0].AbortedEmitted? then [emitted[0].token] else [])
            + (if |emitted| > 1 && emitted[1].AbortedEmitted? then [emitted[1].token] else [])
  {
    if |emitted| == 2 {
      assert emitted[..1][..0] == [];
    }
  }

  lemma AbortSignalsOfEmission(r: ReplyState, op: UserOp)
    ensures AbortSignals(Emission(r, op)) == if op.AbortCall? && !r.IsFinished() then [r.token] else []
  {
    EmitsExactly(r, op);
    AbortSignalsOfTwo(Emission(r, op));
  }

  lemma AbortSignalsStep(r: ReplyState, op: UserOp)
    ensures AbortSignals(Applied(r, op).emitted)
         == AbortSignals(r.emitted) + if op.AbortCall? && !r.IsFinished() then [r.token] else []
  {
    EmitsExactly(r, op);
    AbortSignalsConcat(r.emitted, Emission(r, op));
    AbortSignalsOfEmission(r, op);
  }

  lemma LastRunningMore(ops: seq<UserOp>, op: UserOp)
    ensures LastRunning(ops + [op])
         == if op.Slotted? && op.slot.SetRunning? then Some((op.slot.token, op.slot.id)) else LastRunning(ops)
  {
    assert (ops + [op])[..|ops|] == ops;
  }

  /** Over every sequence of slots and aborts: the reply carries the token and the id of the last running
      slot, also when that comes behind the end, and has announced an abort exactly if an abort was
      what finished it, under the token it had then. */
  lemma {:induction false} TokenIsTheLast(token: Token, ops: seq<UserOp>)
    ensures var r := AppliedAll(NewReply(token), ops);
            && r.token == LastToken(token, ops)
            && r.id == (if LastRunning(ops).Some? then LastRunning(ops).value.1 else 0)
            && AbortSignals(r.emitted) == AbortsDue(token, ops) && (r.aborted <==> AbortsDue(token, ops) != [])
  {
    if ops != [] {
      var front, op := ops[..|ops| - 1], ops[|ops| - 1];
      assert ops == front + [op];
      TokenIsTheLast(token, front);
      FinishedExactlyOnce(token, front);
      LiveExactly(front);
      LiveMore(front, op);
      FieldsAfter(AppliedAll(NewReply(token), front), op);
      AbortSignalsStep(AppliedAll(NewReply(token), front), op);
      LastRunningMore(front, op);
      AbortsDueMore(token, front, op);
    }
  }

  lemma AbortsDueMore(token: Token, ops: seq<UserOp>, op: UserOp)
    ensures AbortsDue(token, ops + [op])
         == if Live(ops) == ops then (if op.AbortCall? then [LastToken(token, ops)] else []) else AbortsDue(token, ops)
  {
    LiveMore(ops, op);
    assert forall i :: 0 <= i < |ops| ==> (ops + [op])[i] == ops[i];
  }

  /** The operation ends the running of a reply. */
  predicate Stops(op: UserOp, finished: bool) {
    op == Slotted(SetObserveCancelled) || (IsFinishing(op) && !finished)
  }

  /** A running slot with nothing behind it that stops the reply. */
  predicate Runs(ops: seq<UserOp>) {
    ops != []
    && (var front, op := ops[..|ops| - 1], ops[|ops| - 1];
        (op.Slotted? && op.slot.SetRunning?) || (Runs(front) && !Stops(op, Live(front) != front)))
  }

  /** A reply is running exactly if it was told so and nothing has stopped it since; the running slot
      itself does not ask whether the reply is finished. */
  lemma {:induction false} RunningExactly(token: Token, ops: seq<UserOp>)
    ensures AppliedAll(NewReply(token), ops).running <==> Runs(ops)
  {
    if ops != [] {
      var front, op := ops[..|ops| - 1], ops[|ops| - 1];
      RunningExactly(token, front);
      FinishedExactlyOnce(token, front);
      LiveExactly(front);
      FieldsAfter(AppliedAll(NewReply(token), front), op);
    }
  }

  ghost predicate ToldToRun(ops: seq<UserOp>) {
    exists i :: 0 <= i < |ops| && ops[i].Slotted? && ops[i].slot.SetRunning?
  }

  lemma {:induction false} RunsWhileLive(ops: seq<UserOp>)
    requires Live(ops) == ops
    ensures Runs(ops) <==> ToldToRun(ops)
  {
    if ops != [] {
      var front, op := ops[..|ops| - 1], ops[|ops| - 1];
      assert ops == front + [op];
      LiveMore(front, op);
      RunsWhileLive(front);
      if ToldToRun(front) {
        var i :| 0 <= i < |front| && front[i].Slotted? && front[i].slot.SetRunning?;
        assert ops[i] == front[i];
      }
    }
  }

  /** To its user the reply is running exactly if it has been told so and nothing has finished it. */
  lemma IsRunningExactly(token: Token, ops: seq<UserOp>)
    ensures AppliedAll(NewReply(token), ops).IsRunning() <==> ToldToRun(ops) && !SomeFinishing(ops)
  {
    RunningExactly(token, ops);
    FinishedExactlyOnce(token, ops);
    LiveExactly(ops);
    if Live(ops) == ops {
      RunsWhileLive(ops);
    }
  }

  // Errors

  /** The errors the reply is told of: by a content or a final slot only while it is not finished. */
  function ErrorsTold(ops: seq<UserOp>): seq<Error> {
    if ops == [] then []
    else
      var front := ops[..|ops| - 1];
      ErrorsTold(front) + ErrorOf(ops[|ops| - 1], Live(front) != front)
  }

  function LastError(told: seq<Error>): Error {
    if told == [] then Ok else told[|told| - 1]
  }

  /** Those that differ from the one before. */
  function Changes(told: seq<Error>): seq<Error> {
    if told == [] then []
    else
      var front, e := told[..|told| - 1], told[|told| - 1];
      Changes(front) + if e != LastError(front) then [e] else []
  }

  function ErrorSignals(emitted: seq<UserSignal>): seq<Error> {
    if emitted == [] then []
    else
      var last := emitted[|emitted| - 1];
      ErrorSignals(emitted[..|emitted| - 1]) + if last.ErrorEmitted? then [last.error] else []
  }

  lemma {:induction false} ErrorSignalsConcat(a: seq<UserSignal>, b: seq<UserSignal>)
    ensures ErrorSignals(a + b) == ErrorSignals(a) + ErrorSignals(b)
    decreases |b|
  {
    if b == [] {
      assert a + b == a;
    } else {
      ErrorSignalsConcat(a, b[..|b| - 1]);
      assert (a + b)[..|a + b| - 1] == a + b[..|b| - 1];
    }
  }

  lemma ErrorSignalsOfTwo(emitted: seq<UserSignal>)
    requires |emitted| <= 2
    ensures ErrorSignals(emitted)
         == (if |emitted| > 0 && emitted[0].ErrorEmitted? then [emitted[0].error] else [])
            + (if |emitted| > 1 && emitted[1].ErrorEmitted? then [emitted[1].error] else [])
  {
    if |emitted| == 2 {
      assert emitted[..1][..0] == [];
    }
  }

  lemma ErrorSignalsOfEmission(r: ReplyState, op: UserOp)
    ensures var errors := ErrorOf(op, r.IsFinished());
            ErrorSignals(Emission(r, op)) == if errors != [] && errors[0] != r.error then [errors[0]] else []
  {
    EmitsExactly(r, op);
    ErrorSignalsOfTwo(Emission(r, op));
  }

  lemma ErrorSignalsStep(r: ReplyState, op: UserOp)
    ensures var errors := ErrorOf(op, r.IsFinished());
            ErrorSignals(Applied(r, op).emitted)
            == ErrorSignals(r.emitted) + if errors != [] && errors[0] != r.error then [errors[0]] else []
  {
    EmitsExactly(r, op);
    ErrorSignalsConcat(r.emitted, Emission(r, op));
    ErrorSignalsOfEmission(r, op);
  }

  lemma ChangesMore(told: seq<Error>, errors: seq<Error>)
    requires |errors| <= 1
    ensures Changes(told + errors)
         == Changes(told) + if errors != [] && errors[0] != LastError(told) then errors else []
    ensures LastError(told + errors) == if errors != [] then errors[0] else LastError(told)
  {
    if errors == [] {
      assert told + errors == told;
    } else {
      assert (told + errors)[..|told|] == told;
    }
  }

  /** Over every sequence of slots and aborts: the reply has the last error it was told of, and has
      emitted exactly the changes. */
  lemma {:induction false} ErrorIsTheLast(token: Token, ops: seq<UserOp>)
    ensures var r := AppliedAll(NewReply(token), ops);
            r.error == LastError(ErrorsTold(ops)) && ErrorSignals(r.emitted) == Changes(ErrorsTold(ops))
  {
    if ops != [] {
      var front, op := ops[..|ops| - 1], ops[|ops| - 1];
      assert ops == front + [op];
      ErrorIsTheLast(token, front);
      FinishedExactlyOnce(token, front);
      LiveExactly(front);
      FieldsAfter(AppliedAll(NewReply(token), front), op);
      ErrorSignalsStep(AppliedAll(NewReply(token), front), op);
      ChangesMore(ErrorsTold(front), ErrorOf(op, Live(front) != front));
    }
  }

  /** It is successful exactly if something has finished it, the last content before that was a success, and the
      last error it was told of, if any, was none. */
  lemma SuccessfulExactly(token: Token, ops: seq<UserOp>)
    ensures AppliedAll(NewReply(token), ops).IsSuccessful()
       <==> SomeFinishing(ops) && !IsError(LastCode(Live(ops))) && LastError(ErrorsTold(ops)) == Ok
  {
    FinishedExactlyOnce(token, ops);
    ContentIsTheLast(token, ops);
    ErrorIsTheLast(token, ops);
  }
}
