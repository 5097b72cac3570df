/** types.go: the master client's Call, which redials and runs the reconnect callbacks, which Call. */
module Reconnect {

  /** What a request ends in: an answer, rpc.ErrShutdown, any other error, or a failed reconnect. */
  datatype Answer = Answered | Shutdown | Refused | ReconnectFailed

  /** What one callback does: Calls, each followed by what depends on whether it succeeded. */
  datatype Program = Return(ok: bool) | Do(request: string, onSuccess: Program, onError: Program)

  /** Closures over closures: AppendReconnectCallback wraps what was there (lines 46-54). */
  datatype Callback = Noop | Custom(id: nat) | Then(first: Callback, next: Callback)

  /** One thing that happens, with the number of reconnects then in progress. */
  datatype Act =
    | Sent(request: string, conn: nat, depth: nat, answer: Answer)
    | Dialled(ok: bool, depth: nat)
    | Ended(id: nat, ok: bool, depth: nat)

  /** What the network will answer at each point, and what the callbacks do. */
  datatype Env = Env(answer: nat -> Answer, dial: nat -> bool, program: nat -> Program)

  /** The client's fields: which connection it is on and the callback; the log is what it did. */
  datatype State = State(log: seq<Act>, conn: nat, reconnCb: Callback, depth: nat)

  /** The log says of every request and every dial what the network said at that point. */
  ghost predicate AsTheNetworkSaid(e: Env, log: seq<Act>) {
    forall i :: 0 <= i < |log| ==>
      (log[i].Sent? ==> log[i].answer == e.answer(i)) && (log[i].Dialled? ==> log[i].ok == e.dial(i))
  }

  function Order(cb: Callback): seq<nat> {
    match cb
    case Noop => []
    case Custom(id) => [id]
    case Then(first, next) => Order(first) + Order(next)
  }

  function Sending(e: Env, s: State, request: string): State {
    s.(log := s.log + [Sent(request, s.conn, s.depth, e.answer(|s.log|))])
  }

  function Redialled(e: Env, s: State): State {
    s.(log := s.log + [Dialled(true, s.depth)], conn := s.conn + 1, reconnCb := Noop, depth := s.depth + 1)
  }

  function Calling(e: Env, s: State, request: string): (r: (State, Answer))
    ensures r.0.reconnCb == s.reconnCb && r.0.depth == s.depth
    decreases if s.reconnCb.Noop? then 1 else 3, 0, Noop, Return(true)
  {
    var sent := Sending(e, s, request);
    if e.answer(|s.log|) != Shutdown then (sent, e.answer(|s.log|))
    else if !e.dial(|sent.log|) then (sent.(log := sent.log + [Dialled(false, s.depth)]), ReconnectFailed)
    else
      var (run, ok) := RunningCallback(e, Redialled(e, sent), s.reconnCb);
      var restored := run.(reconnCb := s.reconnCb, depth := s.depth);
      if !ok then (restored, ReconnectFailed)
      else (Sending(e, restored, request), e.answer(|restored.log|))
  }

  function RunningCallback(e: Env, s: State, cb: Callback): (r: (State, bool))
    requires s.reconnCb.Noop?
    ensures r.0.reconnCb == s.reconnCb && r.0.depth == s.depth
    decreases if cb.Noop? then 0 else 2, 1, cb, Return(true)
  {
    match cb
    case Noop => (s, true)
    case Custom(id) =>
      var (run, ok) := RunningProgram(e, s, e.program(id));
      (run.(log := run.log + [Ended(id, ok, s.depth)]), ok)
    case Then(first, next) =>
      var (run, ok) := RunningCallback(e, s, first);
      if !ok then (run, false) else RunningCallback(e, run, next)
  }

  function RunningProgram(e: Env, s: State, p: Program): (r: (State, bool))
    requires s.reconnCb.Noop?
    ensures r.0.reconnCb == s.reconnCb && r.0.depth == s.depth
    decreases 2, 0, Noop, p
  {
    match p
    case Return(ok) => (s, ok)
    case Do(request, onSuccess, onError) =>
      var (called, a) := Calling(e, s, request);
      RunningProgram(e, called, if a == Answered then onSuccess else onError)
  }

  // What is counted in a stretch of log.

  /** The callbacks that ran to their end, with whether they succeeded. */
  function Ran(acts: seq<Act>): seq<(nat, bool)> {
    if acts == [] then []
    else
      var a := acts[|acts| - 1];
      Ran(acts[..|acts| - 1]) + if a.Ended? then [(a.id, a.ok)] else []
  }

  function SentAt(acts: seq<Act>, depth: nat): seq<Act> {
    if acts == [] then []
    else
      var a := acts[|acts| - 1];
      SentAt(acts[..|acts| - 1], depth) + if a.Sent? && a.depth == depth then [a] else []
  }

  function Redials(acts: seq<Act>): nat {
    if acts == [] then 0
    else
      var a := acts[|acts| - 1];
      Redials(acts[..|acts| - 1]) + if IsRedial(a) then 1 else 0
  }

  lemma {:induction false} RanAdds(a: seq<Act>, b: seq<Act>)
    ensures Ran(a + b) == Ran(a) + Ran(b)
  {
    if b == [] {
      assert a + b == a;
    } else {
      RanAdds(a, b[..|b| - 1]);
      assert (a + b)[..|a + b| - 1] == a + b[..|b| - 1];
    }
  }

  lemma {:induction false} SentAtAdds(a: seq<Act>, b: seq<Act>, depth: nat)
    ensures SentAt(a + b, depth) == SentAt(a, depth) + SentAt(b, depth)
  {
    if b == [] {
      assert a + b == a;
    } else {
      SentAtAdds(a, b[..|b| - 1], depth);
      assert (a + b)[..|a + b| - 1] == a + b[..|b| - 1];
    }
  }

  lemma {:induction false} RedialsAdd(a: seq<Act>, b: seq<Act>)
    ensures Redials(a + b) == Redials(a) + Redials(b)
  {
    if b == [] {
      assert a + b == a;
    } else {
      RedialsAdd(a, b[..|b| - 1]);
      assert (a + b)[..|a + b| - 1] == a + b[..|b| - 1];
    }
  }

  lemma {:induction false} NoneSentAt(acts: seq<Act>, depth: nat)
    requires forall a :: a in acts ==> a.depth != depth
    ensures SentAt(acts, depth) == []
  {
    if acts != [] {
      NoneSentAt(acts[..|acts| - 1], depth);
      assert acts[|acts| - 1] in acts;
    }
  }

  predicate IsRedial(a: Act) {
    a.Dialled? && a.ok
  }

  /** Every request goes out on the connection that the redials before it led to. */
  ghost predicate Threaded(conn: nat, acts: seq<Act>) {
    acts == [] ||
      var before, a := acts[..|acts| - 1], acts[|acts| - 1];
      Threaded(conn, before) && (a.Sent? ==> a.conn == conn + Redials(before))
  }

  lemma {:induction false} ThreadedAdds(conn: nat, a: seq<Act>, b: seq<Act>)
    requires Threaded(conn, a) && Threaded(conn + Redials(a), b)
    ensures Threaded(conn, a + b)
  {
    if b == [] {
      assert a + b == a;
    } else {
      var before := b[..|b| - 1];
      ThreadedAdds(conn, a, before);
      RedialsAdd(a, before);
      assert (a + b)[..|a + b| - 1] == a + before;
    }
  }

  /** What the log gained. */
  ghost predicate Gained(s: State, s': State, acts: seq<Act>) {
    && s'.log == s.log + acts
    && s'.conn == s.conn + Redials(acts) && Threaded(s.conn, acts)
  }

  lemma GainsAdd(s: State, s': State, s'': State, a: seq<Act>, b: seq<Act>)
    requires Gained(s, s', a) && Gained(s', s'', b)
    ensures Gained(s, s'', a + b)
  {
    RedialsAdd(a, b);
    ThreadedAdds(s.conn, a, b);
  }

  lemma GainsOne(s: State, s': State, a: Act)
    requires s'.log == s.log + [a] && s'.conn == if IsRedial(a) then s.conn + 1 else s.conn
    requires a.Sent? ==> a.conn == s.conn
    ensures Gained(s, s', [a]) && Ran([a]) == if a.Ended? then [(a.id, a.ok)] else []
  {
  }

  /** A Call made by a callback: nothing to run if it has to redial. */
  lemma NestedCall(e: Env, s: State, request: string) returns (acts: seq<Act>)
    requires s.reconnCb.Noop?
    ensures Gained(s, Calling(e, s, request).0, acts) && Ran(acts) == []
    ensures forall a :: a in acts ==> a.depth == s.depth && !a.Ended?
    ensures forall i :: 0 <= i < |acts| - 1 ==> !IsAnswer(acts[i], s.depth)
    ensures acts != [] && (Calling(e, s, request).1 == Answered <==> IsAnswer(acts[|acts| - 1], s.depth))
  {
    var sent := Sending(e, s, request);
    var called := Calling(e, s, request).0;
    var first := Sent(request, s.conn, s.depth, e.answer(|s.log|));
    acts := [first];
    GainsOne(s, sent, first);
    if e.answer(|s.log|) == Shutdown {
      var dialled := Dialled(e.dial(|sent.log|), s.depth);
      RanAdds(acts, [dialled]);
      acts := acts + [dialled];
      if dialled.ok {
        var run := Redialled(e, sent);
        assert RunningCallback(e, run, Noop) == (run, true);
        var again := Sent(request, run.conn, s.depth, e.answer(|run.log|));
        GainsOne(sent, run, dialled);
        GainsAdd(s, sent, run, [first], [dialled]);
        GainsOne(run, called, again);
        GainsAdd(s, run, called, acts, [again]);
        RanAdds(acts, [again]);
        acts := acts + [again];
      } else {
        GainsOne(sent, called, dialled);
        GainsAdd(s, sent, called, [first], [dialled]);
      }
    }
  }

  lemma {:induction false} ProgramRuns(e: Env, s: State, p: Program) returns (acts: seq<Act>)
    requires s.reconnCb.Noop?
    ensures Gained(s, RunningProgram(e, s, p).0, acts) && Ran(acts) == []
    ensures forall a :: a in acts ==> a.depth == s.depth && !a.Ended?
    decreases p
  {
    match p
    case Return(ok) => acts := [];
    case Do(request, onSuccess, onError) =>
      var (called, a) := Calling(e, s, request);
      var first := NestedCall(e, s, request);
      var rest := ProgramRuns(e, called, if a == Answered then onSuccess else onError);
      acts := first + rest;
      GainsAdd(s, called, RunningProgram(e, s, p).0, first, rest);
      RanAdds(first, rest);
  }

  /** In order, and stopping at the first that fails, if one does. */
  predicate UpToFirstError(order: seq<nat>, ran: seq<(nat, bool)>, ok: bool) {
    && |ran| <= |order|
    && (forall i :: 0 <= i < |ran| ==> ran[i].0 == order[i])
    && (forall i :: 0 <= i < |ran| ==> (ran[i].1 <==> ok || i + 1 < |ran|))
    && (if ok then |ran| == |order| else |ran| > 0)
  }

  lemma InOrderThen(o: seq<nat>, o': seq<nat>, ran: seq<(nat, bool)>, ran': seq<(nat, bool)>, ok: bool)
    requires UpToFirstError(o, ran, true) && UpToFirstError(o', ran', ok)
    ensures UpToFirstError(o + o', ran + ran', ok)
  {
  }

  lemma {:induction false} CallbacksRun(e: Env, s: State, cb: Callback) returns (acts: seq<Act>)
    requires s.reconnCb.Noop?
    ensures Gained(s, RunningCallback(e, s, cb).0, acts)
    ensures UpToFirstError(Order(cb), Ran(acts), RunningCallback(e, s, cb).1)
    ensures forall a :: a in acts ==> a.depth == s.depth
    decreases cb
  {
    match cb
    case Noop => acts := [];
    case Custom(id) => acts := CustomRuns(e, s, id);
    case Then(first, next) =>
      var (run, ok) := RunningCallback(e, s, first);
      acts := CallbacksRun(e, s, first);
      if ok {
        var rest := CallbacksRun(e, run, next);
        GainsAdd(s, run, RunningCallback(e, s, cb).0, acts, rest);
        RanAdds(acts, rest);
        InOrderThen(Order(first), Order(next), Ran(acts), Ran(rest), RunningCallback(e, s, cb).1);
        acts := acts + rest;
      }
  }

  lemma CustomRuns(e: Env, s: State, id: nat) returns (acts: seq<Act>)
    requires s.reconnCb.Noop?
    ensures var (s', ok) := RunningCallback(e, s, Custom(id));
      Gained(s, s', acts) && UpToFirstError([id], Ran(acts), ok)
    ensures forall a :: a in acts ==> a.depth == s.depth
  {
    var (run, ok) := RunningProgram(e, s, e.program(id));
    var end := Ended(id, ok, s.depth);
    acts := ProgramRuns(e, s, e.program(id));
    GainsOne(run, RunningCallback(e, s, Custom(id)).0, end);
    GainsAdd(s, run, RunningCallback(e, s, Custom(id)).0, acts, [end]);
    RanAdds(acts, [end]);
    acts := acts + [end];
  }

  /** The dial and the callbacks of a Call whose connection was shut down. */
  lemma RedialRuns(e: Env, s: State, cb: Callback) returns (acts: seq<Act>)
    ensures var (s', ok) := RunningCallback(e, Redialled(e, s), cb);
      && Gained(s, s', acts) && UpToFirstError(Order(cb), Ran(acts), ok)
    ensures forall a :: a in acts ==> s.depth <= a.depth <= s.depth + 1
    ensures SentAt(acts, s.depth) == []
  {
    var dialled := Dialled(true, s.depth);
    var inner := CallbacksRun(e, Redialled(e, s), cb);
    GainsOne(s, Redialled(e, s), dialled);
    GainsAdd(s, Redialled(e, s), RunningCallback(e, Redialled(e, s), cb).0, [dialled], inner);
    acts := [dialled] + inner;
    RanAdds([dialled], inner);
    RedialsAdd([dialled], inner);
    assert SentAt([dialled], s.depth) == [];
    SentAtAdds([dialled], inner, s.depth);
    NoneSentAt(inner, s.depth);
  }

  /** What happens to a request from outside any callback, given what happened in between. */
  ghost predicate SentUpToTwice(e: Env, s: State, s': State, request: string, acts: seq<Act>, a: Answer) {
    var sends := SentAt(acts, s.depth);
    && 1 <= |sends| <= 2 && (forall x :: x in sends ==> x.Sent? && x.request == request)
    && sends[0].conn == s.conn && sends[0].answer == e.answer(|s.log|)
    && (if sends[0].answer != Shutdown then acts == sends && a == sends[0].answer
        else if !e.dial(|s.log| + 1) then acts == sends + [Dialled(false, s.depth)] && a == ReconnectFailed
        else
          && UpToFirstError(Order(s.reconnCb), Ran(acts), |sends| == 2)
          && (|sends| == 1 ==> a == ReconnectFailed)
          && (|sends| == 2 ==> acts[|acts| - 1] == sends[1] && sends[1].conn == s'.conn && a == sends[1].answer))
  }

  /** The one more thing that happened, and what it counts for. */
  lemma Another(s: State, s': State, s'': State, acts: seq<Act>, a: Act, depth: nat)
    requires Gained(s, s', acts) && a.depth == depth && !a.Ended?
    requires s''.log == s'.log + [a] && s''.conn == if IsRedial(a) then s'.conn + 1 else s'.conn
    requires a.Sent? ==> a.conn == s'.conn
    ensures Gained(s, s'', acts + [a]) && Ran(acts + [a]) == Ran(acts)
    ensures SentAt(acts + [a], depth) == SentAt(acts, depth) + if a.Sent? then [a] else []
  {
  }

  lemma CallUntilRetry(e: Env, s: State, request: string) returns (acts: seq<Act>)
    requires e.answer(|s.log|) == Shutdown
    ensures var (run, ok) := RunningCallback(e, Redialled(e, Sending(e, s, request)), s.reconnCb);
      && Gained(s, run, acts) && UpToFirstError(Order(s.reconnCb), Ran(acts), ok)
    ensures forall x :: x in acts ==> s.depth <= x.depth <= s.depth + 1
    ensures SentAt(acts, s.depth) == [Sent(request, s.conn, s.depth, Shutdown)]
  {
    var sent := Sending(e, s, request);
    var first := Sent(request, s.conn, s.depth, Shutdown);
    Another(s, s, sent, [], first, s.depth);
    assert [] + [first] == [first];
    var inner := RedialRuns(e, sent, s.reconnCb);
    acts := [first] + inner;
    GainsAdd(s, sent, RunningCallback(e, Redialled(e, sent), s.reconnCb).0, [first], inner);
    RanAdds([first], inner);
    SentAtAdds([first], inner, s.depth);
  }

  lemma CallRedials(e: Env, s: State, request: string) returns (acts: seq<Act>)
    requires e.answer(|s.log|) == Shutdown && e.dial(|s.log| + 1)
    ensures Gained(s, Calling(e, s, request).0, acts)
    ensures forall x :: x in acts ==> s.depth <= x.depth <= s.depth + 1
    ensures SentUpToTwice(e, s, Calling(e, s, request).0, request, acts, Calling(e, s, request).1)
  {
    var (run, ok) := RunningCallback(e, Redialled(e, Sending(e, s, request)), s.reconnCb);
    acts := CallUntilRetry(e, s, request);
    if ok {
      var again := Sent(request, run.conn, s.depth, e.answer(|run.log|));
      Another(s, run, Calling(e, s, request).0, acts, again, s.depth);
      acts := acts + [again];
    }
  }

  lemma CallAnswered(e: Env, s: State, request: string) returns (acts: seq<Act>)
    requires e.answer(|s.log|) != Shutdown
    ensures Gained(s, Calling(e, s, request).0, acts) && forall x :: x in acts ==> x.depth == s.depth
    ensures SentUpToTwice(e, s, Calling(e, s, request).0, request, acts, Calling(e, s, request).1)
  {
    var first := Sent(request, s.conn, s.depth, e.answer(|s.log|));
    Another(s, s, Sending(e, s, request), [], first, s.depth);
    acts := [] + [first];
    assert Calling(e, s, request) == (Sending(e, s, request), first.answer);
    assert acts == [first] && SentAt(acts, s.depth) == [first];
  }

  lemma CallUndialled(e: Env, s: State, request: string) returns (acts: seq<Act>)
    requires e.answer(|s.log|) == Shutdown && !e.dial(|s.log| + 1)
    ensures Gained(s, Calling(e, s, request).0, acts) && forall x :: x in acts ==> x.depth == s.depth
    ensures SentUpToTwice(e, s, Calling(e, s, request).0, request, acts, Calling(e, s, request).1)
  {
    var first, dialled := Sent(request, s.conn, s.depth, Shutdown), Dialled(false, s.depth);
    Another(s, s, Sending(e, s, request), [], first, s.depth);
    Another(s, Sending(e, s, request), Calling(e, s, request).0, [] + [first], dialled, s.depth);
    acts := [] + [first] + [dialled];
    assert SentAt(acts, s.depth) == [first];
    assert acts == [first] + [dialled];
  }

  /** A Call, whatever the network answers and whatever the callbacks call: at most two reconnects are
      nested; the callbacks run in order of registration up to the first error, once each and only
      after a redial; the request is sent once, or again on the newest connection when all of them went
      well. Whatever the callbacks were answered was answered on that connection exactly when no redial
      came after an answer. */
  lemma CallRuns(e: Env, s: State, request: string) returns (acts: seq<Act>)
    ensures Gained(s, Calling(e, s, request).0, acts)
    ensures forall x :: x in acts ==> s.depth <= x.depth <= s.depth + 1
    ensures SentUpToTwice(e, s, Calling(e, s, request).0, request, acts, Calling(e, s, request).1)
    ensures AnswersOnLast(acts, Calling(e, s, request).0.conn, s.depth + 1) <==> !RedialAfterAnswer(acts, s.depth + 1)
  {
    if e.answer(|s.log|) == Shutdown && e.dial(|s.log| + 1) {
      acts := CallRedials(e, s, request);
    } else if e.answer(|s.log|) == Shutdown {
      acts := CallUndialled(e, s, request);
    } else {
      acts := CallAnswered(e, s, request);
    }
    AnswersOnLastIff(s.conn, acts, s.depth + 1);
  }

  // Where the callbacks' requests were answered.

  predicate IsAnswer(a: Act, depth: nat) {
    a.Sent? && a.depth == depth && a.answer == Answered
  }

  /** What was answered at the depth was answered on this connection. */
  ghost predicate AnswersOnLast(acts: seq<Act>, conn: nat, depth: nat) {
    forall a :: a in acts && IsAnswer(a, depth) ==> a.conn == conn
  }

  ghost predicate RedialAfterAnswer(acts: seq<Act>, depth: nat) {
    exists i, j :: 0 <= i < j < |acts| && IsAnswer(acts[i], depth) && IsRedial(acts[j])
  }

  lemma OneMoreAct(before: seq<Act>, last: Act, depth: nat)
    ensures RedialAfterAnswer(before + [last], depth) <==>
      RedialAfterAnswer(before, depth) || (IsRedial(last) && exists a :: a in before && IsAnswer(a, depth))
  {
    var acts, n := before + [last], |before|;
    if RedialAfterAnswer(before, depth) {
      var i, j :| 0 <= i < j < n && IsAnswer(before[i], depth) && IsRedial(before[j]);
      assert IsAnswer(acts[i], depth) && IsRedial(acts[j]);
    }
    if IsRedial(last) && exists a :: a in before && IsAnswer(a, depth) {
      var i :| 0 <= i < n && IsAnswer(before[i], depth);
      assert IsAnswer(acts[i], depth) && IsRedial(acts[n]);
    }
    if RedialAfterAnswer(acts, depth) {
      var i, j :| 0 <= i < j <= n && IsAnswer(acts[i], depth) && IsRedial(acts[j]);
      assert before[i] in before && (j < n ==> before[j] == acts[j]);
    }
  }

  lemma {:induction false} AnswersOnLastIff(conn: nat, acts: seq<Act>, depth: nat)
    requires Threaded(conn, acts)
    ensures forall a :: a in acts && a.Sent? ==> a.conn <= conn + Redials(acts)
    ensures AnswersOnLast(acts, conn + Redials(acts), depth) <==> !RedialAfterAnswer(acts, depth)
  {
    if acts != [] {
      var n := |acts| - 1;
      AnswersOnLastIff(conn, acts[..n], depth);
      assert acts == acts[..n] + [acts[n]];
      OneMoreAct(acts[..n], acts[n], depth);
    }
  }

  /** Callbacks that make no Call. */
  predicate Silent(e: Env, cb: Callback) {
    match cb
    case Noop => true
    case Custom(id) => e.program(id).Return?
    case Then(first, next) => Silent(e, first) && Silent(e, next)
  }

  /** Only the callback registered first makes a Call, and only one, as in server.go lines 128-138 and
      157-162. */
  predicate OneRequest(e: Env, cb: Callback) {
    match cb
    case Noop => true
    case Custom(id) => var p := e.program(id); p.Return? || (p.onSuccess.Return? && p.onError.Return?)
    case Then(first, next) => OneRequest(e, first) && Silent(e, next)
  }

  lemma {:induction false} SilentRuns(e: Env, s: State, cb: Callback) returns (acts: seq<Act>)
    requires s.reconnCb.Noop? && Silent(e, cb)
    ensures Gained(s, RunningCallback(e, s, cb).0, acts) && forall a :: a in acts ==> a.Ended? && a.depth == s.depth
    decreases cb
  {
    match cb
    case Noop => acts := [];
    case Custom(id) =>
      var end := Ended(id, e.program(id).ok, s.depth);
      assert RunningProgram(e, s, e.program(id)) == (s, e.program(id).ok);
      GainsOne(s, RunningCallback(e, s, cb).0, end);
      acts := [end];
    case Then(first, next) =>
      var (run, ok) := RunningCallback(e, s, first);
      acts := SilentRuns(e, s, first);
      if ok {
        var rest := SilentRuns(e, run, next);
        GainsAdd(s, run, RunningCallback(e, s, cb).0, acts, rest);
        acts := acts + rest;
      }
  }

  lemma NoRedialLater(a: seq<Act>, b: seq<Act>, depth: nat)
    requires !RedialAfterAnswer(a, depth) && forall x :: x in b ==> !IsRedial(x)
    ensures !RedialAfterAnswer(a + b, depth)
  {
    var acts := a + b;
    forall i, j | 0 <= i < j < |acts| && IsAnswer(acts[i], depth) ensures !IsRedial(acts[j]) {
      if j >= |a| {
        assert acts[j] in b;
      } else {
        assert IsAnswer(a[i], depth) && acts[j] == a[j];
      }
    }
  }

  lemma NoAnswerBefore(a: seq<Act>, b: seq<Act>, depth: nat)
    requires (forall x :: x in a ==> !IsAnswer(x, depth)) && !RedialAfterAnswer(b, depth)
    ensures !RedialAfterAnswer(a + b, depth)
  {
    var acts := a + b;
    forall i | 0 <= i < |a| ensures !IsAnswer(acts[i], depth) {
      assert a[i] in a;
    }
    forall i, j | |a| <= i < j < |acts| && IsAnswer(acts[i], depth) ensures !IsRedial(acts[j]) {
      assert IsAnswer(b[i - |a|], depth) && acts[j] == b[j - |a|];
    }
  }

  lemma {:induction false} OneRequestRuns(e: Env, s: State, cb: Callback) returns (acts: seq<Act>)
    requires s.reconnCb.Noop? && OneRequest(e, cb)
    ensures Gained(s, RunningCallback(e, s, cb).0, acts) && !RedialAfterAnswer(acts, s.depth)
    decreases cb
  {
    match cb
    case Noop => acts := [];
    case Custom(id) => acts := OneCallRuns(e, s, id);
    case Then(first, next) =>
      var (run, ok) := RunningCallback(e, s, first);
      acts := OneRequestRuns(e, s, first);
      if ok {
        var rest := SilentRuns(e, run, next);
        GainsAdd(s, run, RunningCallback(e, s, cb).0, acts, rest);
        NoRedialLater(acts, rest, s.depth);
        acts := acts + rest;
      }
  }

  lemma OneCallRuns(e: Env, s: State, id: nat) returns (acts: seq<Act>)
    requires s.reconnCb.Noop? && OneRequest(e, Custom(id))
    ensures Gained(s, RunningCallback(e, s, Custom(id)).0, acts) && !RedialAfterAnswer(acts, s.depth)
  {
    var p := e.program(id);
    var (run, ok) := RunningProgram(e, s, p);
    var end := Ended(id, ok, s.depth);
    acts := [];
    if p.Do? {
      acts := NestedCall(e, s, p.request);
      assert RunningProgram(e, s, p).0 == Calling(e, s, p.request).0;
    }
    GainsOne(run, RunningCallback(e, s, Custom(id)).0, end);
    GainsAdd(s, run, RunningCallback(e, s, Custom(id)).0, acts, [end]);
    NoRedialLater(acts, [end], s.depth);
    acts := acts + [end];
  }

  // What a sign-in callback makes of its answer.

  ghost predicate HasAnswer(acts: seq<Act>, depth: nat) {
    exists a :: a in acts && IsAnswer(a, depth)
  }

  lemma HasAnswerAdds(a: seq<Act>, b: seq<Act>, depth: nat)
    ensures HasAnswer(a + b, depth) <==> HasAnswer(a, depth) || HasAnswer(b, depth)
  {
    if HasAnswer(a, depth) || HasAnswer(b, depth) {
      var x :| (x in a || x in b) && IsAnswer(x, depth);
      assert x in a + b;
    }
  }

  lemma OnlyLastAnswers(acts: seq<Act>, depth: nat)
    requires acts != [] && forall i :: 0 <= i < |acts| - 1 ==> !IsAnswer(acts[i], depth)
    ensures HasAnswer(acts, depth) <==> IsAnswer(acts[|acts| - 1], depth)
  {
    assert acts[|acts| - 1] in acts;
  }

  /** One request, and success exactly if it is answered without an error, as the sign-in does
      (server.go lines 128-134). */
  predicate IsSignin(p: Program) {
    p.Do? && p.onSuccess == Return(true) && p.onError == Return(false)
  }

  /** The sign-in callback, and after it callbacks that make no Call and succeed (server.go lines 138 and
      157-162). */
  predicate SigninFirst(e: Env, cb: Callback) {
    match cb
    case Noop => false
    case Custom(id) => IsSignin(e.program(id))
    case Then(first, next) => SigninFirst(e, first) && Succeeds(e, next)
  }

  predicate Succeeds(e: Env, cb: Callback) {
    match cb
    case Noop => true
    case Custom(id) => e.program(id) == Return(true)
    case Then(first, next) => Succeeds(e, first) && Succeeds(e, next)
  }

  lemma {:induction false} SucceedsSilently(e: Env, s: State, cb: Callback)
    requires s.reconnCb.Noop? && Succeeds(e, cb)
    ensures Silent(e, cb) && RunningCallback(e, s, cb).1
    decreases cb
  {
    match cb
    case Noop =>
    case Custom(id) =>
      assert RunningProgram(e, s, e.program(id)) == (s, true);
    case Then(first, next) =>
      SucceedsSilently(e, s, first);
      SucceedsSilently(e, RunningCallback(e, s, first).0, next);
  }

  /** The callback ends well exactly when its request was answered, on the first connection or, after
      a shutdown, on the next. */
  lemma SigninRuns(e: Env, s: State, id: nat) returns (acts: seq<Act>)
    requires s.reconnCb.Noop? && IsSignin(e.program(id))
    ensures Gained(s, RunningCallback(e, s, Custom(id)).0, acts) && forall a :: a in acts ==> a.depth == s.depth
    ensures RunningCallback(e, s, Custom(id)).1 == HasAnswer(acts, s.depth)
    ensures acts != [] && acts[|acts| - 1] == Ended(id, HasAnswer(acts, s.depth), s.depth)
  {
    var p := e.program(id);
    var (called, a) := Calling(e, s, p.request);
    assert RunningProgram(e, s, p) == (called, a == Answered);
    var end := Ended(id, a == Answered, s.depth);
    var inner := NestedCall(e, s, p.request);
    GainsOne(called, RunningCallback(e, s, Custom(id)).0, end);
    GainsAdd(s, called, RunningCallback(e, s, Custom(id)).0, inner, [end]);
    acts := inner + [end];
    OnlyLastAnswers(inner, s.depth);
    HasAnswerAdds(inner, [end], s.depth);
  }

  lemma {:induction false} SigninFirstRuns(e: Env, s: State, cb: Callback) returns (acts: seq<Act>)
    requires s.reconnCb.Noop? && SigninFirst(e, cb)
    ensures Gained(s, RunningCallback(e, s, cb).0, acts) && forall a :: a in acts ==> a.depth == s.depth
    ensures RunningCallback(e, s, cb).1 == HasAnswer(acts, s.depth)
    decreases cb
  {
    match cb
    case Noop => acts := [];
    case Custom(id) => acts := SigninRuns(e, s, id);
    case Then(first, next) =>
      var (run, ok) := RunningCallback(e, s, first);
      acts := SigninFirstRuns(e, s, first);
      if ok {
        SucceedsSilently(e, run, next);
        var rest := SilentRuns(e, run, next);
        GainsAdd(s, run, RunningCallback(e, s, cb).0, acts, rest);
        HasAnswerAdds(acts, rest, s.depth);
        acts := acts + rest;
      }
  }

  lemma SigninFirstRedials(e: Env, s: State, request: string) returns (all: seq<Act>)
    requires SigninFirst(e, s.reconnCb) && e.answer(|s.log|) == Shutdown && e.dial(|s.log| + 1)
    ensures Calling(e, s, request).0.log == s.log + all
    ensures |SentAt(all, s.depth)| == if HasAnswer(all, s.depth + 1) then 2 else 1
    ensures !HasAnswer(all, s.depth + 1) ==> Calling(e, s, request).1 == ReconnectFailed
  {
    var start := Redialled(e, Sending(e, s, request));
    var inner := SigninFirstRuns(e, start, s.reconnCb);
    var before, after := RedialLog(e, s, request, inner);
    NoneSentAt(inner, s.depth);
    AroundCallbacks(before, inner, after, s.depth);
    all := before + inner + after;
  }

  /** The log of a Call that redials, around what its callbacks did. */
  lemma RedialLog(e: Env, s: State, request: string, inner: seq<Act>) returns (before: seq<Act>, after: seq<Act>)
    requires e.answer(|s.log|) == Shutdown && e.dial(|s.log| + 1)
    requires var start := Redialled(e, Sending(e, s, request));
      RunningCallback(e, start, s.reconnCb).0.log == start.log + inner
    ensures before == [Sent(request, s.conn, s.depth, Shutdown), Dialled(true, s.depth)]
    ensures var (run, ok) := RunningCallback(e, Redialled(e, Sending(e, s, request)), s.reconnCb);
      && after == (if ok then [Sent(request, run.conn, s.depth, e.answer(|run.log|))] else [])
      && (!ok ==> Calling(e, s, request).1 == ReconnectFailed)
    ensures Calling(e, s, request).0.log == s.log + (before + inner + after)
  {
    var start := Redialled(e, Sending(e, s, request));
    var (run, ok) := RunningCallback(e, start, s.reconnCb);
    before := [Sent(request, s.conn, s.depth, Shutdown), Dialled(true, s.depth)];
    after := if ok then [Sent(request, run.conn, s.depth, e.answer(|run.log|))] else [];
    assert start.log == s.log + before;
  }

  /** What surrounds the callbacks' acts: the request and the dial before, perhaps the request after. */
  lemma AroundCallbacks(before: seq<Act>, inner: seq<Act>, after: seq<Act>, depth: nat)
    requires |before| == 2 && before[0].Sent? && before[0].depth == depth && before[1].Dialled?
    requires |after| <= 1 && forall x :: x in after ==> x.Sent? && x.depth == depth
    requires SentAt(inner, depth) == []
    ensures |SentAt(before + inner + after, depth)| == 1 + |after|
    ensures HasAnswer(before + inner + after, depth + 1) <==> HasAnswer(inner, depth + 1)
  {
    SentAtAdds(before, inner, depth);
    SentAtAdds(before + inner, after, depth);
    assert before == [before[0]] + [before[1]] && before[..1] == [before[0]];
    SentAtAdds([before[0]], [before[1]], depth);
    assert SentAt([before[0]], depth) == [before[0]] && SentAt([before[1]], depth) == [];
    if after != [] {
      assert after[0] in after && after[..0] == [];
      assert SentAt(after, depth) == [after[0]];
    }
    HasAnswerAdds(before, inner, depth + 1);
    HasAnswerAdds(before + inner, after, depth + 1);
  }

  /** After a redial the request is sent a second time exactly when the sign-in was answered, and the Call
      fails otherwise, whatever the network does. */
  lemma SigninDecides(e: Env, s: State, request: string) returns (acts: seq<Act>)
    requires SigninFirst(e, s.reconnCb) && e.answer(|s.log|) == Shutdown && e.dial(|s.log| + 1)
    ensures Gained(s, Calling(e, s, request).0, acts)
    ensures |SentAt(acts, s.depth)| == if HasAnswer(acts, s.depth + 1) then 2 else 1
    ensures !HasAnswer(acts, s.depth + 1) ==> Calling(e, s, request).1 == ReconnectFailed
  {
    acts := CallRuns(e, s, request);
    var all := SigninFirstRedials(e, s, request);
    SameGain(s.log, acts, all);
  }

  lemma SameGain(log: seq<Act>, a: seq<Act>, b: seq<Act>)
    requires log + a == log + b
    ensures a == b
  {
    assert (log + a)[|log|..] == a;
    assert (log + b)[|log|..] == b;
  }

  lemma OneRequestRedials(e: Env, s: State, request: string) returns (all: seq<Act>)
    requires OneRequest(e, s.reconnCb) && e.answer(|s.log|) == Shutdown && e.dial(|s.log| + 1)
    ensures Calling(e, s, request).0.log == s.log + all && !RedialAfterAnswer(all, s.depth + 1)
  {
    var inner := OneRequestRuns(e, Redialled(e, Sending(e, s, request)), s.reconnCb);
    var before, after := RedialLog(e, s, request, inner);
    NoAnswerBefore(before, inner, s.depth + 1);
    NoRedialLater(before + inner, after, s.depth + 1);
    all := before + inner + after;
  }

  /** With such callbacks, what they were answered was answered on the connection the client ends on,
      whatever the network does. */
  lemma OneRequestIsSafe(e: Env, s: State, request: string) returns (acts: seq<Act>)
    requires OneRequest(e, s.reconnCb)
    ensures Gained(s, Calling(e, s, request).0, acts) && AnswersOnLast(acts, Calling(e, s, request).0.conn, s.depth + 1)
  {
    acts := CallRuns(e, s, request);
    if e.answer(|s.log|) == Shutdown && e.dial(|s.log| + 1) {
      var all := OneRequestRedials(e, s, request);
      SameGain(s.log, acts, all);
    } else {
      var first := Sent(request, s.conn, s.depth, e.answer(|s.log|));
      var all := if first.answer == Shutdown then [first, Dialled(false, s.depth)] else [first];
      SameGain(s.log, acts, all);
    }
  }

  /** Every callback makes one request; the connection is found dead at these points. */
  function ShutdownAt(points: set<nat>): Env {
    Env(n => if n in points then Shutdown else Answered, _ => true, _ => Do("x", Return(true), Return(false)))
  }

  /** One callback whose request meets a dead connection: it is answered on the next one, and there the
      request is sent again. */
  lemma OneCallbackMovesAlong()
    ensures var e := ShutdownAt({0, 2});
      var s := State([], 0, Custom(0), 0);
      var (s', a) := Calling(e, s, "r");
      && a == Answered && s'.conn == 2 && |s'.log| == 7
      && s'.log[4] == Sent("x", 2, 1, Answered) && s'.log[6] == Sent("r", 2, 0, Answered)
      && AnswersOnLast(s'.log, s'.conn, 1)
  {
    var e := ShutdownAt({0, 2});
    var s := State([], 0, Custom(0), 0);
    var s2 := Redialled(e, Sending(e, s, "r"));
    var s4 := Redialled(e, Sending(e, s2, "x"));
    assert RunningCallback(e, s4, Noop) == (s4, true);
    var s5 := Sending(e, s4.(depth := 1), "x");
    assert Calling(e, s2, "x") == (s5, Answered);
    var s6 := s5.(log := s5.log + [Ended(0, true, 1)]);
    assert RunningCallback(e, s2, s.reconnCb) == (s6, true);
    var s7 := Sending(e, s6.(reconnCb := s.reconnCb, depth := 0), "r");
    assert Calling(e, s, "r") == (s7, Answered);
  }

  /** Two callbacks with a request each; the connection goes away between them, and the request is sent
      again on a connection on which the first callback's request was not answered. */
  lemma SecondCallbackMovesOn()
    ensures var e := ShutdownAt({0, 4});
      var s := State([], 0, Then(Custom(0), Custom(1)), 0);
      var (s', a) := Calling(e, s, "r");
      && a == Answered && s'.conn == 2 && |s'.log| == 9
      && s'.log[2] == Sent("x", 1, 1, Answered) && s'.log[8] == Sent("r", 2, 0, Answered)
      && !AnswersOnLast(s'.log, s'.conn, 1)
  {
    var e := ShutdownAt({0, 4});
    var s := State([], 0, Then(Custom(0), Custom(1)), 0);
    var s2 := Redialled(e, Sending(e, s, "r"));
    var s3 := Sending(e, s2, "x");
    assert Calling(e, s2, "x") == (s3, Answered);
    var s4 := s3.(log := s3.log + [Ended(0, true, 1)]);
    assert RunningCallback(e, s2, Custom(0)) == (s4, true);
    var s6 := Redialled(e, Sending(e, s4, "x"));
    assert RunningCallback(e, s6, Noop) == (s6, true);
    var s7 := Sending(e, s6.(depth := 1), "x");
    assert Calling(e, s4, "x") == (s7, Answered);
    var s8 := s7.(log := s7.log + [Ended(1, true, 1)]);
    assert RunningCallback(e, s4, Custom(1)) == (s8, true);
    assert RunningCallback(e, s2, s.reconnCb) == (s8, true);
    var s9 := Sending(e, s8.(reconnCb := s.reconnCb, depth := 0), "r");
    assert Calling(e, s, "r") == (s9, Answered);
    assert s9.log[2] in s9.log;
  }

  class RUFSMasterClient {
    const env: Env
    var log: seq<Act>
    var conn: nat
    var reconnCb: Callback
    var depth: nat

    constructor (env: Env)
      ensures this.env == env && Now() == State([], 0, Noop, 0)
    {
      this.env := env;
      log, conn, reconnCb, depth := [], 0, Noop, 0;
    }

    function Now(): State
      reads this
    {
      State(log, conn, reconnCb, depth)
    }

    /** Lines 42-44. */
    method SetReconnectCallback(id: nat)
      modifies this`reconnCb
      ensures Order(reconnCb) == [id]
    {
      reconnCb := Custom(id);
    }

    /** Lines 46-54. */
    method AppendReconnectCallback(id: nat)
      modifies this`reconnCb
      ensures Order(reconnCb) == old(Order(reconnCb)) + [id]
    {
      reconnCb := Then(reconnCb, Custom(id));
    }

    method Send(request: string) returns (a: Answer)
      modifies this`log
      ensures Now() == Sending(env, old(Now()), request) && a == env.answer(old(|log|))
      ensures old(AsTheNetworkSaid(env, log)) ==> AsTheNetworkSaid(env, log)
    {
      a := env.answer(|log|);
      log := log + [Sent(request, conn, depth, a)];
    }

    /** Lines 59-64. */
    method Dial() returns (ok: bool)
      modifies this`log, this`conn
      ensures ok == env.dial(old(|log|)) && log == old(log) + [Dialled(ok, depth)]
      ensures conn == if ok then old(conn) + 1 else old(conn)
      ensures old(AsTheNetworkSaid(env, log)) ==> AsTheNetworkSaid(env, log)
    {
      ok := env.dial(|log|);
      log := log + [Dialled(ok, depth)];
      conn := if ok then conn + 1 else conn;
    }

    /** Lines 56-76. */
    method Call(request: string) returns (a: Answer)
      modifies this
      ensures (Now(), a) == Calling(env, old(Now()), request)
      ensures old(AsTheNetworkSaid(env, log)) ==> AsTheNetworkSaid(env, log)
      ensures a != ReconnectFailed ==> log != [] && log[|log| - 1] == Sent(request, conn, depth, a)
      decreases if reconnCb.Noop? then 1 else 3, 0, Noop, Return(true)
    {
      a := Send(request);
      if a == Shutdown {
        var dialled := Dial();
        if !dialled {
          return ReconnectFailed;
        }
        var cb := reconnCb;
        reconnCb := Noop;
        depth := depth + 1;
        var ok := Run(cb);
        depth := depth - 1;
        reconnCb := cb;
        if !ok {
          return ReconnectFailed;
        }
        a := Send(request);
      }
    }

    method Run(cb: Callback) returns (ok: bool)
      requires reconnCb.Noop?
      modifies this
      ensures (Now(), ok) == RunningCallback(env, old(Now()), cb)
      ensures old(AsTheNetworkSaid(env, log)) ==> AsTheNetworkSaid(env, log)
      decreases if cb.Noop? then 0 else 2, 1, cb, Return(true)
    {
      match cb
      case Noop => ok := true;
      case Custom(id) =>
        ok := Perform(env.program(id));
        log := log + [Ended(id, ok, depth)];
      case Then(first, next) =>
        ok := Run(first);
        if ok {
          ok := Run(next);
        }
    }

    method Perform(p: Program) returns (ok: bool)
      requires reconnCb.Noop?
      modifies this
      ensures (Now(), ok) == RunningProgram(env, old(Now()), p)
      ensures old(AsTheNetworkSaid(env, log)) ==> AsTheNetworkSaid(env, log)
      decreases 2, 0, Noop, p
    {
      match p
      case Return(r) => ok := r;
      case Do(request, onSuccess, onError) =>
        var a := Call(request);
        ok := Perform(if a == Answered then onSuccess else onError);
    }
  }

  // Several goroutines calling on one client (server.go lines 170-182): each saves the callback when it
  // begins to reconnect and puts back what it saved when it finishes (types.go lines 65-69).

  datatype Shared = Shared(cb: Callback, saved: map<nat, Callback>)
  datatype Move = Begin(who: nat) | Finish(who: nat)

  ghost predicate Allowed(s: Shared, m: Move) {
    if m.Begin? then m.who !in s.saved else m.who in s.saved
  }

  function Moved(s: Shared, m: Move): Shared
    requires Allowed(s, m)
  {
    if m.Begin? then Shared(Noop, s.saved[m.who := s.cb]) else Shared(s.saved[m.who], s.saved - {m.who})
  }

  ghost predicate AllowedRun(s: Shared, run: seq<Move>)
    decreases |run|
  {
    run == [] || (Allowed(s, run[0]) && AllowedRun(Moved(s, run[0]), run[1..]))
  }

  ghost function MovedAll(s: Shared, run: seq<Move>): Shared
    requires AllowedRun(s, run)
    decreases |run|
  {
    if run == [] then s else MovedAll(Moved(s, run[0]), run[1..])
  }

  /** Somebody finishes while the callback is back in place. */
  ghost predicate Overwritten(s: Shared, run: seq<Move>, cb: Callback)
    requires AllowedRun(s, run)
    decreases |run|
  {
    run != [] && ((run[0].Finish? && s.cb == cb) || Overwritten(Moved(s, run[0]), run[1..], cb))
  }

  ghost predicate Held(s: Shared, cb: Callback) {
    s.cb == cb || cb in s.saved.Values
  }

  ghost predicate HeldOnce(s: Shared, cb: Callback) {
    && (s.cb == cb ==> cb !in s.saved.Values)
    && (forall i, j :: i in s.saved && j in s.saved && s.saved[i] == cb && s.saved[j] == cb ==> i == j)
  }

  lemma MoveKeepsIff(s: Shared, m: Move, cb: Callback)
    requires Allowed(s, m) && cb != Noop && HeldOnce(s, cb)
    ensures HeldOnce(Moved(s, m), cb)
    ensures Held(Moved(s, m), cb) <==> Held(s, cb) && !(m.Finish? && s.cb == cb)
  {
    var s' := Moved(s, m);
    if m.Begin? {
      assert s'.saved[m.who] == s.cb;
    }
    forall i | i in s.saved && s.saved[i] == cb && i != m.who ensures cb in s'.saved.Values {
      assert s'.saved[i] == cb;
    }
  }

  lemma {:induction false} RunKeepsIff(s: Shared, run: seq<Move>, cb: Callback)
    requires AllowedRun(s, run) && cb != Noop && HeldOnce(s, cb)
    ensures HeldOnce(MovedAll(s, run), cb)
    ensures Held(MovedAll(s, run), cb) <==> Held(s, cb) && !Overwritten(s, run, cb)
    decreases |run|
  {
    if run != [] {
      MoveKeepsIff(s, run[0], cb);
      RunKeepsIff(Moved(s, run[0]), run[1..], cb);
    }
  }

  /** When all the reconnects are over the callback is there exactly when nobody finished while it was
      in place; once lost it is lost for good. */
  lemma CallbackSurvivesIff(cb: Callback, run: seq<Move>)
    requires cb != Noop && AllowedRun(Shared(cb, map[]), run) && MovedAll(Shared(cb, map[]), run).saved == map[]
    ensures MovedAll(Shared(cb, map[]), run).cb == cb <==> !Overwritten(Shared(cb, map[]), run, cb)
  {
    RunKeepsIff(Shared(cb, map[]), run, cb);
  }

  /** Two reconnects that overlap without nesting lose it. */
  lemma OverlapLoses(cb: Callback)
    requires cb != Noop
    ensures var run := [Begin(0), Begin(1), Finish(0), Finish(1)];
      AllowedRun(Shared(cb, map[]), run) && MovedAll(Shared(cb, map[]), run) == Shared(Noop, map[])
  {
  }
}
