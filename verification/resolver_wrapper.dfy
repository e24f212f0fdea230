/**
  The resolver wrapper installed on every root-mutation resolver. Each call
  runs the inner resolver, appends one `{ hasErrors }` entry to the request's
  context when there is one, hands the result or the thrown error back
  unchanged, and, in its `finally` block, sends `rollback` on the request's
  database client once the number of recorded entries equals
  `totalMutations` and some entry failed.

  The inner resolver's outcome is an input; the database client is a log of
  the commands sent to it.
 */
module ResolverWrapper {
  import opened Wrappers
  import opened Atomicity

  const RollbackSql := "rollback"

  /** How the inner resolver finished: it returned a value or threw an error. */
  datatype Outcome<+V, +E> = Returned(value: V) | Threw(error: E)

  /** A command sent through `pgClient.query`. */
  datatype Command = Sql(text: string)

  /** One wrapped call: the context afterwards, the commands it sent, and what
      the caller sees. */
  datatype Step<+V, +E> = Step(context: Option<Context>, sent: seq<Command>, reply: Outcome<V, E>)

  /** The entry a call appends for its outcome. */
  function Record<V, E>(outcome: Outcome<V, E>): Execution {
    Execution(hasErrors := outcome.Threw?)
  }

  /** The `finally` test: `executedMutations.length === totalMutations` and the
      count of failed entries is truthy. */
  function ClosingCommands(c: Context): (cmds: seq<Command>)
    ensures cmds == [] || cmds == [Sql(RollbackSql)]
    ensures cmds != [] <==> |c.executedMutations| == c.totalMutations && AnyFailed(c.executedMutations)
  {
    if |c.executedMutations| == c.totalMutations && FailedCount(c.executedMutations) > 0 then [Sql(RollbackSql)] else []
  }

  /** One call of the wrapped resolver. */
  function Wrap<V, E>(context: Option<Context>, outcome: Outcome<V, E>): (r: Step<V, E>)
    ensures r.reply == outcome
    ensures context.None? ==> r.context.None? && r.sent == []
    ensures context.Some? ==>
              && r.context.Some?
              && r.context.value.totalMutations == context.value.totalMutations
              && r.context.value.executedMutations == context.value.executedMutations + [Execution(outcome.Threw?)]
    ensures r.sent == [] || r.sent == [Sql(RollbackSql)]
    ensures r.sent != [] <==>
              && context.Some?
              && |context.value.executedMutations| + 1 == context.value.totalMutations
              && (AnyFailed(context.value.executedMutations) || outcome.Threw?)
  {
    match context
    case None => Step(None, [], outcome)
    case Some(c) =>
      var c' := c.(executedMutations := c.executedMutations + [Record(outcome)]);
      var after := c'.executedMutations;
      assert AnyFailed(after) <==> AnyFailed(c.executedMutations) || outcome.Threw? by {
        assert after[|after| - 1] == Record(outcome);
        assert forall i :: 0 <= i < |c.executedMutations| ==> after[i] == c.executedMutations[i];
      }
      Step(Some(c'), ClosingCommands(c'), outcome)
  }

  /** A call issues `rollback` only when it completes the count, so the call after
      it, on the context it leaves, never does. */
  lemma NoRollbackAfterRollback<V, E>(context: Option<Context>, first: Outcome<V, E>, second: Outcome<V, E>)
    requires Wrap(context, first).sent != []
    ensures Wrap(Wrap(context, first).context, second).sent == []
  {
  }

  /** The entries recorded for a sequence of outcomes, in order. */
  function RecordAll<V, E>(outcomes: seq<Outcome<V, E>>): (rs: seq<Execution>)
    ensures |rs| == |outcomes|
    ensures forall i :: 0 <= i < |outcomes| ==> rs[i].hasErrors == outcomes[i].Threw?
  {
    if |outcomes| == 0 then [] else [Record(outcomes[0])] + RecordAll(outcomes[1..])
  }

  /** The effect of a sequence of wrapped calls on one request. */
  datatype Trace<+V, +E> = Trace(context: Option<Context>, sent: seq<Command>, replies: seq<Outcome<V, E>>)

  /** The execution engine calling the wrapped root-mutation resolvers one after
      another, each call seeing the context the previous one left. */
  function Run<V, E>(context: Option<Context>, outcomes: seq<Outcome<V, E>>): (t: Trace<V, E>)
    decreases |outcomes|
    ensures t.replies == outcomes
    ensures context.None? ==> t.context.None? && t.sent == []
    ensures context.Some? ==>
              && t.context.Some?
              && t.context.value.totalMutations == context.value.totalMutations
              && t.context.value.executedMutations == context.value.executedMutations + RecordAll(outcomes)
  {
    if |outcomes| == 0 then Trace(context, [], [])
    else
      var s := Wrap(context, outcomes[0]);
      var rest := Run(s.context, outcomes[1..]);
      Trace(rest.context, s.sent + rest.sent, [s.reply] + rest.replies)
  }

  /** A rollback is due in a run starting from `c` when the call that brings the
      number of entries to `totalMutations` is among the calls, and some entry up
      to and including that call failed. */
  ghost predicate RollbackDue<V, E>(c: Context, outcomes: seq<Outcome<V, E>>) {
    var k := c.totalMutations - |c.executedMutations|;
    && 1 <= k <= |outcomes|
    && AnyFailed(c.executedMutations + RecordAll(outcomes[..k]))
  }

  /** What a run sends, in closed form: `rollback` once if it is due, otherwise nothing. */
  lemma {:induction false} RunSendsClosedForm<V, E>(c: Context, outcomes: seq<Outcome<V, E>>)
    ensures Run(Some(c), outcomes).sent == (if RollbackDue(c, outcomes) then [Sql(RollbackSql)] else [])
    decreases |outcomes|
  {
    if |outcomes| > 0 {
      var s := Wrap(Some(c), outcomes[0]);
      var c' := s.context.value;
      var tail := outcomes[1..];
      assert Run(Some(c), outcomes).sent == s.sent + Run(Some(c'), tail).sent;
      RunSendsClosedForm(c', tail);
      ClosedFormStep(c, outcomes);
    }
  }

  /** One call of the run: either it completes the count and decides, or the
      decision is left to the remaining calls. */
  lemma ClosedFormStep<V, E>(c: Context, outcomes: seq<Outcome<V, E>>)
    requires |outcomes| > 0
    ensures var s := Wrap(Some(c), outcomes[0]);
            (if RollbackDue(c, outcomes) then [Sql(RollbackSql)] else [])
            == s.sent + (if RollbackDue(s.context.value, outcomes[1..]) then [Sql(RollbackSql)] else [])
  {
    var k := c.totalMutations - |c.executedMutations|;
    if k == 1 {
      ClosingCall(c, outcomes);
    } else if 2 <= k <= |outcomes| {
      EarlyCall(c, outcomes);
    }
  }

  /** The call that completes the count decides alone. */
  lemma ClosingCall<V, E>(c: Context, outcomes: seq<Outcome<V, E>>)
    requires |outcomes| > 0 && c.totalMutations - |c.executedMutations| == 1
    ensures var s := Wrap(Some(c), outcomes[0]);
            && (s.sent != [] <==> RollbackDue(c, outcomes))
            && !RollbackDue(s.context.value, outcomes[1..])
  {
    var c' := Wrap(Some(c), outcomes[0]).context.value;
    FirstRecord(outcomes);
    assert c.executedMutations + RecordAll(outcomes[..1]) == c'.executedMutations;
  }

  /** A call before the one that completes the count sends nothing and leaves the
      same decision to the remaining calls. */
  lemma EarlyCall<V, E>(c: Context, outcomes: seq<Outcome<V, E>>)
    requires 2 <= c.totalMutations - |c.executedMutations| <= |outcomes|
    ensures var s := Wrap(Some(c), outcomes[0]);
            && s.sent == []
            && (RollbackDue(s.context.value, outcomes[1..]) <==> RollbackDue(c, outcomes))
  {
    var k := c.totalMutations - |c.executedMutations|;
    var c' := Context(c.totalMutations, c.executedMutations + [Record(outcomes[0])]);
    assert Wrap(Some(c), outcomes[0]).context == Some(c');
    SameEntriesAhead(c, outcomes, k);
  }

  lemma SameEntriesAhead<V, E>(c: Context, outcomes: seq<Outcome<V, E>>, k: int)
    requires 2 <= k <= |outcomes|
    ensures (c.executedMutations + [Record(outcomes[0])]) + RecordAll(outcomes[1..][..k - 1])
         == c.executedMutations + RecordAll(outcomes[..k])
  {
  }

  lemma FirstRecord<V, E>(outcomes: seq<Outcome<V, E>>)
    requires |outcomes| > 0
    ensures RecordAll(outcomes[..1]) == [Record(outcomes[0])]
  {
  }

  /** Whatever state a context is in, a run of calls on it sends `rollback` at most once. */
  lemma {:induction false} RollbackAtMostOnce<V, E>(context: Option<Context>, outcomes: seq<Outcome<V, E>>)
    ensures |Run(context, outcomes).sent| <= 1
    ensures forall i :: 0 <= i < |Run(context, outcomes).sent| ==> Run(context, outcomes).sent[i] == Sql(RollbackSql)
  {
    if context.Some? {
      RunSendsClosedForm(context.value, outcomes);
    }
  }

  /** From a freshly attached context expecting `total` mutations, a run sends
      `rollback` exactly when at least `total` calls happen, `total` is not zero,
      and one of the first `total` calls threw; otherwise it sends nothing. */
  lemma {:induction false} FreshContextRollbackIff<V, E>(total: nat, outcomes: seq<Outcome<V, E>>)
    ensures Run(Some(Context(total, [])), outcomes).sent == [Sql(RollbackSql)] <==>
              && 1 <= total <= |outcomes|
              && exists i :: 0 <= i < total && outcomes[i].Threw?
    ensures Run(Some(Context(total, [])), outcomes).sent != [Sql(RollbackSql)] ==>
              Run(Some(Context(total, [])), outcomes).sent == []
  {
    var c := Context(total, []);
    RunSendsClosedForm(c, outcomes);
    if 1 <= total <= |outcomes| {
      FreshDue(total, outcomes);
    }
  }

  lemma FreshDue<V, E>(total: nat, outcomes: seq<Outcome<V, E>>)
    requires 1 <= total <= |outcomes|
    ensures RollbackDue(Context(total, []), outcomes) <==> exists i :: 0 <= i < total && outcomes[i].Threw?
  {
    var prefix := outcomes[..total];
    assert [] + RecordAll(prefix) == RecordAll(prefix);
    AnyFailedRecordAll(prefix);
    assert forall i :: 0 <= i < total ==> prefix[i] == outcomes[i];
  }

  lemma AnyFailedRecordAll<V, E>(outcomes: seq<Outcome<V, E>>)
    ensures AnyFailed(RecordAll(outcomes)) <==> exists i :: 0 <= i < |outcomes| && outcomes[i].Threw?
  {
  }

  /** When nothing recorded so far failed and every call returns, no rollback is sent. */
  lemma {:induction false} AllReturnedNoRollback<V, E>(c: Context, outcomes: seq<Outcome<V, E>>)
    requires !AnyFailed(c.executedMutations)
    requires forall i :: 0 <= i < |outcomes| ==> outcomes[i].Returned?
    ensures Run(Some(c), outcomes).sent == []
  {
    RunSendsClosedForm(c, outcomes);
    var k := c.totalMutations - |c.executedMutations|;
    if 1 <= k <= |outcomes| {
      var all := c.executedMutations + RecordAll(outcomes[..k]);
      forall i | 0 <= i < |all| ensures !all[i].hasErrors {
        if i >= |c.executedMutations| {
          assert all[i] == RecordAll(outcomes[..k])[i - |c.executedMutations|];
        }
      }
    }
  }
}
