/**
  One request from end to end: the hook classifies it, the getter hands the
  context to the resolver wrapper, and the execution engine calls the wrapped
  root-mutation resolvers one after another. The hand-over is the
  application's: it is assumed to pass the getter's result as the GraphQL
  context's `mutationAtomicityContext`. Also the request fixtures of the
  repository's test file, run through the hook.
 */
module Lifecycle {
  import opened Wrappers
  import opened GraphQL
  import opened Atomicity
  import opened ParamsHook
  import opened ResolverWrapper

  /* ---- the getter after the hook ---- */

  /** After a successful hook run the normalised getter hands out exactly the
      context the hook attached, and the case-sensitive getter does so too when
      the client sent the header exactly as "on". */
  lemma GetterSeesHookDecision(p: Params, req: Request)
    requires req.mutationAtomicityContext.None?
    requires Hook([p], req).Success?
    ensures GetContextNormalized(Hook([p], req).value.req) == Hook([p], req).value.req.mutationAtomicityContext
    ensures req.atomicityHeader == Some(HeaderOn) ==>
              GetMutationAtomicityContext(Hook([p], req).value.req) == Hook([p], req).value.req.mutationAtomicityContext
  {
  }

  /** The case-sensitive getter loses a context the hook attached: with the header
      "ON" the hook turns atomicity on, but the getter returns nothing, so the
      wrapper records nothing and never rolls back. */
  lemma GetterMissesUppercaseOn()
    ensures var p := Params(Document([OperationDefinition(Mutation, Some("M"), [Field(None, "a")])]), Some("M"));
            var req := Request(Some("ON"), None);
            && Hook([p], req) == Success(HookOutput([p], Request(Some("ON"), Some(Context(1, [])))))
            && GetMutationAtomicityContext(Hook([p], req).value.req) == None
            && GetContextNormalized(Hook([p], req).value.req) == Some(Context(1, []))
  {
  }

  /* ---- the whole request ---- */

  /** For a single parameter set on a fresh request that the hook accepts, the
      calls of the root-mutation resolvers return what the inner resolvers
      returned or threw, at most one `rollback` is sent, and it is sent exactly
      when the hook attached a context expecting `total` mutations, at least
      `total` calls happen, `total` is not zero and one of the first `total`
      calls threw. */
  lemma {:induction false} RequestLifecycle<V, E>(p: Params, req: Request, outcomes: seq<Outcome<V, E>>)
    requires req.mutationAtomicityContext.None?
    requires Hook([p], req).Success?
    ensures var t := Run(GetContextNormalized(Hook([p], req).value.req), outcomes);
            && t.replies == outcomes
            && (t.sent == [] || t.sent == [Sql(RollbackSql)])
            && (t.sent == [Sql(RollbackSql)] <==>
                  exists total: nat :: && Attaches(p, req, total)
                                       && 1 <= total <= |outcomes|
                                       && exists j :: 0 <= j < total && outcomes[j].Threw?)
  {
    var out := Hook([p], req).value.req;
    GetterSeesHookDecision(p, req);
    var ctx := GetContextNormalized(out);
    if out == SwitchedOff(req) {
      forall total: nat ensures !Attaches(p, req, total) {
        HookAttachesIff(p, req, total);
        assert SwitchedOff(req) != WithFreshContext(req, total) by {
          if HeaderSaysOn(req) { assert req.atomicityHeader != Some(HeaderOff); }
        }
      }
    } else {
      var total: nat :| out == WithFreshContext(req, total);
      HookAttachesIff(p, req, total);
      FreshContextRollbackIff(total, outcomes);
      forall other: nat | Attaches(p, req, other) ensures other == total {
        HookAttachesIff(p, req, other);
      }
    }
  }

  /** The same request with the getter as written: a `rollback` needs, in
      addition, the header sent exactly as "on"; with any other spelling the
      wrapper sees no context and sends nothing. */
  lemma {:induction false} RequestLifecycleAsWritten<V, E>(p: Params, req: Request, outcomes: seq<Outcome<V, E>>)
    requires req.mutationAtomicityContext.None?
    requires Hook([p], req).Success?
    ensures var t := Run(GetMutationAtomicityContext(Hook([p], req).value.req), outcomes);
            && t.replies == outcomes
            && (t.sent == [] || t.sent == [Sql(RollbackSql)])
            && (t.sent == [Sql(RollbackSql)] <==>
                  && req.atomicityHeader == Some(HeaderOn)
                  && exists total: nat :: && Attaches(p, req, total)
                                         && 1 <= total <= |outcomes|
                                         && exists j :: 0 <= j < total && outcomes[j].Threw?)
  {
    RequestLifecycle(p, req, outcomes);
    GetterSeesHookDecision(p, req);
    var out := Hook([p], req).value.req;
    if req.atomicityHeader != Some(HeaderOn) {
      assert out.atomicityHeader != Some(HeaderOn);
    }
  }

  /* ---- worked examples ---- */

  const OnRequest := Request(Some(HeaderOn), None)
  const OffRequest := Request(Some(HeaderOff), None)

  /** `mutation OperationName { __typename someMutation anotherMutation }`. */
  const SingleMutation := OperationDefinition(Mutation, Some("OperationName"),
    [Field(None, "__typename"), Field(None, "someMutation"), Field(None, "anotherMutation")])

  /** `query QueryName { someQuery }` followed by `mutation MutationName { … }`. */
  const MixedDocument := Document([
    OperationDefinition(Query, Some("QueryName"), [Field(None, "someQuery")]),
    OperationDefinition(Mutation, Some("MutationName"),
      [Field(None, "__typename"), Field(None, "someMutation"), Field(None, "anotherMutation")])])

  /** `__typename someMutation anotherMutation` counts two mutations. */
  lemma ExampleCount()
    ensures CountRootMutations(SingleMutation.selections) == Success(2)
  {
  }

  /** The meta-field is not counted: two mutations are expected. */
  lemma ExampleSingleMutation()
    ensures var p := Params(Document([SingleMutation]), Some("OperationName"));
            Hook([p], OnRequest) == Success(HookOutput([p], Request(Some(HeaderOn), Some(Context(2, [])))))
  {
    SaysOnIff(HeaderOn);
    ExampleCount();
  }

  /** The query next to the mutation changes nothing; with the header "off" no
      context is attached and the header stays "off". */
  lemma ExampleMixedDocument()
    ensures var p := Params(MixedDocument, Some("MutationName"));
            && Hook([p], OnRequest) == Success(HookOutput([p], Request(Some(HeaderOn), Some(Context(2, [])))))
            && Hook([p], OffRequest) == Success(HookOutput([p], OffRequest))
  {
    SaysOnIff(HeaderOn);
    SaysOnIff(HeaderOff);
    ExampleCount();
    assert MixedDocument.definitions[1].selections == SingleMutation.selections;
  }

  /** A named query is not tracked: the header is rewritten to "off". */
  lemma ExampleNamedQuery()
    ensures var p := Params(Document([OperationDefinition(Query, Some("QueryName"),
                                        [Field(None, "someQuery"), Field(None, "anotherQuery")])]), Some("QueryName"));
            Hook([p], OnRequest) == Success(HookOutput([p], OffRequest))
  {
  }

  /** Anonymous operations (`{ someQuery }`, `mutation { someMutation }`) make the
      hook throw, whatever the header says or whether it is sent. */
  lemma ExampleAnonymousOperations()
    ensures var q := Params(Document([OperationDefinition(Query, None, [Field(None, "someQuery")])]), None);
            var m := Params(Document([OperationDefinition(Mutation, None, [Field(None, "someMutation")])]), None);
            && Hook([q], OnRequest) == Failure(AnonymousDefinition)
            && Hook([m], OnRequest) == Failure(AnonymousDefinition)
            && Hook([m], Request(None, None)) == Failure(AnonymousDefinition)
  {
  }

  /** Two parameter sets are refused with the fixed message. */
  lemma ExampleBatching()
    ensures var q := Params(Document([OperationDefinition(Query, Some("QueryName"), [Field(None, "someQuery")])]), None);
            Hook([q, q], OnRequest).Failure?
            && Hook([q, q], OnRequest).error.message == "AtomicMutationsPlugin does not support GraphQL query batching"
  {
  }

  /** `mutation M { a b }` with the header "on": the first call returns, the
      second throws; both reach the caller unchanged and one `rollback` is sent. */
  lemma ExampleSecondCallThrows()
    ensures var p := Params(Document([OperationDefinition(Mutation, Some("M"), [Field(None, "a"), Field(None, "b")])]), Some("M"));
            var out := Hook([p], OnRequest).value.req;
            var calls: seq<Outcome<int, string>> := [Returned(1), Threw("boom")];
            && Hook([p], OnRequest).Success?
            && Run(GetMutationAtomicityContext(out), calls).sent == [Sql(RollbackSql)]
            && Run(GetMutationAtomicityContext(out), calls).replies == calls
            && Run(GetMutationAtomicityContext(out), calls).context == Some(Context(2, [Execution(false), Execution(true)]))
  {
    SaysOnIff(HeaderOn);
    var calls: seq<Outcome<int, string>> := [Returned(1), Threw("boom")];
    assert calls[1..] == [Threw("boom")] && calls[1..][1..] == [];
    assert RecordAll(calls) == [Execution(false), Execution(true)];
    var p := Params(Document([OperationDefinition(Mutation, Some("M"), [Field(None, "a"), Field(None, "b")])]), Some("M"));
    var ctx := GetMutationAtomicityContext(Hook([p], OnRequest).value.req);
    assert ctx.Some? && ctx.value.executedMutations == [] && ctx.value.totalMutations == 2;
    assert Run(ctx, calls).context.value.executedMutations == [] + RecordAll(calls);
    assert Run(ctx, calls).context.value.totalMutations == 2;
    assert [] + RecordAll(calls) == [Execution(false), Execution(true)];
    assert Run(ctx, calls).context == Some(Context(2, [Execution(false), Execution(true)]));
  }

  /** The same operation with both calls returning sends no command at all. */
  lemma ExampleBothCallsReturn()
    ensures var p := Params(Document([OperationDefinition(Mutation, Some("M"), [Field(None, "a"), Field(None, "b")])]), Some("M"));
            var out := Hook([p], OnRequest).value.req;
            var calls: seq<Outcome<int, string>> := [Returned(1), Returned(2)];
            && Hook([p], OnRequest).Success?
            && Run(GetMutationAtomicityContext(out), calls).sent == []
            && Run(GetMutationAtomicityContext(out), calls).replies == calls
  {
    SaysOnIff(HeaderOn);
  }
}
