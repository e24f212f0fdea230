/**
  The `postgraphile:httpParamsList` hook: it refuses batched requests, picks
  the executed operation definition, decides from the `x-mutation-atomicity`
  header whether atomicity is on, counts the root mutations and either
  attaches a fresh context to the request or rewrites the header to "off".

  Property accesses that throw a TypeError in JavaScript (`.name.value` on a
  node without a name, `.toLowerCase()` on a missing header) are error
  results of their own.
 */
module ParamsHook {
  import opened Wrappers
  import opened GraphQL
  import opened Atomicity

  const BatchingMessage := "AtomicMutationsPlugin does not support GraphQL query batching"

  /** The meta-field that is not a mutation and is left out of the count. */
  const TypenameField := "__typename"

  /** One GraphQL parameter set: the parsed `query` and the optional `operationName`. */
  datatype Params = Params(document: Document, operationName: Option<string>)

  datatype HookError =
    | BatchingUnsupported(message: string)
      /** `definition.name.value` on an anonymous operation */
    | AnonymousDefinition
      /** `.toLowerCase()` on the missing header */
    | MissingHeader
      /** `selection.name.value` on an inline fragment */
    | UnnamedSelection

  /** What the hook returns (the parameter list) and the request as it leaves it. */
  datatype HookOutput = HookOutput(paramsList: seq<Params>, req: Request)

  /* ---- selecting the executed definition ---- */

  /** `definition.name.value === operationName` for a definition that has a name:
      a missing (null or undefined) operation name equals no string. */
  predicate NameMatches(d: Definition, operationName: Option<string>) {
    operationName.Some? && DefinitionName(d) == operationName
  }

  ghost predicate AllDefinitionsNamed(defs: seq<Definition>) {
    forall i :: 0 <= i < |defs| ==> DefinitionName(defs[i]).Some?
  }

  /** `defs[i]` is the first definition whose name matches. */
  ghost predicate FirstMatch(defs: seq<Definition>, operationName: Option<string>, i: int) {
    && 0 <= i < |defs|
    && NameMatches(defs[i], operationName)
    && forall j :: 0 <= j < i ==> !NameMatches(defs[j], operationName)
  }

  lemma FirstMatchUnique(defs: seq<Definition>, operationName: Option<string>, i: int, j: int)
    requires FirstMatch(defs, operationName, i) && FirstMatch(defs, operationName, j)
    ensures i == j
  {
  }

  /** `const [executedDefinition] = definitions.filter(d => d.name.value === operationName)`:
      the filter visits every definition, so any anonymous one throws; otherwise the
      first matching definition, if any, is taken. */
  function SelectDefinition(defs: seq<Definition>, operationName: Option<string>): (r: Result<Option<Definition>, HookError>)
    ensures r.Failure? <==> !AllDefinitionsNamed(defs)
    ensures r.Failure? ==> r.error == AnonymousDefinition
    ensures r.Success? && r.value.Some? ==> exists i :: FirstMatch(defs, operationName, i) && r.value.value == defs[i]
    ensures r.Success? && r.value.None? ==> forall i :: 0 <= i < |defs| ==> !NameMatches(defs[i], operationName)
  {
    if |defs| == 0 then Success(None)
    else if DefinitionName(defs[0]).None? then Failure(AnonymousDefinition)
    else
      var tail := defs[1..];
      assert forall i :: 1 <= i < |defs| ==> defs[i] == tail[i - 1];
      match SelectDefinition(tail, operationName)
      case Failure(e) =>
        assert exists i :: 0 <= i < |tail| && DefinitionName(tail[i]).None?;
        Failure(e)
      case Success(rest) =>
        if NameMatches(defs[0], operationName) then
          assert FirstMatch(defs, operationName, 0);
          Success(Some(defs[0]))
        else
          assert rest.Some? ==> exists i :: FirstMatch(defs, operationName, i) && rest.value == defs[i] by {
            if rest.Some? {
              var i :| FirstMatch(tail, operationName, i) && rest.value == tail[i];
              assert FirstMatch(defs, operationName, i + 1);
            }
          }
          Success(rest)
  }

  /** The selected definition is the unique first match, or no definition matches. */
  lemma SelectDefinitionTakesFirstMatch(defs: seq<Definition>, operationName: Option<string>, i: int)
    requires AllDefinitionsNamed(defs)
    ensures SelectDefinition(defs, operationName) == Success(Some(defs[i])) <== FirstMatch(defs, operationName, i)
    ensures SelectDefinition(defs, operationName).Success?
  {
  }

  /* ---- counting the root mutations ---- */

  ghost predicate AllSelectionsNamed(sels: seq<Selection>) {
    forall i :: 0 <= i < |sels| ==> SelectionName(sels[i]).Some?
  }

  /** Positions of the root selections that are real mutation fields. */
  ghost function CountedPositions(sels: seq<Selection>): set<int> {
    set i | 0 <= i < |sels| && SelectionName(sels[i]) != Some(TypenameField)
  }

  /** `selections.filter(s => s.name.value !== '__typename').length`: the filter
      visits every selection, so any selection without a name throws. */
  function CountRootMutations(sels: seq<Selection>): (r: Result<nat, HookError>)
    ensures r.Failure? <==> !AllSelectionsNamed(sels)
    ensures r.Failure? ==> r.error == UnnamedSelection
    ensures r.Success? ==> r.value <= |sels|
    ensures r.Success? ==> (r.value == |sels| <==> forall i :: 0 <= i < |sels| ==> SelectionName(sels[i]) != Some(TypenameField))
  {
    if |sels| == 0 then Success(0)
    else
      var n := |sels| - 1;
      var init := sels[..n];
      assert forall i :: 0 <= i < n ==> init[i] == sels[i];
      match CountRootMutations(init)
      case Failure(e) =>
        assert exists i :: 0 <= i < n && SelectionName(init[i]).None?;
        Failure(e)
      case Success(c) =>
        match SelectionName(sels[n])
        case None => Failure(UnnamedSelection)
        case Some(name) =>
          if name == TypenameField then Success(c) else Success(c + 1)
  }

  /** The count is the number of root selections whose name is not `__typename`. */
  lemma {:induction false} CountIsCountedPositions(sels: seq<Selection>)
    requires AllSelectionsNamed(sels)
    ensures CountRootMutations(sels) == Success(|CountedPositions(sels)|)
  {
    if |sels| == 0 {
      assert CountedPositions(sels) == {};
    } else {
      var n := |sels| - 1;
      var init := sels[..n];
      assert forall i :: 0 <= i < n ==> init[i] == sels[i];
      CountIsCountedPositions(init);
      if SelectionName(sels[n]) == Some(TypenameField) {
        assert CountedPositions(sels) == CountedPositions(init);
      } else {
        assert CountedPositions(sels) == CountedPositions(init) + {n};
      }
    }
  }

  /* ---- the hook ---- */

  /** The hook's result on the request when atomicity is switched off. */
  function SwitchedOff(req: Request): Request {
    req.(atomicityHeader := Some(HeaderOff))
  }

  /** The hook's result on the request when a fresh context is attached. */
  function WithFreshContext(req: Request, total: nat): Request {
    req.(mutationAtomicityContext := Some(Context(total, [])))
  }

  /** `AtomicMutationsHook['postgraphile:httpParamsList'](paramsList, { req })`. */
  function Hook(paramsList: seq<Params>, req: Request): (r: Result<HookOutput, HookError>)
    ensures |paramsList| > 1 <==> r == Failure(BatchingUnsupported(BatchingMessage))
    ensures r.Success? ==> r.value.paramsList == paramsList
    ensures |paramsList| == 0 ==> r == Success(HookOutput(paramsList, req))
    ensures r.Success? && |paramsList| == 1 ==>
              || r.value.req == SwitchedOff(req)
              || exists total: nat :: r.value.req == WithFreshContext(req, total)
  {
    if |paramsList| > 1 then Failure(BatchingUnsupported(BatchingMessage))
    else if |paramsList| == 0 then Success(HookOutput(paramsList, req))
    else
      var p := paramsList[0];
      var executed :- SelectDefinition(p.document.definitions, p.operationName);
      if executed.Some? && IsMutation(executed.value) then
        match req.atomicityHeader
        case None => Failure(MissingHeader)
        case Some(h) =>
          if SaysOn(h) then
            var total :- CountRootMutations(executed.value.selections);
            Success(HookOutput(paramsList, WithFreshContext(req, total)))
          else
            Success(HookOutput(paramsList, SwitchedOff(req)))
      else
        Success(HookOutput(paramsList, SwitchedOff(req)))
  }

  /* ---- what the hook decides, stated without reference to its body ---- */

  /** The executed definition of `p` is the `i`-th and it is a mutation. */
  ghost predicate ChoosesMutation(p: Params, i: int) {
    FirstMatch(p.document.definitions, p.operationName, i) && IsMutation(p.document.definitions[i])
  }

  ghost predicate MutationChosen(p: Params) {
    exists i :: ChoosesMutation(p, i)
  }

  ghost predicate HeaderSaysOn(req: Request) {
    req.atomicityHeader.Some? && SaysOn(req.atomicityHeader.value)
  }

  /** On a document whose definitions are all named, the selected definition is a
      mutation exactly when some first match is one, and it is that definition. */
  lemma SelectionDecidesMutation(p: Params)
    requires AllDefinitionsNamed(p.document.definitions)
    ensures var s := SelectDefinition(p.document.definitions, p.operationName);
            && s.Success?
            && (s.value.Some? && IsMutation(s.value.value) <==> MutationChosen(p))
            && forall i :: ChoosesMutation(p, i) ==> s.value == Some(p.document.definitions[i])
  {
    var defs := p.document.definitions;
    var s := SelectDefinition(defs, p.operationName);
    if s.value.Some? {
      var i :| FirstMatch(defs, p.operationName, i) && s.value.value == defs[i];
      forall j | ChoosesMutation(p, j) ensures s.value == Some(defs[j]) {
        FirstMatchUnique(defs, p.operationName, i, j);
      }
      if IsMutation(s.value.value) { assert ChoosesMutation(p, i); }
    }
  }

  /** The hook fails on a single parameter set exactly in the three TypeError cases. */
  lemma HookFailureCases(p: Params, req: Request)
    ensures Hook([p], req) == Failure(AnonymousDefinition) <==> !AllDefinitionsNamed(p.document.definitions)
    ensures Hook([p], req) == Failure(MissingHeader) <==>
              AllDefinitionsNamed(p.document.definitions) && MutationChosen(p) && req.atomicityHeader.None?
    ensures Hook([p], req) == Failure(UnnamedSelection) <==>
              && AllDefinitionsNamed(p.document.definitions) && HeaderSaysOn(req)
              && exists i :: ChoosesMutation(p, i) && !AllSelectionsNamed(p.document.definitions[i].selections)
  {
    if AllDefinitionsNamed(p.document.definitions) {
      SelectionDecidesMutation(p);
    }
  }

  /** All definitions are named, the first definition named `operationName` is a
      mutation whose root selections are all named and `total` of which are not
      `__typename`, and the lower-cased header is "on". */
  ghost predicate Attaches(p: Params, req: Request, total: nat) {
    && AllDefinitionsNamed(p.document.definitions) && HeaderSaysOn(req)
    && exists i :: && ChoosesMutation(p, i)
                   && AllSelectionsNamed(p.document.definitions[i].selections)
                   && total == |CountedPositions(p.document.definitions[i].selections)|
  }

  /** On a request without a context, the hook attaches one holding `total`
      expected mutations exactly when `Attaches(p, req, total)`. */
  lemma HookAttachesIff(p: Params, req: Request, total: nat)
    requires req.mutationAtomicityContext.None?
    ensures Hook([p], req) == Success(HookOutput([p], WithFreshContext(req, total))) <==> Attaches(p, req, total)
  {
    var defs := p.document.definitions;
    if AllDefinitionsNamed(defs) {
      SelectionDecidesMutation(p);
      if MutationChosen(p) {
        var i :| ChoosesMutation(p, i);
        if AllSelectionsNamed(defs[i].selections) {
          CountIsCountedPositions(defs[i].selections);
        }
      }
    }
  }

  /** The hook rewrites the header to "off" (and attaches nothing) exactly when all
      definitions are named and either no mutation is selected or the header is
      present but does not lower-case to "on". */
  lemma HookSwitchesOffIff(p: Params, req: Request)
    ensures Hook([p], req) == Success(HookOutput([p], SwitchedOff(req))) <==>
              && AllDefinitionsNamed(p.document.definitions)
              && (!MutationChosen(p) || (req.atomicityHeader.Some? && !HeaderSaysOn(req)))
  {
    if AllDefinitionsNamed(p.document.definitions) {
      SelectionDecidesMutation(p);
      if HeaderSaysOn(req) {
        assert req.atomicityHeader != Some(HeaderOff);
      }
    }
  }

  /** Definitions that are named and do not carry `operationName`, wherever they
      stand in the document, change nothing the hook does to the request. */
  lemma HookIgnoresUnrelatedDefinitions(p: Params, before: seq<Definition>, after: seq<Definition>, req: Request)
    requires forall d :: d in before + after ==> DefinitionName(d).Some? && !NameMatches(d, p.operationName)
    ensures var p' := p.(document := Document(before + p.document.definitions + after));
            && Hook([p'], req).Success? == Hook([p], req).Success?
            && (Hook([p], req).Success? ==> Hook([p'], req).value.req == Hook([p], req).value.req)
            && (Hook([p], req).Failure? ==> Hook([p'], req).error == Hook([p], req).error)
  {
    SelectionIgnoresUnrelated(p.document.definitions, before, after, p.operationName);
  }

  /** The selection step alone: unrelated named definitions neither add an error
      nor change which definition is executed. */
  lemma SelectionIgnoresUnrelated(defs: seq<Definition>, before: seq<Definition>, after: seq<Definition>, n: Option<string>)
    requires forall d :: d in before + after ==> DefinitionName(d).Some? && !NameMatches(d, n)
    ensures SelectDefinition(before + defs + after, n) == SelectDefinition(defs, n)
  {
    var whole := before + defs + after;
    assert forall i :: 0 <= i < |before| ==> whole[i] in before + after;
    assert forall i :: |before| + |defs| <= i < |whole| ==> whole[i] == after[i - |before| - |defs|] && whole[i] in before + after;
    assert forall i :: 0 <= i < |defs| ==> whole[i + |before|] == defs[i];
    assert AllDefinitionsNamed(whole) <==> AllDefinitionsNamed(defs) by {
      if AllDefinitionsNamed(defs) {
        forall i | 0 <= i < |whole| ensures DefinitionName(whole[i]).Some? {
          if |before| <= i < |before| + |defs| { assert whole[i] == defs[i - |before|]; }
        }
      }
    }
    var sd := SelectDefinition(defs, n);
    if AllDefinitionsNamed(defs) && sd.value.Some? {
      var i :| FirstMatch(defs, n, i) && sd.value.value == defs[i];
      assert FirstMatch(whole, n, i + |before|) by {
        forall j | 0 <= j < i + |before| ensures !NameMatches(whole[j], n) {
          if j >= |before| { assert whole[j] == defs[j - |before|]; }
        }
      }
      SelectDefinitionTakesFirstMatch(whole, n, i + |before|);
    }
  }
}
