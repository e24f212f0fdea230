# Atomic mutations plugin — a Dafny model

This project models the per-request atomicity bookkeeping of the PostGraphile
plugin in `src/atomic-mutations-plugin.ts`. The plugin has three parts:

- **The `postgraphile:httpParamsList` hook** (`ParamsHook.Hook`). It refuses a
  batch of more than one parameter set. It then picks the first operation
  definition whose name equals `operationName` and reads the
  `x-mutation-atomicity` header. If the definition is a mutation and the
  lower-cased header is `on`, it attaches a `MutationAtomicityContext`. That
  context holds the number of root selections not named `__typename` and no
  recorded executions. In every other case the hook rewrites the header to
  `off`.
- **The getter `getMutationAtomicityContext`**
  (`Atomicity.GetMutationAtomicityContext`). It hands out the attached context
  only when the header is exactly `on`.
- **The resolver wrapper** (`ResolverWrapper.Wrap`, and `ResolverWrapper.Run`
  for a sequence of calls). Every call of a root-mutation resolver appends one
  `{ hasErrors }` entry to the context. The call returns the result or rethrows
  the error unchanged. Its `finally` block sends `rollback` once the number of
  entries equals `totalMutations` and some entry failed.

Modules follow these parts: `Wrappers` (Option/Result), `GraphQL` (the parsed
document, abstracted to names, operation kinds and root selections),
`Atomicity` (context, request, header comparison, getter), `ParamsHook`,
`ResolverWrapper`, and `Lifecycle`. `Lifecycle` holds the end-to-end statement
and the test file's request fixtures as hook examples.

The model follows the code:

- Only a plain `rollback` is ever sent. There is no `SAVEPOINT`, no
  `RELEASE SAVEPOINT` and no command when every call succeeds.
- Nothing keeps `executedMutations` no longer than `totalMutations`. Calls after
  the count is reached keep appending, but they send nothing
  (`ResolverWrapper.RunSendsClosedForm`).
- There is no default policy for a missing header. A selected mutation with no
  header makes the hook throw a TypeError (`HookError.MissingHeader`).
- Anonymous operations are not selected when `operationName` is absent. Any
  anonymous definition in the document makes the hook throw, because the filter
  reads `definition.name.value` for every definition
  (`HookError.AnonymousDefinition`). This covers the `{ someQuery }` and
  `mutation { someMutation }` fixtures of the test file.
- An inline fragment among the counted root selections also throws
  (`HookError.UnnamedSelection`). A fragment spread is counted under its
  fragment's name.
- The test file calls the getter on raw requests and expects it to classify
  them. The current getter only reads the attached context, so those fixtures
  are used here as inputs to the hook.

The database client is a command log (`seq<Command>`). The inner resolver's
outcome is an input (`Returned(v)` or `Threw(e)`). The parser's output is an
input (`GraphQL.Document`).

## Model

| member | source | states |
|---|---|---|
| `ParamsHook.Hook` | src/atomic-mutations-plugin.ts:36-73 | The hook fails with exactly the batching message if and only if there is more than one parameter set. On success the parameter list comes back unchanged. With no parameter set the request is untouched. With one, the request either gets only its header rewritten to "off" or gets only a fresh context with no executions. |
| `ParamsHook.SelectDefinition` | src/atomic-mutations-plugin.ts:48-50 | Throws if and only if some definition is anonymous, whichever definition matches. Otherwise the result is the first definition whose name equals `operationName`, or none when no definition matches. A missing operation name matches nothing. |
| `ParamsHook.SelectDefinitionTakesFirstMatch` | src/atomic-mutations-plugin.ts:48-50 | On a document with only named definitions, the selection succeeds. It returns the i-th definition whenever that is the first match. |
| `ParamsHook.SelectionDecidesMutation` | src/atomic-mutations-plugin.ts:48-54 | On a fully named document, the selected definition is a mutation if and only if the first match is a mutation, and then it is that definition. |
| `ParamsHook.CountRootMutations` | src/atomic-mutations-plugin.ts:58-60 | The count throws if and only if some root selection has no name. Otherwise it is at most the number of selections. It equals that number exactly when no selection is named `__typename`. |
| `ParamsHook.CountIsCountedPositions` | src/atomic-mutations-plugin.ts:58-60 | The count equals the number of positions whose selection is not named `__typename`. |
| `ParamsHook.HookFailureCases` | src/atomic-mutations-plugin.ts:48-60 | With one parameter set, the hook throws in exactly three cases. It throws on an anonymous definition if and only if one exists. It throws on a missing header if and only if all definitions are named, a mutation is selected and the header is absent. It throws on an unnamed selection if and only if, in addition, the header says on and the mutation has an unnamed root selection. |
| `ParamsHook.HookAttachesIff` | src/atomic-mutations-plugin.ts:52-65 | On a request without a context, the hook attaches `{ totalMutations: total, executedMutations: [] }` and leaves the header alone if and only if three things hold. All definitions are named. The first definition named `operationName` is a mutation whose root selections are all named and number `total` apart from `__typename`. The lower-cased header is "on". |
| `ParamsHook.HookSwitchesOffIff` | src/atomic-mutations-plugin.ts:52-69 | The hook rewrites the header to "off" and attaches nothing if and only if all definitions are named and either no mutation is selected or the header is present and does not lower-case to "on". |
| `ParamsHook.HookIgnoresUnrelatedDefinitions` | src/atomic-mutations-plugin.ts:48-65 | Adding named definitions that do not carry `operationName`, before or after the others, changes neither the hook's error nor the request it produces. In particular the count is unchanged. |
| `ParamsHook.SelectionIgnoresUnrelated` | src/atomic-mutations-plugin.ts:48-50 | The selected definition is unchanged by surrounding named, non-matching definitions. |
| `Atomicity.SaysOnIff` | src/atomic-mutations-plugin.ts:55-56 | The hook's lower-cased comparison accepts exactly "on", "On", "oN" and "ON". |
| `Atomicity.FailedCount` | src/atomic-mutations-plugin.ts:109-111 | The number of failed entries is at most the number of entries. It is non-zero if and only if some entry failed, and it equals the number of entries if and only if every entry failed. |
| `Atomicity.GetMutationAtomicityContext` | src/atomic-mutations-plugin.ts:26-32 | The getter returns the request's context when the header is exactly "on", compared case-sensitively. Otherwise it returns nothing. |
| `Atomicity.GetContextNormalized` | src/atomic-mutations-plugin.ts:26-32 | Corrected getter: it returns a context only if one is attached. It returns the attached context if and only if the header lower-cases to "on". |
| `Atomicity.GettersAgreeOnExactOn` | src/atomic-mutations-plugin.ts:26-32 | The two getters agree whenever the header is exactly "on", and whenever the as-written getter returns something. |
| `ResolverWrapper.ClosingCommands` | src/atomic-mutations-plugin.ts:105-114 | The `finally` block sends nothing or exactly one `rollback`. It sends `rollback` if and only if the number of entries equals `totalMutations` and some entry failed. |
| `ResolverWrapper.Wrap` | src/atomic-mutations-plugin.ts:84-116 | The caller gets exactly the inner resolver's result or error. Without a context nothing is recorded or sent. With a context, the total is kept and exactly one entry is appended: `hasErrors` is true if and only if the call threw, and existing entries stay as they were. `rollback` is sent if and only if this call brings the entries to `totalMutations` and this or an earlier call failed. |
| `ResolverWrapper.NoRollbackAfterRollback` | src/atomic-mutations-plugin.ts:105-114 | The call after one that sent `rollback` sends nothing. |
| `ResolverWrapper.RecordAll` | src/atomic-mutations-plugin.ts:94-100 | There is one entry per call, in call order, and it is failed if and only if that call threw. |
| `ResolverWrapper.Run` | src/atomic-mutations-plugin.ts:84-116 | Sequential calls return exactly the inner outcomes in order. Without a context they record and send nothing. With one, they keep the total and extend the entries by one entry per call, leaving earlier entries untouched. |
| `ResolverWrapper.RunSendsClosedForm` | src/atomic-mutations-plugin.ts:105-114 | From any context, a run sends `rollback` exactly once if the call that brings the entries to `totalMutations` is among its calls and some entry up to that call failed. Otherwise it sends nothing. |
| `ResolverWrapper.RollbackAtMostOnce` | src/atomic-mutations-plugin.ts:105-114 | Whatever the context's state, a run sends at most one command, and that command is `rollback`. |
| `ResolverWrapper.FreshContextRollbackIff` | src/atomic-mutations-plugin.ts:105-114 | From a fresh context expecting `total` mutations, `rollback` is sent if and only if all three hold: `total` is not zero, at least `total` calls happen, and one of the first `total` calls threw. Otherwise nothing is sent. |
| `ResolverWrapper.AllReturnedNoRollback` | src/atomic-mutations-plugin.ts:90-114 | If no recorded entry failed and every call returns, nothing is sent. |
| `Lifecycle.GetterSeesHookDecision` | src/atomic-mutations-plugin.ts:26-32 | After a successful hook run on a fresh request, the corrected getter returns exactly the context the hook attached. The as-written getter does too when the client sent exactly "on". |
| `Lifecycle.GetterMissesUppercaseOn` | src/atomic-mutations-plugin.ts:27 | With the header "ON", the hook attaches a context expecting one mutation, but the as-written getter returns nothing for that request. |
| `Lifecycle.RequestLifecycle` | src/atomic-mutations-plugin.ts:36-116 | With the corrected getter handing the context to the wrapper: for one parameter set on a fresh request the hook accepts, the root-mutation calls return the inner outcomes unchanged. At most one `rollback` is sent. It is sent if and only if all three hold: the hook attached a context expecting a non-zero `total`, at least `total` calls happen, and one of the first `total` calls threw. |
| `Lifecycle.RequestLifecycleAsWritten` | src/atomic-mutations-plugin.ts:26-116 | The same request with the getter as written: the calls return the inner outcomes unchanged and at most one `rollback` is sent. It is sent if and only if the header was sent exactly as "on" and the three conditions above hold. Any other spelling of "on" leaves the wrapper without a context, so nothing is sent. |
| `Lifecycle.ExampleCount` | src/atomic-mutations-plugin.ts:58-60 | `__typename someMutation anotherMutation` counts 2. |
| `Lifecycle.ExampleSingleMutation` | src/atomic-mutations-plugin.spec.ts:72-83 | `mutation OperationName { __typename someMutation anotherMutation }` with header "on" attaches `{ totalMutations: 2, executedMutations: [] }`. |
| `Lifecycle.ExampleMixedDocument` | src/atomic-mutations-plugin.spec.ts:85-119 | A query next to the selected mutation changes nothing: the total is 2 with header "on". With header "off" no context is attached and the header stays "off". |
| `Lifecycle.ExampleNamedQuery` | src/atomic-mutations-plugin.spec.ts:50-59 | A named query with header "on" gets its header rewritten to "off" and no context. |
| `Lifecycle.ExampleAnonymousOperations` | src/atomic-mutations-plugin.spec.ts:7-48 | The anonymous query and mutation fixtures make the hook throw, with or without the header. |
| `Lifecycle.ExampleBatching` | src/atomic-mutations-plugin.spec.ts:157-171 | Two parameter sets are refused with "AtomicMutationsPlugin does not support GraphQL query batching". |
| `Lifecycle.ExampleSecondCallThrows` | src/atomic-mutations-plugin.ts:90-114 | For `mutation M { a b }` where the first call returns and the second throws: the entries are `[false, true]`, both outcomes reach the caller, and one `rollback` is sent. |
| `Lifecycle.ExampleBothCallsReturn` | src/atomic-mutations-plugin.ts:90-114 | For the same operation with both calls returning, no command is sent. |

## Left out

- `graphql.parse` (line 46): an external parser. The parameter set carries an already-parsed `GraphQL.Document`, and parse errors are not modelled. Only executable definitions are represented. A type-system definition in the document is not modelled.
- The HTTP request: only the `x-mutation-atomicity` header and the `mutationAtomicityContext` property are kept. The hook returns the updated request rather than mutating it.
- `makeWrapResolversPlugin` registration and the `isRootMutation` scope filter (lines 76-83). `ResolverWrapper.Run` takes every call to be a root-mutation resolver call.
- `pgClient.query` and async/await (lines 91, 113): the inner resolver's outcome is an input. `rollback` is appended to a command log. The connection, its transaction and the fact that the query is not awaited are not modelled.
- Atomicity.ToLowerCase: maps only ASCII letters, because JavaScript's full Unicode lower-casing never yields "o" or "n" from another character, so the comparison with "on" is unaffected.
- Field arguments, directives such as `@skip`/`@include`, and the execution engine's merging of repeated fields are not modelled. The count is the plain filter on the root selection list, as the code computes it.
- Nothing in the plugin calls `getMutationAtomicityContext`. The wrapper reads `mutationAtomicityContext` from the GraphQL context (lines 85-88), which the application's server configuration fills. The model assumes the application passes the getter's result there. `Lifecycle.RequestLifecycleAsWritten` and the Findings row rely on this assumption.
- The lemmas about the hook's decisions (`ParamsHook.HookAttachesIff` and those in `Lifecycle`) are stated for a request that has no context yet. This is the situation of the hook, which runs first on each request.

## Findings

| source | as written | input that shows it | evidently intended | confidence | as-written member | corrected member |
|---|---|---|---|---|---|---|
| src/atomic-mutations-plugin.ts:27 | The getter compares the header with "on" case-sensitively, while the hook (line 55) lower-cases it first. | Header "ON", document `mutation M { a }`, operationName "M": the hook attaches a context expecting 1 mutation, but the getter returns undefined. If the application passes the getter's result as the GraphQL context's `mutationAtomicityContext`, the wrapper records nothing and never rolls back (`Lifecycle.RequestLifecycleAsWritten`). | The getter hands out every context the hook attached, accepting the header in any case. `Lifecycle.GetterSeesHookDecision` proves this for the corrected getter, and `Lifecycle.RequestLifecycle` uses it. | medium, not executed | `Lifecycle.GetterMissesUppercaseOn` | `Atomicity.GetContextNormalized` |
