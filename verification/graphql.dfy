/**
  The parsed GraphQL document, as far as the atomicity hook looks at it.

  The parser itself is external; a request's operation text arrives here
  already parsed. Only the parts of the abstract syntax tree that the hook
  reads are kept: each definition's optional `name` node, an operation's
  `operation` kind and the root selections of its selection set, each with
  its optional `name` node.
 */
module GraphQL {
  import opened Wrappers

  datatype OperationType = Query | Mutation | Subscription

  /** A root selection. A field's `name` node is the field name, never its alias;
      a fragment spread's `name` node is the fragment's name; an inline fragment
      has no `name` node at all. */
  datatype Selection =
    | Field(alias: Option<string>, name: string)
    | FragmentSpread(name: string)
    | InlineFragment(typeCondition: Option<string>)

  /** An executable definition. Operations may be anonymous; fragments are always named. */
  datatype Definition =
    | OperationDefinition(operation: OperationType, operationName: Option<string>, selections: seq<Selection>)
    | FragmentDefinition(fragmentName: string, typeCondition: string, selections: seq<Selection>)

  datatype Document = Document(definitions: seq<Definition>)

  /** The value of a definition's `name` node; None when the node is missing. */
  function DefinitionName(d: Definition): Option<string> {
    match d
    case OperationDefinition(_, n, _) => n
    case FragmentDefinition(n, _, _) => Some(n)
  }

  /** The value of a selection's `name` node; None when the node is missing. */
  function SelectionName(s: Selection): Option<string> {
    match s
    case Field(_, n) => Some(n)
    case FragmentSpread(n) => Some(n)
    case InlineFragment(_) => None
  }

  /** True when `operation === 'mutation'`; a fragment has no `operation` property. */
  predicate IsMutation(d: Definition) {
    d.OperationDefinition? && d.operation == Mutation
  }
}
