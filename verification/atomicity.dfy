/**
  The per-request atomicity state: the `MutationAtomicityContext` record, the
  request it is attached to, the `x-mutation-atomicity` header and the
  getter that hands the context to the resolver wrapper.
 */
module Atomicity {
  import opened Wrappers

  const HeaderOn := "on"
  const HeaderOff := "off"

  /** One recorded root-mutation invocation. */
  datatype Execution = Execution(hasErrors: bool)

  /** `{ totalMutations, executedMutations }`. */
  datatype Context = Context(totalMutations: nat, executedMutations: seq<Execution>)

  /** The parts of the incoming HTTP request the plugin reads or writes: the
      `x-mutation-atomicity` header (None when the client did not send it) and
      the `mutationAtomicityContext` property (None while unset). */
  datatype Request = Request(atomicityHeader: Option<string>, mutationAtomicityContext: Option<Context>)

  /** True when some recorded invocation failed. */
  ghost predicate AnyFailed(executed: seq<Execution>) {
    exists i :: 0 <= i < |executed| && executed[i].hasErrors
  }

  /** `executedMutations.filter(m => m.hasErrors === true).length`. */
  function FailedCount(executed: seq<Execution>): (n: nat)
    ensures n <= |executed|
    ensures n > 0 <==> AnyFailed(executed)
    ensures n == |executed| <==> forall i :: 0 <= i < |executed| ==> executed[i].hasErrors
  {
    if |executed| == 0 then 0
    else
      var rest := FailedCount(executed[1..]);
      assert forall i :: 1 <= i < |executed| ==> executed[i] == executed[1..][i - 1];
      assert AnyFailed(executed[1..]) ==> AnyFailed(executed) by {
        if AnyFailed(executed[1..]) {
          var j :| 0 <= j < |executed[1..]| && executed[1..][j].hasErrors;
          assert executed[j + 1].hasErrors;
        }
      }
      (if executed[0].hasErrors then 1 else 0) + rest
  }

  /** JavaScript's `toLowerCase` on one character, restricted to ASCII letters. */
  function LowerChar(c: char): char {
    if 'A' <= c <= 'Z' then (c as int - 'A' as int + 'a' as int) as char else c
  }

  /** `String.prototype.toLowerCase`: maps every character independently. */
  function ToLowerCase(s: string): (r: string)
    ensures |r| == |s|
    ensures forall i :: 0 <= i < |s| ==> r[i] == LowerChar(s[i])
  {
    if |s| == 0 then "" else [LowerChar(s[0])] + ToLowerCase(s[1..])
  }

  /** The hook's enablement test on a header that is present. */
  predicate SaysOn(h: string) {
    ToLowerCase(h) == HeaderOn
  }

  /** The hook's test accepts exactly the four spellings of "on" that differ in case. */
  lemma SaysOnIff(h: string)
    ensures SaysOn(h) <==> h == "on" || h == "On" || h == "oN" || h == "ON"
  {
  }

  /** `getMutationAtomicityContext(req)`: the attached context, handed out only
      when the header is exactly "on" (compared case-sensitively). */
  function GetMutationAtomicityContext(req: Request): (r: Option<Context>)
    ensures req.atomicityHeader == Some(HeaderOn) ==> r == req.mutationAtomicityContext
    ensures req.atomicityHeader != Some(HeaderOn) ==> r == None
  {
    if req.atomicityHeader == Some(HeaderOn) then req.mutationAtomicityContext else None
  }

  /** The getter with the header compared the way the hook compares it
      (lower-cased), so that it hands out every context the hook attached. */
  function GetContextNormalized(req: Request): (r: Option<Context>)
    ensures r.Some? ==> r == req.mutationAtomicityContext
    ensures r.Some? <==> req.mutationAtomicityContext.Some? && req.atomicityHeader.Some? && SaysOn(req.atomicityHeader.value)
  {
    match req.atomicityHeader
    case Some(h) => if SaysOn(h) then req.mutationAtomicityContext else None
    case None => None
  }

  /** Where the header is exactly "on" the two getters agree; the normalised one
      additionally accepts "On", "oN" and "ON". */
  lemma GettersAgreeOnExactOn(req: Request)
    ensures req.atomicityHeader == Some(HeaderOn) ==> GetContextNormalized(req) == GetMutationAtomicityContext(req)
    ensures GetMutationAtomicityContext(req).Some? ==> GetContextNormalized(req) == GetMutationAtomicityContext(req)
  {
  }
}
