/** Result shapes shared by both stores.

    The task store prints its failures and the note store raises them; the
    model reports both the same way, as values the caller inspects. */
module Outcomes {

  datatype Option<+T> = None | Some(value: T)

  /** The answer of a query (a search, a listing): the matching entries or
      the message the store prints or raises when there are none. */
  datatype Result<+T> = Ok(value: T) | Err(msg: string)

  /** What a mutating call reported. `saved` tells whether the call went on
      to rewrite the store's file. */
  datatype Outcome = Applied(saved: bool) | Refused(msg: string)

  /** The store's list after a mutating call, together with what it reported.
      On `Refused` the list is always the one the call started from. */
  datatype Step<T> = Step(items: seq<T>, outcome: Outcome)

  /** The verdict of an entity's `validate_all`. */
  datatype Verdict = Valid | Invalid(msg: string)

  /** The failure messages among a validator run's results, in run order
      (the `errors` list `validate_all` builds). */
  function Collect(results: seq<Option<string>>): (errors: seq<string>)
    ensures |errors| <= |results|
    ensures errors == [] <==> forall i :: 0 <= i < |results| ==> results[i].None?
  {
    if results == [] then []
    else
      var rest := Collect(results[1..]);
      assert forall i :: 1 <= i < |results| ==> results[i] == results[1..][i - 1];
      match results[0]
      case None => rest
      case Some(m) => [m] + rest
  }

  /** A message is collected exactly when some validator returned it. */
  lemma {:induction false} CollectMembers(results: seq<Option<string>>, m: string)
    ensures m in Collect(results) <==> Some(m) in results
  {
    if results != [] {
      CollectMembers(results[1..], m);
      assert results == [results[0]] + results[1..];
    }
  }
}
