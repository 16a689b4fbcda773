/** What both entities' `validate_all` do with their validators' results:
    collect the failures and, when there are any, raise one message made of
    a header and the failures joined by a separator. */
module Validation {
  import opened Outcomes
  import Text

  /** The verdict of a validator run whose results are `results`. */
  function Report(header: string, sep: string, results: seq<Option<string>>): (r: Verdict)
    ensures r.Valid? <==> forall i :: 0 <= i < |results| ==> results[i].None?
  {
    var errors := Collect(results);
    if errors == [] then Valid else Invalid(header + Text.Join(errors, sep))
  }

  /** A three-validator run is valid exactly when no validator failed. */
  lemma ReportThreeValid(header: string, sep: string, x: Option<string>, y: Option<string>, z: Option<string>)
    ensures Report(header, sep, [x, y, z]).Valid? <==> x.None? && y.None? && z.None?
  {
    var results := [x, y, z];
    assert results[0] == x && results[1] == y && results[2] == z;
  }

  /** The verdict of a run of three validators, spelled out case by case:
      each failure appears once, in run order. */
  function Expected(header: string, sep: string, x: Option<string>, y: Option<string>, z: Option<string>): (v: Verdict) {
    match (x, y, z)
    case (None, None, None) => Valid
    case (Some(a), None, None) => Invalid(header + a)
    case (None, Some(b), None) => Invalid(header + b)
    case (None, None, Some(c)) => Invalid(header + c)
    case (Some(a), Some(b), None) => Invalid(header + a + sep + b)
    case (Some(a), None, Some(c)) => Invalid(header + a + sep + c)
    case (None, Some(b), Some(c)) => Invalid(header + b + sep + c)
    case (Some(a), Some(b), Some(c)) => Invalid(header + a + sep + b + sep + c)
  }

  /** A three-validator run reports exactly the expected verdict. */
  lemma ReportThree(header: string, sep: string, x: Option<string>, y: Option<string>, z: Option<string>)
    ensures Report(header, sep, [x, y, z]) == Expected(header, sep, x, y, z)
  {
    match (x, y, z)
    case (None, None, None) => CollectThree(x, y, z);
    case (Some(a), None, None) => ReportOneFailure(header, sep, x, y, z, a);
    case (None, Some(b), None) => ReportOneFailure(header, sep, x, y, z, b);
    case (None, None, Some(c)) => ReportOneFailure(header, sep, x, y, z, c);
    case (Some(a), Some(b), None) => ReportTwoFailures(header, sep, x, y, z, a, b);
    case (Some(a), None, Some(c)) => ReportTwoFailures(header, sep, x, y, z, a, c);
    case (None, Some(b), Some(c)) => ReportTwoFailures(header, sep, x, y, z, b, c);
    case (Some(_), Some(_), Some(_)) => ReportThreeFailures(header, sep, x, y, z);
  }

  /** The failure one validator contributes to `errors`. */
  function FailureOf(o: Option<string>): (failures: seq<string>) {
    if o.Some? then [o.value] else []
  }

  lemma CollectCons(o: Option<string>, rest: seq<Option<string>>)
    ensures Collect([o] + rest) == FailureOf(o) + Collect(rest)
  {
    assert ([o] + rest)[1..] == rest;
  }

  lemma CollectThree(x: Option<string>, y: Option<string>, z: Option<string>)
    ensures Collect([x, y, z]) == FailureOf(x) + FailureOf(y) + FailureOf(z)
  {
    var fx, fy, fz := FailureOf(x), FailureOf(y), FailureOf(z);
    CollectCons(z, []);
    assert [z] + [] == [z];
    assert Collect([z]) == fz + [] == fz;
    CollectCons(y, [z]);
    assert [y] + [z] == [y, z];
    assert Collect([y, z]) == fy + fz;
    CollectCons(x, [y, z]);
    assert [x] + [y, z] == [x, y, z];
    assert Collect([x, y, z]) == fx + (fy + fz) == fx + fy + fz;
  }

  lemma ReportFailed(header: string, sep: string, x: Option<string>, y: Option<string>, z: Option<string>)
    requires x.Some? || y.Some? || z.Some?
    ensures Report(header, sep, [x, y, z]) == Invalid(header + Text.Join(FailureOf(x) + FailureOf(y) + FailureOf(z), sep))
  {
    CollectThree(x, y, z);
  }

  lemma ReportOneFailure(header: string, sep: string, x: Option<string>, y: Option<string>, z: Option<string>, m: string)
    requires FailureOf(x) + FailureOf(y) + FailureOf(z) == [m]
    ensures Report(header, sep, [x, y, z]) == Invalid(header + m)
  {
    ReportFailed(header, sep, x, y, z);
  }

  lemma ReportTwoFailures(header: string, sep: string, x: Option<string>, y: Option<string>, z: Option<string>,
                          m1: string, m2: string)
    requires FailureOf(x) + FailureOf(y) + FailureOf(z) == [m1, m2]
    ensures Report(header, sep, [x, y, z]) == Invalid(header + m1 + sep + m2)
  {
    ReportFailed(header, sep, x, y, z);
    Text.JoinShort([m1, m2], sep);
  }

  lemma ReportThreeFailures(header: string, sep: string, x: Option<string>, y: Option<string>, z: Option<string>)
    requires x.Some? && y.Some? && z.Some?
    ensures Report(header, sep, [x, y, z]) == Invalid(header + x.value + sep + y.value + sep + z.value)
  {
    var errors := [x.value, y.value, z.value];
    ReportFailed(header, sep, x, y, z);
    assert FailureOf(x) + FailureOf(y) + FailureOf(z) == errors;
    HeaderJoinThree(header, sep, errors);
  }

  lemma HeaderJoinThree(header: string, sep: string, errors: seq<string>)
    requires |errors| == 3
    ensures header + Text.Join(errors, sep) == header + errors[0] + sep + errors[1] + sep + errors[2]
  {
    Text.JoinShort(errors, sep);
  }
}
