/** The behaviour of the struct validator the handlers use
    (github.com/go-playground/validator), as an explicit rule table.
    Each field carries its `validate` tags in order; a field's tags are
    tried left to right and the first one that fails is the only error
    reported for that field; fields are visited in declaration order.
    The verdict of each tag on the field's value is computed where the
    table is built, so this module only fixes the reporting discipline. */
module Validator {
  import opened Common
  import opened Text
  import opened ErrorMaps

  /** One tag of a `validate:"..."` struct tag: its name, its parameter
      text (what follows `=`) and whether the field's value satisfies it. */
  datatype Rule = Rule(tag: string, param: string, holds: bool)

  /** A struct field (its Go name) and its tags, in tag order. */
  datatype FieldRules = FieldRules(field: string, rules: seq<Rule>)

  /** What `validator.FieldError` exposes: `Field()`, `Tag()`, `Param()`. */
  datatype FieldError = FieldError(field: string, tag: string, param: string)

  /** The first tag of a field that fails, if any. */
  function FirstFailure(rules: seq<Rule>): (r: Option<Rule>)
    ensures r.None? <==> forall i :: 0 <= i < |rules| ==> rules[i].holds
    ensures r.Some? ==> exists i :: 0 <= i < |rules| && rules[i] == r.value && !rules[i].holds &&
                                    forall j :: 0 <= j < i ==> rules[j].holds
  {
    if |rules| == 0 then None
    else if !rules[0].holds then Some(rules[0])
    else
      var r := FirstFailure(rules[1..]);
      if r.Some? then
        var i :| 0 <= i < |rules[1..]| && rules[1..][i] == r.value && !rules[1..][i].holds &&
                 forall j :: 0 <= j < i ==> rules[1..][j].holds;
        assert rules[i + 1] == r.value && forall j :: 0 <= j < i + 1 ==> rules[j].holds;
        r
      else r
  }

  /** Tags are tried in order: a failing first tag is the one reported,
      otherwise the rest of the list decides. */
  lemma FirstFailureCons(a: Rule, rest: seq<Rule>)
    ensures FirstFailure([a] + rest) == if !a.holds then Some(a) else FirstFailure(rest)
  {
    assert ([a] + rest)[1..] == rest;
  }

  /** The first failure of a two-tag field. */
  lemma FirstFailureOfTwo(a: Rule, b: Rule)
    ensures FirstFailure([a, b]) == if !a.holds then Some(a) else if !b.holds then Some(b) else None
  {
    assert [a, b] == [a] + [b];
    assert [b] == [b] + [];
    FirstFailureCons(a, [b]);
    FirstFailureCons(b, []);
  }

  /** The first failure of a four-tag field. */
  lemma FirstFailureOfFour(rules: seq<Rule>)
    requires |rules| == 4
    ensures FirstFailure(rules) ==
              if !rules[0].holds then Some(rules[0])
              else if !rules[1].holds then Some(rules[1])
              else if !rules[2].holds then Some(rules[2])
              else if !rules[3].holds then Some(rules[3])
              else None
  {
    FirstFailureOfTwo(rules[2], rules[3]);
    assert [rules[1], rules[2], rules[3]] == [rules[1]] + [rules[2], rules[3]];
    FirstFailureCons(rules[1], [rules[2], rules[3]]);
    assert rules == [rules[0]] + [rules[1], rules[2], rules[3]];
    FirstFailureCons(rules[0], [rules[1], rules[2], rules[3]]);
  }

  predicate Passes(fr: FieldRules)
  {
    FirstFailure(fr.rules).None?
  }

  /** The error, if any, one field contributes. */
  function FieldErrorsOf(fr: FieldRules): seq<FieldError>
  {
    match FirstFailure(fr.rules)
    case None => []
    case Some(r) => [FieldError(fr.field, r.tag, r.param)]
  }

  /** The error reported for a failing field: its name with its first
      failing tag. */
  function FirstError(fr: FieldRules): (e: FieldError)
    requires !Passes(fr)
    ensures e.field == fr.field
    ensures exists i :: 0 <= i < |fr.rules| && !fr.rules[i].holds && e.tag == fr.rules[i].tag &&
                        e.param == fr.rules[i].param && forall j :: 0 <= j < i ==> fr.rules[j].holds
  {
    var r := FirstFailure(fr.rules).value;
    FieldError(fr.field, r.tag, r.param)
  }

  /** The positions of the failing fields, in declaration order. */
  function FailingFields(fields: seq<FieldRules>): (idx: seq<nat>)
    ensures forall k :: 0 <= k < |idx| ==> idx[k] < |fields| && !Passes(fields[idx[k]])
    ensures forall k, l :: 0 <= k < l < |idx| ==> idx[k] < idx[l]
  {
    if |fields| == 0 then []
    else
      var n := |fields|;
      var init := fields[..n - 1];
      assert forall i :: 0 <= i < n - 1 ==> init[i] == fields[i];
      FailingFields(init) + if Passes(fields[n - 1]) then [] else [n - 1]
  }

  /** No failing field is missing from `FailingFields`. */
  lemma {:induction false} FailingFieldsComplete(fields: seq<FieldRules>)
    ensures forall i :: 0 <= i < |fields| && !Passes(fields[i]) ==> i in FailingFields(fields)
  {
    if |fields| > 0 {
      var n := |fields|;
      var init := fields[..n - 1];
      FailingFieldsComplete(init);
      var idx := FailingFields(init);
      var all := FailingFields(fields);
      assert all == idx + if Passes(fields[n - 1]) then [] else [n - 1];
      forall i | 0 <= i < n && !Passes(fields[i]) ensures i in all {
        if i < n - 1 {
          assert init[i] == fields[i];
          var k :| 0 <= k < |idx| && idx[k] == i;
          assert all[k] == i;
        } else {
          assert all[|all| - 1] == i;
        }
      }
    }
  }

  /** `validate.Struct`: the errors of all fields in declaration order;
      the list is empty exactly when every tag of every field holds. */
  function StructErrors(fields: seq<FieldRules>): (errs: seq<FieldError>)
    ensures |errs| <= |fields|
    ensures |errs| == 0 <==> forall i :: 0 <= i < |fields| ==> Passes(fields[i])
  {
    if |fields| == 0 then []
    else
      var init := fields[..|fields| - 1];
      var errs := StructErrors(init) + FieldErrorsOf(fields[|fields| - 1]);
      assert forall i :: 0 <= i < |init| ==> init[i] == fields[i];
      errs
  }

  /** One more field adds its own error, if any, after the others. */
  lemma StructErrorsLast(fields: seq<FieldRules>)
    requires |fields| > 0
    ensures var n := |fields|;
            && StructErrors(fields) == StructErrors(fields[..n - 1]) + FieldErrorsOf(fields[n - 1])
            && FailingFields(fields) == FailingFields(fields[..n - 1]) + if Passes(fields[n - 1]) then [] else [n - 1]
  {
  }

  /** `validate.Struct` field by field: exactly one error per failing field
      and none for a passing one, in declaration order, each naming its
      field's first failing tag. */
  lemma {:induction false} StructErrorsByField(fields: seq<FieldRules>)
    ensures |StructErrors(fields)| == |FailingFields(fields)|
    ensures forall k :: 0 <= k < |FailingFields(fields)| ==>
              StructErrors(fields)[k] == FirstError(fields[FailingFields(fields)[k]])
  {
    if |fields| > 0 {
      var n := |fields|;
      var init, last := fields[..n - 1], fields[n - 1];
      StructErrorsByField(init);
      StructErrorsLast(fields);
      var before, idx := StructErrors(init), FailingFields(init);
      var mine := FieldErrorsOf(last);
      var extra: seq<nat> := if Passes(last) then [] else [n - 1];
      var errs, all := StructErrors(fields), FailingFields(fields);
      assert errs == before + mine && all == idx + extra;
      assert |mine| == |extra| && (!Passes(last) ==> mine == [FirstError(last)]);
      forall k | 0 <= k < |all| ensures errs[k] == FirstError(fields[all[k]]) {
        if k < |idx| {
          assert errs[k] == before[k] && all[k] == idx[k];
          assert init[idx[k]] == fields[idx[k]];
        } else {
          assert errs[k] == mine[0] && all[k] == n - 1;
        }
      }
    }
  }

  /** The `oneofci` tag: the value equals one of the space-separated
      parameter words, ignoring case. */
  predicate OneOfCI(value: string, words: seq<string>)
  {
    exists i :: 0 <= i < |words| && EqualFold(value, words[i])
  }

  /** A handler's `switch e.Tag()`: the message for a failing tag and its
      parameter, or None when the switch has no case for the tag. */
  type Messages = (string, string) -> Option<string>

  /** The entry a handler records for one error, keyed by the lower-cased
      field name; empty when the tag has no message. */
  function EntryOf(e: FieldError, message: Messages): seq<(string, string)>
  {
    match message(e.tag, e.param)
    case Some(m) => [(ToLower(e.field), m)]
    case None => []
  }

  /** The `AddError` calls a handler's loop makes, in order. */
  function Reported(errs: seq<FieldError>, message: Messages): seq<(string, string)>
  {
    if |errs| == 0 then []
    else Reported(errs[..|errs| - 1], message) + EntryOf(errs[|errs| - 1], message)
  }

  /** The error map a handler's loop over `errs` produces. */
  function Report(errs: seq<FieldError>, message: Messages): map<string, string>
  {
    Collect(Reported(errs, message))
  }

  /** One more iteration of a handler's loop is one more `AddError`. */
  lemma ReportStep(errs: seq<FieldError>, i: nat, message: Messages)
    requires i < |errs|
    ensures Report(errs[..i + 1], message) ==
            match message(errs[i].tag, errs[i].param)
            case Some(m) => WithFirst(Report(errs[..i], message), ToLower(errs[i].field), m)
            case None => Report(errs[..i], message)
  {
    assert errs[..i + 1][..i] == errs[..i];
    var before := Reported(errs[..i], message);
    match message(errs[i].tag, errs[i].param)
    case Some(m) =>
      assert (before + [(ToLower(errs[i].field), m)])[..|before|] == before;
    case None =>
      assert Reported(errs[..i + 1], message) == before + [];
      assert before + [] == before;
  }

  lemma {:induction false} ReportedAppend(a: seq<FieldError>, b: seq<FieldError>, message: Messages)
    ensures Reported(a + b, message) == Reported(a, message) + Reported(b, message)
  {
    if |b| > 0 {
      var n := |b|;
      assert (a + b)[..|a + b| - 1] == a + b[..n - 1];
      ReportedAppend(a, b[..n - 1], message);
    } else {
      assert a + b == a;
    }
  }

  /** The message a field ends up with: that of its first failing tag. */
  function Outcome(fr: FieldRules, message: Messages): Option<string>
  {
    match FirstFailure(fr.rules)
    case None => None
    case Some(r) => message(r.tag, r.param)
  }

  predicate DistinctFields(fields: seq<FieldRules>)
  {
    forall i, j :: 0 <= i < j < |fields| ==> ToLower(fields[i].field) != ToLower(fields[j].field)
  }

  /** Adding one field to the table adds at most its own entry. */
  lemma ReportLastField(fields: seq<FieldRules>, message: Messages)
    requires |fields| > 0
    ensures var n := |fields|;
            var before := Report(StructErrors(fields[..n - 1]), message);
            Report(StructErrors(fields), message) ==
              match Outcome(fields[n - 1], message)
              case None => before
              case Some(m) => WithFirst(before, ToLower(fields[n - 1].field), m)
  {
    var n := |fields|;
    var init, last := fields[..n - 1], fields[n - 1];
    var before := Reported(StructErrors(init), message);
    ReportedAppend(StructErrors(init), FieldErrorsOf(last), message);
    match FirstFailure(last.rules)
    case None =>
      assert Reported(StructErrors(fields), message) == before + [];
      assert before + [] == before;
    case Some(r) =>
      var e := FieldError(last.field, r.tag, r.param);
      assert [e][..0] == [];
      assert Reported([e], message) == [] + EntryOf(e, message);
      match message(r.tag, r.param)
      case None =>
        assert Reported(StructErrors(fields), message) == before + [];
        assert before + [] == before;
      case Some(m) =>
        var all := before + [(ToLower(last.field), m)];
        assert Reported(StructErrors(fields), message) == all;
        assert all[..|all| - 1] == before;
  }

  /** Adding one field to the table, seen key by key: only that field's
      own name can gain an entry, and only when it had none. */
  lemma LastFieldLookup(fields: seq<FieldRules>, message: Messages, k: string)
    requires |fields| > 0
    ensures var n := |fields|;
            var before := Report(StructErrors(fields[..n - 1]), message);
            Lookup(Report(StructErrors(fields), message), k) ==
              if k == ToLower(fields[n - 1].field) && k !in before then Outcome(fields[n - 1], message)
              else Lookup(before, k)
  {
    ReportLastField(fields, message);
  }

  /** Every key of the recorded map is the lower-cased name of a field. */
  lemma {:induction false} ReportKeys(fields: seq<FieldRules>, message: Messages)
    ensures forall k :: k in Report(StructErrors(fields), message) ==>
              exists i :: 0 <= i < |fields| && ToLower(fields[i].field) == k
  {
    if |fields| > 0 {
      var n := |fields|;
      var init := fields[..n - 1];
      ReportKeys(init, message);
      var before := Report(StructErrors(init), message);
      forall k | k in Report(StructErrors(fields), message)
        ensures exists i :: 0 <= i < n && ToLower(fields[i].field) == k
      {
        LastFieldLookup(fields, message, k);
        if k in before {
          var j :| 0 <= j < n - 1 && ToLower(init[j].field) == k;
          assert fields[j] == init[j];
        } else {
          assert ToLower(fields[n - 1].field) == k;
        }
      }
    }
  }

  /** Validating a struct and recording the errors: when the lower-cased
      field names are distinct, each maps to the message of its field's
      first failing tag, and is absent when all its tags hold (or that tag
      has no message). */
  lemma {:induction false} ReportLookup(fields: seq<FieldRules>, message: Messages)
    requires DistinctFields(fields)
    ensures forall i :: 0 <= i < |fields| ==>
              Lookup(Report(StructErrors(fields), message), ToLower(fields[i].field)) == Outcome(fields[i], message)
  {
    if |fields| > 0 {
      var n := |fields|;
      var init := fields[..n - 1];
      var key := ToLower(fields[n - 1].field);
      assert DistinctFields(init) by {
        forall i, j | 0 <= i < j < n - 1 ensures ToLower(init[i].field) != ToLower(init[j].field) {
          assert init[i] == fields[i] && init[j] == fields[j];
        }
      }
      ReportLookup(init, message);
      ReportKeys(init, message);
      var before := Report(StructErrors(init), message);
      assert key !in before by {
        forall i | 0 <= i < n - 1 ensures ToLower(init[i].field) != key {
          assert init[i] == fields[i];
        }
      }
      forall i | 0 <= i < n
        ensures Lookup(Report(StructErrors(fields), message), ToLower(fields[i].field)) == Outcome(fields[i], message)
      {
        LastFieldLookup(fields, message, ToLower(fields[i].field));
        if i < n - 1 {
          assert init[i] == fields[i];
        }
      }
    }
  }

  /** The recorded map of a three-field struct, field by field. */
  lemma ReportOfThree(fields: seq<FieldRules>, message: Messages)
    requires |fields| == 3
    requires ToLower(fields[0].field) != ToLower(fields[1].field)
    requires ToLower(fields[0].field) != ToLower(fields[2].field)
    requires ToLower(fields[1].field) != ToLower(fields[2].field)
    ensures Lookup(Report(StructErrors(fields), message), ToLower(fields[0].field)) == Outcome(fields[0], message)
    ensures Lookup(Report(StructErrors(fields), message), ToLower(fields[1].field)) == Outcome(fields[1], message)
    ensures Lookup(Report(StructErrors(fields), message), ToLower(fields[2].field)) == Outcome(fields[2], message)
    ensures Report(StructErrors(fields), message).Keys <=
              {ToLower(fields[0].field), ToLower(fields[1].field), ToLower(fields[2].field)}
  {
    var r := Report(StructErrors(fields), message);
    assert DistinctFields(fields) by {
      forall i, j | 0 <= i < j < 3 ensures ToLower(fields[i].field) != ToLower(fields[j].field) {
        assert (i == 0 && (j == 1 || j == 2)) || (i == 1 && j == 2);
      }
    }
    ReportLookup(fields, message);
    ReportKeys(fields, message);
    forall k | k in r ensures k in {ToLower(fields[0].field), ToLower(fields[1].field), ToLower(fields[2].field)} {
      var i :| 0 <= i < 3 && ToLower(fields[i].field) == k;
      assert i == 0 || i == 1 || i == 2;
    }
  }

  /** The recorded map of a four-field struct, field by field. */
  lemma ReportOfFour(fields: seq<FieldRules>, message: Messages)
    requires |fields| == 4
    requires ToLower(fields[0].field) != ToLower(fields[1].field)
    requires ToLower(fields[0].field) != ToLower(fields[2].field)
    requires ToLower(fields[0].field) != ToLower(fields[3].field)
    requires ToLower(fields[1].field) != ToLower(fields[2].field)
    requires ToLower(fields[1].field) != ToLower(fields[3].field)
    requires ToLower(fields[2].field) != ToLower(fields[3].field)
    ensures Lookup(Report(StructErrors(fields), message), ToLower(fields[0].field)) == Outcome(fields[0], message)
    ensures Lookup(Report(StructErrors(fields), message), ToLower(fields[1].field)) == Outcome(fields[1], message)
    ensures Lookup(Report(StructErrors(fields), message), ToLower(fields[2].field)) == Outcome(fields[2], message)
    ensures Lookup(Report(StructErrors(fields), message), ToLower(fields[3].field)) == Outcome(fields[3], message)
    ensures Report(StructErrors(fields), message).Keys <=
              {ToLower(fields[0].field), ToLower(fields[1].field), ToLower(fields[2].field), ToLower(fields[3].field)}
  {
    var r := Report(StructErrors(fields), message);
    assert DistinctFields(fields) by {
      forall i, j | 0 <= i < j < 4 ensures ToLower(fields[i].field) != ToLower(fields[j].field) {
        assert (i == 0 && (j == 1 || j == 2 || j == 3)) || (i == 1 && (j == 2 || j == 3)) || (i == 2 && j == 3);
      }
    }
    ReportLookup(fields, message);
    ReportKeys(fields, message);
    forall k | k in r
      ensures k in {ToLower(fields[0].field), ToLower(fields[1].field), ToLower(fields[2].field), ToLower(fields[3].field)}
    {
      var i :| 0 <= i < 4 && ToLower(fields[i].field) == k;
      assert i == 0 || i == 1 || i == 2 || i == 3;
    }
  }
}
