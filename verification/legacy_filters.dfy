/** cmd/api/filters.go: an older filter validator over the raw query
    strings, with its own message switch and its own first-wins error map.
    Its string tags `number`, `gt`, `max` and `lt` are judged by the
    validator library, whose verdict is a parameter here. */
module LegacyFilters {
  import opened Common
  import opened Text
  import opened ErrorMaps
  import opened Validator

  /** `Filters` of cmd/api/filters.go: page and size as query strings, with
      tags `integer,number,gt=0,max=10000000` and `integer,number,gt=0,lt=101`,
      sort with `oneofci=id title published pages`; `SafeSortList` has no tag. */
  datatype Filters = Filters(page: string, size: string, sort: string, safeSortList: seq<string>)

  /** The library's verdict for a tag with its parameter on a string value:
      `check(tag, param, value)`. */
  type StringCheck = (string, string, string) -> bool

  /** The sort allow-list: ascending columns only. */
  const SortTokens: seq<string> := ["id", "title", "published", "pages"]

  /** The parameter of the `oneofci` tag on `Sort`, "id title published pages". */
  const SortParam: string := Join(SortTokens)

  /** The validator's reading of the parameter is exactly the allow-list. */
  lemma SortTokensAreWords()
    ensures Words(SortParam) == SortTokens
  {
    WordsJoin(SortTokens);
  }

  /** `validateInteger`, registered as the `integer` tag: it compares the
      kind of the constant 1 with "int", so it holds for every field. */
  function ValidateInteger(value: string): (ok: bool)
    ensures ok
  {
    true
  }

  /** The dynamic type of a value passed as `any`. */
  datatype DynamicType = IntType | StringType | OtherType(name: string)

  /** `validateInteger10`: false exactly for a value whose dynamic type is
      `int`. */
  function ValidateInteger10(t: DynamicType): (r: bool)
    ensures !r <==> t == IntType
  {
    t != IntType
  }

  function PageRules(f: Filters, check: StringCheck): seq<Rule>
  {
    [Rule("integer", "", ValidateInteger(f.page)), Rule("number", "", check("number", "", f.page)),
     Rule("gt", "0", check("gt", "0", f.page)), Rule("max", "10000000", check("max", "10000000", f.page))]
  }

  function SizeRules(f: Filters, check: StringCheck): seq<Rule>
  {
    [Rule("integer", "", ValidateInteger(f.size)), Rule("number", "", check("number", "", f.size)),
     Rule("gt", "0", check("gt", "0", f.size)), Rule("lt", "101", check("lt", "101", f.size))]
  }

  function LegacyRules(f: Filters, check: StringCheck): seq<FieldRules>
  {
    [ FieldRules("Page", PageRules(f, check)),
      FieldRules("Size", SizeRules(f, check)),
      FieldRules("Sort", [Rule("oneofci", SortParam, OneOfCI(f.sort, SortTokens))]),
      FieldRules("SafeSortList", []) ]
  }

  /** The `switch e.Tag()` of this `ValidateFilters`; `number` has no case. */
  function LegacyMessage(tag: string, param: string): (r: Option<string>)
    ensures r.Some? <==> tag == "integer" || tag == "max" || tag == "gt" || tag == "lt" || tag == "oneofci"
    ensures tag == "number" ==> r.None?
    ensures tag == "integer" ==> r == Some("must be an integer")
    ensures tag == "max" ==> r == Some("above the character limit: " + param)
    ensures tag == "gt" ==> r == Some("must be greater than: " + param)
    ensures tag == "lt" ==> r == Some("must not exceed 5 items")
    ensures tag == "oneofci" ==> r == Some("can only contain values: " + param)
  {
    if tag == "integer" then Some("must be an integer")
    else if tag == "max" then Some("above the character limit: " + param)
    else if tag == "gt" then Some("must be greater than: " + param)
    else if tag == "lt" then Some("must not exceed 5 items")
    else if tag == "oneofci" then Some("can only contain values: " + param)
    else None
  }

  function LegacyErrors(f: Filters, check: StringCheck): map<string, string>
  {
    Report(StructErrors(LegacyRules(f, check)), LegacyMessage)
  }

  /** No tag of any field fails. */
  predicate NothingFails(f: Filters, check: StringCheck)
  {
    && check("number", "", f.page) && check("gt", "0", f.page) && check("max", "10000000", f.page)
    && check("number", "", f.size) && check("gt", "0", f.size) && check("lt", "101", f.size)
    && OneOfCI(f.sort, SortTokens)
  }

  /** The first failing tag of a four-tag string field whose first tag is
      `integer`, which always holds. */
  lemma FourTagOutcome(rules: seq<Rule>)
    requires |rules| == 4 && rules[0].holds
    ensures FirstFailure(rules) ==
              if !rules[1].holds then Some(rules[1])
              else if !rules[2].holds then Some(rules[2])
              else if !rules[3].holds then Some(rules[3])
              else None
  {
    FirstFailureOfFour(rules);
  }

  /** Each field is keyed by its lower-cased name with the message of its
      first failing tag. */
  lemma LegacyReport(f: Filters, check: StringCheck)
    ensures Lookup(LegacyErrors(f, check), "page") == Outcome(LegacyRules(f, check)[0], LegacyMessage)
    ensures Lookup(LegacyErrors(f, check), "size") == Outcome(LegacyRules(f, check)[1], LegacyMessage)
    ensures Lookup(LegacyErrors(f, check), "sort") == Outcome(LegacyRules(f, check)[2], LegacyMessage)
    ensures Lookup(LegacyErrors(f, check), "safesortlist") == Outcome(LegacyRules(f, check)[3], LegacyMessage)
    ensures LegacyErrors(f, check).Keys <= {"page", "size", "sort", "safesortlist"}
  {
    LegacyKeys(f, check);
    ReportOfFour(LegacyRules(f, check), LegacyMessage);
  }

  /** The keys the filter fields are reported under. */
  lemma LegacyKeys(f: Filters, check: StringCheck)
    ensures ToLower(LegacyRules(f, check)[0].field) == "page"
    ensures ToLower(LegacyRules(f, check)[1].field) == "size"
    ensures ToLower(LegacyRules(f, check)[2].field) == "sort"
    ensures ToLower(LegacyRules(f, check)[3].field) == "safesortlist"
  {
    assert ToLower("Page") == "page" && ToLower("Size") == "size";
    assert ToLower("Sort") == "sort" && ToLower("SafeSortList") == "safesortlist";
  }

  /** A page that fails `number` gets no message at all (the switch has no
      case for it); otherwise `gt` reads "must be greater than: 0" and `max`
      "above the character limit: 10000000". */
  lemma PageError(f: Filters, check: StringCheck)
    ensures Lookup(LegacyErrors(f, check), "page") ==
              if !check("number", "", f.page) then None
              else if !check("gt", "0", f.page) then Some("must be greater than: " + "0")
              else if !check("max", "10000000", f.page) then Some("above the character limit: " + "10000000")
              else None
  {
    LegacyReport(f, check);
    FourTagOutcome(PageRules(f, check));
  }

  /** The same for size, where `lt` always reads "must not exceed 5 items",
      whatever its bound. */
  lemma SizeError(f: Filters, check: StringCheck)
    ensures Lookup(LegacyErrors(f, check), "size") ==
              if !check("number", "", f.size) then None
              else if !check("gt", "0", f.size) then Some("must be greater than: " + "0")
              else if !check("lt", "101", f.size) then Some("must not exceed 5 items")
              else None
  {
    LegacyReport(f, check);
    FourTagOutcome(SizeRules(f, check));
  }

  /** Only the four ascending tokens, up to case, are accepted. */
  lemma SortError(f: Filters, check: StringCheck)
    ensures Lookup(LegacyErrors(f, check), "sort") ==
              if OneOfCI(f.sort, SortTokens) then None
              else Some("can only contain values: " + SortParam)
  {
    LegacyReport(f, check);
    var r := LegacyRules(f, check)[2].rules;
    assert r == [r[0]] + [];
    FirstFailureCons(r[0], []);
  }

  /** No descending token passes: every token starting with "-" is refused. */
  lemma DescendingRefused(sort: string)
    requires HasPrefix(sort, "-")
    ensures !OneOfCI(sort, SortTokens)
  {
    HasPrefixChar(sort, '-');
    forall i | 0 <= i < |SortTokens| ensures !EqualFold(sort, SortTokens[i]) {
      var t := SortTokens[i];
      assert 'a' <= t[0] <= 'z';
      assert CaseFold(sort[0]) != CaseFold(t[0]);
    }
  }

  /** The "must be an integer" message is never produced, since the
      `integer` tag never fails. */
  lemma NeverIntegerMessage(f: Filters, check: StringCheck)
    ensures forall k :: k in LegacyErrors(f, check) ==> LegacyErrors(f, check)[k] != "must be an integer"
  {
    var e := LegacyErrors(f, check);
    NoIntegerMessageFor(f, check);
    forall k | k in e ensures e[k] != "must be an integer" {
      if k == "page" {
        assert Lookup(e, "page") == Some(e[k]);
      } else if k == "size" {
        assert Lookup(e, "size") == Some(e[k]);
      } else {
        assert k == "sort";
        assert Lookup(e, "sort") == Some(e[k]);
      }
    }
  }

  lemma WithoutSafeSortList(m: map<string, string>)
    requires m.Keys <= {"page", "size", "sort", "safesortlist"} && "safesortlist" !in m
    ensures forall k :: k in m ==> k == "page" || k == "size" || k == "sort"
  {
  }

  lemma NoIntegerMessageFor(f: Filters, check: StringCheck)
    ensures forall k :: k in LegacyErrors(f, check) ==> k == "page" || k == "size" || k == "sort"
    ensures Lookup(LegacyErrors(f, check), "page") != Some("must be an integer")
    ensures Lookup(LegacyErrors(f, check), "size") != Some("must be an integer")
    ensures Lookup(LegacyErrors(f, check), "sort") != Some("must be an integer")
  {
    assert LegacyErrors(f, check).Keys <= {"page", "size", "sort", "safesortlist"} by {
      LegacyReport(f, check);
    }
    SafeSortListNeverReported(f, check);
    WithoutSafeSortList(LegacyErrors(f, check));
    PageError(f, check);
    SizeError(f, check);
    SortError(f, check);
    var m := "can only contain values: " + SortParam;
    assert m[0] == 'c';
  }

  /** The untagged `SafeSortList` never gets a message. */
  lemma SafeSortListNeverReported(f: Filters, check: StringCheck)
    ensures "safesortlist" !in LegacyErrors(f, check)
  {
    LegacyReport(f, check);
    assert FirstFailure(LegacyRules(f, check)[3].rules) == None;
  }

  /** A page the library finds non-numeric, with nothing else wrong, is
      reported by no message at all: the result is empty, so a caller
      testing whether it has any entries would treat the filters as valid. */
  lemma NonNumericPageUnreported(f: Filters, check: StringCheck)
    requires !check("number", "", f.page)
    requires check("number", "", f.size) && check("gt", "0", f.size) && check("lt", "101", f.size)
    requires OneOfCI(f.sort, SortTokens)
    ensures !NothingFails(f, check)
    ensures LegacyErrors(f, check) == map[]
  {
    LegacyReport(f, check);
    PageError(f, check);
    SizeError(f, check);
    SortError(f, check);
    SafeSortListNeverReported(f, check);
  }

  /** `FilterValidationErrors` of cmd/api/filters.go. */
  class FilterValidationErrors {
    var errors: map<string, string>

    constructor ()
      ensures errors == map[]
    {
      errors := map[];
    }

    /** `AddError`: first message for a key wins. */
    method AddError(key: string, message: string)
      modifies this
      ensures errors == WithFirst(old(errors), key, message)
    {
      if key !in errors {
        errors := errors[key := message];
      }
    }
  }

  lemma NoErrorsIffNothingFails(f: Filters, check: StringCheck)
    ensures StructErrors(LegacyRules(f, check)) == [] <==> NothingFails(f, check)
  {
    var rules := LegacyRules(f, check);
    FourTagOutcome(PageRules(f, check));
    FourTagOutcome(SizeRules(f, check));
    var r := rules[2].rules;
    assert r == [r[0]] + [];
    FirstFailureCons(r[0], []);
    assert FirstFailure(rules[3].rules) == None;
    assert (forall i :: 0 <= i < |rules| ==> Passes(rules[i])) <==>
           Passes(rules[0]) && Passes(rules[1]) && Passes(rules[2]) && Passes(rules[3]);
  }

  /** This `ValidateFilters`: nil (the empty map) when no tag fails, and the
      recorded messages otherwise, which may be none at all. */
  method ValidateFilters(f: Filters, check: StringCheck) returns (r: map<string, string>)
    ensures NothingFails(f, check) ==> r == map[]
    ensures !NothingFails(f, check) ==> r == LegacyErrors(f, check)
  {
    var fve := new FilterValidationErrors();
    var errs := StructErrors(LegacyRules(f, check));
    NoErrorsIffNothingFails(f, check);
    if |errs| == 0 {
      return map[];
    }
    var i := 0;
    while i < |errs|
      invariant 0 <= i <= |errs|
      invariant fve.errors == Report(errs[..i], LegacyMessage)
    {
      var e := errs[i];
      ReportStep(errs, i, LegacyMessage);
      var message := LegacyMessage(e.tag, e.param);
      if message.Some? {
        fve.AddError(ToLower(e.field), message.value);
      }
      i := i + 1;
    }
    assert errs[..|errs|] == errs;
    r := fve.errors;
  }
}
