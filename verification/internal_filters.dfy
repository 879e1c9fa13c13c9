/** internal/filters.go: the list filters (page, size, sort), the sort
    allow-list resolver, the pagination window and metadata, and the
    validation of a filter set. */
module InternalFilters {
  import opened Common
  import opened Text
  import opened ErrorMaps
  import opened Validator

  /** `internal.Filters`, with tags `max=1000,min=1`, `max=20,min=1` and
      `oneofci=<SortParam>`. */
  datatype Filters = Filters(page: int, size: int, sort: string)

  /** `PaginationMetadata`; the all-zero value is the empty struct. */
  datatype PaginationMetadata = PaginationMetadata(
    currentPage: int,
    pageSize: int,
    firstPage: int,
    lastPage: int,
    totalRecords: int)

  const NoMetadata := PaginationMetadata(0, 0, 0, 0, 0)

  /** The sort allow-list: the words of the `oneofci` parameter on `Sort`. */
  const SortTokens: seq<string> := ["id", "title", "published", "pages", "-title", "-published", "-pages"]

  /** The parameter of the `oneofci` tag on `Sort`,
      "id title published pages -title -published -pages". */
  const SortParam: string := Join(SortTokens)

  /** The validator's reading of the parameter is exactly the allow-list. */
  lemma SortTokensAreWords()
    ensures Words(SortParam) == SortTokens
  {
    WordsJoin(SortTokens);
  }

  /** The columns a sort token may name. */
  const SortColumns: set<string> := {"id", "title", "published", "pages"}

  /** Integer ceiling of `a / b` for a positive divisor. */
  function CeilDiv(a: int, b: int): (q: int)
    requires b > 0
    ensures (q - 1) * b < a <= q * b
  {
    var q := (a + b - 1) / b;
    assert q * b + (a + b - 1) % b == a + b - 1;
    q
  }

  /** `CalculateMetadata`. No rows gives the empty metadata whatever the
      page and size; otherwise the page and size are echoed, the first page
      is 1 and the last page is the number of pages of `pageSize` rows that
      hold `totalRecords` rows. `TotalRecords` is never filled in. */
  function CalculateMetadata(totalRecords: int, page: int, pageSize: int): (r: PaginationMetadata)
    requires totalRecords == 0 || pageSize > 0
    ensures totalRecords == 0 ==> r == NoMetadata
    ensures totalRecords != 0 ==>
              && r.currentPage == page && r.pageSize == pageSize && r.firstPage == 1
              && (r.lastPage - 1) * pageSize < totalRecords <= r.lastPage * pageSize
    ensures totalRecords > 0 ==> r.lastPage >= 1
    ensures r.totalRecords == 0
  {
    if totalRecords == 0 then NoMetadata
    else PaginationMetadata(page, pageSize, 1, CeilDiv(totalRecords, pageSize), 0)
  }

  /** `Filters.SortColumn`: succeeds exactly for the seven allow-listed
      tokens (exact, case-sensitive match) and then names one of the four
      columns, the token without its leading "-"; any other token panics
      (None). */
  function SortColumn(f: Filters): (r: Option<string>)
    ensures r.Some? <==> f.sort in SortTokens
    ensures r.Some? ==> r.value in SortColumns && (f.sort == r.value || f.sort == "-" + r.value)
  {
    AllowListColumns();
    if f.sort in SortTokens then Some(TrimPrefix(f.sort, "-")) else None
  }

  /** Each allow-listed token, stripped of its "-", is a column. */
  lemma AllowListColumns()
    ensures forall t :: t in SortTokens ==>
              TrimPrefix(t, "-") in SortColumns && (t == TrimPrefix(t, "-") || t == "-" + TrimPrefix(t, "-"))
  {
    forall t | t in SortTokens ensures HasPrefix(t, "-") <==> t[0] == '-' {
      HasPrefixChar(t, '-');
    }
    assert HasPrefix("-title", "-") && "-title"[1..] == "title";
    assert HasPrefix("-published", "-") && "-published"[1..] == "published";
    assert HasPrefix("-pages", "-") && "-pages"[1..] == "pages";
  }

  /** `Filters.SortDirection`: descending exactly for a "-" prefix. */
  function SortDirection(f: Filters): (r: string)
    ensures r == "DESC" || r == "ASC"
    ensures r == "DESC" <==> HasPrefix(f.sort, "-")
  {
    if HasPrefix(f.sort, "-") then "DESC" else "ASC"
  }

  /** Column and direction together give back the token they came from,
      so distinct allow-listed tokens never resolve to the same ORDER BY. */
  lemma SortResolutionInjective(f: Filters, g: Filters)
    requires SortColumn(f).Some? && SortColumn(g).Some?
    requires SortColumn(f) == SortColumn(g) && SortDirection(f) == SortDirection(g)
    ensures f.sort == g.sort
  {
    var c := SortColumn(f).value;
    assert c[0] != '-';
    assert HasPrefix(f.sort, "-") <==> f.sort == "-" + c;
    assert HasPrefix(g.sort, "-") <==> g.sort == "-" + c;
  }

  /** `Filters.Limit`. */
  function Limit(f: Filters): (r: int)
    ensures r == f.size
  {
    f.size
  }

  /** `Filters.Offset`: rows skipped before the page (pages count from 1). */
  function Offset(f: Filters): (r: int)
    ensures r + Limit(f) == f.page * f.size
    ensures f.page == 1 ==> r == 0
    ensures f.page >= 1 && f.size >= 0 ==> r >= 0
  {
    var r := (f.page - 1) * f.size;
    assert r + f.size == f.page * f.size;
    r
  }

  /** Within the validated ranges the window starts at or after row 0, at
      most at row 19980, and ends at row `page * size`. */
  lemma WindowBounds(f: Filters)
    requires 1 <= f.page <= 1000 && 1 <= f.size <= 20
    ensures 0 <= Offset(f) <= 19980
    ensures Offset(f) + Limit(f) == f.page * f.size
  {
    assert 0 <= f.page - 1 <= 999;
    assert (f.page - 1) * f.size <= 999 * f.size <= 999 * 20;
  }

  lemma MulMonotone(a: int, b: int, s: int)
    requires s > 0 && a <= b
    ensures a * s <= b * s
  {
    assert b * s - a * s == (b - a) * s;
  }

  /** Row `row` (counting from 0) lies in the window of page
      `row / size + 1` and of no other page. */
  lemma {:induction false} RowOnOnePage(size: int, row: int, q: int)
    requires size > 0 && 0 <= row
    ensures var p := Filters(row / size + 1, size, "id");
            Offset(p) <= row < Offset(p) + Limit(p)
    ensures Offset(Filters(q, size, "id")) <= row < Offset(Filters(q, size, "id")) + size ==> q == row / size + 1
  {
    var d := row / size;
    assert d * size + row % size == row;
    assert Offset(Filters(d + 1, size, "id")) == d * size;
    if q <= d {
      MulMonotone(q, d, size);
      assert (q - 1) * size + size == q * size;
    } else if q > d + 1 {
      MulMonotone(d + 1, q - 1, size);
      assert (d + 1) * size == d * size + size;
    }
  }

  /** The page holding a row of a non-empty result is between the first and
      the last page the metadata reports for that result. */
  lemma {:induction false} RowPageWithinMetadata(totalRecords: int, size: int, row: int)
    requires size > 0 && 0 <= row < totalRecords
    ensures var p := row / size + 1;
            var m := CalculateMetadata(totalRecords, p, size);
            m.firstPage <= p <= m.lastPage
  {
    var d := row / size;
    var last := CalculateMetadata(totalRecords, d + 1, size).lastPage;
    assert d * size + row % size == row;
    if d + 1 > last {
      MulMonotone(last, d, size);
      assert false;
    }
  }

  /** The validator's rule table for a filter set. */
  function FilterRules(f: Filters): seq<FieldRules>
  {
    [ FieldRules("Page", [Rule("max", "1000", f.page <= 1000), Rule("min", "1", f.page >= 1)]),
      FieldRules("Size", [Rule("max", "20", f.size <= 20), Rule("min", "1", f.size >= 1)]),
      FieldRules("Sort", [Rule("oneofci", SortParam, OneOfCI(f.sort, SortTokens))]) ]
  }

  /** The `switch e.Tag()` of `ValidateFilters`. */
  function FilterMessage(tag: string, param: string): (r: Option<string>)
    ensures r.Some? <==> tag == "max" || tag == "min" || tag == "oneofci"
    ensures tag == "max" ==> r == Some("value must be less than: " + param)
    ensures tag == "min" ==> r == Some("value must be greater than: " + param)
    ensures tag == "oneofci" ==> r == Some("can only contain values: " + param)
    ensures r.Some? ==> HasSuffix(r.value, param)
  {
    HasSuffixConcat("value must be less than: ", param);
    HasSuffixConcat("value must be greater than: ", param);
    HasSuffixConcat("can only contain values: ", param);
    if tag == "max" then Some("value must be less than: " + param)
    else if tag == "min" then Some("value must be greater than: " + param)
    else if tag == "oneofci" then Some("can only contain values: " + param)
    else None
  }

  /** The map `ValidateFilters` builds from the validator's errors. */
  function FilterErrors(f: Filters): map<string, string>
  {
    Report(StructErrors(FilterRules(f)), FilterMessage)
  }

  /** Page and size in range and an allow-listed sort token, ignoring case. */
  predicate Acceptable(f: Filters)
  {
    1 <= f.page <= 1000 && 1 <= f.size <= 20 && OneOfCI(f.sort, SortTokens)
  }

  /** The validator reports nothing exactly for acceptable filters. */
  lemma NoErrorsIffAcceptable(f: Filters)
    ensures StructErrors(FilterRules(f)) == [] <==> Acceptable(f)
  {
    FilterOutcomes(f);
  }

  /** The message each filter field ends up with. */
  lemma FilterOutcomes(f: Filters)
    ensures Outcome(FilterRules(f)[0], FilterMessage) ==
              if f.page > 1000 then Some("value must be less than: " + "1000")
              else if f.page < 1 then Some("value must be greater than: " + "1")
              else None
    ensures Outcome(FilterRules(f)[1], FilterMessage) ==
              if f.size > 20 then Some("value must be less than: " + "20")
              else if f.size < 1 then Some("value must be greater than: " + "1")
              else None
    ensures Outcome(FilterRules(f)[2], FilterMessage) ==
              if OneOfCI(f.sort, SortTokens) then None
              else Some("can only contain values: " + SortParam)
    ensures Passes(FilterRules(f)[0]) <==> 1 <= f.page <= 1000
    ensures Passes(FilterRules(f)[1]) <==> 1 <= f.size <= 20
    ensures Passes(FilterRules(f)[2]) <==> OneOfCI(f.sort, SortTokens)
  {
    var rules := FilterRules(f);
    FirstFailureOfTwo(rules[0].rules[0], rules[0].rules[1]);
    FirstFailureOfTwo(rules[1].rules[0], rules[1].rules[1]);
    assert rules[2].rules == [rules[2].rules[0]] + [];
    FirstFailureCons(rules[2].rules[0], []);
  }

  /** Each filter field is keyed by its lower-cased name with the message of
      its first failing tag, and no other key appears. */
  lemma FilterErrorsByField(f: Filters)
    ensures Lookup(FilterErrors(f), "page") ==
              if f.page > 1000 then Some("value must be less than: " + "1000")
              else if f.page < 1 then Some("value must be greater than: " + "1")
              else None
    ensures Lookup(FilterErrors(f), "size") ==
              if f.size > 20 then Some("value must be less than: " + "20")
              else if f.size < 1 then Some("value must be greater than: " + "1")
              else None
    ensures Lookup(FilterErrors(f), "sort") ==
              if OneOfCI(f.sort, SortTokens) then None
              else Some("can only contain values: " + SortParam)
    ensures FilterErrors(f).Keys <= {"page", "size", "sort"}
  {
    FilterKeys(f);
    ReportOfThree(FilterRules(f), FilterMessage);
    FilterOutcomes(f);
  }

  /** The keys the filter fields are reported under. */
  lemma FilterKeys(f: Filters)
    ensures ToLower(FilterRules(f)[0].field) == "page"
    ensures ToLower(FilterRules(f)[1].field) == "size"
    ensures ToLower(FilterRules(f)[2].field) == "sort"
  {
    assert ToLower("Page") == "page" && ToLower("Size") == "size" && ToLower("Sort") == "sort";
  }

  /** Filters that are not acceptable always produce at least one message. */
  lemma RejectedFiltersReported(f: Filters)
    requires !Acceptable(f)
    ensures FilterErrors(f) != map[]
  {
    FilterErrorsByField(f);
  }

  /** `FilterValidationErrors` of internal/filters.go. */
  class FilterValidationErrors {
    var errors: map<string, string>

    constructor ()
      ensures errors == map[]
    {
      errors := map[];
    }

    /** `AddError`: first message for a key wins. */
    method AddError(key: string, message: string)
      modifies this
      ensures errors == WithFirst(old(errors), key, message)
    {
      if key !in errors {
        errors := errors[key := message];
      }
    }
  }

  /** `ValidateFilters`: nil (the empty map) when nothing fails, even if
      `typeErrors` is not empty; otherwise the field messages with every
      entry of `typeErrors` copied over them. */
  method ValidateFilters(f: Filters, typeErrors: map<string, string>) returns (r: map<string, string>)
    ensures Acceptable(f) ==> r == map[]
    ensures !Acceptable(f) ==> r == FilterErrors(f) + typeErrors
    ensures r == map[] <==> Acceptable(f)
  {
    var fve := new FilterValidationErrors();
    var errs := StructErrors(FilterRules(f));
    if |errs| == 0 {
      NoErrorsIffAcceptable(f);
      return map[];
    }
    var i := 0;
    while i < |errs|
      invariant 0 <= i <= |errs|
      invariant fve.errors == Report(errs[..i], FilterMessage)
    {
      var e := errs[i];
      ReportStep(errs, i, FilterMessage);
      var message := FilterMessage(e.tag, e.param);
      if message.Some? {
        fve.AddError(ToLower(e.field), message.value);
      }
      i := i + 1;
    }
    assert fve.errors == FilterErrors(f) by {
      assert errs[..|errs|] == errs;
    }
    assert !Acceptable(f) && fve.errors != map[] by {
      NoErrorsIffAcceptable(f);
      RejectedFiltersReported(f);
    }
    ghost var k :| k in fve.errors;
    fve.errors := fve.errors + typeErrors;
    assert k in fve.errors;
    r := fve.errors;
  }

  /** A sort token that differs from an allow-listed one only in case passes
      `ValidateFilters` (whose `oneofci` ignores case) and then makes
      `SortColumn` (which matches exactly) panic. */
  lemma ValidatedSortCanPanic()
    ensures Acceptable(Filters(1, 12, "TITLE"))
    ensures SortColumn(Filters(1, 12, "TITLE")).None?
  {
    var s := "TITLE";
    assert SortTokens[1] == "title";
    forall i | 0 <= i < |s| ensures CaseFold(s[i]) == CaseFold(SortTokens[1][i]) {
      assert LowerChar(s[i]) == SortTokens[1][i];
    }
    assert EqualFold(s, SortTokens[1]);
  }

  /** The index of the first word equal to `s` up to case, searching from
      index `k`. */
  function FirstFoldedMatch(s: string, words: seq<string>, k: nat): (r: Option<nat>)
    requires k <= |words|
    ensures r.Some? ==> k <= r.value < |words| && EqualFold(s, words[r.value]) &&
                        forall j :: k <= j < r.value ==> !EqualFold(s, words[j])
    ensures r.None? ==> forall j :: k <= j < |words| ==> !EqualFold(s, words[j])
    decreases |words| - k
  {
    if k == |words| then None
    else if EqualFold(s, words[k]) then Some(k)
    else FirstFoldedMatch(s, words, k + 1)
  }

  /** No two allow-listed tokens are equal up to case. */
  lemma AllowListFoldDistinct(i: nat, j: nat)
    requires i < |SortTokens| && j < |SortTokens| && i != j
    ensures !EqualFold(SortTokens[i], SortTokens[j])
  {
    var a, b := SortTokens[i], SortTokens[j];
    if |a| == |b| {
      if a[0] == '-' {
        assert CaseFold(a[1]) != CaseFold(b[1]);
      } else {
        assert CaseFold(a[0]) != CaseFold(b[0]);
      }
    }
  }

  /** The resolver that agrees with the validator: the allow-listed token
      equal to the input up to case, without its "-". Every sort token
      `ValidateFilters` accepts resolves to a column. */
  function SortColumnFolded(f: Filters): (r: Option<string>)
    ensures r.Some? <==> OneOfCI(f.sort, SortTokens)
    ensures r.Some? ==> r.value in SortColumns
    ensures r.Some? ==> exists i :: 0 <= i < |SortTokens| && EqualFold(f.sort, SortTokens[i]) &&
                                    r.value == TrimPrefix(SortTokens[i], "-")
  {
    AllowListColumns();
    match FirstFoldedMatch(f.sort, SortTokens, 0)
    case Some(i) => Some(TrimPrefix(SortTokens[i], "-"))
    case None => None
  }

  /** On the tokens the exact resolver accepts, the corrected one gives the
      same column, and it resolves every filter set the validator accepts. */
  lemma SortColumnFoldedAgrees(f: Filters)
    ensures SortColumn(f).Some? ==> SortColumnFolded(f) == SortColumn(f)
    ensures Acceptable(f) ==> SortColumnFolded(f).Some?
  {
    if SortColumn(f).Some? {
      var k :| 0 <= k < |SortTokens| && SortTokens[k] == f.sort;
      assert EqualFold(f.sort, SortTokens[k]) by {
        assert forall i :: 0 <= i < |f.sort| ==> CaseFold(f.sort[i]) == CaseFold(SortTokens[k][i]);
      }
      var m := FirstFoldedMatch(f.sort, SortTokens, 0);
      assert m.Some?;
      if m.value != k {
        if m.value < k {
          AllowListFoldDistinct(k, m.value);
        }
        assert false;
      }
    }
  }

  /** The corrected resolver gives the column of whichever allow-listed
      token the input folds to: that token is unique. */
  lemma SortColumnFoldedIsItsColumn(f: Filters, i: nat)
    requires i < |SortTokens| && EqualFold(f.sort, SortTokens[i])
    ensures SortColumnFolded(f) == Some(TrimPrefix(SortTokens[i], "-"))
  {
    var m := FirstFoldedMatch(f.sort, SortTokens, 0);
    assert m.Some?;
    if m.value != i {
      var a, b := SortTokens[m.value], SortTokens[i];
      assert EqualFold(a, b) by {
        forall j | 0 <= j < |a| ensures CaseFold(a[j]) == CaseFold(b[j]) {
          assert CaseFold(f.sort[j]) == CaseFold(a[j]) && CaseFold(f.sort[j]) == CaseFold(b[j]);
        }
      }
      AllowListFoldDistinct(m.value, i);
    }
  }

  /** The input of the finding: "TITLE" resolves to the title column. */
  lemma SortColumnFoldedTitle()
    ensures SortColumnFolded(Filters(1, 12, "TITLE")) == Some("title")
  {
    var s := "TITLE";
    forall j | 0 <= j < |s| ensures CaseFold(s[j]) == CaseFold(SortTokens[1][j]) {
      assert LowerChar(s[j]) == SortTokens[1][j];
    }
    SortColumnFoldedIsItsColumn(Filters(1, 12, s), 1);
  }
}
