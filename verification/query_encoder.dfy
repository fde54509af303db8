/** The grid's remote page request: `ajaxURLGenerator` (script.js:318-334) turns the page
    number, page size, sort list and filter list into `url?<query>`. */
module QueryEncoder {
  import opened Wrappers
  import opened Seqs
  import opened JsValue
  import FormUrlEncoded

  /** Records requested per page when the request names no page size (script.js:8). */
  const PAGE_SIZE := 200

  /** One entry of `params.sort`. `sortParam?.field` and `sortParam?.dir` read undefined on
      a null or undefined entry, so such an entry is `SortParam(Undefined, Undefined)`. */
  datatype SortParam = SortParam(field: Js, dir: Js)

  datatype FilterParam = FilterParam(field: Js, value: Js)

  /** What the grid passes for one page: `sort` and `filter` are None when absent. */
  datatype RequestParams = RequestParams(page: Js, perPage: Js, sort: Option<seq<SortParam>>, filter: Option<seq<FilterParam>>)

  /** One sort pair as the template literal writes it: `field:dir`. */
  function SortEntry(p: SortParam): string
  {
    ToString(p.field) + ":" + ToString(p.dir)
  }

  /** A nullish sort entry goes out as `undefined:undefined`. */
  lemma NullishSortEntry()
    ensures SortEntry(SortParam(Undefined, Undefined)) == "undefined:undefined"
  {
  }

  function SortEntries(ps: seq<SortParam>): seq<string>
  {
    seq(|ps|, i requires 0 <= i < |ps| => SortEntry(ps[i]))
  }

  /** The `sortBy` constant: the sort pairs mapped and joined by commas, or undefined when
      there is no sort list. */
  function SortBy(sort: Option<seq<SortParam>>): Option<string>
  {
    match sort
    case None => None
    case Some(ps) => Some(Join(SortEntries(ps), ','))
  }

  /** `sortBy && { sort_by: sortBy }` spreads a property exactly when `sortBy` is truthy. */
  predicate SortByEmitted(sort: Option<seq<SortParam>>)
  {
    SortBy(sort).Some? && SortBy(sort).value != ""
  }

  /** `params?.per_page ?? PAGE_SIZE`. */
  function PerPage(v: Js): Js
  {
    if IsNullish(v) then Num(PAGE_SIZE) else v
  }

  /** The object literal `formattedParams` before the filter loop. */
  function InitialParams(p: RequestParams): seq<(string, Js)>
  {
    [("page", p.page), ("per_page", PerPage(p.perPage))]
    + (if SortByEmitted(p.sort) then [("sort_by", Str(SortBy(p.sort).value))] else [])
  }

  function Filters(p: RequestParams): seq<FilterParam>
  {
    match p.filter
    case None => []
    case Some(fs) => fs
  }

  /** One iteration of the filter loop: a filter with a truthy field is assigned under that field. */
  function ApplyFilter(acc: seq<(string, Js)>, f: FilterParam): seq<(string, Js)>
  {
    if Truthy(f.field) then Assign(acc, ToString(f.field), f.value) else acc
  }

  /** The filter loop run over `fs`, in order. */
  function ApplyFilters(acc: seq<(string, Js)>, fs: seq<FilterParam>): seq<(string, Js)>
  {
    if fs == [] then acc else ApplyFilter(ApplyFilters(acc, fs[..|fs| - 1]), fs[|fs| - 1])
  }

  /** `formattedParams` once the filter loop has finished. */
  function FormattedParams(p: RequestParams): seq<(string, Js)>
  {
    ApplyFilters(InitialParams(p), Filters(p))
  }

  /** `new URLSearchParams(formattedParams)`: every property, in order, its value converted to a string. */
  function SearchPairs(ps: seq<(string, Js)>): (r: seq<(string, string)>)
    ensures |r| == |ps|
  {
    seq(|ps|, i requires 0 <= i < |ps| => (ps[i].0, ToString(ps[i].1)))
  }

  /** The query string of a request: everything after `?`. */
  function Query(p: RequestParams): string
  {
    FormUrlEncoded.Serialize(SearchPairs(FormattedParams(p)))
  }

  /** `ajaxURLGenerator`: builds `formattedParams`, runs the filter loop over it, and appends
      the serialized parameters to the base URL after `?`. */
  method AjaxUrlGenerator(url: string, params: RequestParams) returns (r: string)
    ensures r == url + "?" + FormUrlEncoded.Serialize(SearchPairs(FormattedParams(params)))
  {
    var formatted := InitialParams(params);
    var filters := Filters(params);
    var i := 0;
    while i < |filters|
      invariant i <= |filters|
      invariant formatted == ApplyFilters(InitialParams(params), filters[..i])
    {
      var f := filters[i];
      if Truthy(f.field) {
        formatted := Assign(formatted, ToString(f.field), f.value);
      }
      assert filters[..i + 1][..i] == filters[..i];
      i := i + 1;
    }
    assert filters[..i] == filters;
    r := url + "?" + FormUrlEncoded.Serialize(SearchPairs(formatted));
  }

  // ---------------------------------------------------------------------------------------
  // The sort_by value

  /** `sort_by` is sent exactly when there is a non-empty sort list: every entry holds a `:`,
      so the joined value is empty only for an empty list. */
  lemma SortByEmittedIff(sort: Option<seq<SortParam>>)
    ensures SortByEmitted(sort) <==> sort.Some? && |sort.value| > 0
  {
    if sort.Some? && |sort.value| > 0 {
      var es := SortEntries(sort.value);
      assert |es[0]| > 0;
      assert Join(es, ',') == es[0] || Join(es, ',') == es[0] + [','] + Join(es[1..], ',');
    }
  }

  /** Splitting the `sort_by` value on `,` gives one entry per sort pair, in order, and cutting
      each entry at its first `:` gives the pair's field and direction back, provided no field
      or direction holds a comma and no field holds a colon. */
  lemma SortByRoundTrip(ps: seq<SortParam>)
    requires |ps| > 0
    requires forall i :: 0 <= i < |ps| ==> ',' !in ToString(ps[i].field) && ',' !in ToString(ps[i].dir)
    requires forall i :: 0 <= i < |ps| ==> ':' !in ToString(ps[i].field)
    ensures var parts := Split(SortBy(Some(ps)).value, ',');
            |parts| == |ps|
            && forall i :: 0 <= i < |ps| ==> SplitFirst(parts[i], ':') == (ToString(ps[i].field), ToString(ps[i].dir))
  {
    var es := SortEntries(ps);
    SplitJoin(es, ',');
    forall i | 0 <= i < |ps|
      ensures SplitFirst(es[i], ':') == (ToString(ps[i].field), ToString(ps[i].dir))
    {
      SplitFirstConcat(ToString(ps[i].field), ':', ToString(ps[i].dir));
    }
  }

  // ---------------------------------------------------------------------------------------
  // The filter loop

  /** The value of the last filter in `fs` whose field is truthy and names key `k`. */
  function LastFilterValue(fs: seq<FilterParam>, k: string): Option<Js>
  {
    if fs == [] then None
    else
      var f := fs[|fs| - 1];
      if Truthy(f.field) && ToString(f.field) == k then Some(f.value)
      else LastFilterValue(fs[..|fs| - 1], k)
  }

  /** The keys the filter loop assigns, in loop order, repetitions included. */
  function FilterKeys(fs: seq<FilterParam>): seq<string>
  {
    if fs == [] then []
    else
      var f := fs[|fs| - 1];
      FilterKeys(fs[..|fs| - 1]) + (if Truthy(f.field) then [ToString(f.field)] else [])
  }

  /** After the loop a key holds the value of the last filter naming it, and keeps its
      earlier value when no filter names it. */
  lemma {:induction false} GetApplyFilters(acc: seq<(string, Js)>, fs: seq<FilterParam>, k: string)
    ensures Get(ApplyFilters(acc, fs), k)
            == match LastFilterValue(fs, k) case Some(v) => Some(v) case None => Get(acc, k)
  {
    if fs != [] {
      var f := fs[|fs| - 1];
      GetApplyFilters(acc, fs[..|fs| - 1], k);
      if Truthy(f.field) {
        GetAssign(ApplyFilters(acc, fs[..|fs| - 1]), ToString(f.field), f.value, k);
      }
    }
  }

  /** The loop keeps the keys it started with, in place, and adds each new key once, in the
      order of its first assignment. */
  lemma {:induction false} KeysApplyFilters(acc: seq<(string, Js)>, fs: seq<FilterParam>)
    requires DistinctKeys(acc)
    ensures Keys(ApplyFilters(acc, fs)) == Dedup(Keys(acc) + FilterKeys(fs))
    ensures DistinctKeys(ApplyFilters(acc, fs))
  {
    if fs == [] {
      assert Keys(acc) + FilterKeys(fs) == Keys(acc);
      DedupDistinct(Keys(acc));
    } else {
      var init := fs[..|fs| - 1];
      var f := fs[|fs| - 1];
      var a := ApplyFilters(acc, init);
      KeysApplyFilters(acc, init);
      var x := Keys(acc) + FilterKeys(init);
      if Truthy(f.field) {
        var k := ToString(f.field);
        AssignDistinct(a, k, f.value);
        assert Keys(acc) + FilterKeys(fs) == x + [k];
        assert (x + [k])[..|x + [k]| - 1] == x;
      } else {
        assert Keys(acc) + FilterKeys(fs) == x;
      }
    }
  }

  // ---------------------------------------------------------------------------------------
  // The whole request

  /** The keys before the filter loop: `page`, `per_page` and, when emitted, `sort_by`. */
  function InitialKeys(p: RequestParams): seq<string>
  {
    ["page", "per_page"] + (if SortByEmitted(p.sort) then ["sort_by"] else [])
  }

  /** What a key of the request is expected to carry, before conversion to a string: the last
      filter naming it, else the page, the page size with its default, or the sort value. */
  function ExpectedValue(p: RequestParams, k: string): Option<Js>
  {
    match LastFilterValue(Filters(p), k)
    case Some(v) => Some(v)
    case None =>
      if k == "page" then Some(p.page)
      else if k == "per_page" then Some(if IsNullish(p.perPage) then Num(PAGE_SIZE) else p.perPage)
      else if k == "sort_by" && p.sort.Some? && |p.sort.value| > 0 then Some(Str(Join(SortEntries(p.sort.value), ',')))
      else None
  }

  lemma SearchPairsGet(ps: seq<(string, Js)>, k: string)
    ensures Keys(SearchPairs(ps)) == Keys(ps)
    ensures Get(SearchPairs(ps), k) == match Get(ps, k) case Some(v) => Some(ToString(v)) case None => None
  {
    assert Keys(SearchPairs(ps)) == Keys(ps);
  }

  /** Every key of the request carries its expected value, converted to a string, and no
      key without an expected value appears. */
  lemma RequestValues(p: RequestParams, k: string)
    ensures Get(SearchPairs(FormattedParams(p)), k)
            == match ExpectedValue(p, k) case Some(v) => Some(ToString(v)) case None => None
  {
    SearchPairsGet(FormattedParams(p), k);
    GetApplyFilters(InitialParams(p), Filters(p), k);
    GetInitialParams(p, k);
  }

  lemma GetInitialParams(p: RequestParams, k: string)
    ensures Get(InitialParams(p), k)
            == if k == "page" then Some(p.page)
               else if k == "per_page" then Some(if IsNullish(p.perPage) then Num(PAGE_SIZE) else p.perPage)
               else if k == "sort_by" && p.sort.Some? && |p.sort.value| > 0 then Some(Str(Join(SortEntries(p.sort.value), ',')))
               else None
  {
    var ks := Keys(InitialParams(p));
    assert ks == InitialKeys(p);
    SortByEmittedIff(p.sort);
    if k == "page" {
      IndexOfUnique(ks, k, 0);
    } else if k == "per_page" {
      assert ks[..1] == ["page"];
      IndexOfUnique(ks, k, 1);
    } else if k == "sort_by" && SortByEmitted(p.sort) {
      assert ks[..2] == ["page", "per_page"];
      IndexOfUnique(ks, k, 2);
    }
  }

  /** The request's keys are `page`, `per_page`, `sort_by` when the sort list is non-empty,
      then the filter fields in the order of their first assignment, each once. */
  lemma RequestKeys(p: RequestParams)
    ensures var pairs := SearchPairs(FormattedParams(p));
            && Keys(pairs) == Dedup(InitialKeys(p) + FilterKeys(Filters(p)))
            && |pairs| >= 2 && pairs[0].0 == "page" && pairs[1].0 == "per_page"
            && (p.sort.Some? && |p.sort.value| > 0 ==> |pairs| >= 3 && pairs[2].0 == "sort_by")
  {
    var fp := FormattedParams(p);
    var pairs := SearchPairs(fp);
    var ik := InitialKeys(p);
    assert Keys(InitialParams(p)) == ik;
    KeysApplyFilters(InitialParams(p), Filters(p));
    DedupDistinctPrefix(ik, FilterKeys(Filters(p)));
    SearchPairsGet(fp, "page");
    var ks := Keys(pairs);
    assert ks == Dedup(ik + FilterKeys(Filters(p)));
    assert ks[..|ik|] == ik;
    assert ks[0] == ik[0] && ks[1] == ik[1];
    SortByEmittedIff(p.sort);
    if SortByEmitted(p.sort) {
      assert ks[2] == ik[2];
    }
  }

  /** The query string of a request parses back to exactly its pairs, in order. */
  lemma RequestRoundTrip(p: RequestParams)
    ensures FormUrlEncoded.Parse(Query(p)) == Some(SearchPairs(FormattedParams(p)))
  {
    FormUrlEncoded.ParseSerialize(SearchPairs(FormattedParams(p)));
  }

  /** Without a filter named `per_page`, the request carries the page size it was given,
      0 included, and 200 when it was given null or undefined. */
  lemma PerPageDefault(p: RequestParams)
    requires LastFilterValue(Filters(p), "per_page") == None
    ensures Get(SearchPairs(FormattedParams(p)), "per_page")
            == Some(if p.perPage == Undefined || p.perPage == Null then "200" else ToString(p.perPage))
  {
    RequestValues(p, "per_page");
    assert NatToDecimal(200) == "200" by {
      assert NatToDecimal(2) == "2";
      assert NatToDecimal(20) == "20";
    }
  }

  /** Filters with a falsy field (missing, null, empty) contribute nothing. */
  lemma FalsyFiltersIgnored(acc: seq<(string, Js)>, fs: seq<FilterParam>, f: FilterParam)
    requires !Truthy(f.field)
    ensures ApplyFilters(acc, fs + [f]) == ApplyFilters(acc, fs)
  {
    assert (fs + [f])[..|fs|] == fs;
  }
}
