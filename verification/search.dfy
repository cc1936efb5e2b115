/**
 The two list operations inside the `search_*` handlers of `isocodes/cli.py`:
 the `--limit` truncation every handler applies before formatting, and the
 `--country` filter of `search_subdivisions`.
 */
module Search {
  import opened Records
  import opened Text

  // ---------------------------------------------------------------------------
  // `--limit`.

  /** Python's `s[:k]` for an integer `k`: a negative stop counts from the end. */
  function SliceTo(s: seq<Record>, k: int): (r: seq<Record>)
    ensures |r| <= |s| && r == s[..|r|]
    ensures |r| == if k >= 0 then (if k < |s| then k else |s|) else (if |s| + k > 0 then |s| + k else 0)
  {
    if k >= 0 then (if k < |s| then s[..k] else s)
    else if |s| + k > 0 then s[..|s| + k] else []
  }

  /** `if args.limit and len(results) > args.limit: results = results[:args.limit]`,
      as written. `--limit` is parsed with `type=int`, so it can be negative. */
  function LimitAsWritten(results: seq<Record>, limit: Option<int>): (r: seq<Record>)
    ensures |r| <= |results| && r == results[..|r|]
    ensures limit.None? || limit == Some(0) ==> r == results
    ensures limit.Some? && limit.value > 0 ==>
      |r| == if limit.value < |results| then limit.value else |results|
    ensures limit.Some? && limit.value < 0 ==>
      |r| == if |results| + limit.value > 0 then |results| + limit.value else 0
  {
    if limit.Some? && limit.value != 0 && |results| > limit.value then SliceTo(results, limit.value)
    else results
  }

  /** A negative limit does not leave the list alone: `--limit -1` drops the
      last result, and `--limit -k` drops the last `k`. */
  lemma NegativeLimitDropsResults(results: seq<Record>, k: int)
    requires k < 0 && |results| > 0
    ensures |LimitAsWritten(results, Some(k))| < |results|
    ensures LimitAsWritten([map[], map["code" := "US-CA"]], Some(-1)) == [map[]]
  {
  }

  /** The truncation with only a positive limit taking effect: the first
      `min(k, n)` results for `k > 0`, the whole list otherwise. */
  function Limit(results: seq<Record>, limit: Option<int>): (r: seq<Record>)
    ensures |r| <= |results| && r == results[..|r|]
    ensures |r| == if limit.Some? && 0 < limit.value < |results| then limit.value else |results|
  {
    if limit.Some? && limit.value > 0 && |results| > limit.value then results[..limit.value]
    else results
  }

  /** The corrected truncation agrees with the written one whenever the limit
      is absent or non-negative, and never loses results to a negative one. */
  lemma LimitAgreesWhenNonNegative(results: seq<Record>, limit: Option<int>)
    ensures limit.None? || limit.value >= 0 ==> Limit(results, limit) == LimitAsWritten(results, limit)
    ensures limit.Some? && limit.value < 0 ==> Limit(results, limit) == results
  {
  }

  // ---------------------------------------------------------------------------
  // `--country`.

  /** `item.get("code", "").startswith(f"{country_code}-")`. */
  predicate InCountry(r: Record, countryCode: string) {
    StartsWith(Cell(r, "code"), countryCode + "-")
  }

  /** The subdivisions of one country, in dataset order. */
  function CountryFilter(items: seq<Record>, countryCode: string): (r: seq<Record>)
    ensures forall x :: x in r <==> x in items && InCountry(x, countryCode)
    ensures |r| <= |items|
    decreases |items|
  {
    if |items| == 0 then []
    else
      assert items == [items[0]] + items[1..];
      (if InCountry(items[0], countryCode) then [items[0]] else []) + CountryFilter(items[1..], countryCode)
  }

  /** The filter keeps dataset order: it splits over concatenation. */
  lemma {:induction false} CountryFilterKeepsOrder(a: seq<Record>, b: seq<Record>, countryCode: string)
    ensures CountryFilter(a + b, countryCode) == CountryFilter(a, countryCode) + CountryFilter(b, countryCode)
    decreases |a|
  {
    if |a| == 0 {
      assert a + b == b;
    } else {
      var ab := a + b;
      assert ab[0] == a[0] && ab[1..] == a[1..] + b;
      CountryFilterKeepsOrder(a[1..], b, countryCode);
      var head := if InCountry(a[0], countryCode) then [a[0]] else [];
      assert CountryFilter(ab, countryCode) == head + CountryFilter(ab[1..], countryCode);
      assert CountryFilter(a, countryCode) == head + CountryFilter(a[1..], countryCode);
    }
  }

  /** Each kept record appears as often as in the dataset; the others not at all. */
  lemma {:induction false} CountryFilterMultiplicity(items: seq<Record>, countryCode: string, x: Record)
    ensures multiset(CountryFilter(items, countryCode))[x] ==
      if InCountry(x, countryCode) then multiset(items)[x] else 0
    decreases |items|
  {
    if |items| > 0 {
      CountryFilterMultiplicity(items[1..], countryCode, x);
      assert items == [items[0]] + items[1..];
    }
  }

  /** A record without a `"code"` is never listed, whatever the country code:
      `""` does not start with a string ending in `"-"`. */
  lemma CodelessNeverListed(items: seq<Record>, countryCode: string, x: Record)
    requires "code" !in x
    ensures x !in CountryFilter(items, countryCode)
  {
  }

  /** Every listed subdivision code has the country code and the dash in front. */
  lemma CountryFilterCodes(items: seq<Record>, countryCode: string)
    ensures forall x :: x in CountryFilter(items, countryCode) ==>
      "code" in x && |x["code"]| > |countryCode| &&
      x["code"][..|countryCode|] == countryCode && x["code"][|countryCode|] == '-'
  {
    forall x | x in CountryFilter(items, countryCode)
      ensures "code" in x && |x["code"]| > |countryCode| &&
        x["code"][..|countryCode|] == countryCode && x["code"][|countryCode|] == '-'
    {
      var p := countryCode + "-";
      assert Cell(x, "code")[..|p|] == p;
      assert p[|countryCode|] == '-';
      assert Cell(x, "code")[..|countryCode|] == Cell(x, "code")[..|p|][..|countryCode|];
    }
  }
}
