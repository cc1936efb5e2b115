/**
 The `ISO` class of `isocodes/__init__.py`: one loaded dataset and the views
 over it. Loading is left out; the dataset is the ordered list of records the
 JSON file held.
 */
module Iso {
  import opened Records
  import opened LexOrder

  /** An `ISO` instance after `__init__`: its standard key and its records. */
  datatype Dataset = Dataset(isoKey: string, data: seq<Record>)

  /** `len(iso)`. */
  function Len(iso: Dataset): (n: nat) {
    |iso.data|
  }

  /** `iso.items`: the loaded records themselves, in file order. */
  function Items(iso: Dataset): (rs: seq<Record>) {
    iso.data
  }

  // ---------------------------------------------------------------------------
  // `_name_from_index`: (code, name) pairs in dataset order.

  /** The list a caller gets by consuming `_name_from_index(index)` fully.
      `element[index]` or `element["name"]` on a record lacking the field
      raises `KeyError` when the generator reaches that record. */
  function NameFromIndex(data: seq<Record>, index: string): (r: Result<seq<(string, string)>>)
    ensures r.Ok? <==> AllHave(data, index) && AllHave(data, "name")
    ensures r.Err? ==> r.error == KeyError
    ensures r.Ok? ==> |r.value| == |data|
    ensures r.Ok? ==> forall i :: 0 <= i < |data| ==> r.value[i] == (data[i][index], data[i]["name"])
    decreases |data|
  {
    if |data| == 0 then Ok([])
    else if index !in data[0] || "name" !in data[0] then Err(KeyError)
    else
      match NameFromIndex(data[1..], index)
      case Err(e) => Err(e)
      case Ok(rest) => Ok([(data[0][index], data[0]["name"])] + rest)
  }

  // ---------------------------------------------------------------------------
  // `_sorted_by_index`: `sorted((element[index], element) for element in data)`.

  /** One element of a sorted view: a field value and the record holding it. */
  type Entry = (string, Record)

  /** The records of a view, in view order. */
  function RecordsOf(s: seq<Entry>): (r: seq<Record>)
    ensures |r| == |s| && forall i :: 0 <= i < |s| ==> r[i] == s[i].1
  {
    seq(|s|, i requires 0 <= i < |s| => s[i].1)
  }

  /** Field values never decrease along the view. */
  predicate Sorted(s: seq<Entry>) {
    forall i, j :: 0 <= i < j < |s| ==> LexLe(s[i].0, s[j].0)
  }

  /** Field values strictly increase along the view. */
  predicate Strict(s: seq<Entry>) {
    forall i, j :: 0 <= i < j < |s| ==> LexLt(s[i].0, s[j].0)
  }

  /** No entry of `s` carries the field value `k`. */
  predicate KeyAbsent(s: seq<Entry>, k: string) {
    forall i :: 0 <= i < |s| ==> s[i].0 != k
  }

  /** Place `x` after every entry whose value is smaller than its own. */
  function Insert(x: Entry, s: seq<Entry>): (r: seq<Entry>)
    ensures multiset(r) == multiset(s) + multiset{x}
    decreases |s|
  {
    if |s| == 0 then [x]
    else if LexLt(s[0].0, x.0) then
      assert s == [s[0]] + s[1..];
      [s[0]] + Insert(x, s[1..])
    else [x] + s
  }

  /** Insertion sort of the entries by field value. */
  function Sort(s: seq<Entry>): (r: seq<Entry>)
    ensures multiset(r) == multiset(s)
    decreases |s|
  {
    if |s| == 0 then []
    else
      assert s == [s[0]] + s[1..];
      Insert(s[0], Sort(s[1..]))
  }

  lemma {:induction false} InsertSorted(x: Entry, s: seq<Entry>)
    requires Sorted(s)
    ensures Sorted(Insert(x, s))
    decreases |s|
  {
    if |s| > 0 {
      var r := Insert(x, s);
      if LexLt(s[0].0, x.0) {
        var t := Insert(x, s[1..]);
        InsertSorted(x, s[1..]);
        assert r == [s[0]] + t;
        forall j | 0 <= j < |t|
          ensures LexLe(s[0].0, t[j].0)
        {
          assert t[j] in multiset(s[1..]) + multiset{x};
          if t[j] != x {
            assert t[j] in s[1..];
          }
        }
      } else {
        LexLtTotal(s[0].0, x.0);
        forall i, j | 0 <= i < j < |r|
          ensures LexLe(r[i].0, r[j].0)
        {
          if i == 0 {
            LexLeTransitive(x.0, s[0].0, s[j - 1].0);
          }
        }
      }
    }
  }

  lemma {:induction false} InsertStrict(x: Entry, s: seq<Entry>)
    requires Strict(s) && KeyAbsent(s, x.0)
    ensures Strict(Insert(x, s))
    decreases |s|
  {
    if |s| > 0 {
      var r := Insert(x, s);
      if LexLt(s[0].0, x.0) {
        var t := Insert(x, s[1..]);
        InsertStrict(x, s[1..]);
        assert r == [s[0]] + t;
        forall j | 0 <= j < |t|
          ensures LexLt(s[0].0, t[j].0)
        {
          assert t[j] in multiset(s[1..]) + multiset{x};
          if t[j] != x {
            assert t[j] in s[1..];
          }
        }
      } else {
        LexLtTotal(s[0].0, x.0);
        forall i, j | 0 <= i < j < |r|
          ensures LexLt(r[i].0, r[j].0)
        {
          if i == 0 && j > 1 {
            LexLtTransitive(x.0, s[0].0, s[j - 1].0);
          }
        }
      }
    }
  }

  lemma {:induction false} SortSorted(s: seq<Entry>)
    ensures Sorted(Sort(s))
    decreases |s|
  {
    if |s| > 0 {
      SortSorted(s[1..]);
      InsertSorted(s[0], Sort(s[1..]));
    }
  }

  /** Field values that are pairwise distinct come out strictly increasing. */
  lemma {:induction false} SortStrict(s: seq<Entry>)
    requires forall i, j :: 0 <= i < j < |s| ==> s[i].0 != s[j].0
    ensures Strict(Sort(s))
    decreases |s|
  {
    if |s| > 0 {
      var t := Sort(s[1..]);
      SortStrict(s[1..]);
      forall i | 0 <= i < |t|
        ensures t[i].0 != s[0].0
      {
        assert t[i] in multiset(s[1..]);
        var k :| 0 <= k < |s[1..]| && s[1..][k] == t[i];
        assert s[k + 1] == t[i];
      }
      InsertStrict(s[0], t);
    }
  }

  /** Insertion adds exactly one record to the records of the view. */
  lemma {:induction false} InsertRecords(x: Entry, s: seq<Entry>)
    ensures multiset(RecordsOf(Insert(x, s))) == multiset(RecordsOf(s)) + multiset{x.1}
    decreases |s|
  {
    var r := Insert(x, s);
    if |s| == 0 {
      assert RecordsOf(r) == [x.1];
    } else {
      assert s == [s[0]] + s[1..];
      RecordsCons(s[0], s[1..]);
      if LexLt(s[0].0, x.0) {
        var t := Insert(x, s[1..]);
        InsertRecords(x, s[1..]);
        assert r == [s[0]] + t;
        RecordsCons(s[0], t);
        calc {
          multiset(RecordsOf(r));
          multiset([s[0].1] + RecordsOf(t));
          multiset{s[0].1} + multiset(RecordsOf(t));
          multiset{s[0].1} + multiset(RecordsOf(s[1..])) + multiset{x.1};
          multiset([s[0].1] + RecordsOf(s[1..])) + multiset{x.1};
        }
      } else {
        assert r == [x] + s;
        RecordsCons(x, s);
      }
    }
  }

  lemma RecordsCons(e: Entry, s: seq<Entry>)
    ensures RecordsOf([e] + s) == [e.1] + RecordsOf(s)
    ensures multiset(RecordsOf([e] + s)) == multiset{e.1} + multiset(RecordsOf(s))
  {
    assert RecordsOf([e] + s) == [e.1] + RecordsOf(s);
  }

  lemma SortStepRecords(s: seq<Entry>)
    requires |s| > 0
    ensures multiset(RecordsOf(Sort(s))) == multiset(RecordsOf(Sort(s[1..]))) + multiset{s[0].1}
  {
    InsertRecords(s[0], Sort(s[1..]));
  }

  lemma HeadRecords(s: seq<Entry>)
    requires |s| > 0
    ensures multiset(RecordsOf(s)) == multiset{s[0].1} + multiset(RecordsOf(s[1..]))
  {
    assert [s[0]] + s[1..] == s;
    RecordsCons(s[0], s[1..]);
  }

  lemma {:induction false} SortRecords(s: seq<Entry>)
    ensures multiset(RecordsOf(Sort(s))) == multiset(RecordsOf(s))
    decreases |s|
  {
    if |s| > 0 {
      SortRecords(s[1..]);
      SortStepRecords(s);
      HeadRecords(s);
    }
  }

  /** The `(element[index], element)` pairs, in dataset order. */
  function Pairs(data: seq<Record>, index: string): (r: seq<Entry>)
    requires AllHave(data, index)
    ensures |r| == |data| && RecordsOf(r) == data
    ensures forall i :: 0 <= i < |data| ==> r[i] == (data[i][index], data[i])
  {
    seq(|data|, i requires 0 <= i < |data| => (data[i][index], data[i]))
  }

  /** Two records share the value of `index` yet are different dicts: Python
      then falls through to comparing the dicts, which raises `TypeError`. */
  predicate Clash(data: seq<Record>, index: string) {
    exists i, j :: 0 <= i < |data| && 0 <= j < |data| &&
      index in data[i] && index in data[j] &&
      data[i][index] == data[j][index] && data[i] != data[j]
  }

  /** Every record has `index`, and no two records share its value. */
  predicate DistinctValues(data: seq<Record>, index: string) {
    AllHave(data, index) &&
    forall i, j :: 0 <= i < |data| && 0 <= j < |data| && i != j ==> data[i][index] != data[j][index]
  }

  /** `_sorted_by_index(index)`. Building the list of pairs comes first, so a
      record without `index` raises `KeyError` before any comparison; sorting
      then raises `TypeError` exactly when two pairs tie on the value but hold
      different records (tuples compare their second components only on a tie). */
  function SortedByIndex(data: seq<Record>, index: string): (r: Result<seq<Entry>>)
    ensures r == Err(KeyError) <==> !AllHave(data, index)
    ensures r == Err(TypeError) <==> AllHave(data, index) && Clash(data, index)
    ensures r.Ok? <==> AllHave(data, index) && !Clash(data, index)
    ensures r.Ok? ==> |r.value| == |data| && multiset(r.value) == multiset(Pairs(data, index))
  {
    if !AllHave(data, index) then Err(KeyError)
    else if Clash(data, index) then Err(TypeError)
    else Ok(Sort(Pairs(data, index)))
  }

  /** A successful view is ordered by field value; each tie holds one and the
      same record, so the order is the one Python's tuple comparison gives. */
  lemma SortedByIndexOrdered(data: seq<Record>, index: string)
    requires SortedByIndex(data, index).Ok?
    ensures Sorted(SortedByIndex(data, index).value)
    ensures forall i, j :: 0 <= i < j < |data| ==> var v := SortedByIndex(data, index).value;
      v[i].0 == v[j].0 ==> v[i].1 == v[j].1
  {
    var p := Pairs(data, index);
    var v := SortedByIndex(data, index).value;
    SortSorted(p);
    forall i, j | 0 <= i < j < |data| && v[i].0 == v[j].0
      ensures v[i].1 == v[j].1
    {
      assert v[i] in multiset(p) && v[j] in multiset(p);
      var a :| 0 <= a < |p| && p[a] == v[i];
      var b :| 0 <= b < |p| && p[b] == v[j];
      assert data[a][index] == data[b][index];
    }
  }

  /** With pairwise distinct values the view never fails and is strictly
      increasing. */
  lemma SortedByIndexStrict(data: seq<Record>, index: string)
    requires DistinctValues(data, index)
    ensures SortedByIndex(data, index).Ok?
    ensures Strict(SortedByIndex(data, index).value)
  {
    var p := Pairs(data, index);
    SortStrict(p);
  }

  /** A view holds exactly the dataset's records, each as often as in the
      dataset, and each entry's value is its record's field. */
  lemma SortedByIndexPermutes(data: seq<Record>, index: string)
    requires SortedByIndex(data, index).Ok?
    ensures multiset(RecordsOf(SortedByIndex(data, index).value)) == multiset(data)
    ensures forall e :: e in SortedByIndex(data, index).value ==>
      e.1 in data && index in e.1 && e.1[index] == e.0
  {
    var p := Pairs(data, index);
    SortRecords(p);
    var v := SortedByIndex(data, index).value;
    forall e | e in v
      ensures e.1 in data && index in e.1 && e.1[index] == e.0
    {
      assert e in multiset(p);
      var a :| 0 <= a < |p| && p[a] == e;
    }
  }

  /** Two views of one dataset over different fields hold the same records. */
  lemma ViewsHoldSameRecords(data: seq<Record>, f: string, g: string)
    requires SortedByIndex(data, f).Ok? && SortedByIndex(data, g).Ok?
    ensures multiset(RecordsOf(SortedByIndex(data, f).value))
         == multiset(RecordsOf(SortedByIndex(data, g).value))
  {
    SortedByIndexPermutes(data, f);
    SortedByIndexPermutes(data, g);
  }

  /** `len` counts the same records every view and the name list enumerate. */
  lemma LenMatchesViews(iso: Dataset, index: string)
    ensures SortedByIndex(Items(iso), index).Ok? ==> |SortedByIndex(Items(iso), index).value| == Len(iso)
    ensures NameFromIndex(Items(iso), index).Ok? ==> |NameFromIndex(Items(iso), index).value| == Len(iso)
    ensures Items(iso) == iso.data
  {
  }

  /** Every (code, name) pair of the name list is found, by its code, in the
      sorted view over the same field, on a record with that name. */
  lemma NamesAgreeWithView(data: seq<Record>, index: string)
    requires NameFromIndex(data, index).Ok? && SortedByIndex(data, index).Ok?
    ensures forall i :: 0 <= i < |data| ==>
      exists e :: e in SortedByIndex(data, index).value &&
        e.0 == NameFromIndex(data, index).value[i].0 &&
        "name" in e.1 && e.1["name"] == NameFromIndex(data, index).value[i].1
  {
    var p := Pairs(data, index);
    var v := SortedByIndex(data, index).value;
    forall i | 0 <= i < |data|
      ensures exists e :: e in v && e.0 == data[i][index] && "name" in e.1 && e.1["name"] == data[i]["name"]
    {
      assert p[i] in multiset(v);
    }
  }

  // ---------------------------------------------------------------------------
  // `get(**kwargs)`.

  /** A keyword argument's value: a string, or anything else (`None`, a number,
      a list, a dict), which never equals a string field. */
  datatype Arg = Str(s: string) | NonStr

  /** `key in element and element[key] == value`. */
  predicate Matches(r: Record, key: string, v: Arg) {
    key in r && v.Str? && r[key] == v.s
  }

  /** The list comprehension of `get`: matching records in dataset order. */
  function Filter(data: seq<Record>, key: string, v: Arg): (r: seq<Record>)
    ensures |r| == 0 <==> forall i :: 0 <= i < |data| ==> !Matches(data[i], key, v)
    ensures |r| > 0 ==> exists i :: 0 <= i < |data| && data[i] == r[0] && Matches(data[i], key, v) &&
                                  forall j :: 0 <= j < i ==> !Matches(data[j], key, v)
    decreases |data|
  {
    if |data| == 0 then []
    else
      var rest := Filter(data[1..], key, v);
      if Matches(data[0], key, v) then [data[0]] + rest
      else
        assert forall i :: 1 <= i < |data| ==> data[i] == data[1..][i - 1];
        if |rest| > 0 then
          var i :| 0 <= i < |data[1..]| && data[1..][i] == rest[0] && Matches(data[1..][i], key, v) &&
            forall j :: 0 <= j < i ==> !Matches(data[1..][j], key, v);
          assert data[i + 1] == rest[0];
          rest
        else rest
  }

  /** `get(**kwargs)`. Only the first keyword is consulted; with none,
      `next(iter(kwargs))` raises `StopIteration`. The result is the first
      record whose field equals the value exactly, else `{}`. */
  function Get(data: seq<Record>, criteria: seq<(string, Arg)>): (r: Result<Record>)
    ensures r.Err? <==> |criteria| == 0
    ensures r.Err? ==> r.error == StopIteration
    ensures r.Ok? ==> (r.value == map[] <==>
      forall i :: 0 <= i < |data| ==> !Matches(data[i], criteria[0].0, criteria[0].1))
    ensures r.Ok? && r.value != map[] ==>
      exists i :: 0 <= i < |data| && data[i] == r.value && Matches(data[i], criteria[0].0, criteria[0].1) &&
        forall j :: 0 <= j < i ==> !Matches(data[j], criteria[0].0, criteria[0].1)
  {
    if |criteria| == 0 then Err(StopIteration)
    else
      var matches := Filter(data, criteria[0].0, criteria[0].1);
      if |matches| == 0 then Ok(map[]) else Ok(matches[0])
  }

  /** The result of `get` is `{}` or a dataset record holding the value
      exactly; records lacking the field are passed over. */
  lemma GetFindsExactValue(data: seq<Record>, key: string, v: string, rest: seq<(string, Arg)>)
    ensures Get(data, [(key, Str(v))] + rest).Ok?
    ensures var r := Get(data, [(key, Str(v))] + rest).value;
      r == map[] || (r in data && key in r && r[key] == v)
    ensures Get(data, [(key, Str(v))] + rest) == Get(data, [(key, Str(v))])
  {
  }

  /** A value that is not a string never matches, whatever the dataset. */
  lemma GetNonStringIsEmpty(data: seq<Record>, key: string)
    ensures Get(data, [(key, NonStr)]) == Ok(map[])
  {
  }
}
