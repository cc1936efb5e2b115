/**
 The per-standard subclasses of `ISO` in `isocodes/__init__.py`. Each one only
 names the fields its `by_*` properties sort on and the field its `name`
 property pairs with `"name"`; here those choices are constants of a `Kind`.
 */
module Datasets {
  import opened Records
  import opened Iso

  datatype Kind =
    | Countries
    | Languages
    | Currencies
    | SubdivisionsCountries
    | FormerCountries
    | ExtendedLanguages
    | LanguageFamilies
    | ScriptNames

  /** The standard each module-level instance is loaded with. */
  function IsoKey(k: Kind): (key: string) {
    match k
    case Countries => "3166-1"
    case Languages => "639-2"
    case Currencies => "4217"
    case SubdivisionsCountries => "3166-2"
    case FormerCountries => "3166-3"
    case ExtendedLanguages => "639-3"
    case LanguageFamilies => "639-5"
    case ScriptNames => "15924"
  }

  /** The fields with a `by_<field>` property on the subclass. */
  function SortFields(k: Kind): (fields: set<string>) {
    match k
    case Countries => {"alpha_2", "alpha_3", "common_name", "name", "numeric"}
    case Languages => {"alpha_3", "name"}
    case Currencies => {"alpha_3", "name", "numeric"}
    case SubdivisionsCountries => {"code", "name", "type"}
    case FormerCountries => {"alpha_2", "alpha_3", "alpha_4", "name", "numeric", "withdrawal_date"}
    case ExtendedLanguages => {"alpha_3", "name", "scope", "type"}
    case LanguageFamilies => {"alpha_3", "name"}
    case ScriptNames => {"alpha_4", "name", "numeric"}
  }

  /** The code field the `name` property pairs with each record's name. */
  function NameField(k: Kind): (field: string) {
    match k
    case Countries => "alpha_2"
    case Languages => "alpha_3"
    case Currencies => "alpha_3"
    case SubdivisionsCountries => "code"
    case FormerCountries => "alpha_2"
    case ExtendedLanguages => "alpha_3"
    case LanguageFamilies => "alpha_3"
    case ScriptNames => "alpha_4"
  }

  /** `<subclass>.by_<field>`. */
  function By(k: Kind, iso: Dataset, field: string): (r: Result<seq<Entry>>)
    requires field in SortFields(k)
    ensures r.Ok? ==> |r.value| == Len(iso)
    ensures r.Ok? ==> forall e :: e in r.value ==> e.1 in Items(iso) && field in e.1 && e.1[field] == e.0
  {
    var r := SortedByIndex(Items(iso), field);
    if r.Ok? then SortedByIndexPermutes(Items(iso), field); r else r
  }

  /** `list(<subclass>.name)`: (code, name) pairs in dataset order. */
  function Names(k: Kind, iso: Dataset): (r: Result<seq<(string, string)>>)
    ensures r.Ok? <==> AllHave(Items(iso), NameField(k)) && AllHave(Items(iso), "name")
    ensures r.Ok? ==> |r.value| == Len(iso)
    ensures r.Ok? ==> forall i :: 0 <= i < Len(iso) ==>
      r.value[i].0 == Items(iso)[i][NameField(k)] && r.value[i].1 == Items(iso)[i]["name"]
  {
    NameFromIndex(Items(iso), NameField(k))
  }

  /** Every subclass sorts by `name`, and its `name` property's code field is
      one it can also sort by. */
  lemma NameFieldSortable(k: Kind)
    ensures "name" in SortFields(k)
    ensures NameField(k) in SortFields(k)
  {
  }

  /** `by_common_name` raises `KeyError` as soon as one country lacks
      `common_name`: the property cannot return a partial list. */
  lemma CommonNameViewFailsOnMissingField(iso: Dataset)
    requires exists i :: 0 <= i < Len(iso) && "common_name" !in Items(iso)[i]
    ensures By(Countries, iso, "common_name") == Err(KeyError)
  {
  }

  /** The views that are keyed by a unique code succeed, strictly increasing,
      on any dataset whose codes are distinct. */
  lemma CodeViewStrict(k: Kind, iso: Dataset)
    requires DistinctValues(Items(iso), NameField(k))
    ensures By(k, iso, NameField(k)).Ok?
    ensures Strict(By(k, iso, NameField(k)).value)
  {
    SortedByIndexStrict(Items(iso), NameField(k));
  }
}
