/** The public home page (app/page.tsx): the manufacturer list and its
    initial selection, and the Year → Model grouping of the selected
    manufacturer's donor sleds with its totals. */
module Home {
  import opened Wrappers
  import opened Strings
  import opened Seqs
  import opened Sorting

  // ---------------------------------------------------------------------
  // Manufacturers

  /** `(r?.make ?? '').trim()`: a missing row or make counts as blank. */
  function TrimmedMake(make: Option<string>): string {
    Trim(make.GetOr([]))
  }

  predicate NonBlank(s: string) {
    s != []
  }

  /** The trimmed makes of the loaded rows, in row order (`data ?? []`). */
  function TrimmedMakes(data: Option<seq<Option<string>>>): (r: seq<string>)
    ensures |r| == |data.GetOr([])|
    ensures forall i :: 0 <= i < |r| ==> r[i] == TrimmedMake(data.GetOr([])[i])
  {
    Map(data.GetOr([]), TrimmedMake)
  }

  /** `Array.from(new Set(trimmed.filter(Boolean)))`: every non-blank
      trimmed make once. */
  function UniqueMakes(data: Option<seq<Option<string>>>): (r: seq<string>)
    ensures Distinct(r)
    ensures forall m :: m in r <==> m != [] && m in TrimmedMakes(data)
  {
    Dedup(Filter(TrimmedMakes(data), NonBlank))
  }

  /** The manufacturers are trimmed and non-blank. */
  lemma MakesTrimmed(data: Option<seq<Option<string>>>, i: int)
    requires 0 <= i < |UniqueMakes(data)|
    ensures var m := UniqueMakes(data)[i];
      m != [] && Trim(m) == m
  {
    var t := TrimmedMakes(data);
    var m := UniqueMakes(data)[i];
    assert m in UniqueMakes(data);
    var k :| 0 <= k < |t| && t[k] == m;
    TrimIdempotent(data.GetOr([])[k].GetOr([]));
  }

  /** The manufacturers appear in the order of their first occurrence
      among the rows. */
  lemma MakesInFirstOccurrenceOrder(data: Option<seq<Option<string>>>, i: int, j: int)
    requires 0 <= i < j < |UniqueMakes(data)|
    ensures var r := UniqueMakes(data);
      FirstIndex(TrimmedMakes(data), r[i]) < FirstIndex(TrimmedMakes(data), r[j])
  {
    var t := TrimmedMakes(data);
    var r := UniqueMakes(data);
    var f := Filter(t, NonBlank);
    assert r == Dedup(f);
    assert r[i] in r && r[j] in r;
    assert FirstIndex(f, r[i]) < FirstIndex(f, r[j]);
    FilterFirstIndex(t, NonBlank, r[i], r[j]);
  }

  /** `unique[0] ?? ''`: the make selected when the page loads. */
  function InitialMake(data: Option<seq<Option<string>>>): string {
    var r := UniqueMakes(data);
    if r == [] then [] else r[0]
  }

  /** The initial make is blank exactly when every row's make is blank. */
  lemma InitialMakeBlank(data: Option<seq<Option<string>>>)
    ensures var t := TrimmedMakes(data);
      InitialMake(data) == [] <==> forall i :: 0 <= i < |t| ==> t[i] == []
  {
    var t := TrimmedMakes(data);
    var r := UniqueMakes(data);
    if r == [] {
      forall i | 0 <= i < |t| ensures t[i] == [] {
        assert t[i] in t;
      }
    } else {
      assert r[0] in r;
      MakesTrimmed(data, 0);
    }
  }

  /** Otherwise it is the trimmed make of the first row whose make is not
      blank. */
  lemma InitialMakeIsFirst(data: Option<seq<Option<string>>>)
    requires InitialMake(data) != []
    ensures var t := TrimmedMakes(data); var i := FirstIndex(t, InitialMake(data));
      forall j :: 0 <= j < i ==> t[j] == []
  {
    var t := TrimmedMakes(data);
    var r := UniqueMakes(data);
    assert r[0] in r;
    var i := FirstIndex(t, r[0]);
    forall j | 0 <= j < i ensures t[j] == [] {
      if t[j] != [] {
        assert t[j] in t;
        assert t[j] in r;
        var k :| 0 <= k < |r| && r[k] == t[j];
        assert FirstIndex(t, t[j]) <= j;
        if k > 0 {
          MakesInFirstOccurrenceOrder(data, 0, k);
        }
      }
    }
  }

  // ---------------------------------------------------------------------
  // Year → Model grouping

  /** A row of `v_public_donors_in_stock`. */
  datatype HomeDonor = HomeDonor(
    id: string,
    make: Option<string>,
    model: Option<string>,
    year: Option<int>,
    coverUrl: Option<string>,
    partsInStock: Option<int>)

  /** The label shared by donors without a year or without a model. */
  const Dash: string := "—"

  /** The year bucket of a donor: its year, or none when the year is
      missing or 0. */
  datatype YearKey = Year(n: int) | NoYear

  function YearKeyOf(d: HomeDonor): YearKey {
    if d.year.Some? && d.year.value != 0 then Year(d.year.value) else NoYear
  }

  /** `d.year ? String(d.year) : '—'`: the heading of a year block. */
  function YearLabel(k: YearKey): string {
    match k
    case Year(n) => IntToString(n)
    case NoYear => Dash
  }

  /** Distinct year buckets have distinct headings, so grouping by the
      heading string is grouping by the bucket. */
  lemma YearLabelInjective(a: YearKey, b: YearKey)
    requires YearLabel(a) == YearLabel(b)
    ensures a == b
  {
    if a.Year? && b.Year? {
      IntToStringInjective(a.n, b.n);
    }
  }

  /** A donor with a missing or zero year is listed under `—`; any other
      donor under the decimal text of its year. */
  lemma YearHeading(d: HomeDonor)
    ensures YearLabel(YearKeyOf(d)) == Dash <==> d.year.None? || d.year == Some(0)
    ensures d.year.Some? && d.year.value != 0 ==> YearLabel(YearKeyOf(d)) == IntToString(d.year.value)
  {
    var t := YearLabel(YearKeyOf(d));
    if YearKeyOf(d).Year? {
      assert t[0] == '-' || IsDigit(t[0]);
      assert Dash[0] == '\U{2014}';
    }
  }

  /** `(d.model ?? '—').trim() || '—'`: the model bucket of a donor. */
  function ModelKeyOf(d: HomeDonor): string {
    var t := Trim(d.model.GetOr(Dash));
    if t == [] then Dash else t
  }

  /** A donor goes to model `—` exactly when its model is missing, blank,
      or `—` itself once trimmed; otherwise to its trimmed model name. */
  lemma ModelKeyFacts(d: HomeDonor)
    ensures ModelKeyOf(d) != []
    ensures ModelKeyOf(d) == Dash <==> d.model.None? || AllSpace(d.model.value) || Trim(d.model.value) == Dash
    ensures ModelKeyOf(d) != Dash ==> ModelKeyOf(d) == Trim(d.model.value)
  {
    if d.model.None? {
      assert Dash[0] == '\U{2014}' && !IsSpace(Dash[0]);
      assert TrimStart(Dash) == Dash;
    }
  }

  /** The order of year blocks: years from newest to oldest, `—` last. */
  predicate YearBefore(a: YearKey, b: YearKey) {
    a.Year? && (b.NoYear? || a.n > b.n)
  }

  lemma YearOrder()
    ensures StrictTotalOrder(YearBefore)
  {
  }

  /** The order of model names: lexicographic by code point, standing in
      for `localeCompare`. */
  predicate StrLess(a: string, b: string)
    decreases |a|
  {
    if a == [] then b != []
    else if b == [] then false
    else if a[0] != b[0] then a[0] < b[0]
    else StrLess(a[1..], b[1..])
  }

  lemma {:induction false} StrLessIrreflexive(a: string)
    ensures !StrLess(a, a)
    decreases |a|
  {
    if a != [] {
      StrLessIrreflexive(a[1..]);
    }
  }

  lemma {:induction false} StrLessTransitive(a: string, b: string, c: string)
    requires StrLess(a, b) && StrLess(b, c)
    ensures StrLess(a, c)
    decreases |a|
  {
    if a != [] && a[0] == b[0] && b[0] == c[0] {
      StrLessTransitive(a[1..], b[1..], c[1..]);
    }
  }

  lemma {:induction false} StrLessTotal(a: string, b: string)
    requires a != b
    ensures StrLess(a, b) || StrLess(b, a)
    decreases |a|
  {
    if a != [] && b != [] && a[0] == b[0] {
      assert a == [a[0]] + a[1..] && b == [b[0]] + b[1..];
      StrLessTotal(a[1..], b[1..]);
    }
  }

  lemma StrOrder()
    ensures StrictTotalOrder(StrLess)
  {
    forall a ensures !StrLess(a, a) {
      StrLessIrreflexive(a);
    }
    forall a, b, c | StrLess(a, b) && StrLess(b, c) ensures StrLess(a, c) {
      StrLessTransitive(a, b, c);
    }
    forall a, b | a != b ensures StrLess(a, b) || StrLess(b, a) {
      StrLessTotal(a, b);
    }
  }

  /** The donors of one (year, model) bucket, in input order. */
  datatype ModelGroup = ModelGroup(model: string, donors: seq<HomeDonor>)

  /** One year heading and its model groups. */
  datatype YearBlock = YearBlock(key: YearKey, year: string, models: seq<ModelGroup>)

  /** The groups of `ds` for the model names `models`, in that order. */
  function Groups(ds: seq<HomeDonor>, models: seq<string>): (r: seq<ModelGroup>)
    ensures |r| == |models|
    ensures forall i :: 0 <= i < |r| ==> r[i] == ModelGroup(models[i], Select(ds, ModelKeyOf, models[i]))
  {
    if models == [] then [] else [ModelGroup(models[0], Select(ds, ModelKeyOf, models[0]))] + Groups(ds, models[1..])
  }

  /** The donors of year bucket `k`, in input order. */
  function InYear(donors: seq<HomeDonor>, k: YearKey): seq<HomeDonor> {
    Select(donors, YearKeyOf, k)
  }

  /** The model names used in year bucket `k`, sorted. */
  function ModelsOf(donors: seq<HomeDonor>, k: YearKey): seq<string> {
    SortedKeys(Map(InYear(donors, k), ModelKeyOf), StrLess)
  }

  function Block(donors: seq<HomeDonor>, k: YearKey): YearBlock {
    YearBlock(k, YearLabel(k), Groups(InYear(donors, k), ModelsOf(donors, k)))
  }

  function Blocks(donors: seq<HomeDonor>, years: seq<YearKey>): (r: seq<YearBlock>)
    ensures |r| == |years|
    ensures forall i :: 0 <= i < |r| ==> r[i] == Block(donors, years[i])
  {
    if years == [] then [] else [Block(donors, years[0])] + Blocks(donors, years[1..])
  }

  /** The year buckets used by the donors, newest first. */
  function YearsOf(donors: seq<HomeDonor>): seq<YearKey> {
    SortedKeys(Map(donors, YearKeyOf), YearBefore)
  }

  /** `grouped`: the donors bucketed by year and then by model, the years
      ordered newest first with `—` last, the models ascending. */
  function Grouped(donors: seq<HomeDonor>): (r: seq<YearBlock>)
    ensures forall i :: 0 <= i < |r| ==> r[i].year == YearLabel(r[i].key)
  {
    Blocks(donors, YearsOf(donors))
  }

  /** The property names a plain object inherits from `Object.prototype`.
      For such a model, `byYear[year][model]` finds the inherited value (a
      function, or the prototype itself for `__proto__`), which is truthy, so
      `||= []` keeps it and `.push(d)` throws a TypeError. */
  const InheritedNames: set<string> := {
    "constructor", "hasOwnProperty", "isPrototypeOf", "propertyIsEnumerable",
    "toLocaleString", "toString", "valueOf", "__defineGetter__",
    "__defineSetter__", "__lookupGetter__", "__lookupSetter__", "__proto__"
  }

  /** The first key from position `i` on that is an inherited name. */
  function FirstInherited(keys: seq<string>, i: nat): (r: Option<nat>)
    requires i <= |keys|
    ensures r.None? <==> forall j :: i <= j < |keys| ==> keys[j] !in InheritedNames
    ensures r.Some? ==> i <= r.value < |keys| && keys[r.value] in InheritedNames
    ensures r.Some? ==> forall j :: i <= j < r.value ==> keys[j] !in InheritedNames
    decreases |keys| - i
  {
    if i == |keys| then None
    else if keys[i] in InheritedNames then Some(i)
    else FirstInherited(keys, i + 1)
  }

  /** Where the grouping loop throws: the first donor whose model key is an
      inherited name, or none. */
  function GroupingThrowsAt(donors: seq<HomeDonor>): (r: Option<nat>)
    ensures r.None? <==> forall i :: 0 <= i < |donors| ==> ModelKeyOf(donors[i]) !in InheritedNames
    ensures r.Some? ==> r.value < |donors| && ModelKeyOf(donors[r.value]) in InheritedNames
    ensures r.Some? ==> forall j :: 0 <= j < r.value ==> ModelKeyOf(donors[j]) !in InheritedNames
  {
    FirstInherited(Map(donors, ModelKeyOf), 0)
  }

  /** The grouping `useMemo` as it runs: the Year → Model blocks, or the
      TypeError thrown at the first colliding donor, which fails the page's
      render. */
  function Grouping(donors: seq<HomeDonor>): (r: Result<seq<YearBlock>, nat>)
    ensures r.Failure? <==> GroupingThrowsAt(donors).Some?
    ensures r.Failure? ==> r.error == GroupingThrowsAt(donors).value
    ensures r.Success? ==> r.value == Grouped(donors)
  {
    match GroupingThrowsAt(donors)
    case None => Success(Grouped(donors))
    case Some(i) => Failure(i)
  }

  /** A donor whose model is `constructor`, padded or not, makes the
      grouping throw. */
  lemma ConstructorModelThrows(donors: seq<HomeDonor>, i: int, pad: string)
    requires 0 <= i < |donors| && AllSpace(pad)
    requires donors[i].model == Some(pad + "constructor" + pad)
    ensures Grouping(donors).Failure?
  {
    PaddedModelKey(donors[i], pad, "constructor");
    assert ModelKeyOf(donors[i]) in InheritedNames;
  }

  /** A model typed with whitespace around a name whose ends are not
      whitespace goes to the bucket of that name. */
  lemma PaddedModelKey(d: HomeDonor, pad: string, name: string)
    requires AllSpace(pad) && name != [] && !IsSpace(name[0]) && !IsSpace(name[|name| - 1])
    requires d.model == Some(pad + name + pad)
    ensures ModelKeyOf(d) == name
  {
    TrimPadded(name, pad);
    TrimOfTrimmed(name);
  }

  /** A key occurs in the mapped list exactly when some element has it. */
  lemma MapMember<T, K>(xs: seq<T>, f: T -> K, i: int)
    requires 0 <= i < |xs|
    ensures f(xs[i]) in Map(xs, f)
  {
    assert Map(xs, f)[i] == f(xs[i]);
  }

  /** A position of a member of a list. */
  lemma PositionOf<T>(xs: seq<T>, v: T) returns (i: nat)
    requires v in xs
    ensures i < |xs| && xs[i] == v
  {
    i :| 0 <= i < |xs| && xs[i] == v;
  }

  lemma MapSource<T, K>(xs: seq<T>, f: T -> K, k: K) returns (i: int)
    requires k in Map(xs, f)
    ensures 0 <= i < |xs| && f(xs[i]) == k
  {
    i :| 0 <= i < |Map(xs, f)| && Map(xs, f)[i] == k;
  }

  /** The year blocks are in the page's order, each year once: strictly
      newest first, with `—` (no year) last. */
  lemma YearsOrdered(donors: seq<HomeDonor>)
    ensures var r := Grouped(donors);
      forall i, j :: 0 <= i < j < |r| ==> YearBefore(r[i].key, r[j].key)
  {
    YearOrder();
    SortedKeysSorted(Map(donors, YearKeyOf), YearBefore);
  }

  /** Within a year block the model names are distinct and ascending. */
  lemma ModelsOrdered(donors: seq<HomeDonor>, i: int)
    requires 0 <= i < |Grouped(donors)|
    ensures var ms := Grouped(donors)[i].models;
      forall j, l :: 0 <= j < l < |ms| ==> StrLess(ms[j].model, ms[l].model)
  {
    StrOrder();
    var k := YearsOf(donors)[i];
    SortedKeysSorted(Map(InYear(donors, k), ModelKeyOf), StrLess);
  }

  /** Every bucket holds exactly the donors with its year and model, in
      input order, and is never empty. */
  lemma BucketContents(donors: seq<HomeDonor>, i: int, j: int)
    requires 0 <= i < |Grouped(donors)|
    requires 0 <= j < |Grouped(donors)[i].models|
    ensures var b := Grouped(donors)[i]; var g := b.models[j];
      && g.donors != []
      && IsSubsequence(g.donors, donors)
      && forall d :: d in g.donors <==> d in donors && YearKeyOf(d) == b.key && ModelKeyOf(d) == g.model
  {
    var k := YearsOf(donors)[i];
    var m := ModelsOf(donors, k)[j];
    GroupAt(donors, i, j);
    GroupContents(donors, k, m);
  }

  /** Where the group at position (i, j) comes from. */
  lemma GroupAt(donors: seq<HomeDonor>, i: int, j: int)
    requires 0 <= i < |Grouped(donors)|
    requires 0 <= j < |Grouped(donors)[i].models|
    ensures var k := YearsOf(donors)[i];
      && j < |ModelsOf(donors, k)|
      && Grouped(donors)[i].key == k
      && Grouped(donors)[i].models[j] == ModelGroup(ModelsOf(donors, k)[j], Select(InYear(donors, k), ModelKeyOf, ModelsOf(donors, k)[j]))
  {
  }

  /** The group of a model name used in year bucket `k`. */
  lemma GroupContents(donors: seq<HomeDonor>, k: YearKey, m: string)
    requires m in ModelsOf(donors, k)
    ensures var g := Select(InYear(donors, k), ModelKeyOf, m);
      && g != []
      && IsSubsequence(g, donors)
      && forall d :: d in g <==> d in donors && YearKeyOf(d) == k && ModelKeyOf(d) == m
  {
    var inYear := InYear(donors, k);
    SubsequenceTransitive(Select(inYear, ModelKeyOf, m), inYear, donors);
    GroupNonEmpty(donors, k, m);
  }

  lemma GroupNonEmpty(donors: seq<HomeDonor>, k: YearKey, m: string)
    requires m in ModelsOf(donors, k)
    ensures Select(InYear(donors, k), ModelKeyOf, m) != []
  {
    var inYear := InYear(donors, k);
    assert m in Map(inYear, ModelKeyOf);
    var x := MapSource(inYear, ModelKeyOf, m);
    assert inYear[x] in Select(inYear, ModelKeyOf, m);
  }

  /** Every donor lands in the bucket of its year and model: the returned
      position is that bucket. */
  lemma DonorPlaced(donors: seq<HomeDonor>, x: int) returns (i: nat, j: nat)
    requires 0 <= x < |donors|
    ensures var r := Grouped(donors);
      && i < |r| && j < |r[i].models| && donors[x] in r[i].models[j].donors
      && r[i].key == YearKeyOf(donors[x]) && r[i].models[j].model == ModelKeyOf(donors[x])
  {
    var d := donors[x];
    var k := YearKeyOf(d);
    MapMember(donors, YearKeyOf, x);
    var years := YearsOf(donors);
    i := PositionOf(years, k);
    var inYear := InYear(donors, k);
    assert d in inYear;
    var y := PositionOf(inYear, d);
    MapMember(inYear, ModelKeyOf, y);
    var ms := ModelsOf(donors, k);
    j := PositionOf(ms, ModelKeyOf(d));
    GroupAt(donors, i, j);
  }

  /** ... and in no other bucket. */
  lemma DonorOnlyInOwnBucket(donors: seq<HomeDonor>, d: HomeDonor, i: int, j: int)
    requires 0 <= i < |Grouped(donors)|
    requires 0 <= j < |Grouped(donors)[i].models|
    requires d in Grouped(donors)[i].models[j].donors
    ensures Grouped(donors)[i].key == YearKeyOf(d)
    ensures Grouped(donors)[i].models[j].model == ModelKeyOf(d)
  {
    BucketContents(donors, i, j);
  }

  // ---------------------------------------------------------------------
  // Totals

  /** The sum of `w` over the donors of a block's groups. */
  function ModelsWeight(gs: seq<ModelGroup>, w: HomeDonor -> int): int {
    if gs == [] then 0 else SumBy(gs[0].donors, w) + ModelsWeight(gs[1..], w)
  }

  function BlocksWeight(bs: seq<YearBlock>, w: HomeDonor -> int): int {
    if bs == [] then 0 else ModelsWeight(bs[0].models, w) + BlocksWeight(bs[1..], w)
  }

  lemma {:induction false} GroupsWeight(ds: seq<HomeDonor>, models: seq<string>, w: HomeDonor -> int)
    ensures ModelsWeight(Groups(ds, models), w) == GroupSums(ds, ModelKeyOf, models, w)
  {
    if models != [] {
      GroupsWeight(ds, models[1..], w);
      assert Groups(ds, models)[1..] == Groups(ds, models[1..]);
    }
  }

  /** A year block carries the total weight of the donors of its year. */
  lemma BlockWeight(donors: seq<HomeDonor>, k: YearKey, w: HomeDonor -> int)
    ensures ModelsWeight(Block(donors, k).models, w) == SumBy(InYear(donors, k), w)
  {
    var inYear := InYear(donors, k);
    var ms := ModelsOf(donors, k);
    StrOrder();
    SortedKeysSorted(Map(inYear, ModelKeyOf), StrLess);
    SortedDistinct(ms, StrLess);
    GroupsWeight(inYear, ms, w);
    forall y | 0 <= y < |inYear| ensures ModelKeyOf(inYear[y]) in ms {
      MapMember(inYear, ModelKeyOf, y);
    }
    PartitionSum(inYear, ModelKeyOf, ms, w);
  }

  lemma {:induction false} BlocksWeightByYear(donors: seq<HomeDonor>, years: seq<YearKey>, w: HomeDonor -> int)
    ensures BlocksWeight(Blocks(donors, years), w) == GroupSums(donors, YearKeyOf, years, w)
  {
    if years != [] {
      BlocksWeightByYear(donors, years[1..], w);
      BlockWeight(donors, years[0], w);
      assert Blocks(donors, years)[1..] == Blocks(donors, years[1..]);
    }
  }

  /** Grouping partitions the donors: summing any per-donor weight over all
      buckets gives its sum over all donors. */
  lemma GroupedPartition(donors: seq<HomeDonor>, w: HomeDonor -> int)
    ensures BlocksWeight(Grouped(donors), w) == SumBy(donors, w)
  {
    var years := YearsOf(donors);
    YearOrder();
    SortedKeysSorted(Map(donors, YearKeyOf), YearBefore);
    SortedDistinct(years, YearBefore);
    BlocksWeightByYear(donors, years, w);
    forall x | 0 <= x < |donors| ensures YearKeyOf(donors[x]) in years {
      MapMember(donors, YearKeyOf, x);
    }
    PartitionSum(donors, YearKeyOf, years, w);
  }

  /** `totalDonors`: the bucket sizes add up to the number of donors. */
  lemma BucketSizesSum(donors: seq<HomeDonor>)
    ensures BlocksWeight(Grouped(donors), One) == |donors|
  {
    GroupedPartition(donors, One);
    SumByOne(donors);
  }

  /** The donor count shown under a year heading is the number of donors
      of that year. */
  lemma BlockCount(donors: seq<HomeDonor>, i: int)
    requires 0 <= i < |Grouped(donors)|
    ensures var b := Grouped(donors)[i];
      ModelsWeight(b.models, One) == Count(donors, KeyIs(YearKeyOf, b.key))
  {
    var k := YearsOf(donors)[i];
    BlockWeight(donors, k, One);
    SumByOne(InYear(donors, k));
    FilterLength(donors, KeyIs(YearKeyOf, k));
  }

  /** `d.parts_in_stock || 0`: a missing count is 0. */
  function PartsOf(d: HomeDonor): int {
    d.partsInStock.GetOr(0)
  }

  /** `totalParts`. */
  function TotalParts(donors: seq<HomeDonor>): int {
    SumBy(donors, PartsOf)
  }

  /** The parts counted bucket by bucket add up to `totalParts`. */
  lemma TotalPartsByBucket(donors: seq<HomeDonor>)
    ensures BlocksWeight(Grouped(donors), PartsOf) == TotalParts(donors)
  {
    GroupedPartition(donors, PartsOf);
  }

  /** `totalParts` adds each donor's count once, missing counts as 0. */
  lemma {:induction false} TotalPartsAppend(xs: seq<HomeDonor>, d: HomeDonor)
    ensures TotalParts(xs + [d]) == TotalParts(xs) + (if d.partsInStock.Some? then d.partsInStock.value else 0)
  {
    SumByAppend(xs, [d], PartsOf);
  }
}
