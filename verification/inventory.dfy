/** The admin inventory list (app/admin/inventory/page.tsx): the optional
    listed-and-in-stock filter, the search over a part's fields and its donor
    sled, the "Visible" counter and the donor label of each row. */
module Inventory {
  import opened Wrappers
  import opened Strings
  import opened Seqs
  import opened Search

  /** The joined donor sled columns of a part row. */
  datatype DonorRef = DonorRef(year: Option<int>, make: Option<string>, model: Option<string>)

  /** A part row as the page loads it. `price` and `created_at` play no part
      in the list logic and are left out. */
  datatype PartRow = PartRow(
    id: string,
    title: string,
    category: Option<string>,
    condition: Option<string>,
    sku: Option<string>,
    partNumber: Option<string>,
    binLocation: Option<string>,
    quantity: int,
    isListed: bool,
    donor: Option<DonorRef>)

  /** Listed and in stock: what the page shows when hidden rows are off. */
  predicate IsVisible(p: PartRow) {
    p.isListed && p.quantity > 0
  }

  /** `year ? String(year) : null`: a missing or zero year contributes
      nothing. */
  function YearText(y: Option<int>): (r: Option<string>)
    ensures r.Some? <==> y.Some? && y.value != 0
    ensures r.Some? ==> r.value != [] && IntToString(y.value) == r.value
  {
    if y.Some? && y.value != 0 then Some(IntToString(y.value)) else None
  }

  /** The year, make and model of the part's donor, as `.filter(Boolean)`
      sees them; a part without a donor has none. */
  function DonorFields(p: PartRow): (r: seq<Option<string>>)
    ensures |r| == 3
    ensures p.donor.None? ==> forall i :: 0 <= i < 3 ==> r[i] == None
    ensures p.donor.Some? ==> r[0] == YearText(p.donor.value.year)
    ensures p.donor.Some? ==> r[1] == p.donor.value.make && r[2] == p.donor.value.model
  {
    match p.donor
    case None => [None, None, None]
    case Some(d) => [YearText(d.year), d.make, d.model]
  }

  /** `donorBits`: the present donor fields joined by single spaces. */
  function DonorBits(p: PartRow): string {
    JoinPresent(DonorFields(p))
  }

  /** The fields of the search blob, in the page's order. */
  function BlobFields(p: PartRow): seq<Option<string>> {
    [Some(p.title), p.category, p.condition, p.sku, p.partNumber, p.binLocation, Some(DonorBits(p))]
  }

  /** The lower-cased search blob of a part. */
  function Blob(p: PartRow): string {
    Lower(JoinPresent(BlobFields(p)))
  }

  /** The rows the visibility toggle lets through. */
  function Shown(parts: seq<PartRow>, showHidden: bool): seq<PartRow> {
    if showHidden then parts else Filter(parts, IsVisible)
  }

  /** `filteredParts`: the shown rows whose blob contains the trimmed,
      lower-cased query, in their order; a blank query keeps every shown
      row. */
  function FilteredParts(parts: seq<PartRow>, q: string, showHidden: bool): (r: seq<PartRow>)
    ensures IsSubsequence(r, Shown(parts, showHidden))
    ensures !showHidden ==> forall i :: 0 <= i < |r| ==> IsVisible(r[i])
    ensures forall p :: p in r <==> p in parts && (showHidden || IsVisible(p)) && HasSubstring(Blob(p), Needle(q))
    ensures AllSpace(q) ==> r == Shown(parts, showHidden)
  {
    SearchRows(Shown(parts, showHidden), Needle(q), Blob)
  }

  /** The result is also a sub-list of all loaded parts. */
  lemma FilteredIsSubsequence(parts: seq<PartRow>, q: string, showHidden: bool)
    ensures IsSubsequence(FilteredParts(parts, q, showHidden), parts)
  {
    if !showHidden {
      SubsequenceTransitive(FilteredParts(parts, q, showHidden), Filter(parts, IsVisible), parts);
    }
  }

  /** Turning hidden rows off removes exactly the rows that are unlisted or
      out of stock from the result for the same query, so that result is a
      sub-list of the one with hidden rows on. */
  lemma HiddenOffNarrows(parts: seq<PartRow>, q: string)
    ensures FilteredParts(parts, q, false) == Filter(FilteredParts(parts, q, true), IsVisible)
    ensures IsSubsequence(FilteredParts(parts, q, false), FilteredParts(parts, q, true))
  {
    var s := Needle(q);
    if s != [] {
      FilterCommute(parts, IsVisible, Hit(Blob, s));
    }
  }

  /** The "Visible (listed + in stock)" counter: the number of listed parts
      with positive quantity. */
  function VisibleCount(parts: seq<PartRow>): nat {
    Count(parts, IsVisible)
  }

  /** With no query and hidden rows off, the list shows exactly as many rows
      as the "Visible" counter says. */
  lemma VisibleCountMatches(parts: seq<PartRow>, q: string)
    requires AllSpace(q)
    ensures |FilteredParts(parts, q, false)| == VisibleCount(parts)
  {
    FilterLength(parts, IsVisible);
  }

  /** A shown part is found whenever one of its fields, or one of its
      donor's, contains the query once lower-cased. */
  lemma FieldMatchFound(parts: seq<PartRow>, q: string, showHidden: bool, p: PartRow, k: int)
    requires p in parts && (showHidden || IsVisible(p))
    requires 0 <= k < 9
    requires var f := BlobFields(p)[..6] + DonorFields(p);
      f[k].Some? && HasSubstring(Lower(f[k].value), Needle(q))
    ensures p in FilteredParts(parts, q, showHidden)
  {
    var s := Needle(q);
    if k < 6 {
      FieldHit(BlobFields(p), k, s);
    } else {
      FieldHit(DonorFields(p), k - 6, s);
      FieldHit(BlobFields(p), 6, s);
    }
  }

  /** The nullable text columns of a part that feed the search blob. */
  datatype Column = Category | Condition | Sku | PartNumber | BinLocation

  /** Where a column sits among the blob fields. */
  function ColumnIndex(c: Column): (i: nat)
    ensures 1 <= i <= 5
  {
    match c
    case Category => 1
    case Condition => 2
    case Sku => 3
    case PartNumber => 4
    case BinLocation => 5
  }

  function ColumnValue(p: PartRow, c: Column): Option<string> {
    match c
    case Category => p.category
    case Condition => p.condition
    case Sku => p.sku
    case PartNumber => p.partNumber
    case BinLocation => p.binLocation
  }

  /** The row with column `c` set to `v` and every other field kept. */
  function WithColumn(p: PartRow, c: Column, v: Option<string>): (r: PartRow)
    ensures ColumnValue(r, c) == v
    ensures forall c' :: c' != c ==> ColumnValue(r, c') == ColumnValue(p, c')
    ensures r.title == p.title && r.donor == p.donor
  {
    match c
    case Category => p.(category := v)
    case Condition => p.(condition := v)
    case Sku => p.(sku := v)
    case PartNumber => p.(partNumber := v)
    case BinLocation => p.(binLocation := v)
  }

  /** Null and empty fields leave no trace in the blob: a column holding
      `null` or `""` can be switched to the other without changing it. */
  lemma BlankFieldIgnored(p: PartRow, c: Column, v: Option<string>)
    requires ColumnValue(p, c) == None || ColumnValue(p, c) == Some([])
    requires v == None || v == Some([])
    ensures Blob(WithColumn(p, c, v)) == Blob(p)
  {
    WithColumnFields(p, c, v);
    PresentIgnoresBlank(BlobFields(p), ColumnIndex(c), v);
  }

  /** Setting a column replaces exactly its blob field. */
  lemma WithColumnFields(p: PartRow, c: Column, v: Option<string>)
    ensures BlobFields(WithColumn(p, c, v)) == BlobFields(p)[ColumnIndex(c) := v]
  {
    var q := WithColumn(p, c, v);
    var bits := DonorBits(p);
    assert DonorBits(q) == bits;
    var f := [Some(p.title), q.category, q.condition, q.sku, q.partNumber, q.binLocation, Some(bits)];
    var g := BlobFields(p)[ColumnIndex(c) := v];
    assert BlobFields(q) == f;
    forall i | 0 <= i < 7 ensures f[i] == g[i] {
    }
  }

  /** The donor cell of a row: the donor's year, make and model joined by
      spaces, or `—` when none of them is present. */
  function DonorLabel(p: PartRow): (r: string)
    ensures r != []
  {
    var bits := DonorBits(p);
    if bits == [] then "—" else bits
  }

  /** A donor with a non-zero year, a make and a model is labelled
      `<year> <make> <model>`, in that order, with single spaces. */
  lemma DonorLabelFull(p: PartRow, year: int, make: string, model: string)
    requires p.donor == Some(DonorRef(Some(year), Some(make), Some(model)))
    requires year != 0 && make != [] && model != []
    ensures DonorLabel(p) == IntToString(year) + " " + make + " " + model
  {
    var y := IntToString(year);
    assert DonorFields(p) == [Some(y), Some(make), Some(model)];
    JoinPresentThree(y, make, model);
  }

  /** The donor label falls back to `—` exactly when the part has no donor,
      or its donor has no non-zero year and no non-empty make or model; a
      present donor field always appears in the label. */
  lemma DonorLabelFacts(p: PartRow)
    ensures DonorBits(p) == [] <==>
      (p.donor.None? ||
       (&& (p.donor.value.year == None || p.donor.value.year == Some(0))
        && (p.donor.value.make == None || p.donor.value.make == Some([]))
        && (p.donor.value.model == None || p.donor.value.model == Some([]))))
    ensures DonorBits(p) == [] ==> DonorLabel(p) == "—"
    ensures forall k :: 0 <= k < 3 && DonorFields(p)[k].Some? && DonorFields(p)[k].value != [] ==>
      HasSubstring(DonorLabel(p), DonorFields(p)[k].value)
  {
    JoinPresentFacts(DonorFields(p));
    var f := DonorFields(p);
    assert forall i :: 0 <= i < 3 ==> ((f[i] == None || f[i] == Some([])) <==> !(f[i].Some? && f[i].value != []));
  }
}
