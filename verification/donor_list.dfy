/** The admin donor list search (app/admin/donor/page.tsx). */
module DonorList {
  import opened Wrappers
  import opened Strings
  import opened Seqs
  import opened Search

  /** A donor sled row; `created_at` is only displayed and is left out. */
  datatype DonorSled = DonorSled(
    id: string,
    vin: Option<string>,
    make: Option<string>,
    model: Option<string>,
    year: Option<int>,
    engine: Option<string>,
    miles: Option<int>)

  /** `n?.toString()`: a missing number contributes nothing; any present
      number, zero included, contributes its decimal text. */
  function NumberText(n: Option<int>): (r: Option<string>)
    ensures r.Some? <==> n.Some?
    ensures r.Some? ==> r.value != [] && IntToString(n.value) == r.value
  {
    match n
    case None => None
    case Some(v) => Some(IntToString(v))
  }

  /** The fields of the search blob, in the page's order. */
  function BlobFields(d: DonorSled): seq<Option<string>> {
    [d.vin, d.make, d.model, d.engine, NumberText(d.year), NumberText(d.miles)]
  }

  /** The lower-cased search blob of a donor sled. */
  function Blob(d: DonorSled): string {
    Lower(JoinPresent(BlobFields(d)))
  }

  /** `filtered`: every row for a blank query, otherwise the rows whose blob
      contains the trimmed, lower-cased query, in their order. */
  function Filtered(rows: seq<DonorSled>, q: string): (r: seq<DonorSled>)
    ensures IsSubsequence(r, rows)
    ensures AllSpace(q) ==> r == rows
    ensures forall d :: d in r <==> d in rows && HasSubstring(Blob(d), Needle(q))
  {
    SearchRows(rows, Needle(q), Blob)
  }

  /** The "shown / total" counter never shows more than the total. */
  lemma CounterBound(rows: seq<DonorSled>, q: string)
    ensures |Filtered(rows, q)| <= |rows|
  {
    SearchShrinks(rows, Needle(q), Blob);
  }

  /** A row is found whenever one of its fields contains the query once
      lower-cased. */
  lemma FieldMatchFound(rows: seq<DonorSled>, q: string, d: DonorSled, k: int)
    requires d in rows && 0 <= k < 6
    requires BlobFields(d)[k].Some? && HasSubstring(Lower(BlobFields(d)[k].value), Needle(q))
    ensures d in Filtered(rows, q)
  {
    FieldHit(BlobFields(d), k, Needle(q));
  }

  /** Unlike the inventory's donor bits, a year or mileage of 0 is still
      searchable here: `0` occurs in the blob. */
  lemma ZeroIsSearchable(d: DonorSled)
    requires d.year == Some(0) || d.miles == Some(0)
    ensures HasSubstring(Blob(d), "0")
  {
    assert IntToString(0) == "0";
    assert Lower("0") == "0";
    assert OccursAt("0", "0", 0);
    if d.year == Some(0) {
      FieldHit(BlobFields(d), 4, "0");
    } else {
      FieldHit(BlobFields(d), 5, "0");
    }
  }

  /** Joined with single spaces: when no field is blank or contains a
      space, splitting the (not yet lower-cased) blob on spaces gives back
      exactly the present fields. */
  lemma FieldsSeparatedBySpaces(d: DonorSled)
    requires Present(BlobFields(d)) != []
    requires forall i :: 0 <= i < |Present(BlobFields(d))| ==> ' ' !in Present(BlobFields(d))[i]
    ensures Split(JoinPresent(BlobFields(d)), ' ') == Present(BlobFields(d))
  {
    JoinPresentSplit(BlobFields(d));
  }
}
