/** The public parts page (app/parts/page.tsx): the `q` search parameter
    and the client-side search over the fetched rows. */
module PublicParts {
  import opened Wrappers
  import opened Strings
  import opened Seqs
  import opened Search

  /** A fetched part row; price and creation time are only displayed. */
  datatype PublicPart = PublicPart(id: string, title: string, category: Option<string>, condition: Option<string>, quantity: int)

  /** `(sp.get('q') ?? '').trim()`: the query with surrounding whitespace
      removed; an absent parameter is the empty query. */
  function QueryOf(param: Option<string>): (q: string)
    ensures param.None? ==> q == []
    ensures q == [] <==> param.None? || AllSpace(param.value)
    ensures q != [] ==> !IsSpace(q[0]) && !IsSpace(q[|q| - 1])
  {
    Trim(param.GetOr([]))
  }

  /** The query is the infix of the parameter left once the whitespace on
      both sides is removed. */
  lemma QueryInfix(param: Option<string>) returns (a: nat)
    ensures var x := param.GetOr([]); var q := QueryOf(param);
      a + |q| <= |x| && q == x[a..a + |q|] && AllSpace(x[..a]) && AllSpace(x[a + |q|..])
  {
    a := TrimInfix(param.GetOr([]));
  }

  /** The text of the blob: title, category and condition, the present
      ones joined by single spaces. */
  function BlobFields(p: PublicPart): seq<Option<string>> {
    [Some(p.title), p.category, p.condition]
  }

  function Blob(p: PublicPart): string {
    Lower(JoinPresent(BlobFields(p)))
  }

  /** `data ?? []`: no data is no rows. */
  function Base(data: Option<seq<PublicPart>>): seq<PublicPart> {
    data.GetOr([])
  }

  /** `filtered`: the base rows for an empty query, otherwise those whose
      lower-cased blob contains the lower-cased query, in their order. */
  function Filtered(data: Option<seq<PublicPart>>, param: Option<string>): (r: seq<PublicPart>)
    ensures IsSubsequence(r, Base(data))
    ensures QueryOf(param) == [] ==> r == Base(data)
    ensures forall p :: p in r <==> p in Base(data) && HasSubstring(Blob(p), Lower(QueryOf(param)))
  {
    var q := QueryOf(param);
    SearchRows(Base(data), Lower(q), Blob)
  }

  /** Surrounding whitespace in the parameter does not change the result. */
  lemma PaddingIgnored(data: Option<seq<PublicPart>>, param: string, pad: string)
    requires AllSpace(pad)
    ensures Filtered(data, Some(pad + param + pad)) == Filtered(data, Some(param))
  {
    TrimPadded(param, pad);
  }

  /** A row is found whenever its title, category or condition contains
      the query once both are lower-cased. */
  lemma FieldMatchFound(data: Option<seq<PublicPart>>, param: Option<string>, p: PublicPart, k: int)
    requires p in Base(data) && 0 <= k < 3
    requires BlobFields(p)[k].Some? && HasSubstring(Lower(BlobFields(p)[k].value), Lower(QueryOf(param)))
    ensures p in Filtered(data, param)
  {
    FieldHit(BlobFields(p), k, Lower(QueryOf(param)));
  }

  /** Without data the page lists nothing, whatever the query. */
  lemma NoDataNoRows(param: Option<string>)
    ensures Filtered(None, param) == []
  {
  }
}
