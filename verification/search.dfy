/** The case-insensitive substring search shared by the admin inventory, the
    donor list and the public parts page: a query is trimmed and lower-cased,
    a blank query keeps every row, and otherwise a row is kept when its
    lower-cased text blob contains the query. */
module Search {
  import opened Wrappers
  import opened Strings
  import opened Seqs

  /** `q.trim().toLowerCase()`: the text a row's blob is searched for. */
  function Needle(q: string): (s: string)
    ensures |s| <= |q|
    ensures s == [] <==> AllSpace(q)
    ensures forall i :: 0 <= i < |s| ==> !('A' <= s[i] <= 'Z')
  {
    Lower(Trim(q))
  }

  /** The needle is the lower-cased infix of the query that is left once the
      whitespace on both sides is removed. */
  lemma NeedleInfix(q: string) returns (a: nat)
    ensures a + |Needle(q)| <= |q|
    ensures Needle(q) == Lower(q[a..a + |Needle(q)|])
    ensures AllSpace(q[..a]) && AllSpace(q[a + |Needle(q)|..])
  {
    a := TrimInfix(q);
  }

  /** The empty string occurs in every string. */
  lemma EmptyOccurs(s: string)
    ensures HasSubstring(s, [])
  {
    assert OccursAt(s, [], 0);
  }

  /** `r => blob(r).includes(s)` */
  function Hit<T>(blob: T -> string, s: string): T -> bool {
    x => Includes(blob(x), s)
  }

  /** `s ? rows.filter(r => blob(r).includes(s)) : rows`: the rows whose
      blob contains `s`, in order; an empty `s` keeps all of them. */
  function SearchRows<T(==, !new)>(rows: seq<T>, s: string, blob: T -> string): (r: seq<T>)
    ensures IsSubsequence(r, rows)
    ensures forall x :: x in r <==> x in rows && HasSubstring(blob(x), s)
    ensures s == [] ==> r == rows
  {
    if s == [] then
      forall x | x in rows ensures HasSubstring(blob(x), s) {
        EmptyOccurs(blob(x));
      }
      SubsequenceReflexive(rows);
      rows
    else
      Filter(rows, Hit(blob, s))
  }

  /** Each kept row keeps its number of occurrences. */
  lemma SearchMultiplicity<T(!new)>(rows: seq<T>, s: string, blob: T -> string, x: T)
    ensures multiset(SearchRows(rows, s, blob))[x] == if HasSubstring(blob(x), s) then multiset(rows)[x] else 0
  {
    if s == [] {
      EmptyOccurs(blob(x));
    } else {
      FilterMultiplicity(rows, Hit(blob, s), x);
    }
  }

  /** A search never shows more rows than it is given. */
  lemma SearchShrinks<T(!new)>(rows: seq<T>, s: string, blob: T -> string)
    ensures |SearchRows(rows, s, blob)| <= |rows|
  {
    if s != [] {
      FilterLength(rows, Hit(blob, s));
      CountBound(rows, Hit(blob, s));
    }
  }

  /** Searching a second time for the same text changes nothing. */
  lemma SearchIdempotent<T(!new)>(rows: seq<T>, s: string, blob: T -> string)
    ensures SearchRows(SearchRows(rows, s, blob), s, blob) == SearchRows(rows, s, blob)
  {
    if s != [] {
      FilterIdempotent(rows, Hit(blob, s));
    }
  }

  lemma {:induction false} CountBound<T>(xs: seq<T>, p: T -> bool)
    ensures Count(xs, p) <= |xs|
  {
    if xs != [] {
      CountBound(xs[1..], p);
    }
  }

  /** When one of the values joined into a blob contains the query (after
      lower-casing), so does the lower-cased blob: a match in any single
      field finds the row. */
  lemma FieldHit(vals: seq<Option<string>>, k: int, s: string)
    requires 0 <= k < |vals| && vals[k].Some?
    requires HasSubstring(Lower(vals[k].value), s)
    ensures HasSubstring(Lower(JoinPresent(vals)), s)
  {
    var v := vals[k].value;
    if v == [] {
      var i :| OccursAt(Lower(v), s, i);
      assert s == [];
      EmptyOccurs(Lower(JoinPresent(vals)));
    } else {
      JoinPresentFacts(vals);
      LowerKeepsSubstring(JoinPresent(vals), v);
      SubstringTransitive(Lower(JoinPresent(vals)), Lower(v), s);
    }
  }
}
