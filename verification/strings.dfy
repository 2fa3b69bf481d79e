/** The JavaScript string operations the ingestion scripts and the pages rely
    on: `trim`, `toLowerCase` (ASCII only), `includes`, `startsWith`,
    `split`/`join`, `padStart`, `String(n)` on integers, and the
    `replace(/\s+/g, " ")` whitespace collapse. Strings are sequences of
    characters. */
module Strings {
  import opened Wrappers

  /** The characters `\s` matches and `String.prototype.trim` removes: the
      ECMAScript WhiteSpace and LineTerminator code points. */
  predicate IsSpace(c: char) {
    || c == '\t' || c == '\n' || c == '\U{000B}' || c == '\U{000C}' || c == '\r'
    || c == ' ' || c == '\U{00A0}' || c == '\U{1680}'
    || ('\U{2000}' <= c <= '\U{200A}')
    || c == '\U{2028}' || c == '\U{2029}' || c == '\U{202F}' || c == '\U{205F}'
    || c == '\U{3000}' || c == '\U{FEFF}'
  }

  predicate AllSpace(s: string) {
    forall i :: 0 <= i < |s| ==> IsSpace(s[i])
  }

  // ---------------------------------------------------------------------
  // trim

  /** Drops the leading whitespace. */
  function TrimStart(s: string): (r: string)
    ensures |r| <= |s| && r == s[|s| - |r|..]
    ensures AllSpace(s[..|s| - |r|])
    ensures r != [] ==> !IsSpace(r[0])
    decreases |s|
  {
    if s != [] && IsSpace(s[0]) then
      var r := TrimStart(s[1..]);
      assert s[..|s| - |r|] == [s[0]] + s[1..][..|s| - 1 - |r|];
      r
    else
      s
  }

  /** Drops the trailing whitespace. */
  function TrimEnd(s: string): (r: string)
    ensures |r| <= |s| && r == s[..|r|]
    ensures AllSpace(s[|r|..])
    ensures r != [] ==> !IsSpace(r[|r| - 1])
    decreases |s|
  {
    if s != [] && IsSpace(s[|s| - 1]) then
      var r := TrimEnd(s[..|s| - 1]);
      assert s[|r|..] == s[..|s| - 1][|r|..] + [s[|s| - 1]];
      r
    else
      s
  }

  /** `String.prototype.trim`: the infix of `s` left after removing the
      whitespace at both ends. */
  function Trim(s: string): (r: string)
    ensures |r| <= |s|
    ensures r != [] ==> !IsSpace(r[0]) && !IsSpace(r[|r| - 1])
    ensures r == [] <==> AllSpace(s)
  {
    var t := TrimStart(s);
    var r := TrimEnd(t);
    assert r == [] ==> s == s[..|s| - |t|] + t;
    r
  }

  /** The trimmed text is an infix of the input with only whitespace
      around it. */
  lemma {:induction false} TrimInfix(s: string) returns (a: nat)
    ensures a + |Trim(s)| <= |s| && Trim(s) == s[a..a + |Trim(s)|]
    ensures AllSpace(s[..a]) && AllSpace(s[a + |Trim(s)|..])
  {
    var t := TrimStart(s);
    a := |s| - |t|;
    var r := TrimEnd(t);
    assert r == Trim(s);
    PrefixOfSuffix(s, a, t, r);
  }

  /** A prefix `r` of the suffix `t` of `s` from `a` on is the infix of `s`
      from `a`, and what follows it in `t` is what follows it in `s`. */
  lemma {:induction false} PrefixOfSuffix(s: string, a: nat, t: string, r: string)
    requires a <= |s| && t == s[a..] && AllSpace(s[..a])
    requires |r| <= |t| && r == t[..|r|] && AllSpace(t[|r|..])
    ensures a + |r| <= |s| && r == s[a..a + |r|]
    ensures AllSpace(s[..a]) && AllSpace(s[a + |r|..])
  {
    assert s[a + |r|..] == t[|r|..];
  }

  /** Leading whitespace is skipped entirely. */
  lemma {:induction false} TrimStartSkipsSpace(pad: string, x: string)
    requires AllSpace(pad)
    ensures TrimStart(pad + x) == TrimStart(x)
    decreases |pad|
  {
    if pad != [] {
      assert (pad + x)[0] == pad[0] && IsSpace(pad[0]);
      assert (pad + x)[1..] == pad[1..] + x;
      TrimStartSkipsSpace(pad[1..], x);
    } else {
      assert pad + x == x;
    }
  }

  /** Once a non-space character is reached, the rest is kept as is. */
  lemma {:induction false} TrimStartAppend(x: string, y: string)
    requires !AllSpace(x)
    ensures TrimStart(x + y) == TrimStart(x) + y
    decreases |x|
  {
    if IsSpace(x[0]) {
      assert (x + y)[1..] == x[1..] + y;
      TrimStartAppend(x[1..], y);
    }
  }

  /** Trailing whitespace is skipped entirely. */
  lemma {:induction false} TrimEndSkipsSpace(x: string, pad: string)
    requires AllSpace(pad)
    ensures TrimEnd(x + pad) == TrimEnd(x)
    decreases |pad|
  {
    if pad != [] {
      var p' := pad[..|pad| - 1];
      assert (x + pad)[..|x + pad| - 1] == x + p';
      TrimEndSkipsSpace(x, p');
    } else {
      assert x + pad == x;
    }
  }

  /** Whitespace added around a string does not change its trimmed form. */
  lemma TrimPadded(s: string, pad: string)
    requires AllSpace(pad)
    ensures Trim(pad + s + pad) == Trim(s)
  {
    var padded := pad + s + pad;
    assert padded == pad + (s + pad);
    TrimStartSkipsSpace(pad, s + pad);
    if AllSpace(s) {
      assert AllSpace(padded);
    } else {
      TrimStartAppend(s, pad);
      TrimEndSkipsSpace(TrimStart(s), pad);
      assert TrimStart(padded) == TrimStart(s) + pad;
    }
  }

  /** A string with no whitespace at either end is its own trim. */
  lemma {:induction false} TrimOfTrimmed(s: string)
    requires s != [] && !IsSpace(s[0]) && !IsSpace(s[|s| - 1])
    ensures Trim(s) == s
  {
    assert TrimStart(s) == s;
    assert TrimEnd(s) == s;
  }

  lemma TrimIdempotent(s: string)
    ensures Trim(Trim(s)) == Trim(s)
  {
  }

  // ---------------------------------------------------------------------
  // toLowerCase, restricted to ASCII letters

  function LowerChar(c: char): (d: char)
    ensures !('A' <= d <= 'Z')
    ensures 'A' <= c <= 'Z' || d == c
  {
    if 'A' <= c <= 'Z' then (c as int - 'A' as int + 'a' as int) as char else c
  }

  /** ASCII lower-casing: every character mapped by `LowerChar`, length kept. */
  function Lower(s: string): (r: string)
    ensures |r| == |s|
    ensures forall i :: 0 <= i < |s| ==> r[i] == LowerChar(s[i])
  {
    if s == [] then [] else [LowerChar(s[0])] + Lower(s[1..])
  }

  lemma LowerAppend(a: string, b: string)
    ensures Lower(a + b) == Lower(a) + Lower(b)
  {
    assert forall i :: 0 <= i < |a + b| ==> Lower(a + b)[i] == (Lower(a) + Lower(b))[i];
  }

  lemma {:induction false} LowerSlice(s: string, i: int, j: int)
    requires 0 <= i <= j <= |s|
    ensures Lower(s[i..j]) == Lower(s)[i..j]
  {
    var a, b := Lower(s[i..j]), Lower(s)[i..j];
    assert |a| == |b|;
    forall k | 0 <= k < j - i
      ensures a[k] == b[k]
    {
      assert a[k] == LowerChar(s[i..j][k]);
      assert b[k] == LowerChar(s[i + k]);
    }
  }

  // ---------------------------------------------------------------------
  // includes / startsWith

  /** `t` occurs as a contiguous block somewhere in `s`. */
  ghost predicate HasSubstring(s: string, t: string) {
    exists i :: OccursAt(s, t, i)
  }

  /** `t` occurs in `s` starting at position `i`. */
  predicate OccursAt(s: string, t: string, i: int) {
    0 <= i <= |s| - |t| && s[i..i + |t|] == t
  }

  /** `String.prototype.includes`, by a left-to-right scan. */
  function Includes(s: string, t: string): (r: bool)
    ensures r <==> HasSubstring(s, t)
    decreases |s|
  {
    if |t| > |s| then false
    else if s[..|t|] == t then
      assert OccursAt(s, t, 0);
      true
    else
      var r := Includes(s[1..], t);
      ShiftSubstring(s, t);
      r
  }

  /** When `t` is not a prefix of `s`, its occurrences in `s` are exactly its
      occurrences in the tail of `s`. */
  lemma ShiftSubstring(s: string, t: string)
    requires |t| <= |s| && s[..|t|] != t
    ensures HasSubstring(s, t) <==> HasSubstring(s[1..], t)
  {
    if HasSubstring(s, t) {
      var i :| OccursAt(s, t, i);
      assert i != 0 by { assert s[0..|t|] == s[..|t|]; }
      assert s[1..][i - 1..i - 1 + |t|] == s[i..i + |t|];
      assert OccursAt(s[1..], t, i - 1);
    }
    if HasSubstring(s[1..], t) {
      var j :| OccursAt(s[1..], t, j);
      assert s[j + 1..j + 1 + |t|] == s[1..][j..j + |t|];
      assert OccursAt(s, t, j + 1);
    }
  }

  /** An occurrence inside an infix is an occurrence in the whole string. */
  lemma SubstringOfInfix(s: string, a: int, b: int, t: string)
    requires 0 <= a <= b <= |s|
    requires HasSubstring(s[a..b], t)
    ensures HasSubstring(s, t)
  {
    var i :| OccursAt(s[a..b], t, i);
    var u := s[a..b];
    assert forall k :: 0 <= k < |t| ==> s[a + i + k] == u[i + k] == t[k];
    assert s[a + i..a + i + |t|] == t;
    assert OccursAt(s, t, a + i);
  }

  /** An occurrence of an occurrence is an occurrence. */
  lemma SubstringTransitive(s: string, t: string, u: string)
    requires HasSubstring(s, t) && HasSubstring(t, u)
    ensures HasSubstring(s, u)
  {
    var i :| OccursAt(s, t, i);
    assert s[i..i + |t|] == t;
    SubstringOfInfix(s, i, i + |t|, u);
  }

  /** Lower-casing both sides keeps an occurrence. */
  lemma LowerKeepsSubstring(s: string, t: string)
    requires HasSubstring(s, t)
    ensures HasSubstring(Lower(s), Lower(t))
  {
    var i :| OccursAt(s, t, i);
    assert s[i..i + |t|] == t;
    LowerSlice(s, i, i + |t|);
    assert Lower(s)[i..i + |t|] == Lower(t);
    assert OccursAt(Lower(s), Lower(t), i);
  }

  /** `String.prototype.startsWith`. */
  predicate StartsWith(s: string, prefix: string) {
    |prefix| <= |s| && s[..|prefix|] == prefix
  }

  // ---------------------------------------------------------------------
  // String(n) for integers, and padStart

  predicate IsDigit(c: char) {
    '0' <= c <= '9'
  }

  predicate AllDigits(s: string) {
    forall i :: 0 <= i < |s| ==> IsDigit(s[i])
  }

  function DigitChar(d: nat): (c: char)
    requires d < 10
    ensures IsDigit(c)
  {
    ('0' as int + d) as char
  }

  function DigitValue(c: char): nat
    requires IsDigit(c)
  {
    c as int - '0' as int
  }

  /** The number a string of decimal digits denotes (leading zeros allowed). */
  function DecimalValue(s: string): nat
    requires AllDigits(s)
  {
    if s == [] then 0 else 10 * DecimalValue(s[..|s| - 1]) + DigitValue(s[|s| - 1])
  }

  /** `String(n)` for a non-negative integer: its canonical decimal digits. */
  function NatToString(n: nat): (r: string)
    ensures |r| >= 1 && AllDigits(r)
    ensures r[0] == '0' <==> n == 0
    decreases n
  {
    if n < 10 then [DigitChar(n)] else NatToString(n / 10) + [DigitChar(n % 10)]
  }

  /** `String(n)` for any integer: a minus sign before the magnitude. */
  function IntToString(n: int): (r: string)
    ensures |r| >= 1
    ensures r[0] == '-' <==> n < 0
    ensures r[0] == '-' || IsDigit(r[0])
  {
    if n < 0 then "-" + NatToString(-n) else NatToString(n)
  }

  /** Reading back the digits of `NatToString(n)` gives `n`. */
  lemma {:induction false} NatToStringRoundTrip(n: nat)
    ensures DecimalValue(NatToString(n)) == n
    decreases n
  {
    if n >= 10 {
      var p := NatToString(n / 10);
      var r := p + [DigitChar(n % 10)];
      assert r[..|r| - 1] == p;
      NatToStringRoundTrip(n / 10);
    }
  }

  lemma NatToStringInjective(m: nat, n: nat)
    requires NatToString(m) == NatToString(n)
    ensures m == n
  {
    NatToStringRoundTrip(m);
    NatToStringRoundTrip(n);
  }

  /** Distinct integers print differently, and no integer prints as `s`
      unless `s` starts with a digit or a minus sign. */
  lemma IntToStringInjective(m: int, n: int)
    requires IntToString(m) == IntToString(n)
    ensures m == n
  {
    var a, b := IntToString(m), IntToString(n);
    if m < 0 && n < 0 {
      assert a[1..] == NatToString(-m) && b[1..] == NatToString(-n);
      NatToStringInjective(-m, -n);
    } else if m >= 0 && n >= 0 {
      NatToStringInjective(m, n);
    }
  }

  /** `String.prototype.padStart(width, fill)` with a one-character fill. */
  function PadStart(s: string, width: nat, fill: char): (r: string)
    ensures |r| == if |s| >= width then |s| else width
    ensures r[|r| - |s|..] == s
    ensures forall i :: 0 <= i < |r| - |s| ==> r[i] == fill
    decreases width - |s|
  {
    if |s| >= width then s else PadStart([fill] + s, width, fill)
  }

  /** Leading zeros do not change the value of a digit string. */
  lemma {:induction false} LeadingZeros(z: string, s: string)
    requires forall i :: 0 <= i < |z| ==> z[i] == '0'
    requires AllDigits(s)
    ensures AllDigits(z + s)
    ensures DecimalValue(z + s) == DecimalValue(s)
    decreases |s|, |z|
  {
    assert AllDigits(z + s);
    if s == [] {
      assert z + s == z;
      if z != [] {
        assert z[..|z| - 1] + [] == z[..|z| - 1];
        LeadingZeros(z[..|z| - 1], []);
      }
    } else {
      var s' := s[..|s| - 1];
      assert (z + s)[..|z + s| - 1] == z + s';
      LeadingZeros(z, s');
    }
  }

  /** `padStart(width, '0')` keeps the value of a digit string. */
  lemma {:induction false} ZeroPaddingKeepsValue(s: string, width: nat)
    requires AllDigits(s)
    ensures AllDigits(PadStart(s, width, '0'))
    ensures DecimalValue(PadStart(s, width, '0')) == DecimalValue(s)
    decreases width - |s|
  {
    if |s| < width {
      LeadingZeros("0", s);
      ZeroPaddingKeepsValue("0" + s, width);
    }
  }

  // ---------------------------------------------------------------------
  // split / join on a one-character separator

  /** `Array.prototype.join(sep)`: the empty list joins to the empty string. */
  function Join(parts: seq<string>, sep: char): (r: string)
  {
    if |parts| == 0 then []
    else if |parts| == 1 then parts[0]
    else parts[0] + [sep] + Join(parts[1..], sep)
  }

  /** `String.prototype.split(sep)`: the maximal separator-free pieces,
      always at least one (the empty string splits to `[""]`). */
  function Split(s: string, sep: char): (r: seq<string>)
    ensures |r| >= 1
    ensures forall i :: 0 <= i < |r| ==> sep !in r[i]
  {
    if s == [] then [[]]
    else
      var rest := Split(s[1..], sep);
      if s[0] == sep then [[]] + rest else [[s[0]] + rest[0]] + rest[1..]
  }

  /** Joining the pieces of a split restores the string. */
  lemma {:induction false} JoinSplit(s: string, sep: char)
    ensures Join(Split(s, sep), sep) == s
  {
    if s != [] {
      var rest := Split(s[1..], sep);
      JoinSplit(s[1..], sep);
      if s[0] == sep {
        assert Split(s, sep)[1..] == rest;
      } else {
        var r := Split(s, sep);
        if |rest| == 1 {
          assert r == [[s[0]] + rest[0]];
        } else {
          assert r[1..] == rest[1..];
          assert Join(rest, sep) == rest[0] + [sep] + Join(rest[1..], sep);
        }
      }
    }
  }

  /** A separator-free head followed by a separator splits off as one piece. */
  lemma {:induction false} SplitHead(a: string, sep: char, b: string)
    requires sep !in a
    ensures Split(a + [sep] + b, sep) == [a] + Split(b, sep)
    decreases |a|
  {
    if a == [] {
      assert a + [sep] + b == [sep] + b;
      assert ([sep] + b)[1..] == b;
    } else {
      var s := a + [sep] + b;
      assert s[1..] == a[1..] + [sep] + b;
      SplitHead(a[1..], sep, b);
      assert [s[0]] + a[1..] == a;
    }
  }

  /** A separator-free string splits to itself. */
  lemma {:induction false} SplitNoSeparator(a: string, sep: char)
    requires sep !in a
    ensures Split(a, sep) == [a]
    decreases |a|
  {
    if a != [] {
      SplitNoSeparator(a[1..], sep);
      assert [a[0]] + a[1..] == a;
    }
  }

  /** Splitting a join of separator-free pieces gives the pieces back. */
  lemma {:induction false} SplitJoin(parts: seq<string>, sep: char)
    requires |parts| >= 1
    requires forall i :: 0 <= i < |parts| ==> sep !in parts[i]
    ensures Split(Join(parts, sep), sep) == parts
  {
    if |parts| == 1 {
      SplitNoSeparator(parts[0], sep);
    } else {
      SplitJoin(parts[1..], sep);
      SplitHead(parts[0], sep, Join(parts[1..], sep));
      assert [parts[0]] + parts[1..] == parts;
    }
  }

  /** Whatever comes before it, the text after the last separator is the
      last piece. */
  lemma {:induction false} SplitAfterLastSeparator(a: string, sep: char, b: string)
    requires sep !in b
    ensures var r := Split(a + [sep] + b, sep); |r| >= 2 && r[|r| - 1] == b
    decreases |a|
  {
    var s := a + [sep] + b;
    if a == [] {
      assert s == [sep] + b && s[1..] == b;
      SplitNoSeparator(b, sep);
    } else {
      assert s[1..] == a[1..] + [sep] + b;
      SplitAfterLastSeparator(a[1..], sep, b);
    }
  }

  /** The last piece of a split is the text after the last separator, or the
      whole string when it holds no separator. */
  lemma {:induction false} SplitLastPiece(s: string, sep: char)
    ensures var r := Split(s, sep); var l := r[|r| - 1];
      && |l| <= |s| && s[|s| - |l|..] == l && sep !in l
      && (|l| < |s| ==> s[|s| - |l| - 1] == sep)
      && (|r| > 1 ==> |l| < |s|)
      && (|r| == 1 ==> l == s)
  {
    if s != [] {
      SplitLastPiece(s[1..], sep);
      var rest := Split(s[1..], sep);
      var r := Split(s, sep);
      if s[0] == sep {
        assert r[|r| - 1] == rest[|rest| - 1];
      } else if |rest| > 1 {
        assert r[|r| - 1] == rest[|rest| - 1];
      } else {
        assert r[|r| - 1] == [s[0]] + rest[0];
        assert [s[0]] + s[1..] == s;
      }
    }
  }

  /** Each piece of a join occurs in the joined string. */
  lemma {:induction false} JoinContainsPiece(parts: seq<string>, sep: char, k: int)
    requires 0 <= k < |parts|
    ensures HasSubstring(Join(parts, sep), parts[k])
  {
    var j := Join(parts, sep);
    if |parts| == 1 {
      assert OccursAt(j, parts[0], 0);
    } else if k == 0 {
      assert j[0..|parts[0]|] == parts[0];
      assert OccursAt(j, parts[0], 0);
    } else {
      var tail := Join(parts[1..], sep);
      JoinContainsPiece(parts[1..], sep, k - 1);
      assert j[|parts[0]| + 1..|j|] == tail;
      SubstringOfInfix(j, |parts[0]| + 1, |j|, parts[k]);
    }
  }

  /** A join of non-empty pieces is empty exactly when there are no pieces. */
  lemma JoinEmpty(parts: seq<string>, sep: char)
    requires forall i :: 0 <= i < |parts| ==> parts[i] != []
    ensures Join(parts, sep) == [] <==> parts == []
  {
    if |parts| >= 1 {
      assert |parts[0]| > 0;
    }
  }

  // ---------------------------------------------------------------------
  // filter(Boolean).join(' ')

  /** The non-null, non-empty values of a list of nullable strings, in order:
      what `.filter(Boolean)` keeps. */
  function Present(vals: seq<Option<string>>): (r: seq<string>)
    ensures |r| <= |vals|
    ensures forall i :: 0 <= i < |r| ==> r[i] != []
    ensures forall v :: v in r <==> v != [] && Some(v) in vals
  {
    if vals == [] then []
    else
      var head := if vals[0].Some? && vals[0].value != [] then [vals[0].value] else [];
      head + Present(vals[1..])
  }

  /** `.filter(Boolean)` keeps order and multiplicity: it distributes over
      concatenation, and a single value is kept exactly when it is a
      non-empty string. */
  lemma {:induction false} PresentAppend(a: seq<Option<string>>, b: seq<Option<string>>)
    ensures Present(a + b) == Present(a) + Present(b)
    decreases |a|
  {
    if a == [] {
      assert a + b == b;
    } else {
      assert (a + b)[0] == a[0];
      assert (a + b)[1..] == a[1..] + b;
      PresentAppend(a[1..], b);
    }
  }

  lemma {:induction false} PresentSingle(v: Option<string>)
    ensures Present([v]) == if v.Some? && v.value != [] then [v.value] else []
  {
    assert [v][1..] == [];
  }

  /** A null or empty value can be replaced by null (or any other null or
      empty value) without changing what `.filter(Boolean)` keeps. */
  lemma {:induction false} PresentIgnoresBlank(vals: seq<Option<string>>, i: int, v: Option<string>)
    requires 0 <= i < |vals|
    requires vals[i] == None || vals[i] == Some([])
    requires v == None || v == Some([])
    ensures Present(vals[i := v]) == Present(vals)
  {
    if i > 0 {
      PresentIgnoresBlank(vals[1..], i - 1, v);
      assert vals[i := v][1..] == vals[1..][i - 1 := v];
    } else {
      assert vals[i := v][1..] == vals[1..];
    }
  }

  /** `[a, b, …].filter(Boolean).join(' ')`. */
  function JoinPresent(vals: seq<Option<string>>): string {
    Join(Present(vals), ' ')
  }

  /** Three present values are joined in their order, one space apart. */
  lemma {:induction false} JoinPresentThree(a: string, b: string, c: string)
    requires a != [] && b != [] && c != []
    ensures JoinPresent([Some(a), Some(b), Some(c)]) == a + " " + b + " " + c
  {
    PresentThree(a, b, c);
    JoinThree(a, b, c);
  }

  lemma {:induction false} PresentThree(a: string, b: string, c: string)
    requires a != [] && b != [] && c != []
    ensures Present([Some(a), Some(b), Some(c)]) == [a, b, c]
  {
    var vals := [Some(a), Some(b), Some(c)];
    assert vals[1..] == [Some(b), Some(c)];
    assert vals[1..][1..] == [Some(c)];
    assert [Some(c)][1..] == [];
    assert Present([Some(c)]) == [c];
    assert Present([Some(b), Some(c)]) == [b] + [c];
    assert Present(vals) == [a] + [b, c];
  }

  lemma {:induction false} JoinThree(a: string, b: string, c: string)
    ensures Join([a, b, c], ' ') == a + " " + b + " " + c
  {
    var bc := Join([b, c], ' ');
    JoinTwo(b, c);
    assert [a, b, c][1..] == [b, c];
    assert Join([a, b, c], ' ') == a + " " + bc;
    ConcatAssoc(a + " ", b + " ", c);
    ConcatAssoc(a + " ", b, " ");
  }

  lemma {:induction false} JoinTwo(a: string, b: string)
    ensures Join([a, b], ' ') == a + " " + b
  {
    assert [a, b][1..] == [b];
  }

  /** The joined text is empty exactly when no value is present, and every
      present value occurs in it. */
  lemma JoinPresentFacts(vals: seq<Option<string>>)
    ensures JoinPresent(vals) == [] <==> forall i :: 0 <= i < |vals| ==> vals[i] == None || vals[i] == Some([])
    ensures forall i :: 0 <= i < |vals| && vals[i].Some? && vals[i].value != [] ==> HasSubstring(JoinPresent(vals), vals[i].value)
  {
    var p := Present(vals);
    JoinEmpty(p, ' ');
    forall i | 0 <= i < |vals| && vals[i].Some? && vals[i].value != []
      ensures HasSubstring(JoinPresent(vals), vals[i].value)
    {
      assert vals[i].value in p;
      var k :| 0 <= k < |p| && p[k] == vals[i].value;
      JoinContainsPiece(p, ' ', k);
    }
    if p != [] {
      assert p[0] in p;
    }
  }

  /** Joining with single spaces and splitting again recovers the present
      values when none of them contains a space. */
  lemma JoinPresentSplit(vals: seq<Option<string>>)
    requires Present(vals) != []
    requires forall i :: 0 <= i < |Present(vals)| ==> ' ' !in Present(vals)[i]
    ensures Split(JoinPresent(vals), ' ') == Present(vals)
  {
    SplitJoin(Present(vals), ' ');
  }

  // ---------------------------------------------------------------------
  // replace(/\s+/g, " ")

  /** The non-whitespace characters of `s`, in order. */
  function RemoveSpaces(s: string): (r: string)
    ensures |r| <= |s|
    ensures forall i :: 0 <= i < |r| ==> !IsSpace(r[i])
  {
    if s == [] then []
    else (if IsSpace(s[0]) then [] else [s[0]]) + RemoveSpaces(s[1..])
  }

  /** The only whitespace is a plain space, and no two whitespace characters
      are adjacent. */
  predicate IsCollapsed(s: string) {
    && (forall i :: 0 <= i < |s| && IsSpace(s[i]) ==> s[i] == ' ')
    && (forall i :: 0 <= i < |s| - 1 ==> !(IsSpace(s[i]) && IsSpace(s[i + 1])))
  }

  /** `s.replace(/\s+/g, " ")`: every maximal run of whitespace becomes one
      plain space. */
  function CollapseSpaces(s: string): (r: string)
    ensures |r| <= |s|
    ensures r == [] <==> s == []
    ensures r != [] ==> (IsSpace(r[0]) <==> IsSpace(s[0]))
    decreases |s|
  {
    if s == [] then []
    else if IsSpace(s[0]) then [' '] + CollapseSpaces(TrimStart(s[1..]))
    else [s[0]] + CollapseSpaces(s[1..])
  }

  /** The collapsed text has single plain spaces only. */
  lemma {:induction false} CollapseIsCollapsed(s: string)
    ensures IsCollapsed(CollapseSpaces(s))
    decreases |s|
  {
    if s != [] {
      if IsSpace(s[0]) {
        var t := TrimStart(s[1..]);
        CollapseIsCollapsed(t);
        assert t == [] || !IsSpace(t[0]);
        ConsCollapsed(' ', CollapseSpaces(t));
      } else {
        CollapseIsCollapsed(s[1..]);
        ConsCollapsed(s[0], CollapseSpaces(s[1..]));
      }
    }
  }

  lemma ConsCollapsed(c: char, rest: string)
    requires IsCollapsed(rest)
    requires IsSpace(c) ==> c == ' ' && (rest == [] || !IsSpace(rest[0]))
    ensures IsCollapsed([c] + rest)
  {
    var r := [c] + rest;
    assert forall i :: 1 <= i < |r| ==> r[i] == rest[i - 1];
  }

  lemma {:induction false} RemoveSpacesTrimStart(s: string)
    ensures RemoveSpaces(TrimStart(s)) == RemoveSpaces(s)
    decreases |s|
  {
    if s != [] && IsSpace(s[0]) {
      RemoveSpacesTrimStart(s[1..]);
    }
  }

  /** Collapsing whitespace loses no other character and adds none. */
  lemma {:induction false} CollapseKeepsText(s: string)
    ensures RemoveSpaces(CollapseSpaces(s)) == RemoveSpaces(s)
    decreases |s|
  {
    if s != [] {
      var r := CollapseSpaces(s);
      if IsSpace(s[0]) {
        var t := TrimStart(s[1..]);
        CollapseKeepsText(t);
        RemoveSpacesTrimStart(s[1..]);
        assert r[1..] == CollapseSpaces(t);
      } else {
        CollapseKeepsText(s[1..]);
        assert r[1..] == CollapseSpaces(s[1..]);
      }
    }
  }

  /** An already collapsed string is left as it is. */
  lemma {:induction false} CollapseFixpoint(s: string)
    requires IsCollapsed(s)
    ensures CollapseSpaces(s) == s
    decreases |s|
  {
    if s != [] {
      assert IsCollapsed(s[1..]);
      if IsSpace(s[0]) {
        assert s[1..] == [] || !IsSpace(s[1..][0]);
        assert TrimStart(s[1..]) == s[1..];
      }
      CollapseFixpoint(s[1..]);
      assert [s[0]] + s[1..] == s;
    }
  }

  /** Collapsing distributes over a concatenation that does not join two
      whitespace runs into one. */
  lemma {:induction false} CollapseAppend(x: string, y: string)
    requires x == [] || y == [] || !IsSpace(x[|x| - 1]) || !IsSpace(y[0])
    ensures CollapseSpaces(x + y) == CollapseSpaces(x) + CollapseSpaces(y)
    decreases |x|, 1
  {
    if x == [] {
      assert x + y == y;
    } else if y == [] {
      assert x + y == x;
    } else if !IsSpace(x[0]) {
      CollapseAppendWord(x, y);
    } else if AllSpace(x[1..]) {
      CollapseSpaceHead(x, y);
    } else {
      CollapseAppendSpace(x, y);
    }
  }

  lemma {:induction false} CollapseAppendWord(x: string, y: string)
    requires x != [] && y != [] && !IsSpace(x[0])
    requires !IsSpace(x[|x| - 1]) || !IsSpace(y[0])
    ensures CollapseSpaces(x + y) == CollapseSpaces(x) + CollapseSpaces(y)
    decreases |x|, 0
  {
    var tail := x[1..];
    CollapseWordStep(x, y);
    assert tail == [] || tail[|tail| - 1] == x[|x| - 1];
    CollapseAppend(tail, y);
    ConcatAssoc([x[0]], CollapseSpaces(tail), CollapseSpaces(y));
  }

  lemma {:induction false} CollapseAppendSpace(x: string, y: string)
    requires x != [] && y != [] && IsSpace(x[0]) && !AllSpace(x[1..])
    requires !IsSpace(x[|x| - 1]) || !IsSpace(y[0])
    ensures CollapseSpaces(x + y) == CollapseSpaces(x) + CollapseSpaces(y)
    decreases |x|, 0
  {
    var rest := TrimStart(x[1..]);
    CollapseSpaceStep(x, y);
    TrimStartKeepsLast(x[1..]);
    assert x[1..][|x| - 2] == x[|x| - 1];
    CollapseAppend(rest, y);
    ConcatAssoc([' '], CollapseSpaces(rest), CollapseSpaces(y));
  }

  /** Trimming the start of a string that is not all whitespace leaves its
      last character in place. */
  lemma {:induction false} TrimStartKeepsLast(s: string)
    requires !AllSpace(s)
    ensures TrimStart(s) != [] && TrimStart(s)[|TrimStart(s)| - 1] == s[|s| - 1]
  {
    var r := TrimStart(s);
    var k := |s| - |r|;
    var j :| 0 <= j < |s| && !IsSpace(s[j]);
    forall i | 0 <= i < k
      ensures IsSpace(s[i])
    {
      assert s[..k][i] == s[i];
    }
    assert k <= j;
    assert r[|r| - 1] == s[k..][|r| - 1];
  }

  /** A leading non-space character is kept, before and after appending. */
  lemma {:induction false} CollapseWordStep(x: string, y: string)
    requires x != [] && !IsSpace(x[0])
    ensures CollapseSpaces(x) == [x[0]] + CollapseSpaces(x[1..])
    ensures CollapseSpaces(x + y) == [x[0]] + CollapseSpaces(x[1..] + y)
  {
    assert (x + y)[0] == x[0];
    assert (x + y)[1..] == x[1..] + y;
  }

  /** A leading whitespace run that ends inside `x` becomes one space,
      before and after appending. */
  lemma {:induction false} CollapseSpaceStep(x: string, y: string)
    requires x != [] && IsSpace(x[0]) && !AllSpace(x[1..])
    ensures CollapseSpaces(x) == [' '] + CollapseSpaces(TrimStart(x[1..]))
    ensures CollapseSpaces(x + y) == [' '] + CollapseSpaces(TrimStart(x[1..]) + y)
  {
    assert (x + y)[0] == x[0];
    assert (x + y)[1..] == x[1..] + y;
    TrimStartAppend(x[1..], y);
  }

  /** A string of whitespace only collapses to one space, and absorbs none
      of the text that follows it. */
  lemma {:induction false} CollapseSpaceHead(x: string, y: string)
    requires x != [] && AllSpace(x)
    requires y == [] || !IsSpace(y[0])
    ensures CollapseSpaces(x) == " "
    ensures CollapseSpaces(x + y) == " " + CollapseSpaces(y)
  {
    CollapseSpaceLead(x, []);
    assert x + [] == x;
    CollapseSpaceLead(x, y);
  }

  lemma {:induction false} CollapseSpaceLead(x: string, y: string)
    requires x != [] && AllSpace(x)
    requires y == [] || !IsSpace(y[0])
    ensures CollapseSpaces(x + y) == " " + CollapseSpaces(y)
  {
    var z, tail := x + y, x[1..];
    assert IsSpace(z[0]) by { assert z[0] == x[0]; }
    assert z[1..] == tail + y;
    SpaceSkipped(tail, y);
    assert CollapseSpaces(z) == [' '] + CollapseSpaces(TrimStart(z[1..]));
  }

  /** Whitespace in front of text that starts with no whitespace is skipped
      up to that text. */
  lemma {:induction false} SpaceSkipped(pad: string, y: string)
    requires AllSpace(pad)
    requires y == [] || !IsSpace(y[0])
    ensures TrimStart(pad + y) == y
  {
    TrimStartSkipsSpace(pad, y);
  }

  /** A maximal whitespace run becomes exactly one plain space in its place,
      between the collapsed text before it and the collapsed text after it. */
  lemma {:induction false} CollapseRun(x: string, w: string, y: string)
    requires w != [] && AllSpace(w)
    requires x == [] || !IsSpace(x[|x| - 1])
    requires y == [] || !IsSpace(y[0])
    ensures CollapseSpaces(x + w + y) == CollapseSpaces(x) + " " + CollapseSpaces(y)
  {
    var wy := w + y;
    assert x + w + y == x + wy;
    assert wy[0] == w[0];
    CollapseAppend(x, wy);
    CollapseSpaceHead(w, y);
    ConcatAssoc(CollapseSpaces(x), " ", CollapseSpaces(y));
  }

  lemma ConcatAssoc(a: string, b: string, c: string)
    ensures a + (b + c) == a + b + c
  {
  }

  lemma CollapseIdempotent(s: string)
    ensures CollapseSpaces(CollapseSpaces(s)) == CollapseSpaces(s)
  {
    CollapseIsCollapsed(s);
    CollapseFixpoint(CollapseSpaces(s));
  }
}
