/**
 * The JavaScript built-ins the modelled code relies on, as total functions over
 * strings (`seq<char>`) and sequences: `toLowerCase`, `trim`, `indexOf`/`includes`,
 * `split`, `join`, `replace` with a string pattern, `Array.prototype.filter`, and
 * the decimal rendering of numbers in template literals.
 */
module Js {
  import opened Wrappers

  // ---------------------------------------------------------------- case

  /** `toLowerCase` on one character; only the ASCII letters are folded. */
  function LowerChar(c: char): char {
    if 'A' <= c <= 'Z' then (c as int + 32) as char else c
  }

  function Lower(s: string): (r: string)
    ensures |r| == |s|
    ensures forall i :: 0 <= i < |s| ==> r[i] == LowerChar(s[i])
    ensures forall i :: 0 <= i < |r| ==> !('A' <= r[i] <= 'Z')
    ensures forall i :: 0 <= i < |s| && !('A' <= s[i] <= 'Z') ==> r[i] == s[i]
  {
    seq(|s|, i requires 0 <= i < |s| => LowerChar(s[i]))
  }

  lemma LowerConcat(a: string, b: string)
    ensures Lower(a + b) == Lower(a) + Lower(b)
  {
  }

  /** `String.prototype.length`: the number of UTF-16 code units, where a
      character outside the Basic Multilingual Plane takes two. */
  function Utf16Length(s: string): (n: nat)
    ensures |s| <= n <= 2 * |s|
    ensures (forall i :: 0 <= i < |s| ==> s[i] as int <= 0xFFFF) ==> n == |s|
    ensures |s| == 1 ==> n == if s[0] as int > 0xFFFF then 2 else 1
  {
    if |s| == 0 then 0 else (if s[0] as int > 0xFFFF then 2 else 1) + Utf16Length(s[1..])
  }

  /** The length of a concatenation is the sum of the lengths; with the length of a
      single character, this fixes the length of every string. */
  lemma {:induction false} Utf16LengthConcat(a: string, b: string)
    ensures Utf16Length(a + b) == Utf16Length(a) + Utf16Length(b)
  {
    if |a| == 0 {
      assert a + b == b;
    } else {
      assert (a + b)[0] == a[0] && (a + b)[1..] == a[1..] + b;
      Utf16LengthConcat(a[1..], b);
    }
  }

  // ---------------------------------------------------------------- trim

  /** The characters removed by `String.prototype.trim` (and matched by `\s`):
      Tab, VT, FF, space, NBSP, ZWNBSP, the other space separators (Zs) and
      the line terminators LF, CR, LS, PS. */
  predicate IsWhitespace(c: char) {
    || c == '\t' || c == '\n' || c == '\U{B}' || c == '\U{C}' || c == '\r' || c == ' '
    || c == '\U{A0}' || c == '\U{1680}' || ('\U{2000}' <= c <= '\U{200A}')
    || c == '\U{2028}' || c == '\U{2029}' || c == '\U{202F}' || c == '\U{205F}'
    || c == '\U{3000}' || c == '\U{FEFF}'
  }

  function TrimStart(s: string): (r: string)
    ensures |r| <= |s| && r == s[|s| - |r|..]
    ensures forall i :: 0 <= i < |s| - |r| ==> IsWhitespace(s[i])
    ensures r == [] || !IsWhitespace(r[0])
  {
    if |s| > 0 && IsWhitespace(s[0]) then TrimStart(s[1..]) else s
  }

  function TrimEnd(s: string): (r: string)
    ensures |r| <= |s| && r == s[..|r|]
    ensures forall i :: |r| <= i < |s| ==> IsWhitespace(s[i])
    ensures r == [] || !IsWhitespace(r[|r| - 1])
  {
    if |s| > 0 && IsWhitespace(s[|s| - 1]) then TrimEnd(s[..|s| - 1]) else s
  }

  /** How many white-space characters `s` starts with. */
  function LeadingWhitespace(s: string): (n: nat)
    ensures n <= |s|
  {
    |s| - |TrimStart(s)|
  }

  /** `r` is the slice of `s` that starts at `a`, with only white space before and
      after it. */
  predicate TrimmedFrom(s: string, a: nat, r: string) {
    && a + |r| <= |s|
    && r == s[a..a + |r|]
    && (forall i :: 0 <= i < a ==> IsWhitespace(s[i]))
    && (forall i :: a + |r| <= i < |s| ==> IsWhitespace(s[i]))
  }

  /** `String.prototype.trim`: the slice of `s` left between its leading and its
      trailing white space, with no white space at either end (`TrimIsWindow`). */
  function Trim(s: string): (r: string)
    ensures |r| <= |s|
    ensures r == [] <==> forall i :: 0 <= i < |s| ==> IsWhitespace(s[i])
    ensures r != [] ==> !IsWhitespace(r[0]) && !IsWhitespace(r[|r| - 1])
  {
    TrimSlices(s);
    TrimEnd(TrimStart(s))
  }

  /** The trimmed text is the slice of `s` after its leading white space, and only
      white space follows it. */
  lemma TrimIsWindow(s: string)
    ensures TrimmedFrom(s, LeadingWhitespace(s), Trim(s))
  {
    var t := TrimStart(s);
    TrimWindow(s, |s| - |t|, t, TrimEnd(t));
  }

  /** What is left after both ends are trimmed is the window of `s` after its
      leading white space, and everything after the window is white space. */
  lemma TrimWindow(s: string, a: nat, t: string, r: string)
    requires a <= |s| && t == s[a..] && |r| <= |t| && r == t[..|r|]
    requires forall i :: 0 <= i < a ==> IsWhitespace(s[i])
    requires forall i :: |r| <= i < |t| ==> IsWhitespace(t[i])
    ensures TrimmedFrom(s, a, r)
  {
    forall i | a + |r| <= i < |s|
      ensures IsWhitespace(s[i])
    {
      assert s[i] == t[i - a];
    }
  }

  lemma TrimSlices(s: string)
    ensures var t := TrimStart(s); var r := TrimEnd(t);
      && (r == [] <==> forall i :: 0 <= i < |s| ==> IsWhitespace(s[i]))
      && (r != [] ==> !IsWhitespace(r[0]))
  {
    var t := TrimStart(s);
    var r := TrimEnd(t);
    assert r == s[|s| - |t|..][..|r|];
    TrimEndOfTrimmed(t);
    if r != [] {
      assert r[0] == t[0];
    }
  }

  /** Trimming the end of a string that starts with a non-space leaves something. */
  lemma TrimEndOfTrimmed(t: string)
    requires t == [] || !IsWhitespace(t[0])
    ensures TrimEnd(t) == [] ==> t == []
  {
  }

  // ---------------------------------------------------------------- search

  /** `pat` occurs in `s` starting at index `i`. */
  predicate OccursAt(s: string, pat: string, i: nat) {
    i + |pat| <= |s| && s[i..i + |pat|] == pat
  }

  /** `String.prototype.indexOf`, with `None` for -1. */
  function IndexOf(s: string, pat: string): (r: Option<nat>)
    ensures r.Some? ==> OccursAt(s, pat, r.value)
    ensures r.Some? ==> forall j :: 0 <= j < r.value ==> !OccursAt(s, pat, j)
    ensures r.None? ==> forall j :: 0 <= j ==> !OccursAt(s, pat, j)
    decreases |s|
  {
    if |s| < |pat| then None
    else if s[..|pat|] == pat then Some(0)
    else
      match IndexOf(s[1..], pat)
      case None =>
        OccursShift(s, pat);
        None
      case Some(k) =>
        OccursShift(s, pat);
        Some(k + 1)
  }

  /** Occurrences in `s` from index 1 on are the occurrences in `s[1..]`, shifted by one. */
  lemma OccursShift(s: string, pat: string)
    requires |s| > 0
    ensures forall j :: 1 <= j ==> (OccursAt(s, pat, j) <==> OccursAt(s[1..], pat, j - 1))
  {
    forall j | 1 <= j
      ensures OccursAt(s, pat, j) <==> OccursAt(s[1..], pat, j - 1)
    {
      if j + |pat| <= |s| {
        assert s[1..][j - 1..j - 1 + |pat|] == s[j..j + |pat|];
      }
    }
  }

  /** `String.prototype.includes`. */
  predicate Contains(s: string, pat: string) {
    IndexOf(s, pat).Some?
  }

  lemma ContainsAt(s: string, pat: string, i: nat)
    requires OccursAt(s, pat, i)
    ensures Contains(s, pat)
  {
  }

  lemma ContainsConcat(a: string, pat: string, b: string)
    ensures Contains(a + pat + b, pat)
  {
    assert (a + pat + b)[|a|..|a| + |pat|] == pat;
    ContainsAt(a + pat + b, pat, |a|);
  }

  /** A pattern without the joining character is found in a joined pair of strings
      exactly when it is found in one of them. */
  lemma ContainsAcross(a: string, c: char, b: string, pat: string)
    requires forall i :: 0 <= i < |pat| ==> pat[i] != c
    ensures Contains(a + [c] + b, pat) <==> Contains(a, pat) || Contains(b, pat)
  {
    if Contains(a + [c] + b, pat) {
      ContainsAcrossSplits(a, c, b, pat);
    }
    if Contains(a, pat) {
      ContainsWidened(a, [c] + b, pat);
      assert a + ([c] + b) == a + [c] + b;
    }
    if Contains(b, pat) {
      ContainsWidenedBefore(a + [c], b, pat);
    }
  }

  /** Text added after a string keeps what it contains. */
  lemma ContainsWidened(a: string, b: string, pat: string)
    requires Contains(a, pat)
    ensures Contains(a + b, pat)
  {
    var i := IndexOf(a, pat).value;
    assert (a + b)[i..i + |pat|] == a[i..i + |pat|];
    ContainsAt(a + b, pat, i);
  }

  /** Text added before a string keeps what it contains. */
  lemma ContainsWidenedBefore(a: string, b: string, pat: string)
    requires Contains(b, pat)
    ensures Contains(a + b, pat)
  {
    var i := IndexOf(b, pat).value;
    assert (a + b)[|a| + i..|a| + i + |pat|] == b[i..i + |pat|];
    ContainsAt(a + b, pat, |a| + i);
  }

  lemma ContainsAcrossSplits(a: string, c: char, b: string, pat: string)
    requires forall i :: 0 <= i < |pat| ==> pat[i] != c
    requires Contains(a + [c] + b, pat)
    ensures Contains(a, pat) || Contains(b, pat)
  {
    var s := a + [c] + b;
    var i := IndexOf(s, pat).value;
    if i + |pat| <= |a| {
      assert a[i..i + |pat|] == s[i..i + |pat|];
      ContainsAt(a, pat, i);
    } else if i > |a| {
      var j := i - |a| - 1;
      assert s[|a| + 1..] == b;
      assert b[j..j + |pat|] == s[|a| + 1..][j..j + |pat|] == s[i..i + |pat|];
      ContainsAt(b, pat, j);
    } else {
      CharInWindow(s, pat, i, |a|);
      assert false;
    }
  }

  lemma CharInWindow(s: string, pat: string, i: nat, k: nat)
    requires OccursAt(s, pat, i) && i <= k < i + |pat|
    ensures s[k] == pat[k - i]
  {
    assert s[i..i + |pat|][k - i] == s[k];
  }

  // ---------------------------------------------------------------- split / join

  /** `String.prototype.split` with a non-empty string separator and no limit. */
  function Split(s: string, sep: string): (parts: seq<string>)
    requires |sep| > 0
    ensures |parts| > 0
    decreases |s|
  {
    match IndexOf(s, sep)
    case None => [s]
    case Some(i) => [s[..i]] + Split(s[i + |sep|..], sep)
  }

  /** The split is leftmost: the first piece ends where the separator first
      occurs, with no occurrence starting inside it, and the other pieces are the
      split of what follows that occurrence. */
  lemma {:induction false} SplitLeftmost(s: string, sep: string)
    requires |sep| > 0
    ensures var parts := Split(s, sep);
      && |parts[0]| <= |s| && parts[0] == s[..|parts[0]|]
      && (forall j :: 0 <= j < |parts[0]| ==> !OccursAt(s, sep, j))
      && (|parts| == 1 <==> !Contains(s, sep))
      && (|parts| > 1 ==>
            && OccursAt(s, sep, |parts[0]|)
            && parts[1..] == Split(s[|parts[0]| + |sep|..], sep))
    ensures !Contains(s, sep) ==> Split(s, sep) == [s]
  {
    match IndexOf(s, sep)
    case None =>
      assert Split(s, sep) == [s];
      assert s[..|s|] == s;
    case Some(i) =>
      var parts, rest := Split(s, sep), Split(s[i + |sep|..], sep);
      assert parts == [s[..i]] + rest;
      assert |parts[0]| == i && parts[1..] == rest;
  }

  /** `Array.prototype.join`. */
  function Join(parts: seq<string>, sep: string): string {
    if |parts| == 0 then ""
    else if |parts| == 1 then parts[0]
    else parts[0] + sep + Join(parts[1..], sep)
  }

  /** Joining the pieces of a split with the same separator gives the string back. */
  lemma {:induction false} JoinSplit(s: string, sep: string)
    requires |sep| > 0
    ensures Join(Split(s, sep), sep) == s
    decreases |s|
  {
    match IndexOf(s, sep)
    case None =>
    case Some(i) =>
      var rest := s[i + |sep|..];
      JoinSplit(rest, sep);
      assert Split(s, sep) == [s[..i]] + Split(rest, sep);
      assert s == s[..i] + sep + rest by { assert s[i..i + |sep|] == sep; }
  }

  /** A prefix that ends before the first occurrence does not contain the pattern. */
  lemma PrefixFree(s: string, pat: string, q: nat)
    requires |pat| > 0 && q <= |s|
    requires forall j :: 0 <= j < q ==> !OccursAt(s, pat, j)
    ensures !Contains(s[..q], pat)
  {
    if Contains(s[..q], pat) {
      var j := IndexOf(s[..q], pat).value;
      assert OccursAt(s[..q], pat, j);
      assert j + |pat| <= q;
      assert s[..q][j..j + |pat|] == s[j..j + |pat|];
      assert OccursAt(s, pat, j);
    }
  }

  /** No piece of a split contains the separator. */
  lemma {:induction false} SplitPartsFree(s: string, sep: string)
    requires |sep| > 0
    ensures forall p :: p in Split(s, sep) ==> !Contains(p, sep)
    decreases |s|
  {
    match IndexOf(s, sep)
    case None =>
    case Some(i) =>
      var rest := Split(s[i + |sep|..], sep);
      assert Split(s, sep) == [s[..i]] + rest;
      SplitPartsFree(s[i + |sep|..], sep);
      PrefixFree(s, sep, i);
      assert forall p :: p in [s[..i]] + rest ==> p == s[..i] || p in rest;
  }

  /** The first occurrence, characterised: an occurrence with none before it. */
  lemma IndexOfIs(s: string, pat: string, i: nat)
    requires OccursAt(s, pat, i)
    requires forall j :: 0 <= j < i ==> !OccursAt(s, pat, j)
    ensures IndexOf(s, pat) == Some(i)
  {
  }

  /** For a one-character separator, splitting distributes over the separator:
      the pieces of `a + [c] + b` are those of `a` followed by those of `b`. */
  lemma {:induction false} SplitAround(a: string, c: char, b: string)
    ensures Split(a + [c] + b, [c]) == Split(a, [c]) + Split(b, [c])
    decreases |a|
  {
    var s := a + [c] + b;
    var i := FirstSeparator(a, c, b);
    assert Split(s, [c]) == [s[..i]] + Split(s[i + 1..], [c]);
    assert s[..i] == a[..i];
    if IndexOf(a, [c]).Some? {
      assert s[i + 1..] == a[i + 1..] + [c] + b;
      SplitAround(a[i + 1..], c, b);
      assert Split(a, [c]) == [a[..i]] + Split(a[i + 1..], [c]);
    } else {
      assert s[i + 1..] == b;
      assert a[..i] == a;
      assert Split(a, [c]) == [a];
    }
  }

  /** The first separator of `a + [c] + b` is the first one of `a`, or the added one. */
  lemma FirstSeparator(a: string, c: char, b: string) returns (i: nat)
    ensures IndexOf(a, [c]).Some? ==> i == IndexOf(a, [c]).value
    ensures IndexOf(a, [c]).None? ==> i == |a|
    ensures IndexOf(a + [c] + b, [c]) == Some(i)
  {
    var s := a + [c] + b;
    i := if IndexOf(a, [c]).Some? then IndexOf(a, [c]).value else |a|;
    assert OccursAt(s, [c], i) by {
      if IndexOf(a, [c]).Some? { assert a[i..i + 1] == [c]; }
      assert s[i..i + 1] == [s[i]];
    }
    forall j | 0 <= j < i ensures !OccursAt(s, [c], j) {
      assert !OccursAt(a, [c], j);
      assert s[j..j + 1] == [s[j]] && a[j..j + 1] == [a[j]];
    }
    IndexOfIs(s, [c], i);
  }

  /** A string without the one-character separator splits into itself alone. */
  lemma SplitNone(s: string, c: char)
    requires forall i :: 0 <= i < |s| ==> s[i] != c
    ensures Split(s, [c]) == [s]
  {
    forall j | 0 <= j ensures !OccursAt(s, [c], j) {
      if j < |s| {
        assert s[j..j + 1][0] == s[j];
      }
    }
  }

  /** Splitting a join on a one-character separator that no piece contains gives the pieces back. */
  lemma {:induction false} SplitJoin(parts: seq<string>, c: char)
    requires |parts| > 0
    requires forall p, i :: p in parts && 0 <= i < |p| ==> p[i] != c
    ensures Split(Join(parts, [c]), [c]) == parts
  {
    if |parts| == 1 {
      SplitNone(parts[0], c);
    } else {
      SplitJoin(parts[1..], c);
      SplitNone(parts[0], c);
      SplitAround(parts[0], c, Join(parts[1..], [c]));
    }
  }

  // ---------------------------------------------------------------- replace

  /** The text `replace` puts in place of a match of a string pattern (ECMAScript's
      GetSubstitution): `$$` is a dollar sign, `$&` the matched text, `` $` `` the
      text before the match and `$'` the text after it. A string pattern has no
      capture groups, so every other `$` is kept as it is. */
  function Substitute(rep: string, matched: string, before: string, after: string): string
    decreases |rep|
  {
    if |rep| == 0 then ""
    else if rep[0] == '$' && |rep| >= 2 && rep[1] == '$' then "$" + Substitute(rep[2..], matched, before, after)
    else if rep[0] == '$' && |rep| >= 2 && rep[1] == '&' then matched + Substitute(rep[2..], matched, before, after)
    else if rep[0] == '$' && |rep| >= 2 && rep[1] == '`' then before + Substitute(rep[2..], matched, before, after)
    else if rep[0] == '$' && |rep| >= 2 && rep[1] == '\'' then after + Substitute(rep[2..], matched, before, after)
    else [rep[0]] + Substitute(rep[1..], matched, before, after)
  }

  /** Text without a dollar sign passes through the expansion unchanged. */
  lemma {:induction false} SubstitutePrefix(a: string, rep: string, matched: string, before: string, after: string)
    requires '$' !in a
    ensures Substitute(a + rep, matched, before, after) == a + Substitute(rep, matched, before, after)
    decreases |a|
  {
    if |a| > 0 {
      assert a[0] in a;
      assert forall c :: c in a[1..] ==> c in a;
      var x := a + rep;
      assert x[0] == a[0] && x[1..] == a[1..] + rep;
      assert Substitute(x, matched, before, after) == [x[0]] + Substitute(x[1..], matched, before, after);
      SubstitutePrefix(a[1..], rep, matched, before, after);
    } else {
      assert a + rep == rep;
    }
  }

  /** `String.prototype.replace` with a string pattern and a string replacement:
      only the first occurrence is replaced, by the expanded replacement. */
  function ReplaceFirst(s: string, pat: string, rep: string): (r: string)
    ensures !Contains(s, pat) ==> r == s
    ensures Contains(s, pat) && '$' !in rep ==>
      var i := IndexOf(s, pat).value;
      r == s[..i] + rep + s[i + |pat|..]
  {
    match IndexOf(s, pat)
    case None => s
    case Some(i) =>
      SubstituteLiteralIf(rep, pat, s[..i], s[i + |pat|..]);
      s[..i] + Substitute(rep, pat, s[..i], s[i + |pat|..]) + s[i + |pat|..]
  }

  /** The first occurrence is replaced by the expansion of the replacement. */
  lemma ReplaceFirstFound(s: string, pat: string, rep: string)
    requires Contains(s, pat)
    ensures var i := IndexOf(s, pat).value;
      && i + |pat| <= |s|
      && ReplaceFirst(s, pat, rep) == s[..i] + Substitute(rep, pat, s[..i], s[i + |pat|..]) + s[i + |pat|..]
  {
  }

  lemma SubstituteLiteralIf(rep: string, matched: string, before: string, after: string)
    ensures '$' !in rep ==> Substitute(rep, matched, before, after) == rep
  {
    if '$' !in rep {
      SubstitutePrefix(rep, "", matched, before, after);
      assert rep + "" == rep;
    }
  }

  // ---------------------------------------------------------------- arrays

  /** `Array.prototype.filter`. */
  function Filter<T>(s: seq<T>, p: T -> bool): (r: seq<T>)
    ensures |r| <= |s|
    ensures forall i :: 0 <= i < |r| ==> r[i] in s && p(r[i])
    ensures forall i :: 0 <= i < |s| && p(s[i]) ==> s[i] in r
  {
    if |s| == 0 then [] else (if p(s[0]) then [s[0]] else []) + Filter(s[1..], p)
  }

  /** Filtering keeps every copy of an element that passes the test and no copy
      of one that fails it. */
  lemma {:induction false} FilterMultiplicity<T>(s: seq<T>, p: T -> bool, x: T)
    ensures multiset(Filter(s, p))[x] == if p(x) then multiset(s)[x] else 0
  {
    if |s| > 0 {
      assert s == [s[0]] + s[1..];
      FilterMultiplicity(s[1..], p, x);
    }
  }

  /** `xs` is `ys` with some elements dropped, the rest kept in order. */
  predicate IsSubsequence<T(==)>(xs: seq<T>, ys: seq<T>)
    decreases |ys|
  {
    if |xs| == 0 then true
    else if |ys| == 0 then false
    else if xs[0] == ys[0] then IsSubsequence(xs[1..], ys[1..])
    else IsSubsequence(xs, ys[1..])
  }

  /** Filtering keeps an order-preserving subsequence. */
  lemma {:induction false} FilterSubsequence<T>(s: seq<T>, p: T -> bool)
    ensures IsSubsequence(Filter(s, p), s)
  {
    if |s| > 0 {
      FilterSubsequence(s[1..], p);
      var rest := Filter(s[1..], p);
      if !p(s[0]) {
        assert Filter(s, p) == rest;
        if |rest| > 0 {
          assert p(rest[0]);
          assert rest[0] != s[0];
        }
      }
    }
  }

  // ---------------------------------------------------------------- numbers

  function DigitChar(d: nat): char
    requires d < 10
  {
    ('0' as int + d) as char
  }

  predicate IsDigit(c: char) {
    '0' <= c <= '9'
  }

  predicate AllDigits(s: string) {
    forall i :: 0 <= i < |s| ==> IsDigit(s[i])
  }

  /** The decimal rendering of a non-negative integer, as a template literal prints it. */
  function NatToString(n: nat): (r: string)
    ensures |r| > 0 && AllDigits(r)
    ensures r[0] == '0' ==> n == 0
  {
    if n < 10 then [DigitChar(n)] else NatToString(n / 10) + [DigitChar(n % 10)]
  }

  /** The value of a non-empty string of decimal digits. */
  function DigitsValue(s: string): nat
    requires AllDigits(s)
  {
    if |s| == 0 then 0 else DigitsValue(s[..|s| - 1]) * 10 + (s[|s| - 1] as int - '0' as int)
  }

  /** Reading back a rendered number gives the number. */
  lemma {:induction false} DigitsValueOfNatToString(n: nat)
    ensures DigitsValue(NatToString(n)) == n
  {
    if n >= 10 {
      DigitsValueOfNatToString(n / 10);
      var s := NatToString(n);
      assert s[..|s| - 1] == NatToString(n / 10);
    }
  }

  /** The rendering of an integer, with a leading minus sign when negative. */
  function IntToString(i: int): (r: string)
    ensures |r| > 0
  {
    if i < 0 then "-" + NatToString(-i) else NatToString(i)
  }

  /** The value of a digit character in bases up to 16, if it is one. */
  function DigitValue(c: char): Option<nat> {
    if '0' <= c <= '9' then Some(c as int - '0' as int)
    else if 'a' <= c <= 'f' then Some(c as int - 'a' as int + 10)
    else if 'A' <= c <= 'F' then Some(c as int - 'A' as int + 10)
    else None
  }

  predicate IsRadixDigit(c: char, radix: nat) {
    DigitValue(c).Some? && DigitValue(c).value < radix
  }

  /** The number of leading characters of `s` that are digits of the radix. */
  function LeadingDigits(s: string, radix: nat): (n: nat)
    ensures n <= |s|
    ensures forall i :: 0 <= i < n ==> IsRadixDigit(s[i], radix)
    ensures n < |s| ==> !IsRadixDigit(s[n], radix)
  {
    if |s| == 0 || !IsRadixDigit(s[0], radix) then 0 else 1 + LeadingDigits(s[1..], radix)
  }

  /** The value of a string of digits of the radix. */
  function RadixValue(s: string, radix: nat): nat
    requires forall i :: 0 <= i < |s| ==> IsRadixDigit(s[i], radix)
  {
    if |s| == 0 then 0
    else
      var init, last := s[..|s| - 1], s[|s| - 1];
      assert IsRadixDigit(last, radix);
      assert forall i :: 0 <= i < |init| ==> init[i] == s[i];
      var high := RadixValue(init, radix);
      NatProduct(high, radix);
      high * radix + DigitValue(last).value
  }

  lemma NatProduct(a: nat, b: nat)
    ensures a * b >= 0
  {
  }

  /** What `parseInt` reads digits from: the text after leading whitespace and one sign. */
  function Unsigned(s: string): string {
    var t := TrimStart(s);
    if |t| > 0 && (t[0] == '-' || t[0] == '+') then t[1..] else t
  }

  predicate IsNegative(s: string) {
    var t := TrimStart(s);
    |t| > 0 && t[0] == '-'
  }

  /** A `0x` or `0X` prefix selects base 16. */
  predicate HasHexPrefix(u: string) {
    |u| >= 2 && u[0] == '0' && (u[1] == 'x' || u[1] == 'X')
  }

  function Radix(u: string): nat {
    if HasHexPrefix(u) then 16 else 10
  }

  /** The text the digits are read from, past any hex prefix. */
  function DigitText(u: string): string {
    if HasHexPrefix(u) then u[2..] else u
  }

  /** `parseInt(s)` without a radix: leading whitespace and a sign are skipped, a
      `0x` or `0X` prefix selects base 16, and the longest run of digits that
      follows is read; `None` is `NaN`, when there is no digit to read. */
  function ParseInt(s: string): (r: Option<int>)
    ensures r.None? <==> LeadingDigits(DigitText(Unsigned(s)), Radix(Unsigned(s))) == 0
    ensures r.Some? && !IsNegative(s) ==> r.value >= 0
  {
    var u := Unsigned(s);
    var w, radix := DigitText(u), Radix(u);
    var n := LeadingDigits(w, radix);
    if n == 0 then None
    else
      var v: int := RadixValue(w[..n], radix);
      Some(if IsNegative(s) then -v else v)
  }

  /** Decimal digits read in base 10 give their decimal value. */
  lemma {:induction false} RadixValueDecimal(s: string)
    requires AllDigits(s)
    ensures forall i :: 0 <= i < |s| ==> IsRadixDigit(s[i], 10)
    ensures RadixValue(s, 10) == DigitsValue(s)
  {
    if |s| > 0 {
      RadixValueDecimal(s[..|s| - 1]);
    }
  }

  /** `parseInt` stops at the first character that is not a decimal digit, so a
      number followed by other text (as in "12abc") reads as the number. */
  lemma ParseIntStopsAtNonDigit(n: nat, rest: string)
    requires |rest| > 0 ==> !IsRadixDigit(rest[0], 10) && rest[0] != 'x' && rest[0] != 'X'
    ensures ParseInt(NatToString(n) + rest) == Some(n)
  {
    var d := NatToString(n);
    var s := d + rest;
    assert s[0] == d[0] && IsDigit(d[0]);
    assert TrimStart(s) == s by {
      assert !IsWhitespace(s[0]);
    }
    assert Unsigned(s) == s && !IsNegative(s);
    assert !HasHexPrefix(s) by {
      if |d| >= 2 {
        assert d[0] != '0';
      } else if |rest| > 0 {
        assert s[1] == rest[0];
      }
    }
    RadixValueDecimal(d);
    DigitsThenStop(d, rest);
    assert s[..|d|] == d;
    DigitsValueOfNatToString(n);
  }

  /** The run of decimal digits at the start of `d + rest` is `d`. */
  lemma DigitsThenStop(d: string, rest: string)
    requires forall i :: 0 <= i < |d| ==> IsRadixDigit(d[i], 10)
    requires |rest| > 0 ==> !IsRadixDigit(rest[0], 10)
    ensures LeadingDigits(d + rest, 10) == |d|
  {
    var s := d + rest;
    var k := LeadingDigits(s, 10);
    assert forall i :: 0 <= i < |d| ==> s[i] == d[i];
    assert |rest| > 0 ==> s[|d|] == rest[0];
    assert k >= |d|;
  }

  /** `parseInt` reads back what `String(i)` prints. */
  lemma ParseIntOfIntToString(i: int)
    ensures ParseInt(IntToString(i)) == Some(i)
  {
    var s := IntToString(i);
    var d := NatToString(if i < 0 then -i else i);
    assert TrimStart(s) == s by {
      assert !IsWhitespace(s[0]);
    }
    assert Unsigned(s) == d;
    assert IsNegative(s) <==> i < 0;
    assert !HasHexPrefix(d);
    RadixValueDecimal(d);
    assert LeadingDigits(d, 10) == |d|;
    assert d[..|d|] == d;
    DigitsValueOfNatToString(if i < 0 then -i else i);
  }
}
