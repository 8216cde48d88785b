/**
  The JavaScript string operations the form logic relies on, over `string`
  (a sequence of code points): `trim`, `split` on one character and its
  inverse `join`, `startsWith`, `endsWith`, first-occurrence `replace`, and
  the decimal rendering of a natural number inside a template literal.
*/
module Text {
  import opened Wrappers

  /** The code points ECMAScript's `String.prototype.trim` strips: the
      WhiteSpace and LineTerminator productions (section 12.2 and 12.3 of
      ECMA-262), that is, tab, the line terminators, vertical tab, form feed,
      no-break space, byte order mark and every space separator. */
  predicate IsWhitespace(c: char) {
    || c == '\t' || c == '\n' || c == '\U{B}' || c == '\U{C}' || c == '\r'
    || c == ' ' || c == '\U{A0}' || c == '\U{1680}'
    || ('\U{2000}' <= c <= '\U{200A}')
    || c == '\U{2028}' || c == '\U{2029}' || c == '\U{202F}' || c == '\U{205F}'
    || c == '\U{3000}' || c == '\U{FEFF}'
  }

  predicate AllWhitespace(s: string) {
    forall i :: 0 <= i < |s| ==> IsWhitespace(s[i])
  }

  /** `s` has nothing `trim` would strip: it is empty or starts and ends with
      a visible character. */
  predicate IsTrimmed(s: string) {
    s == [] || (!IsWhitespace(s[0]) && !IsWhitespace(s[|s| - 1]))
  }

  /** The number of whitespace code points at the start of `s`. */
  function LeadingWhitespace(s: string): (n: nat)
    ensures n <= |s|
    ensures AllWhitespace(s[..n])
    ensures n < |s| ==> !IsWhitespace(s[n])
  {
    if |s| > 0 && IsWhitespace(s[0]) then
      var m := LeadingWhitespace(s[1..]);
      assert s[..m + 1] == [s[0]] + s[1..][..m];
      m + 1
    else
      0
  }

  /** The number of whitespace code points at the end of `s`. */
  function TrailingWhitespace(s: string): (n: nat)
    ensures n <= |s|
    ensures AllWhitespace(s[|s| - n..])
    ensures n < |s| ==> !IsWhitespace(s[|s| - 1 - n])
  {
    if |s| > 0 && IsWhitespace(s[|s| - 1]) then
      var t := s[..|s| - 1];
      var m := TrailingWhitespace(t);
      assert s[|s| - (m + 1)..] == t[|t| - m..] + [s[|s| - 1]];
      m + 1
    else
      0
  }

  /** `String.prototype.trim`. */
  function Trim(s: string): (r: string)
    ensures |r| <= |s|
    ensures IsTrimmed(r)
    ensures r == [] <==> AllWhitespace(s)
  {
    var t := s[LeadingWhitespace(s)..];
    var r := t[..|t| - TrailingWhitespace(t)];
    WhitespaceHalves(s, LeadingWhitespace(s));
    WhitespaceHalves(t, |t| - TrailingWhitespace(t));
    r
  }

  /** A string is all whitespace exactly when both halves of any cut are. */
  lemma WhitespaceHalves(s: string, n: nat)
    requires n <= |s|
    ensures AllWhitespace(s) <==> AllWhitespace(s[..n]) && AllWhitespace(s[n..])
  {
    if AllWhitespace(s[..n]) && AllWhitespace(s[n..]) {
      forall i | 0 <= i < |s| ensures IsWhitespace(s[i]) {
        if i < n { assert s[i] == s[..n][i]; } else { assert s[i] == s[n..][i - n]; }
      }
    }
  }

  lemma {:induction false} LeadingWhitespaceOfPadded(a: string, m: string)
    requires AllWhitespace(a) && m != [] && !IsWhitespace(m[0])
    ensures LeadingWhitespace(a + m) == |a|
    decreases |a|
  {
    if a != [] {
      assert (a + m)[1..] == a[1..] + m;
      LeadingWhitespaceOfPadded(a[1..], m);
    }
  }

  lemma {:induction false} TrailingWhitespaceOfPadded(m: string, b: string)
    requires AllWhitespace(b) && m != [] && !IsWhitespace(m[|m| - 1])
    ensures TrailingWhitespace(m + b) == |b|
    decreases |b|
  {
    if b != [] {
      assert (m + b)[..|m + b| - 1] == m + b[..|b| - 1];
      TrailingWhitespaceOfPadded(m, b[..|b| - 1]);
    }
  }

  /** `trim` is characterised by this decomposition: whatever surrounds a
      trimmed core with whitespace only, `trim` returns exactly the core. */
  lemma TrimOfPadded(a: string, m: string, b: string)
    requires AllWhitespace(a) && AllWhitespace(b) && IsTrimmed(m)
    ensures Trim(a + m + b) == m
  {
    var s := a + m + b;
    if m == [] {
      assert s == a + b;
      assert AllWhitespace(s) by {
        forall i | 0 <= i < |s| ensures IsWhitespace(s[i]) {
          if i < |a| { assert s[i] == a[i]; } else { assert s[i] == b[i - |a|]; }
        }
      }
    } else {
      assert s == a + (m + b);
      LeadingWhitespaceOfPadded(a, m + b);
      var t := s[|a|..];
      assert t == m + b;
      TrailingWhitespaceOfPadded(m, b);
      assert t[..|t| - |b|] == m;
    }
  }

  lemma TrimIdempotent(s: string)
    ensures Trim(Trim(s)) == Trim(s)
  {
    TrimOfPadded([], Trim(s), []);
    assert [] + Trim(s) + [] == Trim(s);
  }

  /** Index of the first `c` in `s`, or `|s|` when there is none. */
  function IndexOf(s: string, c: char): (i: nat)
    ensures i <= |s|
    ensures i < |s| ==> s[i] == c
    ensures forall k :: 0 <= k < i ==> s[k] != c
  {
    if |s| == 0 || s[0] == c then 0 else 1 + IndexOf(s[1..], c)
  }

  /** `s.split(sep)` for a one-character separator: never empty, and the
      empty string splits to `[""]`. */
  function Split(s: string, sep: char): (parts: seq<string>)
    ensures |parts| >= 1
    ensures forall k :: 0 <= k < |parts| ==> sep !in parts[k]
    decreases |s|
  {
    var i := IndexOf(s, sep);
    if i == |s| then
      [s]
    else
      [s[..i]] + Split(s[i + 1..], sep)
  }

  /** `parts.join(sep)`. */
  function Join(parts: seq<string>, sep: char): string {
    if |parts| == 0 then ""
    else if |parts| == 1 then parts[0]
    else parts[0] + [sep] + Join(parts[1..], sep)
  }

  /** The segment before the first `sep`: `s.split(sep)[0]`. */
  function FirstSegment(s: string, sep: char): (r: string)
    ensures sep !in r
  {
    Split(s, sep)[0]
  }

  lemma {:induction false} JoinSplit(s: string, sep: char)
    ensures Join(Split(s, sep), sep) == s
    decreases |s|
  {
    var i := IndexOf(s, sep);
    if i < |s| {
      var head, tail := s[..i], s[i + 1..];
      var rest := Split(tail, sep);
      assert Split(s, sep) == [head] + rest;
      JoinSplit(tail, sep);
      JoinCons(head, rest, sep);
      assert s == head + [sep] + tail;
    }
  }

  lemma JoinCons(head: string, rest: seq<string>, sep: char)
    requires |rest| >= 1
    ensures Join([head] + rest, sep) == head + [sep] + Join(rest, sep)
  {
    assert ([head] + rest)[1..] == rest;
  }

  lemma IndexOfAbsent(s: string, c: char)
    requires c !in s
    ensures IndexOf(s, c) == |s|
  {
  }

  lemma IndexOfAfter(a: string, c: char, b: string)
    requires c !in a
    ensures IndexOf(a + [c] + b, c) == |a|
  {
    var s := a + [c] + b;
    assert s[|a|] == c;
    assert forall k :: 0 <= k < |a| ==> s[k] == a[k];
  }

  lemma {:induction false} SplitJoin(parts: seq<string>, sep: char)
    requires |parts| >= 1
    requires forall k :: 0 <= k < |parts| ==> sep !in parts[k]
    ensures Split(Join(parts, sep), sep) == parts
    decreases |parts|
  {
    if |parts| == 1 {
      IndexOfAbsent(parts[0], sep);
    } else {
      var p := parts[0];
      var j := Join(parts[1..], sep);
      var s := p + [sep] + j;
      assert Join(parts, sep) == s;
      IndexOfAfter(p, sep, j);
      assert s[..|p|] == p;
      assert s[|p| + 1..] == j;
      SplitJoin(parts[1..], sep);
      assert parts == [p] + parts[1..];
    }
  }

  lemma {:induction false} JoinAppend(p: seq<string>, q: seq<string>, sep: char)
    requires |p| >= 1 && |q| >= 1
    ensures Join(p + q, sep) == Join(p, sep) + [sep] + Join(q, sep)
    decreases |p|
  {
    if |p| == 1 {
      assert (p + q)[1..] == q;
    } else {
      assert (p + q)[1..] == p[1..] + q;
      JoinAppend(p[1..], q, sep);
    }
  }

  /** Splitting distributes over a separator: the pieces of `a + sep + b`
      are the pieces of `a` followed by the pieces of `b`. */
  lemma SplitConcat(a: string, b: string, sep: char)
    ensures Split(a + [sep] + b, sep) == Split(a, sep) + Split(b, sep)
  {
    var parts := Split(a, sep) + Split(b, sep);
    JoinAppend(Split(a, sep), Split(b, sep), sep);
    JoinSplit(a, sep);
    JoinSplit(b, sep);
    assert forall k :: 0 <= k < |parts| ==> sep !in parts[k] by {
      forall k | 0 <= k < |parts| ensures sep !in parts[k] {
        if k < |Split(a, sep)| {
          assert parts[k] == Split(a, sep)[k];
        } else {
          assert parts[k] == Split(b, sep)[k - |Split(a, sep)|];
        }
      }
    }
    SplitJoin(parts, sep);
  }

  lemma SplitAbsent(s: string, sep: char)
    requires sep !in s
    ensures Split(s, sep) == [s]
  {
    IndexOfAbsent(s, sep);
  }

  /** `s.startsWith(p)`. */
  predicate StartsWith(s: string, p: string) {
    |p| <= |s| && s[..|p|] == p
  }

  /** `s.endsWith(suffix)`. */
  predicate EndsWith(s: string, suffix: string) {
    |suffix| <= |s| && s[|s| - |suffix|..] == suffix
  }

  predicate OccursAt(s: string, pat: string, k: nat) {
    k + |pat| <= |s| && s[k..k + |pat|] == pat
  }

  lemma OccursShift(s: string, pat: string, k: nat)
    requires |s| > 0
    ensures OccursAt(s, pat, k + 1) <==> OccursAt(s[1..], pat, k)
  {
    if k + 1 + |pat| <= |s| {
      var u, v := s[k + 1..k + 1 + |pat|], s[1..][k..k + |pat|];
      assert |u| == |v|;
      forall j | 0 <= j < |u| ensures u[j] == v[j] {
        assert u[j] == s[k + 1 + j];
      }
      assert u == v;
      assert s[k + 1..k + 1 + |pat|] == s[1..][k..k + |pat|];
    }
  }

  /** The index of the first occurrence of `pat` in `s`: `s.indexOf(pat)`. */
  function FirstOccurrence(s: string, pat: string): (r: Option<nat>)
    ensures r.Some? ==> OccursAt(s, pat, r.value)
    ensures r.Some? ==> forall k :: 0 <= k < r.value ==> !OccursAt(s, pat, k)
    ensures r.None? ==> forall k :: 0 <= k <= |s| ==> !OccursAt(s, pat, k)
    decreases |s|
  {
    if StartsWith(s, pat) then
      Some(0)
    else if |s| == 0 then
      None
    else
      var rest := FirstOccurrence(s[1..], pat);
      assert forall k :: 0 <= k < |s| ==> (OccursAt(s, pat, k + 1) <==> OccursAt(s[1..], pat, k)) by {
        forall k | 0 <= k < |s| ensures OccursAt(s, pat, k + 1) <==> OccursAt(s[1..], pat, k) {
          OccursShift(s, pat, k);
        }
      }
      assert !OccursAt(s, pat, 0);
      match rest
      case None =>
        assert forall k :: 0 <= k <= |s| ==> !OccursAt(s, pat, k) by {
          forall k | 0 <= k <= |s| ensures !OccursAt(s, pat, k) {
            if k > 0 { assert !OccursAt(s[1..], pat, k - 1); }
          }
        }
        None
      case Some(i) =>
        assert forall k :: 0 <= k < i + 1 ==> !OccursAt(s, pat, k) by {
          forall k | 0 <= k < i + 1 ensures !OccursAt(s, pat, k) {
            if k > 0 { assert !OccursAt(s[1..], pat, k - 1); }
          }
        }
        Some(i + 1)
  }

  /** `s.replace(pat, rep)` with a string pattern: only the first occurrence
      is replaced. */
  function ReplaceFirst(s: string, pat: string, rep: string): (r: string)
    ensures (forall k :: 0 <= k <= |s| ==> !OccursAt(s, pat, k)) ==> r == s
    ensures (exists k :: 0 <= k <= |s| && OccursAt(s, pat, k)) ==>
              exists i :: && 0 <= i <= |s| && OccursAt(s, pat, i)
                          && (forall k :: 0 <= k < i ==> !OccursAt(s, pat, k))
                          && r == s[..i] + rep + s[i + |pat|..]
  {
    match FirstOccurrence(s, pat)
    case None => s
    case Some(i) => s[..i] + rep + s[i + |pat|..]
  }

  function DigitChar(d: nat): (c: char)
    requires d < 10
    ensures '0' <= c <= '9'
  {
    (48 + d) as char
  }

  predicate IsDigits(s: string) {
    forall i :: 0 <= i < |s| ==> '0' <= s[i] <= '9'
  }

  /** The decimal numeral of `n` as a template literal renders it. */
  function DecimalString(n: nat): (r: string)
    ensures |r| >= 1 && IsDigits(r)
    ensures r[0] == '0' <==> n == 0
    ensures |r| == 1 <==> n < 10
  {
    if n < 10 then [DigitChar(n)] else DecimalString(n / 10) + [DigitChar(n % 10)]
  }

  /** The number a digit string denotes. */
  function DecimalValue(s: string): nat
    requires IsDigits(s)
  {
    if s == [] then 0 else 10 * DecimalValue(s[..|s| - 1]) + (s[|s| - 1] as int - 48)
  }

  lemma {:induction false} DecimalRoundTrip(n: nat)
    ensures DecimalValue(DecimalString(n)) == n
  {
    if n >= 10 {
      var r := DecimalString(n);
      assert r[..|r| - 1] == DecimalString(n / 10);
      DecimalRoundTrip(n / 10);
    }
  }
}
