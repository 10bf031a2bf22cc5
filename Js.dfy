/**
 The JavaScript built-ins the extension relies on, stated over `string` (`seq<char>`):
 the character classes of `trim` and `\s`, `toLowerCase` (ASCII), `trim`, `replace` of one
 character, `split` on one character, `indexOf`, `includes`, `substring`, `Array.prototype.find`
 and `filter`, `Math.ceil` and the decimal rendering of an integer in a template literal.
 */
module Js {
  import opened Wrappers

  // ---------------------------------------------------------------------------
  // Character classes

  /** The ECMAScript WhiteSpace and LineTerminator code points: what `trim` removes and `\s` matches. */
  predicate IsWhitespace(c: char) {
    c == ' ' || c == '\t' || c == '\n' || c == '\r' || c == '\U{B}' || c == '\U{C}'
    || c == '\U{A0}' || c == '\U{1680}' || ('\U{2000}' <= c <= '\U{200A}')
    || c == '\U{2028}' || c == '\U{2029}' || c == '\U{202F}' || c == '\U{205F}'
    || c == '\U{3000}' || c == '\U{FEFF}'
  }

  /** The regular-expression class `\d`. */
  predicate IsDigit(c: char) {
    '0' <= c <= '9'
  }

  /** The regular-expression class `[A-Z]`. */
  predicate IsUpper(c: char) {
    'A' <= c <= 'Z'
  }

  /** Lower-casing of one character, restricted to ASCII letters. */
  function LowerChar(c: char): (r: char)
    ensures !IsUpper(r)
    ensures !IsUpper(c) ==> r == c
    ensures IsUpper(c) ==> 'a' <= r <= 'z'
  {
    if IsUpper(c) then (c as int + 32) as char else c
  }

  // ---------------------------------------------------------------------------
  // Strings

  /** `s.toLowerCase()`, with ASCII case mapping. */
  function ToLowerCase(s: string): (r: string)
    ensures |r| == |s|
    ensures forall i :: 0 <= i < |s| ==> r[i] == LowerChar(s[i])
  {
    seq(|s|, i requires 0 <= i < |s| => LowerChar(s[i]))
  }

  /** A string whose first and last characters (if any) are not whitespace. */
  predicate NoEdgeWhitespace(s: string) {
    s == [] || (!IsWhitespace(s[0]) && !IsWhitespace(s[|s| - 1]))
  }

  /** The number of whitespace characters `s` starts with. */
  function LeadingSpace(s: string): (n: nat)
    ensures n <= |s|
    ensures forall i :: 0 <= i < n ==> IsWhitespace(s[i])
    ensures n < |s| ==> !IsWhitespace(s[n])
  {
    if |s| > 0 && IsWhitespace(s[0]) then
      var n := 1 + LeadingSpace(s[1..]);
      assert forall i :: 1 <= i < n ==> s[i] == s[1..][i - 1];
      n
    else 0
  }

  /** The length of `s` without its trailing whitespace. */
  function ContentEnd(s: string): (m: nat)
    ensures m <= |s|
    ensures forall i :: m <= i < |s| ==> IsWhitespace(s[i])
    ensures m > 0 ==> !IsWhitespace(s[m - 1])
  {
    if |s| > 0 && IsWhitespace(s[|s| - 1]) then ContentEnd(s[..|s| - 1]) else |s|
  }

  /** Drops the trailing whitespace. */
  function TrimEnd(s: string): string {
    s[..ContentEnd(s)]
  }

  /** `s.trim()`. */
  function Trim(s: string): (r: string)
    ensures NoEdgeWhitespace(r)
    ensures forall c :: c in r ==> c in s
    ensures NoEdgeWhitespace(s) ==> r == s
  {
    var n := LeadingSpace(s);
    var t := s[n..];
    var m := ContentEnd(t);
    var r := t[..m];
    assert NoEdgeWhitespace(r) by {
      if r != [] {
        assert r[0] == t[0] == s[n];
        assert r[|r| - 1] == t[m - 1];
      }
    }
    assert forall c :: c in r ==> c in s by {
      SliceChars(s, n, |s|);
      SliceChars(t, 0, m);
    }
    assert NoEdgeWhitespace(s) ==> r == s by {
      if NoEdgeWhitespace(s) && s != [] {
        assert n == 0 && t == s;
      }
    }
    r
  }

  /** The characters of a slice are characters of the whole string. */
  lemma SliceChars(s: string, i: nat, j: nat)
    requires i <= j <= |s|
    ensures forall c :: c in s[i..j] ==> c in s
  {
    forall c | c in s[i..j] ensures c in s {
      var k :| 0 <= k < j - i && s[i..j][k] == c;
      assert s[i + k] == c;
    }
  }

  /** Whitespace in front of a string that does not start with whitespace is exactly what is
      counted as leading. */
  lemma {:induction false} LeadingSpaceOf(w: string, s: string)
    requires forall i :: 0 <= i < |w| ==> IsWhitespace(w[i])
    requires s == [] || !IsWhitespace(s[0])
    ensures LeadingSpace(w + s) == |w|
  {
    if w == [] {
      assert w + s == s;
    } else {
      assert (w + s)[1..] == w[1..] + s;
      LeadingSpaceOf(w[1..], s);
    }
  }

  /** Whitespace after a string that does not end with whitespace is exactly what is cut off as
      trailing. */
  lemma {:induction false} ContentEndOf(s: string, w: string)
    requires s == [] || !IsWhitespace(s[|s| - 1])
    requires forall i :: 0 <= i < |w| ==> IsWhitespace(w[i])
    ensures ContentEnd(s + w) == |s|
  {
    if w == [] {
      assert s + w == s;
    } else {
      assert (s + w)[..|s + w| - 1] == s + w[..|w| - 1];
      ContentEndOf(s, w[..|w| - 1]);
    }
  }

  /** Whitespace in front of a trimmed string is all that `trim` removes. */
  lemma TrimLeadingWhitespace(w: string, s: string)
    requires forall i :: 0 <= i < |w| ==> IsWhitespace(w[i])
    requires NoEdgeWhitespace(s)
    ensures Trim(w + s) == s
  {
    LeadingSpaceOf(w, s);
    assert (w + s)[|w|..] == s;
    assert ContentEnd(s) == |s|;
    assert s[..|s|] == s;
  }

  /** Whitespace after a trimmed string is all that `trim` removes. */
  lemma TrimTrailingWhitespace(s: string, w: string)
    requires NoEdgeWhitespace(s)
    requires forall i :: 0 <= i < |w| ==> IsWhitespace(w[i])
    ensures Trim(s + w) == s
  {
    if s == [] {
      assert s + w == w + s;
      LeadingSpaceOf(w, s);
      assert (s + w)[|w|..] == [];
    } else {
      assert LeadingSpace(s + w) == 0;
      ContentEndOf(s, w);
      assert (s + w)[..|s|] == s;
    }
  }

  /** Trailing whitespace is what `TrimEnd` removes. */
  lemma TrimEndWhitespace(s: string, w: string)
    requires s == [] || !IsWhitespace(s[|s| - 1])
    requires forall i :: 0 <= i < |w| ==> IsWhitespace(w[i])
    ensures TrimEnd(s + w) == s
  {
    ContentEndOf(s, w);
    assert (s + w)[..|s|] == s;
  }

  /** `trim` removes exactly the whitespace around a string that has none at its edges. */
  lemma TrimBothEdges(w1: string, t: string, w2: string)
    requires forall i :: 0 <= i < |w1| ==> IsWhitespace(w1[i])
    requires forall i :: 0 <= i < |w2| ==> IsWhitespace(w2[i])
    requires NoEdgeWhitespace(t)
    ensures Trim(w1 + t + w2) == t
  {
    var s := w1 + t + w2;
    if t == [] {
      var w := w1 + w2;
      assert s == w + t;
      assert forall i :: 0 <= i < |w| ==> IsWhitespace(w[i]) by {
        forall i | 0 <= i < |w| ensures IsWhitespace(w[i]) {
          if i < |w1| { assert w[i] == w1[i]; } else { assert w[i] == w2[i - |w1|]; }
        }
      }
      LeadingSpaceOf(w, t);
      assert s[|w|..] == [];
    } else {
      assert s == w1 + (t + w2);
      LeadingSpaceOf(w1, t + w2);
      assert s[|w1|..] == t + w2;
      ContentEndOf(t, w2);
      assert (t + w2)[..|t|] == t;
    }
  }

  /** `s.replace(/c/g, "")`: every occurrence of `c` removed, the rest in order. */
  function RemoveAll(s: string, c: char): (r: string)
    ensures c !in r
    ensures forall x :: x in r ==> x in s
    ensures c !in s ==> r == s
  {
    if s == [] then []
    else if s[0] == c then RemoveAll(s[1..], c)
    else [s[0]] + RemoveAll(s[1..], c)
  }

  /** Exactly the occurrences of `c` go: the result is shorter by their number. */
  lemma {:induction false} RemoveAllLength(s: string, c: char)
    ensures |RemoveAll(s, c)| == |s| - Count(s, c)
  {
    if s != [] {
      assert s == [s[0]] + s[1..];
      assert multiset(s) == multiset{s[0]} + multiset(s[1..]);
      RemoveAllLength(s[1..], c);
    }
  }

  /** Removing a character from a concatenation removes it from each side and keeps the order:
      with `RemoveAll([x], c)` being `[]` for `x == c` and `[x]` otherwise, this fixes the result. */
  lemma {:induction false} RemoveAllConcat(a: string, b: string, c: char)
    ensures RemoveAll(a + b, c) == RemoveAll(a, c) + RemoveAll(b, c)
  {
    if a == [] {
      assert a + b == b;
    } else {
      assert (a + b)[0] == a[0] && (a + b)[1..] == a[1..] + b;
      RemoveAllConcat(a[1..], b, c);
    }
  }

  /** Removing `c` keeps every other character: a single character is dropped exactly when it is `c`. */
  lemma RemoveAllSingle(x: char, c: char)
    ensures RemoveAll([x], c) == if x == c then [] else [x]
  {
    assert [x][1..] == [];
  }

  /** The number of occurrences of `c` in `s`. */
  function Count(s: string, c: char): nat {
    multiset(s)[c]
  }

  /** `s.split(sep)` for a one-character separator: the pieces between consecutive separators. */
  function Split(s: string, sep: char): (parts: seq<string>)
    ensures |parts| == Count(s, sep) + 1
    ensures forall k :: 0 <= k < |parts| ==> sep !in parts[k]
    decreases |s|
  {
    match FindIndex(s, IsChar(sep))
    case None =>
      assert forall k :: 0 <= k < |s| ==> !IsChar(sep)(s[k]);
      assert sep !in s;
      [s]
    case Some(i) =>
      assert s == s[..i] + [s[i]] + s[i + 1..];
      assert forall k :: 0 <= k < i ==> !IsChar(sep)(s[k]);
      assert sep !in s[..i];
      [s[..i]] + Split(s[i + 1..], sep)
  }

  /** `parts.join(sep)`: the parts with one separator between consecutive ones. */
  function Join(parts: seq<string>, sep: char): string
    requires |parts| >= 1
  {
    if |parts| == 1 then parts[0] else parts[0] + [sep] + Join(parts[1..], sep)
  }

  /** Joining the parts of a split with the separator gives back the string. */
  lemma {:induction false} SplitJoin(s: string, sep: char)
    ensures Join(Split(s, sep), sep) == s
    decreases |s|
  {
    match FindIndex(s, IsChar(sep))
    case None =>
    case Some(i) =>
      var rest := Split(s[i + 1..], sep);
      SplitJoin(s[i + 1..], sep);
      assert Split(s, sep) == [s[..i]] + rest;
      assert ([s[..i]] + rest)[1..] == rest;
      assert s == s[..i] + [sep] + s[i + 1..];
  }

  /** Splitting parts joined by a separator they do not contain gives back the parts: with
      `SplitJoin`, the parts of a split are the separator-free pieces between the separators. */
  lemma {:induction false} JoinSplit(parts: seq<string>, sep: char)
    requires |parts| >= 1
    requires forall k :: 0 <= k < |parts| ==> sep !in parts[k]
    ensures Split(Join(parts, sep), sep) == parts
    decreases |parts|
  {
    if |parts| == 1 {
      SplitWithoutSeparator(parts[0], sep);
    } else {
      var p := parts[0];
      var rest := Join(parts[1..], sep);
      var s := p + [sep] + rest;
      assert Join(parts, sep) == s;
      assert FindIndex(s, IsChar(sep)) == Some(|p|) by {
        assert forall j :: 0 <= j < |p| ==> s[j] == p[j] && !IsChar(sep)(s[j]);
        assert s[|p|] == sep;
        FindIndexOfFirst(s, |p|, IsChar(sep));
      }
      assert s[..|p|] == p && s[|p| + 1..] == rest;
      JoinSplit(parts[1..], sep);
      assert parts == [p] + parts[1..];
    }
  }

  /** With no separator in it, a string splits into itself alone. */
  lemma SplitWithoutSeparator(s: string, sep: char)
    requires sep !in s
    ensures Split(s, sep) == [s]
  {
    assert forall j :: 0 <= j < |s| ==> !IsChar(sep)(s[j]);
  }

  /** With exactly one separator, at index `i`, a string splits into the text before it and the text after it. */
  lemma SplitAtOnlySeparator(s: string, sep: char, i: nat)
    requires i < |s| && s[i] == sep && Count(s, sep) == 1
    ensures Split(s, sep) == [s[..i], s[i + 1..]]
  {
    assert s == s[..i] + [s[i]] + s[i + 1..];
    assert multiset(s) == multiset(s[..i]) + multiset{s[i]} + multiset(s[i + 1..]);
    assert sep !in multiset(s[..i]) && sep !in multiset(s[i + 1..]);
    assert forall j :: 0 <= j < i ==> s[j] == s[..i][j] && !IsChar(sep)(s[j]);
    assert IsChar(sep)(s[i]);
    assert FindIndex(s, IsChar(sep)) == Some(i);
    SplitWithoutSeparator(s[i + 1..], sep);
  }

  /** The test "is this character `c`", as a function value for `find`. */
  function IsChar(c: char): char -> bool {
    x => x == c
  }

  /** `pat` occurs in `s` starting at index `i`. */
  predicate OccursAt(s: string, pat: string, i: int) {
    0 <= i && i + |pat| <= |s| && s[i..i + |pat|] == pat
  }

  /** `s.indexOf(pat, from)`, for `from` within the string. */
  function IndexFrom(s: string, pat: string, from: nat): (r: int)
    requires from <= |s|
    ensures r == -1 || from <= r
    decreases |s| - from
  {
    if from + |pat| > |s| then -1
    else if OccursAt(s, pat, from) then from
    else IndexFrom(s, pat, from + 1)
  }

  /** `indexOf` from `from` reports an occurrence with none between `from` and it, or -1 when there
      is no occurrence from `from` on. */
  lemma {:induction false} IndexFromMeaning(s: string, pat: string, from: nat)
    requires from <= |s|
    ensures var r := IndexFrom(s, pat, from);
      r == -1 || OccursAt(s, pat, r)
    ensures var r := IndexFrom(s, pat, from);
      forall j :: from <= j && (r == -1 || j < r) ==> !OccursAt(s, pat, j)
    decreases |s| - from
  {
    if from + |pat| <= |s| && !OccursAt(s, pat, from) {
      IndexFromMeaning(s, pat, from + 1);
    }
  }

  /** `s.indexOf(pat)`: the first index where `pat` occurs, or -1. */
  function IndexOf(s: string, pat: string): (r: int)
    ensures r >= -1
  {
    IndexFrom(s, pat, 0)
  }

  /** `indexOf` reports the first occurrence, and -1 exactly when there is none. */
  lemma IndexOfMeaning(s: string, pat: string)
    ensures var r := IndexOf(s, pat);
      r == -1 || OccursAt(s, pat, r)
    ensures var r := IndexOf(s, pat);
      forall j :: 0 <= j && (r == -1 || j < r) ==> !OccursAt(s, pat, j)
  {
    IndexFromMeaning(s, pat, 0);
  }

  /** `indexOf` finds the first occurrence. */
  lemma IndexOfFirst(s: string, pat: string, k: nat)
    requires OccursAt(s, pat, k)
    requires forall j :: 0 <= j < k ==> !OccursAt(s, pat, j)
    ensures IndexOf(s, pat) == k
  {
    IndexOfMeaning(s, pat);
  }

  /** In `before + pat + after`, `indexOf` finds `pat` right after `before` unless it occurs earlier. */
  lemma IndexOfPlaced(s: string, before: string, pat: string, after: string)
    requires s == before + pat + after
    requires forall j :: 0 <= j < |before| ==> !OccursAt(s, pat, j)
    ensures IndexOf(s, pat) == |before|
  {
    assert s[|before|..|before| + |pat|] == pat;
    IndexOfFirst(s, pat, |before|);
  }

  /** `s.includes(pat)`. */
  function Includes(s: string, pat: string): bool {
    IndexOf(s, pat) >= 0
  }

  /** `includes` is true exactly when the pattern occurs somewhere. */
  lemma IncludesMeaning(s: string, pat: string)
    ensures Includes(s, pat) <==> exists i :: OccursAt(s, pat, i)
  {
    IndexOfMeaning(s, pat);
  }

  /** Clamps an index to `[0, len]`, as the string methods do with their arguments. */
  function ClampIndex(i: int, len: nat): (r: nat)
    ensures r <= len
    ensures 0 <= i <= len ==> r == i
  {
    if i < 0 then 0 else if i > len then len else i
  }

  /** `s.substring(start, end)`: both arguments clamped to the string, and swapped when `end < start`. */
  function Substring(s: string, start: int, end: int): (r: string)
    ensures 0 <= start <= end <= |s| ==> r == s[start..end]
    ensures 0 <= end <= start <= |s| ==> r == s[end..start]
  {
    var a := ClampIndex(start, |s|);
    var b := ClampIndex(end, |s|);
    if a <= b then s[a..b] else s[b..a]
  }

  // ---------------------------------------------------------------------------
  // Arrays

  /** The index `Array.prototype.find` stops at: the first element satisfying `p`, if any. */
  function FindIndex<T>(s: seq<T>, p: T -> bool): (r: Option<nat>)
    ensures r.Some? ==> r.value < |s| && p(s[r.value])
    ensures r.Some? ==> forall j :: 0 <= j < r.value ==> !p(s[j])
    ensures r.None? ==> forall j :: 0 <= j < |s| ==> !p(s[j])
  {
    if s == [] then None
    else if p(s[0]) then Some(0)
    else match FindIndex(s[1..], p)
      case None => None
      case Some(k) => Some(k + 1)
  }

  /** `s[k]` is the first element of `s` satisfying `p`. */
  predicate FirstWith<T>(s: seq<T>, k: nat, p: T -> bool) {
    k < |s| && p(s[k]) && forall j :: 0 <= j < k ==> !p(s[j])
  }

  /** No element of `s` satisfies `p`. */
  predicate NoneWith<T>(s: seq<T>, p: T -> bool) {
    forall j :: 0 <= j < |s| ==> !p(s[j])
  }

  /** `find` stops at the first element satisfying the test. */
  lemma FindIndexOfFirst<T>(s: seq<T>, k: nat, p: T -> bool)
    requires FirstWith(s, k, p)
    ensures FindIndex(s, p) == Some(k)
  {
  }

  /** `Array.prototype.find`: the first element satisfying `p`, or `undefined`. */
  function Find<T>(s: seq<T>, p: T -> bool): (r: Option<T>)
    ensures r.Some? ==> exists k: nat :: FirstWith(s, k, p) && r.value == s[k]
    ensures r.None? <==> NoneWith(s, p)
  {
    match FindIndex(s, p)
    case None => None
    case Some(i) =>
      assert FirstWith(s, i, p);
      Some(s[i])
  }

  /** `Array.prototype.filter`: the elements satisfying `p`, in their order. */
  function Filter<T>(s: seq<T>, p: T -> bool): (r: seq<T>)
    ensures |r| <= |s|
    ensures forall x :: x in r ==> x in s && p(x)
  {
    if s == [] then []
    else if p(s[0]) then [s[0]] + Filter(s[1..], p)
    else Filter(s[1..], p)
  }

  /** The conjunction of two element tests. */
  function Both<T>(q: T -> bool, p: T -> bool): T -> bool {
    x => q(x) && p(x)
  }

  /** Finding in a filtered array finds the first element that passes both the filter and the test:
      filtering keeps the order, so "first" means the same thing before and after. */
  lemma {:induction false} FindAfterFilter<T>(s: seq<T>, q: T -> bool, p: T -> bool)
    ensures Find(Filter(s, q), p) == Find(s, Both(q, p))
  {
    if s != [] {
      FindAfterFilter(s[1..], q, p);
      if q(s[0]) {
        assert Filter(s, q) == [s[0]] + Filter(s[1..], q);
        assert Filter(s, q)[1..] == Filter(s[1..], q);
      }
    }
  }

  // ---------------------------------------------------------------------------
  // Numbers

  /** `Math.ceil(x)`: the least integer not below `x`. */
  function Ceil(x: real): (r: int)
    ensures r as real - 1.0 < x <= r as real
  {
    if x.Floor as real == x then x.Floor else x.Floor + 1
  }

  /** The decimal digits of a natural number, most significant first. */
  function Digits(n: nat): (r: string)
    ensures |r| >= 1
    ensures forall i :: 0 <= i < |r| ==> IsDigit(r[i])
    ensures r[0] == '0' ==> n == 0
  {
    var d := ['0' + (n % 10) as char];
    if n < 10 then d else Digits(n / 10) + d
  }

  /** The value of a string of decimal digits. */
  function DigitsValue(s: string): nat
    requires forall i :: 0 <= i < |s| ==> IsDigit(s[i])
  {
    if s == [] then 0
    else
      assert IsDigit(s[|s| - 1]);
      10 * DigitsValue(s[..|s| - 1]) + (s[|s| - 1] as int - '0' as int)
  }

  /** Reading back the digits gives the number: the rendering loses nothing. */
  lemma {:induction false} DigitsRoundTrip(n: nat)
    ensures DigitsValue(Digits(n)) == n
  {
    if n >= 10 {
      DigitsRoundTrip(n / 10);
      assert Digits(n)[..|Digits(n)| - 1] == Digits(n / 10);
    }
  }

  /** A digit string without a leading zero (a lone "0" aside). */
  predicate Canonical(s: string) {
    |s| >= 1 && (forall i :: 0 <= i < |s| ==> IsDigit(s[i])) && (s[0] == '0' ==> |s| == 1)
  }

  /** A digit string that does not start with "0" denotes a positive number. */
  lemma {:induction false} DigitsValuePositive(s: string)
    requires |s| >= 1 && (forall i :: 0 <= i < |s| ==> IsDigit(s[i])) && s[0] != '0'
    ensures DigitsValue(s) > 0
  {
    if |s| > 1 {
      DigitsValuePositive(s[..|s| - 1]);
    }
  }

  /** The decimal rendering is the only canonical digit string with its value: a label that names a
      number names it with exactly these digits. */
  lemma {:induction false} DigitsUnique(s: string)
    requires Canonical(s)
    ensures Digits(DigitsValue(s)) == s
  {
    if |s| > 1 {
      var p := s[..|s| - 1];
      DigitsValuePositive(p);
      DigitsUnique(p);
      var d := s[|s| - 1] as int - '0' as int;
      assert DigitsValue(s) == 10 * DigitsValue(p) + d;
      assert s == p + [s[|s| - 1]];
    }
  }

  /** An integer written into a template literal: an optional minus sign and its decimal digits. */
  function NumberToString(n: int): string {
    if n < 0 then "-" + Digits(-n) else Digits(n)
  }

  /** The rendering of an integer reads back as that integer: its digits, after a minus sign exactly
      when it is negative. */
  lemma NumberToStringValue(n: int)
    ensures var r := NumberToString(n);
      && (n >= 0 ==> Canonical(r) && DigitsValue(r) == n)
      && (n < 0 ==> r[0] == '-' && Canonical(r[1..]) && DigitsValue(r[1..]) == -n)
  {
    if n < 0 {
      DigitsRoundTrip(-n);
      assert NumberToString(n)[1..] == Digits(-n);
    } else {
      DigitsRoundTrip(n);
    }
  }
}
