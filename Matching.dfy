/**
 The candidate selection inside `fetchRMPInfo` (content.js): which relay-store values are professor
 records of the school, the positional mismatch count `simpleCharDiff`, and the three matching tiers
 (exact full name, then last name, then fuzzy), each taking the first hit in list order.
 */
module Matching {
  import opened Wrappers
  import opened Js
  import opened Names

  /** A numeric field of a relay-store record as JavaScript sees it. */
  datatype Metric = Undefined | Null | NaN | Num(value: real)

  /** A value of the relay store, with the fields the resolver reads. A string field that is absent
      or null is the empty string and an absent `legacyId` is 0: the script only checks them for truthiness
      before they are used. */
  datatype Entry = Entry(
    typename: string,
    firstName: string,
    lastName: string,
    legacyId: int,
    schoolRef: Option<string>,
    avgRating: Metric,
    wouldTakeAgainPercent: Metric,
    avgDifficulty: Metric)

  /** The `__typename` of a professor record. */
  const TeacherTypename: string := "Teacher"

  /** The relay reference of the one school the extension serves. */
  const SchoolRef: string := "U2Nob29sLTExNDc="

  /** The structural filter: a professor record of the school with a first name, a last name and a
      legacy identifier. */
  predicate IsTeacherEntry(e: Entry) {
    && e.typename == TeacherTypename
    && e.firstName != []
    && e.lastName != []
    && e.legacyId != 0
    && e.schoolRef == Some(SchoolRef)
  }

  // ---------------------------------------------------------------------------
  // simpleCharDiff

  /** The number of positions below `n` at which `a` and `b` differ. */
  function DiffCount(a: string, b: string, n: nat): (r: nat)
    requires n <= |a| && n <= |b|
    ensures r <= n
  {
    if n == 0 then 0
    else DiffCount(a, b, n - 1) + (if a[n - 1] != b[n - 1] then 1 else 0)
  }

  /** The positional mismatch count over the overlap of `a` and `b`: characters past the end of the
      shorter string are not counted. */
  function Mismatches(a: string, b: string): (r: nat)
    ensures r <= |a| && r <= |b|
  {
    DiffCount(a, b, if |a| < |b| then |a| else |b|)
  }

  /** What `simpleCharDiff(a, b)` returns: the mismatch count of the normalised names. */
  function CharDiff(a: string, b: string): nat {
    Mismatches(NormalizeName(a), NormalizeName(b))
  }

  /** `simpleCharDiff`: normalises both names and counts, in one pass over the overlap, the positions
      at which they differ. */
  method SimpleCharDiff(a: string, b: string) returns (errors: nat)
    ensures errors == CharDiff(a, b)
  {
    var na := NormalizeName(a);
    var nb := NormalizeName(b);
    errors := CountMismatches(na, nb);
  }

  /** The counting loop of `simpleCharDiff`: one pass over the first `min(|a|, |b|)` positions, adding
      one for each position where the characters differ. */
  method CountMismatches(a: string, b: string) returns (errors: nat)
    ensures errors == Mismatches(a, b)
  {
    errors := 0;
    var len := if |a| < |b| then |a| else |b|;
    for i := 0 to len
      invariant errors == DiffCount(a, b, i)
    {
      if a[i] != b[i] {
        errors := errors + 1;
      }
    }
  }

  /** The count is the number of differing positions over the overlap. */
  lemma {:induction false} DiffCountIsDifferingPositions(a: string, b: string, n: nat)
    requires n <= |a| && n <= |b|
    ensures DiffCount(a, b, n) == |set i | 0 <= i < n && a[i] != b[i]|
  {
    if n > 0 {
      DiffCountIsDifferingPositions(a, b, n - 1);
      var before := set i | 0 <= i < n - 1 && a[i] != b[i];
      var upTo := set i | 0 <= i < n && a[i] != b[i];
      if a[n - 1] != b[n - 1] {
        assert upTo == before + {n - 1} by {
          forall i | i in upTo ensures i in before + {n - 1} {
          }
        }
        assert n - 1 !in before;
        assert |upTo| == |before| + 1;
      } else {
        assert upTo == before by {
          forall i | i in upTo ensures i in before {
          }
        }
      }
    }
  }

  /** The count does not depend on the order of the arguments. */
  lemma {:induction false} DiffCountSymmetric(a: string, b: string, n: nat)
    requires n <= |a| && n <= |b|
    ensures DiffCount(a, b, n) == DiffCount(b, a, n)
  {
    if n > 0 {
      DiffCountSymmetric(a, b, n - 1);
    }
  }

  /** No position below `n` differs exactly when the first `n` characters agree. */
  lemma {:induction false} DiffCountZero(a: string, b: string, n: nat)
    requires n <= |a| && n <= |b|
    ensures DiffCount(a, b, n) == 0 <==> a[..n] == b[..n]
  {
    if n > 0 {
      DiffCountZero(a, b, n - 1);
      assert a[..n] == a[..n - 1] + [a[n - 1]];
      assert b[..n] == b[..n - 1] + [b[n - 1]];
      if a[..n] == b[..n] {
        assert a[..n][..n - 1] == a[..n - 1] && b[..n][..n - 1] == b[..n - 1];
      }
    }
  }

  /** The mismatch count is symmetric. */
  lemma MismatchesSymmetric(a: string, b: string)
    ensures Mismatches(a, b) == Mismatches(b, a)
  {
    DiffCountSymmetric(a, b, if |a| < |b| then |a| else |b|);
  }

  /** The mismatch count is zero exactly when one string is a prefix of the other: trailing
      characters of the longer string are never penalised. */
  lemma MismatchesZeroIffPrefix(a: string, b: string)
    ensures Mismatches(a, b) == 0 <==> (a <= b || b <= a)
  {
    var n := if |a| < |b| then |a| else |b|;
    DiffCountZero(a, b, n);
    assert a[..|a|] == a && b[..|b|] == b;
  }

  /** `simpleCharDiff` is symmetric and bounded by the shorter normalised name. */
  lemma CharDiffProperties(a: string, b: string)
    ensures CharDiff(a, b) == CharDiff(b, a)
    ensures CharDiff(a, b) <= |NormalizeName(a)| && CharDiff(a, b) <= |NormalizeName(b)|
  {
    MismatchesSymmetric(NormalizeName(a), NormalizeName(b));
  }

  /** Normalising a name before handing it to `simpleCharDiff`, as the fuzzy tier does, changes nothing. */
  lemma CharDiffOfNormalized(a: string, b: string)
    ensures CharDiff(NormalizeName(a), NormalizeName(b)) == Mismatches(NormalizeName(a), NormalizeName(b))
  {
    NormalizeIdempotent(a);
    NormalizeIdempotent(b);
  }

  /** The fuzzy-acceptance example: "jon" against "john" and "smyth" against "smith" each differ at
      one position of the overlap, while "jon" is a prefix of "jonathan" and costs nothing. */
  lemma MismatchesExamples()
    ensures Mismatches("john", "jon") == 1
    ensures Mismatches("smith", "smyth") == 1
    ensures Mismatches("jonathan", "jon") == 0
  {
    var a, b := "john", "jon";
    assert DiffCount(a, b, 2) == 0 by { DiffCountZero(a, b, 2); assert a[..2] == b[..2]; }
    assert a[2] != b[2];
    var c, d := "smith", "smyth";
    assert DiffCount(c, d, 3) == 1 by {
      DiffCountZero(c, d, 2);
      assert c[..2] == d[..2];
      assert c[2] != d[2];
    }
    assert c[3] == d[3] && c[4] == d[4];
    assert DiffCount(c, d, 4) == 1;
    assert DiffCount(c, d, 5) == 1;
    MismatchesZeroIffPrefix("jonathan", "jon");
    assert "jon" <= "jonathan";
  }

  // ---------------------------------------------------------------------------
  // The three tiers

  /** `firstLast.toLowerCase().split(' ')`: the words of the query. */
  function QueryParts(firstLast: string): (parts: seq<string>)
    ensures |parts| >= 1
  {
    Split(ToLowerCase(firstLast), ' ')
  }

  /** A query of three words splits into those words, lower-cased. */
  lemma QueryPartsOfWords(firstLast: string, first: string, middle: string, last: string)
    requires ToLowerCase(firstLast) == first + " " + middle + " " + last
    requires ' ' !in first && ' ' !in middle && ' ' !in last
    ensures QueryParts(firstLast) == [first, middle, last]
  {
    var parts := [first, middle, last];
    assert parts[1..] == [middle, last] && parts[1..][1..] == [last];
    assert Join(parts[1..], ' ') == middle + [' '] + last;
    assert Join(parts, ' ') == first + [' '] + (middle + [' '] + last);
    assert first + [' '] + (middle + [' '] + last) == first + " " + middle + " " + last;
    JoinSplit(parts, ' ');
  }

  /** Tier 1: the record's "first last", lower-cased, is the lower-cased query. */
  predicate IsExactMatch(e: Entry, firstLast: string) {
    ToLowerCase(e.firstName + " " + e.lastName) == ToLowerCase(firstLast)
  }

  /** Tier 2: the record's lower-cased last name is the last word of the query. */
  predicate IsLastNameMatch(e: Entry, firstLast: string) {
    var parts := QueryParts(firstLast);
    ToLowerCase(e.lastName) == parts[|parts| - 1]
  }

  /** Tier 3: the normalised first and last names are each within one mismatch of the first and the
      last word of the query. */
  predicate IsFuzzyMatch(e: Entry, firstLast: string) {
    var parts := QueryParts(firstLast);
    var targetFirst := NormalizeName(parts[0]);
    var targetLast := NormalizeName(parts[|parts| - 1]);
    CharDiff(NormalizeName(e.firstName), targetFirst) <= 1
    && CharDiff(NormalizeName(e.lastName), targetLast) <= 1
  }

  /** A middle name in the query is ignored: the last-name tier compares with the last word, and the
      fuzzy tier with the first and the last word. */
  lemma MiddleNameIgnored(e: Entry, firstLast: string, first: string, middle: string, last: string)
    requires ToLowerCase(firstLast) == first + " " + middle + " " + last
    requires ' ' !in first && ' ' !in middle && ' ' !in last
    ensures IsLastNameMatch(e, firstLast) <==> ToLowerCase(e.lastName) == last
    ensures IsFuzzyMatch(e, firstLast) <==>
      CharDiff(NormalizeName(e.firstName), NormalizeName(first)) <= 1
      && CharDiff(NormalizeName(e.lastName), NormalizeName(last)) <= 1
  {
    QueryPartsOfWords(firstLast, first, middle, last);
  }

  function ExactFor(firstLast: string): Entry -> bool {
    e => IsExactMatch(e, firstLast)
  }

  function LastNameFor(firstLast: string): Entry -> bool {
    e => IsLastNameMatch(e, firstLast)
  }

  function FuzzyFor(firstLast: string): Entry -> bool {
    e => IsFuzzyMatch(e, firstLast)
  }

  /** The tier that produced the match and the index of the matched record. */
  datatype Match = Exact(at: nat) | LastName(at: nat) | Fuzzy(at: nat) | NoMatch

  /** The three-tier selection: the first exact match; failing that, the first last-name match;
      failing that, the first fuzzy match. */
  function SelectMatch(entries: seq<Entry>, firstLast: string): (m: Match)
    ensures m.Exact? <==> !NoneWith(entries, ExactFor(firstLast))
    ensures m.Exact? ==> FirstWith(entries, m.at, ExactFor(firstLast))
    ensures m.LastName? <==>
      NoneWith(entries, ExactFor(firstLast)) && !NoneWith(entries, LastNameFor(firstLast))
    ensures m.LastName? ==> FirstWith(entries, m.at, LastNameFor(firstLast))
    ensures m.Fuzzy? <==>
      NoneWith(entries, ExactFor(firstLast)) && NoneWith(entries, LastNameFor(firstLast))
      && !NoneWith(entries, FuzzyFor(firstLast))
    ensures m.Fuzzy? ==> FirstWith(entries, m.at, FuzzyFor(firstLast))
    ensures m.NoMatch? <==>
      NoneWith(entries, ExactFor(firstLast)) && NoneWith(entries, LastNameFor(firstLast))
      && NoneWith(entries, FuzzyFor(firstLast))
  {
    match FindIndex(entries, ExactFor(firstLast))
    case Some(i) => Exact(i)
    case None =>
      match FindIndex(entries, LastNameFor(firstLast))
      case Some(i) => LastName(i)
      case None =>
        match FindIndex(entries, FuzzyFor(firstLast))
        case Some(i) => Fuzzy(i)
        case None => NoMatch
  }

  /** The fuzzy tier compares each normalised record name with the normalised query word once:
      the second normalisation inside `simpleCharDiff` has no effect. */
  lemma FuzzyMatchMeaning(e: Entry, firstLast: string)
    ensures var parts := QueryParts(firstLast);
      IsFuzzyMatch(e, firstLast) <==>
        Mismatches(NormalizeName(e.firstName), NormalizeName(parts[0])) <= 1
        && Mismatches(NormalizeName(e.lastName), NormalizeName(parts[|parts| - 1])) <= 1
  {
    var parts := QueryParts(firstLast);
    CharDiffOfNormalized(e.firstName, parts[0]);
    CharDiffOfNormalized(e.lastName, parts[|parts| - 1]);
  }
}
