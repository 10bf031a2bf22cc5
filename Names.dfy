/**
 The label pre-filter and the two name reformatting helpers of content.js: which hovered labels are
 taken for a professor's name, how "Last, First" becomes "First Last", and how names are normalised
 before they are compared character by character.
 */
module Names {
  import opened Wrappers
  import opened Js

  /** `s` contains a decimal digit (the regular expression `/\d/`). */
  predicate HasDigit(s: string) {
    exists i :: 0 <= i < |s| && IsDigit(s[i])
  }

  /** The course-code pattern `^[A-Z]{2,5} \d{3,4}` with exactly `k` letters: `k` capitals, a space
      and then at least three digits (a fourth digit is allowed but not needed for a match). */
  predicate CourseCodeAt(s: string, k: nat) {
    k + 4 <= |s|
    && (forall i :: 0 <= i < k ==> IsUpper(s[i]))
    && s[k] == ' ' && IsDigit(s[k + 1]) && IsDigit(s[k + 2]) && IsDigit(s[k + 3])
  }

  /** The label starts with a course code such as "CSE 131". */
  predicate StartsWithCourseCode(s: string) {
    CourseCodeAt(s, 2) || CourseCodeAt(s, 3) || CourseCodeAt(s, 4) || CourseCodeAt(s, 5)
  }

  /** A JavaScript string value is truthy when it is present and not empty. */
  predicate Truthy(s: Option<string>) {
    s.Some? && s.value != []
  }

  /** `el.getAttribute("aria-label") || el.innerText || el.textContent`: the first truthy one of the
      three, or the last one when none is. */
  function LabelText(ariaLabel: Option<string>, innerText: Option<string>, textContent: Option<string>): (r: Option<string>)
    ensures r == ariaLabel || r == innerText || r == textContent
    ensures Truthy(r) <==> Truthy(ariaLabel) || Truthy(innerText) || Truthy(textContent)
    ensures Truthy(ariaLabel) ==> r == ariaLabel
    ensures !Truthy(ariaLabel) && Truthy(innerText) ==> r == innerText
  {
    if Truthy(ariaLabel) then ariaLabel
    else if Truthy(innerText) then innerText
    else textContent
  }

  /** `isValidProfessor`: a label is taken for a professor's name when it is not empty, does not start
      with a course code, contains no digit and contains a comma. A course code always contains a
      digit, so the course-code test never decides the outcome on its own. */
  function IsValidProfessor(ariaLabel: Option<string>, innerText: Option<string>, textContent: Option<string>): (ok: bool)
    ensures var name := LabelText(ariaLabel, innerText, textContent);
      ok <==> Truthy(name) && !HasDigit(name.value) && ',' in name.value
  {
    var name := LabelText(ariaLabel, innerText, textContent);
    if !Truthy(name) then false
    else if StartsWithCourseCode(name.value) then
      assert HasDigit(name.value) by { CourseCodeHasDigit(name.value); }
      false
    else if HasDigit(name.value) then false
    else ',' in name.value
  }

  /** A label that matches the course-code pattern contains a digit. */
  lemma CourseCodeHasDigit(s: string)
    requires StartsWithCourseCode(s)
    ensures HasDigit(s)
  {
    var k: nat := if CourseCodeAt(s, 2) then 2 else if CourseCodeAt(s, 3) then 3
                  else if CourseCodeAt(s, 4) then 4 else 5;
    assert CourseCodeAt(s, k);
    assert IsDigit(s[k + 1]);
  }

  /** `normalizeName`: lower-cased, periods removed, trimmed. The result holds no period, no capital
      letter, and neither starts nor ends with whitespace. */
  function NormalizeName(name: string): (r: string)
    ensures '.' !in r
    ensures forall i :: 0 <= i < |r| ==> !IsUpper(r[i])
    ensures NoEdgeWhitespace(r)
  {
    var lowered := ToLowerCase(name);
    var stripped := RemoveAll(lowered, '.');
    assert forall c :: c in stripped ==> !IsUpper(c);
    Trim(stripped)
  }

  /** What `normalizeName` keeps: once lower-cased and stripped of periods, a name that reads as the
      text `t` padded by whitespace normalises to exactly `t`. */
  lemma NormalizeNameValue(name: string, w1: string, t: string, w2: string)
    requires RemoveAll(ToLowerCase(name), '.') == w1 + t + w2
    requires forall i :: 0 <= i < |w1| ==> IsWhitespace(w1[i])
    requires forall i :: 0 <= i < |w2| ==> IsWhitespace(w2[i])
    requires NoEdgeWhitespace(t)
    ensures NormalizeName(name) == t
  {
    TrimBothEdges(w1, t, w2);
  }

  /** Initials lose their periods and the padding goes: "  J.R. Smith " normalises to "jr smith".
      The name's parts come in as parameters bound to literals so that the verifier works on the short
      parts instead of evaluating the whole name character by character. */
  lemma NormalizeInitials(given: string, family: string)
    requires given == "J.R." && family == "Smith"
    ensures NormalizeName("  " + given + " " + family + " ") == "jr smith"
  {
    var name := "  " + given + " " + family + " ";
    var pad, g, rest := "  ", "j.r.", " smith ";
    LowerInitials(given, family, g, rest);
    StripInitials(pad, g, rest);
    assert pad + "jr" + rest == pad + "jr smith" + " ";
    NormalizeNameValue(name, pad, "jr smith", " ");
  }

  /** Lower-casing the example name, part by part. */
  lemma LowerInitials(given: string, family: string, g: string, rest: string)
    requires given == "J.R." && family == "Smith" && g == "j.r." && rest == " smith "
    ensures ToLowerCase("  " + given + " " + family + " ") == "  " + g + rest
  {
    var r, lowered := ToLowerCase("  " + given + " " + family + " "), "  " + g + rest;
    assert forall i :: 0 <= i < |r| ==> r[i] == lowered[i];
  }

  /** Removing the periods of the example name: only the initials have any. */
  lemma StripInitials(pad: string, g: string, rest: string)
    requires pad == "  " && g == "j.r." && rest == " smith "
    ensures RemoveAll(pad + g + rest, '.') == pad + "jr" + rest
  {
    RemoveAllConcat(pad + g, rest, '.');
    RemoveAllConcat(pad, g, '.');
    assert RemoveAll("j.r.", '.') == "jr";
  }

  /** Normalising a normalised name changes nothing. */
  lemma NormalizeIdempotent(name: string)
    ensures NormalizeName(NormalizeName(name)) == NormalizeName(name)
  {
    var n := NormalizeName(name);
    assert ToLowerCase(n) == n;
  }

  /** `convertToFirstLast`: with exactly one comma, "Last, First" becomes "First Last" (both halves
      trimmed); with no comma or with two or more, the trimmed input is returned as it is. A value that
      is not a string (`None`) gives the empty string. */
  function ConvertToFirstLast(fullName: Option<string>): (r: string)
    ensures fullName.None? ==> r == ""
    ensures fullName.Some? && Count(fullName.value, ',') != 1 ==> r == Trim(fullName.value)
    ensures fullName.Some? && Count(fullName.value, ',') == 1 ==>
      forall i :: 0 <= i < |fullName.value| && fullName.value[i] == ',' ==>
        r == Trim(fullName.value[i + 1..]) + " " + Trim(fullName.value[..i])
  {
    match fullName
    case None => ""
    case Some(s) =>
      var parts := Split(s, ',');
      if |parts| != 2 then Trim(s)
      else
        assert forall i :: 0 <= i < |s| && s[i] == ',' ==> parts == [s[..i], s[i + 1..]] by {
          forall i | 0 <= i < |s| && s[i] == ',' ensures parts == [s[..i], s[i + 1..]] {
            SplitAtOnlySeparator(s, ',', i);
          }
        }
        var lastName := Trim(parts[0]);
        var firstName := Trim(parts[1]);
        firstName + " " + lastName
  }

  /** Converting a name written "Last, First" gives back "First Last", for any two halves that hold
      no comma and no edge whitespace (such as "Smith, John", which becomes "John Smith"). */
  lemma {:induction false} ConvertLastCommaFirst(last: string, first: string, s: string)
    requires ',' !in last && ',' !in first
    requires NoEdgeWhitespace(last) && NoEdgeWhitespace(first)
    requires s == last + ", " + first
    ensures ConvertToFirstLast(Some(s)) == first + " " + last
  {
    var i := |last|;
    var rest := [' '] + first;
    assert i < |s| && s[i] == ',' && s[..i] == last && s[i + 1..] == rest by {
      assert s == last + [','] + rest;
    }
    assert Count(s, ',') == 1 by {
      assert ',' !in rest;
      assert s == last + [','] + rest;
      CountSingle(last, ',', rest);
    }
    assert Trim(rest) == first by {
      TrimLeadingWhitespace([' '], first);
    }
    ConvertAtOnlyComma(s, i);
  }

  /** With the only comma at `i`, the halves around it are swapped and trimmed. */
  lemma ConvertAtOnlyComma(s: string, i: nat)
    requires i < |s| && s[i] == ',' && Count(s, ',') == 1
    ensures ConvertToFirstLast(Some(s)) == Trim(s[i + 1..]) + " " + Trim(s[..i])
  {
  }

  /** A character occurring once between two strings that lack it is counted once. */
  lemma CountSingle(before: string, c: char, after: string)
    requires c !in before && c !in after
    ensures Count(before + [c] + after, c) == 1
  {
    assert multiset(before + [c] + after) == multiset(before) + multiset{c} + multiset(after);
    assert c !in multiset(before) && c !in multiset(after);
  }

  /** A name without a comma, such as "John Smith", is only trimmed. */
  lemma ConvertWithoutComma(s: string)
    requires ',' !in s
    ensures ConvertToFirstLast(Some(s)) == Trim(s)
  {
    assert ',' !in multiset(s);
  }

  /** A name with two commas, such as "A, B, C", is only trimmed, not reordered: the parts between
      the commas may be anything without a comma. */
  lemma ConvertTwoCommas(a: string, b: string, c: string, s: string)
    requires ',' !in a && ',' !in b && ',' !in c
    requires s == a + "," + b + "," + c
    ensures ConvertToFirstLast(Some(s)) == Trim(s)
  {
    assert Count(s, ',') == 2 by {
      assert s == a + [','] + b + [','] + c;
      assert multiset(s) == multiset(a) + multiset{','} + multiset(b) + multiset{','} + multiset(c);
      assert ',' !in multiset(a) && ',' !in multiset(b) && ',' !in multiset(c);
    }
  }
}
