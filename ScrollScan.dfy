/**
 `scrollAndSelectYear` (content.js): the academic-year label is looked up in a virtualised list that
 renders only the rows near its scroll offset, so the list is scrolled down step by step until the
 label is rendered or the offset stops moving.
 */
module ScrollScan {
  import opened Wrappers
  import opened Js

  /** How far each step scrolls, in pixels. */
  const ScrollStep: nat := 200

  /** The scroll container of the list. The browser keeps `scrollTop` within `[0, maxScrollTop]`, and
      the texts of the option rows it renders depend only on the offset. */
  class ScrollContainer {
    var scrollTop: int
    const maxScrollTop: nat
    const render: int -> seq<string>

    ghost predicate Valid()
      reads this
    {
      0 <= scrollTop <= maxScrollTop
    }

    constructor (maxScrollTop: nat, render: int -> seq<string>)
      ensures Valid()
      ensures scrollTop == 0 && this.maxScrollTop == maxScrollTop && this.render == render
    {
      this.scrollTop := 0;
      this.maxScrollTop := maxScrollTop;
      this.render := render;
    }

    /** The texts of the option rows rendered at the current offset. */
    function Options(): seq<string>
      reads this
    {
      render(scrollTop)
    }

    /** Assigning `scrollTop`: the value is clamped to the scrollable range. */
    method SetScrollTop(v: int)
      modifies this
      ensures Valid()
      ensures scrollTop == ClampIndex(v, maxScrollTop)
    {
      scrollTop := ClampIndex(v, maxScrollTop);
    }
  }

  // ---------------------------------------------------------------------------
  // The target label

  /** The first year of the academic year a term belongs to: spring terms belong to the year that
      started the autumn before. */
  function StartYear(season: string, year: int): int {
    if season == "Spring" then year - 1 else year
  }

  /** The label of the academic year, such as "2025-2026". */
  function TargetText(season: string, year: int): (t: string)
    ensures StartYear(season, year) >= 0 ==>
      t == Digits(StartYear(season, year)) + "-" + Digits(StartYear(season, year) + 1)
  {
    var startYear := StartYear(season, year);
    NumberToString(startYear) + "-" + NumberToString(startYear + 1)
  }

  /** The two years named by a label such as "2025-2026": the digits before and after its first dash,
      when both are non-empty strings of digits. */
  function LabelYears(t: string): Option<(nat, nat)> {
    var k := IndexOf(t, "-");
    if k < 1 || k + 1 >= |t| then None
    else if !(forall i :: 0 <= i < |t| && i != k ==> IsDigit(t[i])) then None
    else Some((DigitsValue(t[..k]), DigitsValue(t[k + 1..])))
  }

  /** Reading the label back gives the academic year: the start year (the year before for a spring
      term) and the year after it. */
  lemma TargetTextNamesAcademicYear(season: string, year: int)
    requires StartYear(season, year) >= 0
    ensures LabelYears(TargetText(season, year)) == Some((StartYear(season, year), StartYear(season, year) + 1))
  {
    var s := StartYear(season, year);
    LabelYearsOf(Digits(s), Digits(s + 1), TargetText(season, year));
    DigitsRoundTrip(s);
    DigitsRoundTrip(s + 1);
  }

  /** The label is the only way to write the academic year as two digit strings without leading
      zeros around a dash: a label such as "02025-02026" is not the one looked for. */
  lemma TargetTextUnique(season: string, year: int, first: string, second: string)
    requires StartYear(season, year) >= 0
    requires Canonical(first) && Canonical(second)
    requires DigitsValue(first) == StartYear(season, year)
    requires DigitsValue(second) == StartYear(season, year) + 1
    ensures first + "-" + second == TargetText(season, year)
  {
    DigitsUnique(first);
    DigitsUnique(second);
  }

  /** A label made of two non-empty digit strings around a dash names the years they denote. */
  lemma LabelYearsOf(first: string, second: string, t: string)
    requires first != [] && forall i :: 0 <= i < |first| ==> IsDigit(first[i])
    requires second != [] && forall i :: 0 <= i < |second| ==> IsDigit(second[i])
    requires t == first + "-" + second
    ensures LabelYears(t) == Some((DigitsValue(first), DigitsValue(second)))
  {
    var k := |first|;
    assert IndexOf(t, "-") == k by {
      assert forall j :: 0 <= j < k ==> !OccursAt(t, "-", j) by {
        forall j | 0 <= j < k ensures !OccursAt(t, "-", j) {
          assert t[j] == first[j] && IsDigit(first[j]);
          assert t[j..j + 1] == [t[j]];
        }
      }
      IndexOfPlaced(t, first, "-", second);
    }
    assert t[..k] == first && t[k + 1..] == second;
    assert forall i :: 0 <= i < |t| && i != k ==> IsDigit(t[i]) by {
      forall i | 0 <= i < |t| && i != k ensures IsDigit(t[i]) {
        if i < k {
          assert t[i] == first[i];
        } else {
          assert t[i] == second[i - k - 1];
        }
      }
    }
    assert LabelYears(t) == Some((DigitsValue(t[..k]), DigitsValue(t[k + 1..])));
  }

  /** A spring term looks for the same label as the autumn term of the year before. */
  lemma SpringTargetsPreviousAutumn(year: int)
    ensures TargetText("Spring", year) == TargetText("Fall", year - 1)
  {
  }

  // ---------------------------------------------------------------------------
  // The scan, as a function of the offsets it visits

  /** Where the scan stopped: on the option at `index` among those rendered at `offset`, or at the
      end of the list. */
  datatype Selection = Clicked(offset: int, index: nat) | EndOfList(offset: int)

  /** The option test `el.textContent.includes(targetText)`. */
  function HasText(target: string): string -> bool {
    text => Includes(text, target)
  }

  /** The offsets the scan looks at when it starts from `start`: `start`, then one step further each
      time, clamped to the end of the list, until the end is reached. */
  predicate Visits(start: int, max: nat, o: int)
    requires 0 <= start <= max
    decreases max - start
  {
    o == start || (start < max && Visits(ClampIndex(start + ScrollStep, max), max, o))
  }

  /** The scan from offset `offset`: the first option containing the target at this offset if there is
      one; otherwise the end of the list once the offset is at its maximum; otherwise the scan from one
      step further. */
  function Scan(render: int -> seq<string>, target: string, offset: int, max: nat): Selection
    requires 0 <= offset <= max
    decreases max - offset
  {
    match FindIndex(render(offset), HasText(target))
    case Some(i) => Clicked(offset, i)
    case None =>
      if offset == max then EndOfList(max)
      else Scan(render, target, ClampIndex(offset + ScrollStep, max), max)
  }

  /** The scan clicks the first option containing the target at the first visited offset that renders
      one, and reports the end of the list only at the maximal offset after every visited offset came
      up empty. */
  lemma {:induction false} ScanSound(render: int -> seq<string>, target: string, start: int, max: nat)
    requires 0 <= start <= max
    ensures var sel := Scan(render, target, start, max);
      sel.Clicked? ==> Visits(start, max, sel.offset) && FirstWith(render(sel.offset), sel.index, HasText(target))
    ensures var sel := Scan(render, target, start, max);
      sel.Clicked? ==> forall o :: Visits(start, max, o) && o < sel.offset ==> NoneWith(render(o), HasText(target))
    ensures var sel := Scan(render, target, start, max);
      sel.EndOfList? ==> sel.offset == max && forall o :: Visits(start, max, o) ==> NoneWith(render(o), HasText(target))
    decreases max - start
  {
    var next := ClampIndex(start + ScrollStep, max);
    match FindIndex(render(start), HasText(target))
    case Some(i) =>
      assert Scan(render, target, start, max) == Clicked(start, i);
      assert Visits(start, max, start);
      forall o | Visits(start, max, o) ensures start <= o {
        VisitsAreFurther(start, max, o);
      }
    case None =>
      if start < max {
        ScanSound(render, target, next, max);
        assert Scan(render, target, start, max) == Scan(render, target, next, max);
        VisitsAfterStart(start, max, next);
      }
  }

  /** Every offset visited from `start` is `start` itself or one visited from the next offset, which
      lies further down. */
  lemma VisitsAfterStart(start: int, max: nat, next: int)
    requires 0 <= start < max && next == ClampIndex(start + ScrollStep, max)
    ensures start < next <= max
    ensures forall o :: Visits(start, max, o) ==> o == start || Visits(next, max, o)
    ensures forall o :: Visits(next, max, o) ==> start < o
  {
    forall o | Visits(next, max, o) ensures start < o {
      VisitsAreFurther(next, max, o);
    }
  }

  /** The visited offsets are the start, the offsets a whole number of steps further down, and the
      maximal offset, and no others. */
  lemma {:induction false} VisitsExactly(start: int, max: nat, o: int)
    requires 0 <= start <= max
    ensures Visits(start, max, o) <==> start <= o <= max && ((o - start) % ScrollStep == 0 || o == max)
    decreases max - start
  {
    if start < max {
      var next := ClampIndex(start + ScrollStep, max);
      VisitsExactly(next, max, o);
      if next == start + ScrollStep {
        assert (o - next) % ScrollStep == (o - start) % ScrollStep by {
          assert o - start == (o - next) + ScrollStep;
        }
      }
      if o != start && start <= o && (o - start) % ScrollStep == 0 {
        assert o - start >= ScrollStep;
      }
    }
  }

  /** The visited offsets lie between the start and the end of the list. */
  lemma {:induction false} VisitsAreFurther(start: int, max: nat, o: int)
    requires 0 <= start <= max && Visits(start, max, o)
    ensures start <= o <= max
    decreases max - start
  {
    if o != start {
      VisitsAreFurther(ClampIndex(start + ScrollStep, max), max, o);
    }
  }

  // ---------------------------------------------------------------------------
  // scrollAndSelectYear

  /** `scrollAndSelectYear` once the container is found: scans the rendered options for the
      academic-year label; when none contains it, stops if the offset did not move since the last
      round and scrolls one step further otherwise. The offset starts as -1, so the first round never
      stops for that reason. Running out of list ends normally, not with an error. */
  method ScrollAndSelectYear(c: ScrollContainer, season: string, year: int) returns (selection: Selection)
    requires c.Valid()
    modifies c
    ensures c.Valid()
    ensures selection == Scan(c.render, TargetText(season, year), old(c.scrollTop), c.maxScrollTop)
    ensures c.scrollTop == selection.offset
  {
    var target := TargetText(season, year);
    var previousScrollTop := -1;
    while true
      invariant c.Valid()
      invariant previousScrollTop <= c.scrollTop
      invariant previousScrollTop == c.scrollTop ==> c.scrollTop == c.maxScrollTop
      invariant Scan(c.render, target, c.scrollTop, c.maxScrollTop)
             == Scan(c.render, target, old(c.scrollTop), c.maxScrollTop)
      decreases 2 * (c.maxScrollTop - c.scrollTop) + (if previousScrollTop == c.scrollTop then 0 else 1)
    {
      var options := c.Options();
      var found := FindIndex(options, HasText(target));
      if found.Some? {
        return Clicked(c.scrollTop, found.value);
      }
      if c.scrollTop == previousScrollTop {
        return EndOfList(c.scrollTop);
      }
      previousScrollTop := c.scrollTop;
      c.SetScrollTop(c.scrollTop + ScrollStep);
    }
  }
}
