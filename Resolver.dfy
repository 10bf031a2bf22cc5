/**
 `fetchRMPInfo` (content.js) without its transport: the reply of the fetch relay, the relay-marker
 step that cuts the JSON text out of the page, the structural filter and the three matching tiers,
 and the shaping of the summary the popup shows, with its fallback to a search link.
 */
module Resolver {
  import opened Wrappers
  import opened Js
  import opened Names
  import opened Matching

  /** The reply of the background fetch relay: a failure, or the fetched page. */
  datatype Reply = Failed(error: string) | Html(html: string)

  /** A summary field: `undefined`, the sentinel "N/A", or a number. */
  datatype Shown = Absent | NotAvailable | Shows(value: real)

  /** The link of a summary: the professor's page, by legacy identifier, or the school-scoped search
      page for a query (`https://www.ratemyprofessors.com/professor/<id>` and
      `https://www.ratemyprofessors.com/search/professors/1147?q=<encoded query>`). */
  datatype Link = ProfessorPage(legacyId: int) | SearchPage(query: string)

  /** What `fetchRMPInfo` resolves to. */
  datatype Info = Info(name: string, rating: Shown, wouldTakeAgain: Shown, difficulty: Shown, url: Link)

  /** The text in front of the relay store's JSON in the fetched page. */
  const RelayMarker: string := "window.__RELAY_STORE__ = "

  /** The text that follows the relay store in the fetched page. */
  const ProcessMarker: string := "window.process = {}"

  // ---------------------------------------------------------------------------
  // The relay-marker step

  /** Only whitespace from index `k` on. */
  predicate WhitespaceFrom(s: string, k: nat) {
    forall j :: k <= j < |s| ==> IsWhitespace(s[j])
  }

  /** `s.replace(/;\s*$/, "")`: a semicolon followed only by whitespace up to the end is cut off
      together with that whitespace; without one, the text is unchanged. */
  function StripTrailingSemicolon(s: string): string {
    var t := TrimEnd(s);
    if t != [] && t[|t| - 1] == ';' then t[..|t| - 1] else s
  }

  /** The replacement removes the semicolon that is followed only by whitespace, together with that
      whitespace, and leaves a text without such a semicolon unchanged. */
  lemma StripTrailingSemicolonMeaning(s: string)
    ensures forall i :: 0 <= i < |s| && s[i] == ';' && WhitespaceFrom(s, i + 1) ==>
      StripTrailingSemicolon(s) == s[..i]
    ensures (forall i :: 0 <= i < |s| && s[i] == ';' ==> !WhitespaceFrom(s, i + 1)) ==>
      StripTrailingSemicolon(s) == s
  {
    var t := TrimEnd(s);
    assert forall i :: |t| <= i < |s| ==> s[i] != ';';
    assert t != [] ==> s[|t| - 1] == t[|t| - 1] && !IsWhitespace(s[|t| - 1]);
    assert forall i :: 1 <= i < |t| ==> !WhitespaceFrom(s, i);
  }

  /** A semicolon followed by whitespace at the end is removed together with that whitespace. */
  lemma StripSemicolonAndSpace(t: string, w: string)
    requires forall i :: 0 <= i < |w| ==> IsWhitespace(w[i])
    ensures StripTrailingSemicolon(t + ";" + w) == t
  {
    var body := t + ";";
    assert body + w == t + ";" + w;
    TrimEndWhitespace(body, w);
    assert body[..|body| - 1] == t;
  }

  /** The text between the first `open` and the first `close` in `html`, trimmed and without a final
      semicolon; nothing when either is missing. */
  function ExtractBetween(html: string, open: string, close: string): Option<string>
  {
    var startIdx := IndexOf(html, open);
    var endIdx := IndexOf(html, close);
    if startIdx == -1 || endIdx == -1 then None
    else Some(CleanJson(Substring(html, startIdx + |open|, endIdx)))
  }

  /** The text between the markers, trimmed and without a final semicolon. */
  function CleanJson(raw: string): string {
    StripTrailingSemicolon(Trim(raw))
  }

  /** The relay-marker step of `fetchRMPInfo`: the relay store's JSON text cut out of the page. */
  function ExtractRelayJson(html: string): Option<string> {
    ExtractBetween(html, RelayMarker, ProcessMarker)
  }

  /** The step gives nothing exactly when one of the two markers occurs nowhere in the page. */
  lemma ExtractRelayJsonMissingMarker(html: string)
    ensures ExtractRelayJson(html).None? <==>
      (forall j :: !OccursAt(html, RelayMarker, j)) || (forall j :: !OccursAt(html, ProcessMarker, j))
  {
    var s := IndexOf(html, RelayMarker);
    var e := IndexOf(html, ProcessMarker);
    IndexOfMeaning(html, RelayMarker);
    IndexOfMeaning(html, ProcessMarker);
    assert s != -1 ==> OccursAt(html, RelayMarker, s);
    assert e != -1 ==> OccursAt(html, ProcessMarker, e);
  }

  /** Text laid out as `<pre><open><json>;<gap><close><post>` gives back exactly `json`, provided
      neither marker occurs earlier than where it is placed, `json` does not start with whitespace and
      `gap` is whitespace. */
  lemma ExtractBetweenRoundTrip(
    html: string, pre: string, open: string, json: string, gap: string, close: string, post: string)
    requires html == pre + open + json + ";" + gap + close + post
    requires json == [] || !IsWhitespace(json[0])
    requires forall i :: 0 <= i < |gap| ==> IsWhitespace(gap[i])
    requires forall j :: 0 <= j < |pre| ==> !OccursAt(html, open, j)
    requires forall j :: 0 <= j < |pre| + |open| + |json| + 1 + |gap| ==> !OccursAt(html, close, j)
    ensures ExtractBetween(html, open, close) == Some(json)
  {
    var b := |pre| + |open|;
    var e := b + |json| + 1 + |gap|;
    var between := json + ";" + gap;
    assert IndexOf(html, open) == |pre| by {
      assert html == pre + open + (between + close + post);
      IndexOfPlaced(html, pre, open, between + close + post);
    }
    assert IndexOf(html, close) == e by {
      assert html == (pre + open + between) + close + post;
      IndexOfPlaced(html, pre + open + between, close, post);
    }
    assert Substring(html, b, e) == between by {
      assert html == (pre + open) + between + (close + post);
      assert html[b..e] == between;
    }
    ExtractBetweenAt(html, open, close, b, e);
    TrimmedJson(json, gap);
  }

  /** With both markers found, the extracted text is the stretch between them, trimmed and stripped
      of its semicolon. */
  lemma ExtractBetweenAt(html: string, open: string, close: string, b: int, e: int)
    requires IndexOf(html, open) != -1 && IndexOf(html, open) + |open| == b
    requires IndexOf(html, close) == e && e != -1
    ensures ExtractBetween(html, open, close) == Some(CleanJson(Substring(html, b, e)))
  {
    var raw := Substring(html, b, e);
    assert ExtractBetween(html, open, close) == Some(CleanJson(raw));
  }

  /** The text between the markers, `<json>;<gap>`, trimmed and stripped of its semicolon, is `json`. */
  lemma TrimmedJson(json: string, gap: string)
    requires json == [] || !IsWhitespace(json[0])
    requires forall i :: 0 <= i < |gap| ==> IsWhitespace(gap[i])
    ensures CleanJson(json + ";" + gap) == json
  {
    var body := json + ";";
    assert body + gap == json + ";" + gap;
    assert Trim(body + gap) == body by {
      assert body[0] == if json == [] then ';' else json[0];
      TrimTrailingWhitespace(body, gap);
    }
    assert StripTrailingSemicolon(body) == json by {
      StripTrailingSemicolonMeaning(body);
      assert body[|json|] == ';';
      assert WhitespaceFrom(body, |json| + 1);
      assert body[..|json|] == json;
    }
  }

  /** A page laid out as the site serves it,
      `<pre>window.__RELAY_STORE__ = <json>;<gap>window.process = {}<post>`, gives back exactly the
      JSON text, provided neither marker occurs earlier than where it is placed. */
  lemma ExtractRelayJsonRoundTrip(html: string, pre: string, json: string, gap: string, post: string)
    requires html == pre + RelayMarker + json + ";" + gap + ProcessMarker + post
    requires json == [] || !IsWhitespace(json[0])
    requires forall i :: 0 <= i < |gap| ==> IsWhitespace(gap[i])
    requires forall j :: 0 <= j < |pre| ==> !OccursAt(html, RelayMarker, j)
    requires forall j :: 0 <= j < |pre| + |RelayMarker| + |json| + 1 + |gap| ==> !OccursAt(html, ProcessMarker, j)
    ensures ExtractRelayJson(html) == Some(json)
  {
    ExtractBetweenRoundTrip(html, pre, RelayMarker, json, gap, ProcessMarker, post);
  }

  // ---------------------------------------------------------------------------
  // Result shaping

  /** `m || "N/A"`: the number when it is truthy, the sentinel when it is missing, null, NaN or zero. */
  function OrNotAvailable(m: Metric): (r: Shown)
    ensures r.NotAvailable? <==> !(m.Num? && m.value != 0.0)
    ensures r.Shows? ==> m == Num(r.value)
    ensures !r.Absent?
  {
    if m.Num? && m.value != 0.0 then Shows(m.value) else NotAvailable
  }

  /** `m >= 0 ? Math.ceil(m) : "N/A"`: a non-negative percentage rounded up, the sentinel for a negative,
      missing or NaN one; `null` compares as 0 and rounds to 0. */
  function PercentShown(m: Metric): (r: Shown)
    ensures r.NotAvailable? <==> m.Undefined? || m.NaN? || (m.Num? && m.value < 0.0)
    ensures m.Null? ==> r == Shows(0.0)
    ensures m.Num? && r.Shows? ==> r.value - 1.0 < m.value <= r.value
    ensures r.Shows? ==> r.value == r.value.Floor as real && r.value >= 0.0
    ensures !r.Absent?
  {
    match m
    case Undefined => NotAvailable
    case NaN => NotAvailable
    case Null => Shows(0.0)
    case Num(p) => if p >= 0.0 then Shows(Ceil(p) as real) else NotAvailable
  }

  /** The summary of a matched record. */
  function Summary(e: Entry): (info: Info)
    ensures info.url == ProfessorPage(e.legacyId)
    ensures info.name == e.firstName + " " + e.lastName
    ensures info.rating == OrNotAvailable(e.avgRating)
    ensures info.wouldTakeAgain == PercentShown(e.wouldTakeAgainPercent)
    ensures info.difficulty == OrNotAvailable(e.avgDifficulty)
    ensures !info.rating.Absent? && !info.wouldTakeAgain.Absent? && !info.difficulty.Absent?
  {
    Info(e.firstName + " " + e.lastName,
         OrNotAvailable(e.avgRating),
         PercentShown(e.wouldTakeAgainPercent),
         OrNotAvailable(e.avgDifficulty),
         ProfessorPage(e.legacyId))
  }

  /** The result when nothing was resolved: the query name, no figures, and the search link. */
  function Fallback(firstLast: string): Info {
    Info(firstLast, Absent, Absent, Absent, SearchPage(firstLast))
  }

  // ---------------------------------------------------------------------------
  // fetchRMPInfo

  /** The professor records of the school among the relay store's values, in their order. */
  function Teachers(values: seq<Entry>): (r: seq<Entry>)
    ensures forall e :: e in r ==> e in values && IsTeacherEntry(e)
  {
    Filter(values, IsTeacherEntry)
  }

  /** `fetchRMPInfo(fullName)`. `reply` is what the fetch relay answered and `parse` is `JSON.parse`
      followed by `Object.values` (`None` when the text is not JSON). Every failure on the way (a
      failed reply, a missing marker, text that is not JSON, no professor record, no tier matching)
      ends in the fallback. The one failure outside that handler, `encodeURIComponent` rejecting a
      lone surrogate, cannot arise here: a Dafny `char` is a Unicode scalar value. */
  function FetchRmpInfo(fullName: string, reply: Reply, parse: string -> Option<seq<Entry>>): (info: Info)
    ensures info == Fallback(ConvertToFirstLast(Some(fullName)))
      || (info.url.ProfessorPage? && info.url.legacyId != 0
          && !info.rating.Absent? && !info.wouldTakeAgain.Absent? && !info.difficulty.Absent?)
  {
    var firstLast := ConvertToFirstLast(Some(fullName));
    match reply
    case Failed(_) => Fallback(firstLast)
    case Html(html) =>
      match ExtractRelayJson(html)
      case None => Fallback(firstLast)
      case Some(json) =>
        match parse(json)
        case None => Fallback(firstLast)
        case Some(values) =>
          var teachers := Teachers(values);
          if teachers == [] then Fallback(firstLast)
          else ResolveAmong(teachers, firstLast)
  }

  /** The matching and shaping part of `fetchRMPInfo`: the summary of the record the tiers select, or
      the fallback when none does (in the code, reading a field of `undefined` throws and the handler
      returns the fallback). */
  function ResolveAmong(teachers: seq<Entry>, firstLast: string): (info: Info)
    requires forall e :: e in teachers ==> IsTeacherEntry(e)
    ensures var m := SelectMatch(teachers, firstLast);
      && (m.NoMatch? ==> info == Fallback(firstLast))
      && (!m.NoMatch? ==> m.at < |teachers| && info == Summary(teachers[m.at]))
    ensures info == Fallback(firstLast)
      || (info.url.ProfessorPage? && info.url.legacyId != 0
          && !info.rating.Absent? && !info.wouldTakeAgain.Absent? && !info.difficulty.Absent?)
  {
    var m := SelectMatch(teachers, firstLast);
    if m.NoMatch? then Fallback(firstLast)
    else
      var e := teachers[m.at];
      assert e in teachers;
      assert IsTeacherEntry(e);
      assert e.legacyId != 0;
      Summary(e)
  }

  /** The summary names a professor record of the school from the relay store, or the query is sent to
      the search page: exactly when the fetch failed, a marker is missing, the text is not JSON, or
      no record passes the filter and a tier. */
  lemma FetchFallbackExactly(fullName: string, reply: Reply, parse: string -> Option<seq<Entry>>)
    ensures var info := FetchRmpInfo(fullName, reply, parse);
      var firstLast := ConvertToFirstLast(Some(fullName));
      info.url.SearchPage? <==>
        || reply.Failed?
        || ExtractRelayJson(reply.html).None?
        || parse(ExtractRelayJson(reply.html).value).None?
        || SelectMatch(Teachers(parse(ExtractRelayJson(reply.html).value).value), firstLast).NoMatch?
    ensures var info := FetchRmpInfo(fullName, reply, parse);
      var firstLast := ConvertToFirstLast(Some(fullName));
      info.url.ProfessorPage? ==>
        var teachers := Teachers(parse(ExtractRelayJson(reply.html).value).value);
        var m := SelectMatch(teachers, firstLast);
        !m.NoMatch? && m.at < |teachers| && info == Summary(teachers[m.at])
  {
    var info := FetchRmpInfo(fullName, reply, parse);
    var firstLast := ConvertToFirstLast(Some(fullName));
    if reply.Html? && ExtractRelayJson(reply.html).Some? && parse(ExtractRelayJson(reply.html).value).Some? {
      var teachers := Teachers(parse(ExtractRelayJson(reply.html).value).value);
      var m := SelectMatch(teachers, firstLast);
      if !m.NoMatch? {
        assert teachers[m.at] in teachers;
        assert info == Summary(teachers[m.at]);
      }
    }
  }

  /** Tier precedence over the provider's list: when some professor record matches the query exactly,
      the summary is that of the first one in the relay store's order, whatever records before it
      would match by last name or fuzzily. */
  lemma FetchPicksFirstExactTeacher(
    fullName: string, reply: Reply, parse: string -> Option<seq<Entry>>, values: seq<Entry>, k: nat)
    requires reply.Html? && ExtractRelayJson(reply.html).Some?
    requires parse(ExtractRelayJson(reply.html).value) == Some(values)
    requires FirstWith(values, k, Both(IsTeacherEntry, ExactFor(ConvertToFirstLast(Some(fullName)))))
    ensures FetchRmpInfo(fullName, reply, parse) == Summary(values[k])
  {
    var firstLast := ConvertToFirstLast(Some(fullName));
    var teachers := Teachers(values);
    assert Find(teachers, ExactFor(firstLast)) == Some(values[k]) by {
      FindAfterFilter(values, IsTeacherEntry, ExactFor(firstLast));
      FindIndexOfFirst(values, k, Both(IsTeacherEntry, ExactFor(firstLast)));
    }
    var i := FindIndex(teachers, ExactFor(firstLast)).value;
    assert teachers[i] == values[k];
    assert SelectMatch(teachers, firstLast) == Exact(i);
    assert FetchRmpInfo(fullName, reply, parse) == ResolveAmong(teachers, firstLast);
  }
}
