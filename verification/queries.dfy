/** The text the application builds before it talks to anyone: the topic
    list typed on the extraction page, the filter chosen on the
    visualisation page, and the report queries that embed that filter. */
module Queries {
  import opened Wrappers
  import opened Text

  // ---------------------------------------------------------------------
  // The extraction page
  // ---------------------------------------------------------------------

  /** `[topic.strip() for topic in topics_input.split(",")]`: one topic per
      comma-separated piece, empty pieces included, each without
      surrounding whitespace. */
  function ParseTopics(input: string): (topics: seq<string>)
    ensures |topics| == CountChar(input, ',') + 1
    ensures forall i :: 0 <= i < |topics| ==> IsStripped(topics[i]) && ',' !in topics[i]
  {
    var pieces := Split(input, ',');
    seq(|pieces|, i requires 0 <= i < |pieces| =>
      StripKeepsOut(pieces[i], ','); Strip(pieces[i]))
  }

  lemma ParseTopicsPieces(input: string)
    ensures forall i :: 0 <= i < |ParseTopics(input)| ==>
      ParseTopics(input)[i] == Strip(Split(input, ',')[i])
  {
  }

  /** Topics typed as a comma-and-space separated list read back as
      themselves. */
  lemma ParseTopicsOfList(topics: seq<string>)
    requires |topics| >= 1
    requires forall i :: 0 <= i < |topics| ==> IsStripped(topics[i]) && ',' !in topics[i]
    ensures ParseTopics(Join(", ", topics)) == topics
  {
    var text := Join(", ", topics);
    SplitOfList(topics);
    StripSpacedPieces("", topics);
    ParseTopicsOfStrippedPieces(text, topics);
  }

  lemma ParseTopicsOfStrippedPieces(text: string, topics: seq<string>)
    requires |Split(text, ',')| == |topics|
    requires forall i :: 0 <= i < |topics| ==> Strip(Split(text, ',')[i]) == topics[i]
    ensures ParseTopics(text) == topics
  {
    ParseTopicsPieces(text);
  }

  lemma SplitOfList(topics: seq<string>)
    requires |topics| >= 1
    requires forall i :: 0 <= i < |topics| ==> ',' !in topics[i]
    ensures Split(Join(", ", topics), ',') == SpacedPieces("", topics)
  {
    SplitJoinSpaced("", topics, ',');
    assert "" + Join([',', ' '], topics) == Join(", ", topics);
  }

  /** Whatever whitespace surrounds each piece, the topics are the stripped
      pieces, one per piece. */
  lemma ParseTopicsIgnoresPadding(pieces: seq<string>, topics: seq<string>)
    requires |pieces| == |topics| >= 1
    requires forall i :: 0 <= i < |pieces| ==> ',' !in pieces[i] && Strip(pieces[i]) == topics[i]
    ensures ParseTopics(Join([','], pieces)) == topics
  {
    SplitJoin(pieces, ',');
  }

  /** The "Extract Data" button: an extraction starts only when both the
      topic field and the token field are non-empty, and then with the
      parsed topics. */
  function ExtractionRequest(topicsInput: string, token: string): (topics: Option<seq<string>>)
    ensures topics.Some? <==> |topicsInput| > 0 && |token| > 0
    ensures topics.Some? ==> |topics.value| == CountChar(topicsInput, ',') + 1
    ensures topics.Some? ==> forall i :: 0 <= i < |topics.value| ==> IsStripped(topics.value[i])
    ensures topics.Some? ==> topics.value == ParseTopics(topicsInput)
  {
    if |topicsInput| > 0 && |token| > 0 then Some(ParseTopics(topicsInput)) else None
  }

  // ---------------------------------------------------------------------
  // The filter of the visualisation page
  // ---------------------------------------------------------------------

  /** Python's truth value of an optional list: present and non-empty. */
  predicate Given<T>(o: Option<seq<T>>)
  {
    o.Some? && |o.value| > 0
  }

  /** `f"'{t}'"`: the topic between single quotes, unescaped. */
  function Quote(t: string): (q: string)
    ensures |q| == |t| + 2 && q[0] == '\'' && q[|q| - 1] == '\'' && q[1..|q| - 1] == t
  {
    "'" + t + "'"
  }

  function QuotedTopics(topics: seq<string>): (r: seq<string>)
    ensures |r| == |topics|
    ensures forall i :: 0 <= i < |topics| ==> r[i] == Quote(topics[i])
  {
    seq(|topics|, i requires 0 <= i < |topics| => Quote(topics[i]))
  }

  function YearTexts(years: seq<int>): (r: seq<string>)
    ensures |r| == |years|
    ensures forall i :: 0 <= i < |years| ==> r[i] == IntText(years[i])
  {
    seq(|years|, i requires 0 <= i < |years| => IntText(years[i]))
  }

  const TopicOpen: string := "WHERE topic IN ("
  const YearOpen: string := "EXTRACT(YEAR FROM creation_date) IN ("

  function TopicClause(topics: seq<string>): (clause: string)
    ensures OccursAt(clause, "WHERE ", 0)
  {
    assert TopicOpen[..6] == "WHERE ";
    TopicOpen + Join(", ", QuotedTopics(topics)) + ")"
  }

  /** The year condition, with the trailing space `create_visualizations`
      leaves after it. */
  function YearCondition(years: seq<int>): string
  {
    YearOpen + Join(", ", YearTexts(years)) + ") "
  }

  /** `query_filter` of `create_visualizations`. The year condition is
      glued to the topic clause by "AND" with no space before it, exactly
      as `create_visualizations` writes it. */
  function QueryFilter(topics: Option<seq<string>>, years: Option<seq<int>>): (filter: string)
    ensures |filter| == 0 <==> !Given(topics) && !Given(years)
    ensures Given(topics) || Given(years) ==> OccursAt(filter, "WHERE ", 0)
    ensures Given(topics) ==> OccursAt(filter, TopicClause(topics.value), 0)
    ensures Given(years) ==>
      var c := YearCondition(years.value);
      |c| <= |filter| && OccursAt(filter, c, |filter| - |c|)
    ensures Given(topics) && Given(years) ==>
      OccursAt(filter, "AND ", |TopicClause(topics.value)|)
    ensures |filter| ==
      (if Given(topics) then |TopicClause(topics.value)| else 0)
      + (if Given(years) then (if Given(topics) then 4 else 6) + |YearCondition(years.value)| else 0)
  {
    var byTopic := if Given(topics) then TopicClause(topics.value) else "";
    if !Given(years) then byTopic
    else if |byTopic| > 0 then byTopic + "AND " + YearCondition(years.value)
    else "WHERE " + YearCondition(years.value)
  }

  /** An absent list and an empty list are the same choice. */
  lemma NoneIsEmpty(topics: Option<seq<string>>, years: Option<seq<int>>)
    ensures QueryFilter(None, years) == QueryFilter(Some([]), years)
    ensures QueryFilter(topics, None) == QueryFilter(topics, Some([]))
  {
  }

  /** Whatever the years, the filter starts with the topic-only filter, and
      with years given it ends with the year condition. */
  lemma FilterExtendsTopicFilter(topics: Option<seq<string>>, years: Option<seq<int>>)
    ensures var f := QueryFilter(topics, years);
      var t := QueryFilter(topics, None);
      && |t| <= |f| && f[..|t|] == t
      && (Given(years) ==>
            var c := YearCondition(years.value);
            |c| <= |f| && f[|f| - |c|..] == c)
  {
    var f := QueryFilter(topics, years);
    var t := QueryFilter(topics, None);
    if Given(topics) {
      assert t == TopicClause(topics.value);
      assert OccursAt(f, t, 0);
    }
    if Given(years) {
      var c := YearCondition(years.value);
      assert OccursAt(f, c, |f| - |c|);
      assert f[|f| - |c|..] == f[|f| - |c|..|f|];
    }
  }

  lemma QuoteGuarded(t: string)
    requires Absent(t, "WHERE")
    ensures Guarded(Quote(t), "WHERE")
  {
    var mark := "'";
    GuardedWithoutCharsOf(mark, "WHERE");
    AbsentConcat(mark, t, "WHERE");
    assert Absent(mark + t, "WHERE");
    AbsentConcat(mark + t, mark, "WHERE");
    assert mark + t + mark == Quote(t);
  }

  lemma IntTextAvoids(y: int, ch: char)
    requires !IsDigit(ch) && ch != '-'
    ensures ch !in IntText(y)
  {
    var digits := NatText(if y < 0 then -y else y);
    assert AllDigits(digits);
    assert ch !in digits;
  }

  lemma YearConditionAvoids(years: seq<int>, ch: char)
    requires !IsDigit(ch) && ch != '-' && ch !in YearOpen && ch !in ", ) "
    ensures ch !in YearCondition(years)
  {
    var texts := YearTexts(years);
    forall i | 0 <= i < |texts| ensures ch !in texts[i] {
      IntTextAvoids(years[i], ch);
    }
    JoinAvoids(", ", texts, ch);
  }

  const TopicRest: string := " topic IN ("

  lemma TopicClauseGuarded(topics: seq<string>)
    requires |topics| > 0
    requires forall i :: 0 <= i < |topics| ==> Absent(topics[i], "WHERE")
    ensures TopicClause(topics) == "WHERE" + (TopicRest + Join(", ", QuotedTopics(topics)) + ")")
    ensures Guarded(TopicRest + Join(", ", QuotedTopics(topics)) + ")", "WHERE")
  {
    TopicOpenSplits();
    TopicListGuarded(topics);
  }

  lemma TopicOpenSplits()
    ensures TopicOpen == "WHERE" + TopicRest
  {
  }

  lemma TopicListGuarded(topics: seq<string>)
    requires |topics| > 0
    requires forall i :: 0 <= i < |topics| ==> Absent(topics[i], "WHERE")
    ensures Guarded(TopicRest + Join(", ", QuotedTopics(topics)) + ")", "WHERE")
  {
    var w := "WHERE";
    var quoted := QuotedTopics(topics);
    forall i | 0 <= i < |quoted| ensures Guarded(quoted[i], w) {
      QuoteGuarded(topics[i]);
    }
    GuardedWithoutCharsOf(", ", w);
    GuardedJoin(", ", quoted, w);
    var list := Join(", ", quoted);
    GuardedWithoutCharsOf(TopicRest, w);
    GuardedWithoutCharsOf(")", w);
    GuardedConcat(TopicRest, list, w);
    GuardedConcat(TopicRest + list, ")", w);
  }

  lemma YearTailAbsent(lead: string, years: seq<int>)
    requires 'W' !in lead
    ensures Absent(lead + YearCondition(years), "WHERE")
  {
    YearConditionAvoids(years, 'W');
    AbsentWithoutFirstChar(lead + YearCondition(years), "WHERE");
  }

  lemma WhereOnlyAtStartWithTopics(topics: seq<string>, years: Option<seq<int>>)
    requires |topics| > 0
    requires forall i :: 0 <= i < |topics| ==> Absent(topics[i], "WHERE")
    ensures forall i :: OccursAt(QueryFilter(Some(topics), years), "WHERE", i) ==> i == 0
  {
    TopicClauseGuarded(topics);
    var rest := TopicRest + Join(", ", QuotedTopics(topics)) + ")";
    var tail := if Given(years) then "AND " + YearCondition(years.value) else "";
    FilterWithTopics(topics, years);
    if Given(years) {
      YearTailAbsent("AND ", years.value);
    }
    KeywordThenGuarded("WHERE", rest, tail);
  }

  lemma KeywordThenGuarded(w: string, rest: string, tail: string)
    requires Guarded(rest, w) && Absent(tail, w)
    ensures forall i :: OccursAt(w + rest + tail, w, i) ==> i == 0
  {
    AbsentConcat(rest, tail, w);
    assert w + rest + tail == w + (rest + tail);
    OccursOnlyAtStart(w, rest + tail);
  }

  /** With topics given, the filter is their clause followed by the year
      condition, if any, after "AND". */
  lemma FilterWithTopics(topics: seq<string>, years: Option<seq<int>>)
    requires |topics| > 0
    ensures QueryFilter(Some(topics), years)
      == TopicClause(topics) + (if Given(years) then "AND " + YearCondition(years.value) else "")
  {
    if !Given(years) {
      assert TopicClause(topics) + "" == TopicClause(topics);
    }
  }

  lemma WhereOnlyAtStartYearsOnly(years: seq<int>)
    requires |years| > 0
    ensures forall i :: OccursAt(QueryFilter(None, Some(years)), "WHERE", i) ==> i == 0
  {
    var w := "WHERE";
    var tail := " " + YearCondition(years);
    YearTailAbsent(" ", years);
    assert QueryFilter(None, Some(years)) == w + tail;
    OccursOnlyAtStart(w, tail);
  }

  /** With topics that do not themselves contain it, the keyword WHERE
      occurs in the filter only at its very start: the year condition is
      joined by AND when a topic clause precedes it. */
  lemma WhereOnlyAtStart(topics: Option<seq<string>>, years: Option<seq<int>>)
    requires topics.Some? ==> forall i :: 0 <= i < |topics.value| ==> Absent(topics.value[i], "WHERE")
    ensures forall i :: OccursAt(QueryFilter(topics, years), "WHERE", i) ==> i == 0
  {
    if Given(topics) {
      WhereOnlyAtStartWithTopics(topics.value, years);
    } else if Given(years) {
      NoneIsEmpty(topics, years);
      WhereOnlyAtStartYearsOnly(years.value);
      assert QueryFilter(topics, years) == QueryFilter(None, years);
    } else {
      assert QueryFilter(topics, years) == "";
    }
  }

  /** `int(s)` on each comma-separated piece, after stripping. */
  function ParseYearList(s: string): (years: Option<seq<int>>)
    ensures years.Some? ==> |years.value| == CountChar(s, ',') + 1
  {
    var pieces := Split(s, ',');
    ParseEach(pieces)
  }

  function ParseEach(pieces: seq<string>): (years: Option<seq<int>>)
    ensures years.Some? ==> |years.value| == |pieces|
    ensures years.Some? ==> forall i :: 0 <= i < |pieces| ==> ParseInt(Strip(pieces[i])) == Some(years.value[i])
    decreases |pieces|
  {
    if |pieces| == 0 then Some([])
    else
      match ParseInt(Strip(pieces[0]))
      case None => None
      case Some(y) =>
        match ParseEach(pieces[1..])
        case None => None
        case Some(ys) => Some([y] + ys)
  }

  lemma {:induction false} ParseEachExact(pieces: seq<string>, years: seq<int>)
    requires |pieces| == |years|
    requires forall i :: 0 <= i < |pieces| ==> ParseInt(Strip(pieces[i])) == Some(years[i])
    ensures ParseEach(pieces) == Some(years)
    decreases |pieces|
  {
    if |pieces| > 0 {
      ParseEachExact(pieces[1..], years[1..]);
      assert [years[0]] + years[1..] == years;
    }
  }

  lemma IntTextIsStripped(y: int)
    ensures IsStripped(IntText(y))
  {
    var digits := NatText(if y < 0 then -y else y);
    assert AllDigits(digits);
    var t := IntText(y);
    assert t[|t| - 1] == digits[|digits| - 1];
  }

  /** The year list inside the condition reads back as the chosen years. */
  lemma YearListRoundTrip(years: seq<int>)
    requires |years| >= 1
    ensures ParseYearList(Join(", ", YearTexts(years))) == Some(years)
  {
    var texts := YearTexts(years);
    var text := Join(", ", texts);
    forall i | 0 <= i < |texts|
      ensures ',' !in texts[i] && IsStripped(texts[i])
    {
      IntTextAvoids(years[i], ',');
      IntTextIsStripped(years[i]);
    }
    SplitJoinSpaced("", texts, ',');
    assert "" + text == text;
    var pieces := Split(text, ',');
    assert pieces == SpacedPieces("", texts);
    StripSpacedPieces("", texts);
    forall i | 0 <= i < |pieces|
      ensures ParseInt(Strip(pieces[i])) == Some(years[i])
    {
      IntTextRoundTrip(years[i]);
    }
    ParseEachExact(pieces, years);
  }

  // ---------------------------------------------------------------------
  // The report queries
  // ---------------------------------------------------------------------

  /** The nine reports of `create_visualizations`, in the order they run. */
  datatype Report =
    | TopLanguages | TopLicenses | TopForks | TopStars | TopOpenIssues
    | LanguageShare | TopicShare | TopicTrend | DataTable

  const Reports: seq<Report> := [
    TopLanguages, TopLicenses, TopForks, TopStars, TopOpenIssues,
    LanguageShare, TopicShare, TopicTrend, DataTable]

  /** What comes before `FROM github_repos`. */
  function Selection(r: Report): string
  {
    match r
    case TopLanguages => "SELECT programming_language, COUNT(*) as count "
    case TopLicenses => "SELECT license_type, COUNT(*) as count "
    case TopForks => "SELECT repository_name, number_of_forks "
    case TopStars => "SELECT repository_name, number_of_stars "
    case TopOpenIssues => "SELECT repository_name, number_of_open_issues "
    case LanguageShare => "SELECT programming_language, COUNT(*) as count "
    case TopicShare => "SELECT topic, COUNT(*) as count "
    case TopicTrend => "SELECT topic, CAST(EXTRACT(YEAR FROM creation_date) AS INT) as year, COUNT(*) as count "
    case DataTable => "SELECT * "
  }

  /** What follows the filter. */
  function Ending(r: Report): string
  {
    match r
    case TopLanguages => " GROUP BY programming_language ORDER BY count DESC LIMIT 10;"
    case TopLicenses => " GROUP BY license_type ORDER BY count DESC LIMIT 10;"
    case TopForks => " ORDER BY number_of_forks DESC LIMIT 10;"
    case TopStars => " ORDER BY number_of_stars DESC LIMIT 10;"
    case TopOpenIssues => " ORDER BY number_of_open_issues DESC LIMIT 10;"
    case LanguageShare => " GROUP BY programming_language;"
    case TopicShare => " GROUP BY topic;"
    case TopicTrend => " GROUP BY topic, year;"
    case DataTable => " LIMIT 100;"
  }

  const FromTable: string := "FROM github_repos "

  function Head(r: Report): string
  {
    Selection(r) + FromTable
  }

  /** One report query: its fixed head, the filter right after
      `FROM github_repos `, and its fixed ending. The filter reads back out
      of it. */
  function ReportQuery(r: Report, filter: string): (q: string)
    ensures |q| == |Head(r)| + |filter| + |Ending(r)|
    ensures FilterOf(r, q) == Some(filter)
    ensures OccursAt(q, FromTable + filter, |Selection(r)|)
  {
    BetweenOfWrap(Head(r), filter, Ending(r));
    HeadHoldsFilter(Selection(r), filter, Ending(r));
    Head(r) + filter + Ending(r)
  }

  /** Reads the filter back out of a query of report `r`: the text between
      the report's fixed head and its fixed ending. */
  function FilterOf(r: Report, q: string): (filter: Option<string>)
    ensures filter.Some? ==> |filter.value| == |q| - |Head(r)| - |Ending(r)|
  {
    Between(Head(r), Ending(r), q)
  }

  /** A query of report `r` is determined by its filter. */
  lemma ReportQueryOfFilter(r: Report, q: string)
    requires FilterOf(r, q).Some?
    ensures ReportQuery(r, FilterOf(r, q).value) == q
  {
    WrapOfBetween(Head(r), Ending(r), q);
  }

  /** All queries one press of "Apply Filters" sends, in order. */
  function VisualizationQueries(topics: Option<seq<string>>, years: Option<seq<int>>): (queries: seq<string>)
    ensures |queries| == |Reports|
  {
    var filter := QueryFilter(topics, years);
    seq(|Reports|, i requires 0 <= i < |Reports| => ReportQuery(Reports[i], filter))
  }

  /** Every report embeds the one filter, right after `FROM github_repos `. */
  lemma EveryReportSharesTheFilter(topics: Option<seq<string>>, years: Option<seq<int>>)
    ensures var queries := VisualizationQueries(topics, years);
      forall i :: 0 <= i < |queries| ==>
        && FilterOf(Reports[i], queries[i]) == Some(QueryFilter(topics, years))
        && OccursAt(queries[i], FromTable + QueryFilter(topics, years), |Selection(Reports[i])|)
  {
    var queries := VisualizationQueries(topics, years);
    var filter := QueryFilter(topics, years);
    forall i | 0 <= i < |queries|
      ensures FilterOf(Reports[i], queries[i]) == Some(filter)
      ensures OccursAt(queries[i], FromTable + filter, |Selection(Reports[i])|)
    {
      assert queries[i] == ReportQuery(Reports[i], filter);
    }
  }

  lemma HeadHoldsFilter(selection: string, filter: string, ending: string)
    ensures OccursAt(selection + FromTable + filter + ending, FromTable + filter, |selection|)
  {
    var from := FromTable;
    assert selection + from + filter + ending == selection + (from + filter) + ending;
    OccursInMiddle(selection, from + filter, ending);
  }
}
