/** `github_data_extraction(token, topics)`: one repository search per topic,
    each result flattened into a twelve-field record, then duplicates dropped,
    the index renumbered and missing fields filled with "Unknown".

    The search service is not modelled: each topic comes with what its search
    produced, results in the platform's own ranking, or the exception it
    raised. */
module Extraction {
  import opened Wrappers
  import opened Frames

  /** The license attached to a repository; only its SPDX id is read, and
      the platform leaves that id empty for licenses it does not recognise. */
  datatype License = License(spdxId: Option<string>)

  /** The attributes of one search result that the extractor reads. */
  datatype Repo = Repo(
    name: string,
    ownerLogin: string,
    description: Option<string>,
    htmlUrl: string,
    language: Option<string>,
    createdAt: int,
    updatedAt: int,
    stars: int,
    forks: int,
    openIssues: int,
    license: Option<License>)

  /** What searching `topic:<t>` gave: the results, or an exception (bad
      credentials, rate limit, network failure). */
  datatype Search = Found(repos: seq<Repo>) | Raised(message: string)

  datatype TopicSearch = TopicSearch(topic: string, search: Search)

  /** At most this many results are read per topic. */
  const PerTopicCap: nat := 500

  /** The keys of each record, in insertion order; they become the frame's
      column labels. */
  const RecordKeys: seq<string> := [
    "Topic", "Repository_Name", "Owner", "Description", "URL",
    "Programming_Language", "Creation_Date", "Last_Updated_Date",
    "Number_of_Stars", "Number_of_Forks", "Number_of_Open_Issues",
    "License_Type"]

  const TopicField: nat := 0
  const DescriptionField: nat := 3
  const LanguageField: nat := 5
  const LicenseField: nat := 11

  function Min(a: nat, b: nat): nat
  {
    if a < b then a else b
  }

  function OptionalText(v: Option<string>): (cell: Value)
    ensures cell == Null <==> v.None?
    ensures v.Some? ==> cell == Str(v.value)
  {
    match v
    case Some(s) => Str(s)
    case None => Null
  }

  /** The record built for one result of one topic. It carries the topic
      verbatim; the license cell is the SPDX id of the attached license, and
      missing when there is no license or the license has no SPDX id; only
      the description, language and license cells can be missing. */
  function Record(topic: string, repo: Repo): (row: Row)
    ensures |row| == |RecordKeys|
    ensures row[TopicField] == Str(topic)
    ensures row[LicenseField] == Null <==> repo.license.None? || repo.license.value.spdxId.None?
    ensures row[LicenseField] != Null ==> row[LicenseField] == Str(repo.license.value.spdxId.value)
    ensures row[DescriptionField] == Null <==> repo.description.None?
    ensures row[LanguageField] == Null <==> repo.language.None?
    ensures forall j :: 0 <= j < |row| && row[j] == Null ==>
      j == DescriptionField || j == LanguageField || j == LicenseField
  {
    [ Str(topic),
      Str(repo.name),
      Str(repo.ownerLogin),
      OptionalText(repo.description),
      Str(repo.htmlUrl),
      OptionalText(repo.language),
      Time(repo.createdAt),
      Time(repo.updatedAt),
      Int(repo.stars),
      Int(repo.forks),
      Int(repo.openIssues),
      if repo.license.Some? then OptionalText(repo.license.value.spdxId) else Null ]
  }

  /** `for repo in repos[:500]`: the first results, in the platform's order,
      each turned into a record of the topic. */
  function TopicRecords(topic: string, repos: seq<Repo>): (rows: seq<Row>)
    ensures |rows| == Min(|repos|, PerTopicCap) <= PerTopicCap
    ensures forall i :: 0 <= i < |rows| ==> rows[i] == Record(topic, repos[i])
  {
    seq(Min(|repos|, PerTopicCap), i requires 0 <= i < Min(|repos|, PerTopicCap) => Record(topic, repos[i]))
  }

  /** All searches produced results. */
  predicate AllFound(searches: seq<TopicSearch>)
  {
    forall k :: 0 <= k < |searches| ==> searches[k].search.Found?
  }

  /** The loop over the topics, in input order. An exception from any search
      ends the whole run and no partial result survives. Every record's
      topic is one of the searched topics, and no topic gives more than the
      cap. */
  function Collect(searches: seq<TopicSearch>): (r: Result<seq<Row>, string>)
    ensures r.Success? <==> AllFound(searches)
    ensures r.Success? ==> |r.value| <= PerTopicCap * |searches|
    ensures r.Success? ==> forall i :: 0 <= i < |r.value| ==> |r.value[i]| == |RecordKeys|
    decreases |searches|
  {
    if |searches| == 0 then Success([])
    else
      var prefix := searches[..|searches| - 1];
      var last := searches[|searches| - 1];
      assert forall k :: 0 <= k < |prefix| ==> prefix[k] == searches[k];
      match Collect(prefix)
      case Failure(e) => Failure(e)
      case Success(rows) =>
        match last.search
        case Raised(m) => Failure(m)
        case Found(repos) =>
          Success(rows + TopicRecords(last.topic, repos))
  }

  /** Every record carries the topic of one of the searches. */
  lemma {:induction false} CollectTopicsSearched(searches: seq<TopicSearch>)
    requires AllFound(searches)
    ensures forall i :: 0 <= i < |Collect(searches).value| ==>
      exists k :: 0 <= k < |searches| && Collect(searches).value[i][TopicField] == Str(searches[k].topic)
    decreases |searches|
  {
    if |searches| > 0 {
      var n := |searches|;
      var prefix := searches[..n - 1];
      CollectSnoc(searches);
      CollectTopicsSearched(prefix);
      var rows := Collect(prefix).value;
      var more := TopicRecords(searches[n - 1].topic, searches[n - 1].search.repos);
      assert Collect(searches).value == rows + more;
      forall i | 0 <= i < |Collect(searches).value|
        ensures exists k :: 0 <= k < n && Collect(searches).value[i][TopicField] == Str(searches[k].topic)
      {
        if i < |rows| {
          var k :| 0 <= k < |prefix| && rows[i][TopicField] == Str(prefix[k].topic);
          assert prefix[k] == searches[k];
          assert (rows + more)[i] == rows[i];
          assert (rows + more)[i][TopicField] == Str(searches[k].topic);
        } else {
          assert (rows + more)[i] == more[i - |rows|];
          assert (rows + more)[i][TopicField] == Str(searches[n - 1].topic);
        }
      }
    } else {
      assert Collect(searches).value == [];
    }
  }

  /** How many records the searches contribute: the cap-limited result
      counts added up in topic order. */
  function RecordCount(searches: seq<TopicSearch>): nat
  {
    if |searches| == 0 then 0
    else
      var last := searches[|searches| - 1];
      RecordCount(searches[..|searches| - 1])
        + (if last.search.Found? then Min(|last.search.repos|, PerTopicCap) else 0)
  }

  /** Where the block of topic `k` starts among the records. */
  function BlockStart(searches: seq<TopicSearch>, k: nat): nat
    requires k <= |searches|
  {
    RecordCount(searches[..k])
  }

  /** Where the block of topic `k` ends among the records. */
  function BlockEnd(searches: seq<TopicSearch>, k: nat): nat
    requires k < |searches|
  {
    RecordCount(searches[..k + 1])
  }

  lemma BlockOfEarlierTopic(searches: seq<TopicSearch>, k: nat)
    requires k < |searches| - 1
    ensures BlockStart(searches, k) == BlockStart(searches[..|searches| - 1], k)
    ensures BlockEnd(searches, k) == BlockEnd(searches[..|searches| - 1], k)
  {
    var prefix := searches[..|searches| - 1];
    assert searches[..k] == prefix[..k];
    assert searches[..k + 1] == prefix[..k + 1];
  }

  lemma AllFoundPrefix(searches: seq<TopicSearch>)
    requires |searches| > 0 && AllFound(searches)
    ensures AllFound(searches[..|searches| - 1])
  {
    var prefix := searches[..|searches| - 1];
    forall k | 0 <= k < |prefix| ensures prefix[k].search.Found? {
      assert prefix[k] == searches[k];
    }
  }

  /** A successful run is the run of all but the last search followed by
      the records of the last one. */
  lemma CollectSnoc(searches: seq<TopicSearch>)
    requires |searches| > 0 && AllFound(searches)
    ensures AllFound(searches[..|searches| - 1])
    ensures Collect(searches).value == Collect(searches[..|searches| - 1]).value
      + TopicRecords(searches[|searches| - 1].topic, searches[|searches| - 1].search.repos)
  {
    AllFoundPrefix(searches);
    var prefix := searches[..|searches| - 1];
    var last := searches[|searches| - 1];
    var rows := Collect(prefix).value;
    assert last.search.Found?;
    assert Collect(searches) == Success(rows + TopicRecords(last.topic, last.search.repos));
  }

  lemma EarlierBlock(searches: seq<TopicSearch>, k: nat)
    requires |searches| > 0 && AllFound(searches) && k < |searches| - 1
    requires var prefix := searches[..|searches| - 1];
      && BlockStart(prefix, k) <= BlockEnd(prefix, k) <= RecordCount(prefix) == |Collect(prefix).value|
      && Collect(prefix).value[BlockStart(prefix, k)..BlockEnd(prefix, k)]
         == TopicRecords(prefix[k].topic, prefix[k].search.repos)
    ensures BlockStart(searches, k) <= BlockEnd(searches, k) <= RecordCount(searches)
    ensures Collect(searches).value[BlockStart(searches, k)..BlockEnd(searches, k)]
         == TopicRecords(searches[k].topic, searches[k].search.repos)
  {
    var prefix := searches[..|searches| - 1];
    CollectSnoc(searches);
    BlockOfEarlierTopic(searches, k);
    assert prefix[k] == searches[k];
    var rows := Collect(prefix).value;
    var more := TopicRecords(searches[|searches| - 1].topic, searches[|searches| - 1].search.repos);
    assert (rows + more)[BlockStart(searches, k)..BlockEnd(searches, k)]
        == rows[BlockStart(searches, k)..BlockEnd(searches, k)];
  }

  lemma LastBlock(searches: seq<TopicSearch>)
    requires |searches| > 0 && AllFound(searches)
    requires RecordCount(searches[..|searches| - 1]) == |Collect(searches[..|searches| - 1]).value|
    ensures var k := |searches| - 1;
      && BlockStart(searches, k) <= BlockEnd(searches, k) == RecordCount(searches) == |Collect(searches).value|
      && Collect(searches).value[BlockStart(searches, k)..BlockEnd(searches, k)]
         == TopicRecords(searches[k].topic, searches[k].search.repos)
  {
    var k := |searches| - 1;
    var prefix := searches[..k];
    CollectSnoc(searches);
    assert searches[..k + 1] == searches;
    var rows := Collect(prefix).value;
    var more := TopicRecords(searches[k].topic, searches[k].search.repos);
    assert (rows + more)[|rows|..|rows| + |more|] == more;
  }

  /** The records are topic-major: the block of topic `k` follows the blocks
      of all earlier topics and holds that topic's first results in the
      platform's order. */
  lemma {:induction false} CollectIsTopicMajor(searches: seq<TopicSearch>)
    requires AllFound(searches)
    ensures |Collect(searches).value| == RecordCount(searches)
    ensures forall k: nat :: k < |searches| ==>
      && BlockStart(searches, k) <= BlockEnd(searches, k) <= RecordCount(searches)
      && Collect(searches).value[BlockStart(searches, k)..BlockEnd(searches, k)]
         == TopicRecords(searches[k].topic, searches[k].search.repos)
    decreases |searches|
  {
    if |searches| > 0 {
      var n := |searches|;
      var prefix := searches[..n - 1];
      CollectSnoc(searches);
      CollectIsTopicMajor(prefix);
      LastBlock(searches);
      forall k: nat | k < n
        ensures BlockStart(searches, k) <= BlockEnd(searches, k) <= RecordCount(searches)
        ensures Collect(searches).value[BlockStart(searches, k)..BlockEnd(searches, k)]
             == TopicRecords(searches[k].topic, searches[k].search.repos)
      {
        if k < n - 1 {
          EarlierBlock(searches, k);
        }
      }
    }
  }

  /** Every one of the first results of every topic is among the records. */
  lemma CollectContains(searches: seq<TopicSearch>, k: nat, i: nat)
    requires AllFound(searches)
    requires k < |searches| && i < Min(|searches[k].search.repos|, PerTopicCap)
    ensures Record(searches[k].topic, searches[k].search.repos[i]) in Collect(searches).value
  {
    CollectIsTopicMajor(searches);
    var rows := Collect(searches).value;
    var start := BlockStart(searches, k);
    var end := BlockEnd(searches, k);
    var records := TopicRecords(searches[k].topic, searches[k].search.repos);
    assert start <= end <= |rows| && rows[start..end] == records;
    SliceMember(rows, start, end, i);
  }

  lemma SliceMember<T>(s: seq<T>, a: nat, b: nat, i: nat)
    requires a <= b <= |s| && i < b - a
    ensures s[a..b][i] in s
  {
    assert s[a..b][i] == s[a + i];
  }

  /** The run reports the exception of the first search that raised. */
  lemma {:induction false} CollectReportsFirstFailure(searches: seq<TopicSearch>, k: nat)
    requires k < |searches| && searches[k].search.Raised?
    requires AllFound(searches[..k])
    ensures Collect(searches) == Failure(searches[k].search.message)
    decreases |searches|
  {
    var n := |searches|;
    var prefix := searches[..n - 1];
    if k < n - 1 {
      assert prefix[..k] == searches[..k];
      CollectReportsFirstFailure(prefix, k);
    } else {
      assert prefix == searches[..k];
    }
  }

  /** Running the searches of `a` then those of `b`: the first exception
      wins, and otherwise the records of `b` follow those of `a`. */
  lemma {:induction false} CollectAppend(a: seq<TopicSearch>, b: seq<TopicSearch>)
    ensures Collect(a + b) ==
      if Collect(a).Failure? then Collect(a)
      else if Collect(b).Failure? then Collect(b)
      else Success(Collect(a).value + Collect(b).value)
    decreases |b|
  {
    if |b| == 0 {
      assert a + b == a;
      if Collect(a).Success? {
        assert Collect(a).value + [] == Collect(a).value;
      }
    } else {
      var n := |b|;
      var prefix := b[..n - 1];
      assert (a + b)[..|a + b| - 1] == a + prefix;
      assert (a + b)[|a + b| - 1] == b[n - 1];
      CollectAppend(a, prefix);
      if Collect(a).Success? && Collect(prefix).Success? && b[n - 1].search.Found? {
        var more := TopicRecords(b[n - 1].topic, b[n - 1].search.repos);
        assert Collect(a).value + Collect(prefix).value + more
            == Collect(a).value + (Collect(prefix).value + more);
      }
    }
  }

  /** `pd.DataFrame(data)`: with no records the frame has no columns at all. */
  function ToFrame(rows: seq<Row>): (f: Frame)
    requires forall i :: 0 <= i < |rows| ==> |rows[i]| == |RecordKeys|
    ensures WellFormed(f) && f.rows == rows
    ensures f.columns == (if |rows| == 0 then [] else RecordKeys)
    ensures forall k :: 0 <= k < |f.index| ==> f.index[k] == k
  {
    Frame(if |rows| == 0 then [] else RecordKeys, Range(|rows|), rows)
  }

  /** The whole extraction. On success the frame has the record keys as
      columns (none when nothing was found), at most the cap per topic, index
      labels exactly `0..n-1` and no missing cell. */
  function Extract(searches: seq<TopicSearch>): (r: Result<Frame, string>)
    ensures r.Success? <==> AllFound(searches)
    ensures r.Success? ==>
      && WellFormed(r.value)
      && r.value.columns == (if |r.value.rows| == 0 then [] else RecordKeys)
      && |r.value.rows| <= PerTopicCap * |searches|
      && |r.value.index| == |r.value.rows|
      && (forall k :: 0 <= k < |r.value.index| ==> r.value.index[k] == k)
      && NoMissing(r.value.rows)
  {
    match Collect(searches)
    case Failure(e) => Failure(e)
    case Success(rows) =>
      var df := ToFrame(rows);
      var deduped := if HasDuplicates(df) then DropDuplicates(df) else df;
      assert |rows| > 0 ==> rows[0] in deduped.rows;
      Success(FillMissing(ResetIndex(deduped)))
  }

  /** The rows of the result are the collected records with duplicates
      dropped, first occurrences kept in order, and then every missing cell
      filled: the duplicate check before dropping changes nothing. */
  lemma ExtractRows(searches: seq<TopicSearch>)
    requires AllFound(searches)
    ensures Extract(searches).value.rows == FillCells(Dedup(Collect(searches).value))
  {
    var rows := Collect(searches).value;
    var df := ToFrame(rows);
    if !HasDuplicates(df) {
      DedupOfDistinct(rows);
    }
    var deduped := if HasDuplicates(df) then DropDuplicates(df) else df;
    FillMissingIsCellwise(ResetIndex(deduped));
  }

  /** Every result row has the topic of one of the searches, so a topic
      that was not searched never appears. */
  lemma ExtractOnlySearchedTopics(searches: seq<TopicSearch>, t: string)
    requires AllFound(searches)
    requires forall k :: 0 <= k < |searches| ==> searches[k].topic != t
    ensures forall i :: 0 <= i < |Extract(searches).value.rows| ==>
      Extract(searches).value.rows[i][TopicField] != Str(t)
  {
    ExtractRows(searches);
    CollectTopicsSearched(searches);
    var rows := Collect(searches).value;
    var out := Extract(searches).value.rows;
    forall i | 0 <= i < |out|
      ensures out[i][TopicField] != Str(t)
    {
      var d := Dedup(rows)[i];
      assert d in rows;
      var m :| 0 <= m < |rows| && rows[m] == d;
      var k :| 0 <= k < |searches| && rows[m][TopicField] == Str(searches[k].topic);
      assert out[i][TopicField] == FillCell(d[TopicField]);
    }
  }

  /** The searches with those of topic `t` left out. */
  function WithoutTopic(searches: seq<TopicSearch>, t: string): (r: seq<TopicSearch>)
    ensures forall k :: 0 <= k < |r| ==> r[k].topic != t
    ensures forall s :: s in r <==> s in searches && s.topic != t
  {
    if |searches| == 0 then []
    else
      var last := searches[|searches| - 1];
      WithoutTopic(searches[..|searches| - 1], t) + (if last.topic == t then [] else [last])
  }

  lemma {:induction false} CollectWithoutTopic(searches: seq<TopicSearch>, t: string)
    requires AllFound(searches)
    ensures AllFound(WithoutTopic(searches, t))
    ensures forall row :: row in Collect(WithoutTopic(searches, t)).value ==> row in Collect(searches).value
    decreases |searches|
  {
    if |searches| > 0 {
      var n := |searches|;
      var prefix := searches[..n - 1];
      var last := searches[n - 1];
      CollectSnoc(searches);
      CollectWithoutTopic(prefix, t);
      var rest := WithoutTopic(prefix, t);
      if last.topic != t {
        assert WithoutTopic(searches, t) == rest + [last];
        CollectAppend(rest, [last]);
        assert [last][..0] == [];
        assert Collect([last]).value == [] + TopicRecords(last.topic, last.search.repos);
      } else {
        assert WithoutTopic(searches, t) == rest;
      }
    }
  }

  /** Leaving topic `t` out of the input gives no row of that topic, and
      every row it does give is also a row of the full run. */
  lemma ExtractWithoutTopic(searches: seq<TopicSearch>, t: string)
    requires AllFound(searches)
    ensures Extract(WithoutTopic(searches, t)).Success?
    ensures forall i :: 0 <= i < |Extract(WithoutTopic(searches, t)).value.rows| ==>
      Extract(WithoutTopic(searches, t)).value.rows[i][TopicField] != Str(t)
    ensures forall row :: row in Extract(WithoutTopic(searches, t)).value.rows ==>
      row in Extract(searches).value.rows
  {
    var fewer := WithoutTopic(searches, t);
    CollectWithoutTopic(searches, t);
    ExtractOnlySearchedTopics(fewer, t);
    ExtractMonotone(fewer, searches);
  }

  /** Fewer collected records give fewer result rows. */
  lemma ExtractMonotone(fewer: seq<TopicSearch>, searches: seq<TopicSearch>)
    requires AllFound(fewer) && AllFound(searches)
    requires forall row :: row in Collect(fewer).value ==> row in Collect(searches).value
    ensures forall row :: row in Extract(fewer).value.rows ==> row in Extract(searches).value.rows
  {
    ExtractRows(fewer);
    var small := Dedup(Collect(fewer).value);
    forall row | row in Extract(fewer).value.rows
      ensures row in Extract(searches).value.rows
    {
      var i :| 0 <= i < |small| && FillCells(small)[i] == row;
      assert small[i] in Collect(fewer).value;
      ExtractKeepsRecords(searches, small[i]);
    }
  }

  /** A topic whose search finds nothing contributes nothing and changes
      nothing about the run. */
  lemma ExtractIgnoresEmptyTopic(a: seq<TopicSearch>, t: string, b: seq<TopicSearch>)
    ensures Extract(a + [TopicSearch(t, Found([]))] + b) == Extract(a + b)
  {
    var empty := [TopicSearch(t, Found([]))];
    assert Collect(empty) == Success([]) by {
      assert empty[..0] == [];
    }
    CollectAppend(a, empty);
    CollectAppend(a + empty, b);
    CollectAppend(a, b);
    if Collect(a).Success? {
      assert Collect(a).value + [] == Collect(a).value;
    }
  }

  /** Every collected record appears in the result, filled. */
  lemma ExtractKeepsRecords(searches: seq<TopicSearch>, row: Row)
    requires AllFound(searches)
    requires row in Collect(searches).value
    ensures FillRow(row) in Extract(searches).value.rows
  {
    ExtractRows(searches);
    var d := Dedup(Collect(searches).value);
    var m :| 0 <= m < |d| && d[m] == row;
    assert FillCells(d)[m] == FillRow(row);
  }

  /** The same repository found under two different topics gives two
      different rows, and both are in the result. */
  lemma SameRepositoryTwoTopics(searches: seq<TopicSearch>, k1: nat, i1: nat, k2: nat, i2: nat)
    requires AllFound(searches)
    requires k1 < |searches| && k2 < |searches|
    requires i1 < Min(|searches[k1].search.repos|, PerTopicCap)
    requires i2 < Min(|searches[k2].search.repos|, PerTopicCap)
    requires searches[k1].search.repos[i1] == searches[k2].search.repos[i2]
    requires searches[k1].topic != searches[k2].topic
    ensures var repo := searches[k1].search.repos[i1];
      var row1 := FillRow(Record(searches[k1].topic, repo));
      var row2 := FillRow(Record(searches[k2].topic, repo));
      && row1 != row2
      && row1 in Extract(searches).value.rows
      && row2 in Extract(searches).value.rows
  {
    var repo := searches[k1].search.repos[i1];
    var rec1 := Record(searches[k1].topic, repo);
    var rec2 := Record(searches[k2].topic, repo);
    CollectContains(searches, k1, i1);
    CollectContains(searches, k2, i2);
    ExtractKeepsRecords(searches, rec1);
    ExtractKeepsRecords(searches, rec2);
    assert FillRow(rec1)[TopicField] != FillRow(rec2)[TopicField];
  }

  lemma CollectOneTopic(topic: string, repos: seq<Repo>)
    ensures Collect([TopicSearch(topic, Found(repos))]) == Success(TopicRecords(topic, repos))
  {
    var searches := [TopicSearch(topic, Found(repos))];
    assert searches[..0] == [];
    assert [] + TopicRecords(topic, repos) == TopicRecords(topic, repos);
  }

  /** A single successful search extracts exactly its records, deduplicated
      and filled. */
  lemma ExtractOneTopic(topic: string, repos: seq<Repo>)
    ensures Extract([TopicSearch(topic, Found(repos))]).Success?
    ensures Extract([TopicSearch(topic, Found(repos))]).value.rows
      == FillCells(Dedup(TopicRecords(topic, repos)))
  {
    CollectOneTopic(topic, repos);
    ExtractRows([TopicSearch(topic, Found(repos))]);
  }

  lemma DedupTwo(a: Row, b: Row)
    requires a != b
    ensures Dedup([a, b]) == [a, b]
  {
    assert [a, b][..1] == [a];
    assert Dedup([a]) == [a];
  }

  lemma DedupRepeatThenOther(a: Row, b: Row)
    requires a != b
    ensures Dedup([a, a, b]) == [a, b]
  {
    assert [a, a, b][..2] == [a, a];
    assert [a, a][..1] == [a];
    assert Dedup([a]) == [a];
  }

  /** One topic whose search returns a repository twice and then a second
      repository without description or license: the repeated record is
      dropped, and the second record's description and license read
      "Unknown". */
  lemma ExtractDropsRepeatAndFillsMissing(topic: string, first: Repo, second: Repo)
    requires first.name != second.name
    requires second.description.None? && second.license.None?
    ensures var r := Extract([TopicSearch(topic, Found([first, first, second]))]);
      && r.Success?
      && |r.value.rows| == 2
      && r.value.rows[0] == FillRow(Record(topic, first))
      && r.value.rows[1][DescriptionField] == Unknown
      && r.value.rows[1][LicenseField] == Unknown
  {
    var repos := [first, first, second];
    var searches := [TopicSearch(topic, Found(repos))];
    var a := Record(topic, first);
    var b := Record(topic, second);
    CollectOneTopic(topic, repos);
    assert TopicRecords(topic, repos) == [a, a, b];
    assert a[1] != b[1];
    DedupRepeatThenOther(a, b);
    ExtractRows(searches);
  }

  /** Filling erases the only difference between a repository without a
      description and the same repository described as "Unknown". */
  lemma FillMergesUnknownDescription(topic: string, bare: Repo)
    requires bare.description.None?
    ensures Record(topic, bare) != Record(topic, bare.(description := Some("Unknown")))
    ensures FillRow(Record(topic, bare)) == FillRow(Record(topic, bare.(description := Some("Unknown"))))
  {
    var a := Record(topic, bare);
    var b := Record(topic, bare.(description := Some("Unknown")));
    assert a[DescriptionField] != b[DescriptionField];
    assert forall j :: 0 <= j < |a| && j != DescriptionField ==> a[j] == b[j];
    assert forall j :: 0 <= j < |a| ==> FillRow(a)[j] == FillRow(b)[j];
  }

  /** Deduplication runs before the fill (`github_data_extraction.py` lines
      40-52), so two records that differ only by a missing description both
      survive it and are equal once filled: the extracted table may repeat
      a row. */
  lemma ExtractMayRepeatRowsAfterFill(topic: string, bare: Repo, labelled: Repo)
    requires bare.description.None?
    requires labelled == bare.(description := Some("Unknown"))
    ensures var r := Extract([TopicSearch(topic, Found([bare, labelled]))]);
      && r.Success?
      && |r.value.rows| == 2
      && r.value.rows[0] == r.value.rows[1]
      && !Distinct(r.value.rows)
  {
    var a := Record(topic, bare);
    var b := Record(topic, labelled);
    ExtractOneTopic(topic, [bare, labelled]);
    assert TopicRecords(topic, [bare, labelled]) == [a, b];
    FillMergesUnknownDescription(topic, bare);
    DedupTwo(a, b);
    var rows := FillCells([a, b]);
    assert rows[0] == FillRow(a) == FillRow(b) == rows[1];
    assert !Distinct(rows);
  }
}
