/** The `github_repos` table that the loader writes into and the reports read
    from, as its `CREATE TABLE IF NOT EXISTS` statement declares it. */
module Schema {
  import opened Text
  import opened Frames
  import opened Extraction

  datatype SqlType = Serial | VarChar(width: nat) | TextType | Timestamp | Integer

  datatype ColumnDef = ColumnDef(name: string, sqlType: SqlType, primaryKey: bool)

  const TableName: string := "github_repos"

  /** The declared columns, in declaration order. */
  const GithubRepos: seq<ColumnDef> := [
    ColumnDef("id", Serial, true),
    ColumnDef("Topic", VarChar(255), false),
    ColumnDef("Repository_Name", VarChar(255), false),
    ColumnDef("Owner", VarChar(255), false),
    ColumnDef("Description", TextType, false),
    ColumnDef("URL", VarChar(255), false),
    ColumnDef("Programming_Language", VarChar(255), false),
    ColumnDef("Creation_Date", Timestamp, false),
    ColumnDef("Last_Updated_Date", Timestamp, false),
    ColumnDef("Number_of_Stars", Integer, false),
    ColumnDef("Number_of_Forks", Integer, false),
    ColumnDef("Number_of_Open_Issues", Integer, false),
    ColumnDef("License_Type", VarChar(255), false)]

  /** PostgreSQL folds unquoted identifiers to lower case, so this is the
      name under which a column is stored and looked up. */
  function StoredName(c: ColumnDef): string
  {
    Lower(c.name)
  }

  /** The columns a loaded row supplies: every column but the generated key. */
  function DataColumns(): (cs: seq<ColumnDef>)
    ensures |cs| == |GithubRepos| - 1
    ensures forall i :: 0 <= i < |cs| ==> cs[i] == GithubRepos[i + 1] && !cs[i].primaryKey
  {
    GithubRepos[1..]
  }

  predicate IsTextual(t: SqlType)
  {
    t.VarChar? || t.TextType?
  }

  /** A non-missing cell of the kind the column type stores. */
  predicate Fits(t: SqlType, v: Value)
  {
    match t
    case Serial => v.Int?
    case VarChar(_) => v.Str?
    case TextType => v.Str?
    case Timestamp => v.Time?
    case Integer => v.Int?
  }

  /** A record as the extractor builds it: one cell per data column, each of
      the column's kind, and missing only where the column holds text. */
  predicate IsRawRecord(row: Row)
  {
    && |row| == |DataColumns()|
    && forall j :: 0 <= j < |row| ==>
         if row[j] == Null then IsTextual(DataColumns()[j].sqlType)
         else Fits(DataColumns()[j].sqlType, row[j])
  }

  /** A row with every cell present and of its column's kind. */
  predicate IsLoadable(row: Row)
  {
    && |row| == |DataColumns()|
    && forall j :: 0 <= j < |row| ==> Fits(DataColumns()[j].sqlType, row[j])
  }

  /** The twelve record keys are the twelve data columns, in order, up to
      case, and so name the same stored columns. */
  lemma RecordKeysMatchColumns()
    ensures |RecordKeys| == |DataColumns()|
    ensures forall i :: 0 <= i < |RecordKeys| ==> Lower(RecordKeys[i]) == StoredName(DataColumns()[i])
    ensures GithubRepos[0].primaryKey && GithubRepos[0].sqlType == Serial
  {
    forall i | 0 <= i < |RecordKeys|
      ensures RecordKeys[i] == DataColumns()[i].name
    {
    }
  }

  /** Every record the extractor builds has the table's shape. */
  lemma RecordIsRaw(topic: string, repo: Repo)
    ensures IsRawRecord(Record(topic, repo))
  {
    var row := Record(topic, repo);
    var cols := DataColumns();
    forall j | 0 <= j < |row|
      ensures if row[j] == Null then IsTextual(cols[j].sqlType) else Fits(cols[j].sqlType, row[j])
    {
      assert cols[j] == GithubRepos[j + 1];
    }
  }

  /** Filling a raw record replaces its missing text cells with "Unknown"
      and so makes it loadable. */
  lemma FilledRawIsLoadable(row: Row)
    requires IsRawRecord(row)
    ensures IsLoadable(FillRow(row))
  {
    var cols := DataColumns();
    forall j | 0 <= j < |row|
      ensures Fits(cols[j].sqlType, FillRow(row)[j])
    {
      if row[j] == Null {
        assert IsTextual(cols[j].sqlType);
      }
    }
  }

  lemma {:induction false} CollectIsRaw(searches: seq<TopicSearch>)
    requires AllFound(searches)
    ensures forall i :: 0 <= i < |Collect(searches).value| ==> IsRawRecord(Collect(searches).value[i])
    decreases |searches|
  {
    if |searches| > 0 {
      var prefix := searches[..|searches| - 1];
      var last := searches[|searches| - 1];
      CollectSnoc(searches);
      CollectIsRaw(prefix);
      var block := TopicRecords(last.topic, last.search.repos);
      forall i | 0 <= i < |block| ensures IsRawRecord(block[i]) {
        RecordIsRaw(last.topic, last.search.repos[i]);
      }
    }
  }

  /** Every row of a successful extraction fits the table: the right number
      of cells, each of its column's kind, none missing. */
  lemma ExtractedRowsAreLoadable(searches: seq<TopicSearch>)
    requires AllFound(searches)
    ensures forall i :: 0 <= i < |Extract(searches).value.rows| ==>
      IsLoadable(Extract(searches).value.rows[i])
  {
    ExtractRows(searches);
    CollectIsRaw(searches);
    var collected := Collect(searches).value;
    var deduped := Dedup(collected);
    var rows := Extract(searches).value.rows;
    forall i | 0 <= i < |rows| ensures IsLoadable(rows[i]) {
      assert deduped[i] in collected;
      var k :| 0 <= k < |collected| && collected[k] == deduped[i];
      FilledRawIsLoadable(deduped[i]);
    }
  }
}
