/** The slice of pandas the extractor relies on: a DataFrame as column
    labels, index labels and rows of cells, with `drop_duplicates`,
    `reset_index(drop=True)` and the fill of missing cells with a sentinel. */
module Frames {

  /** One cell: pandas' missing marker (Python `None` / NaN), a string, an
      integer, or a timestamp (seconds since the epoch). */
  datatype Value = Null | Str(text: string) | Int(number: int) | Time(stamp: int)

  type Row = seq<Value>

  /** A DataFrame: `index[i]` labels `rows[i]`. */
  datatype Frame = Frame(columns: seq<string>, index: seq<int>, rows: seq<Row>)

  ghost predicate WellFormed(f: Frame)
  {
    && |f.index| == |f.rows|
    && forall i :: 0 <= i < |f.rows| ==> |f.rows[i]| == |f.columns|
  }

  /** The default index `0, 1, ..., n-1` of a freshly built frame. */
  function Range(n: nat): (r: seq<int>)
    ensures |r| == n
    ensures forall i :: 0 <= i < n ==> r[i] == i
  {
    seq(n, i => i)
  }

  predicate Distinct<T(==)>(s: seq<T>)
  {
    forall i, j :: 0 <= i < j < |s| ==> s[i] != s[j]
  }

  /** Scans `s` and keeps an element only if it was not kept before: what
      `drop_duplicates(keep='first')` does to the rows. */
  function Dedup(s: seq<Row>): (r: seq<Row>)
    ensures |r| <= |s|
    ensures forall x :: x in r <==> x in s
    ensures Distinct(r)
    decreases |s|
  {
    if |s| == 0 then []
    else
      var kept := Dedup(s[..|s| - 1]);
      var x := s[|s| - 1];
      if x in kept then kept else kept + [x]
  }

  /** Position `i` holds the first occurrence of its value. */
  predicate IsFirstOccurrence<T(==)>(s: seq<T>, i: int)
  {
    0 <= i < |s| && s[i] !in s[..i]
  }

  /** The positions `duplicated(keep='first')` marks False, ascending. */
  function FirstPositions<T(==)>(s: seq<T>): (ps: seq<nat>)
    ensures forall k :: 0 <= k < |ps| ==> IsFirstOccurrence(s, ps[k])
    ensures forall i :: IsFirstOccurrence(s, i) ==> i in ps
    ensures forall k, l :: 0 <= k < l < |ps| ==> ps[k] < ps[l]
    decreases |s|
  {
    if |s| == 0 then []
    else
      var prefix := s[..|s| - 1];
      var ps := FirstPositions(prefix);
      assert forall p :: 0 <= p < |prefix| ==> prefix[..p] == s[..p];
      if s[|s| - 1] in prefix then ps else ps + [|s| - 1]
  }

  /** The elements of `s` at positions `ps`, in that order. */
  function Select<T>(s: seq<T>, ps: seq<nat>): (r: seq<T>)
    requires forall k :: 0 <= k < |ps| ==> ps[k] < |s|
    ensures |r| == |ps|
    ensures forall k :: 0 <= k < |ps| ==> r[k] == s[ps[k]]
  {
    seq(|ps|, k requires 0 <= k < |ps| => s[ps[k]])
  }

  /** The scan keeps exactly the first occurrences, in their original
      order. */
  lemma {:induction false} DedupKeepsFirstOccurrences(s: seq<Row>)
    ensures Dedup(s) == Select(s, FirstPositions(s))
    decreases |s|
  {
    if |s| > 0 {
      var prefix := s[..|s| - 1];
      DedupKeepsFirstOccurrences(prefix);
      var ps := FirstPositions(prefix);
      assert Select(s, ps) == Select(prefix, ps);
    }
  }

  /** On rows without duplicates the scan changes nothing. */
  lemma {:induction false} DedupOfDistinct(s: seq<Row>)
    requires Distinct(s)
    ensures Dedup(s) == s
    decreases |s|
  {
    if |s| > 0 {
      var prefix := s[..|s| - 1];
      assert Distinct(prefix);
      DedupOfDistinct(prefix);
      assert s[|s| - 1] !in prefix;
      assert prefix + [s[|s| - 1]] == s;
    }
  }

  lemma DedupIdempotent(s: seq<Row>)
    ensures Dedup(Dedup(s)) == Dedup(s)
  {
    DedupOfDistinct(Dedup(s));
  }

  /** The scan shortens the rows exactly when they hold a duplicate. */
  lemma {:induction false} DedupLengthIffDistinct(s: seq<Row>)
    ensures |Dedup(s)| == |s| <==> Distinct(s)
    decreases |s|
  {
    if Distinct(s) {
      DedupOfDistinct(s);
    } else if |s| > 0 {
      var prefix := s[..|s| - 1];
      var x := s[|s| - 1];
      DedupLengthIffDistinct(prefix);
      if x !in prefix {
        var i, j :| 0 <= i < j < |s| && s[i] == s[j];
        assert s[i] == prefix[i];
        assert s[j] in prefix;
        assert j < |s| - 1;
        assert prefix[i] == prefix[j];
      }
    }
  }

  /** `df.duplicated().sum() > 0`: some row is not the first occurrence of
      its value, so fewer rows are first occurrences than there are rows. */
  function HasDuplicates(f: Frame): (dup: bool)
    ensures dup <==> exists i :: 0 <= i < |f.rows| && !IsFirstOccurrence(f.rows, i)
    ensures dup <==> |FirstPositions(f.rows)| < |f.rows|
  {
    DuplicatedIffRepeat(f.rows);
    DedupKeepsFirstOccurrences(f.rows);
    DedupLengthIffDistinct(f.rows);
    !Distinct(f.rows)
  }

  /** A row is marked by `duplicated()` iff some row is repeated. */
  lemma DuplicatedIffRepeat(s: seq<Row>)
    ensures !Distinct(s) <==> exists i :: 0 <= i < |s| && !IsFirstOccurrence(s, i)
  {
    if !Distinct(s) {
      var i, j :| 0 <= i < j < |s| && s[i] == s[j];
      assert s[..j][i] == s[j];
      assert !IsFirstOccurrence(s, j);
    }
    if exists j :: 0 <= j < |s| && !IsFirstOccurrence(s, j) {
      var j :| 0 <= j < |s| && !IsFirstOccurrence(s, j);
      var i :| 0 <= i < j && s[..j][i] == s[j];
      assert s[i] == s[j];
    }
  }

  /** `df.drop_duplicates()`: every kept row is the first occurrence of its
      value and keeps its index label; no two kept rows are equal. */
  function DropDuplicates(f: Frame): (r: Frame)
    requires WellFormed(f)
    ensures WellFormed(r) && r.columns == f.columns
    ensures Distinct(r.rows)
    ensures forall row :: row in r.rows <==> row in f.rows
    ensures var ps := FirstPositions(f.rows);
      && |r.rows| == |ps|
      && forall k :: 0 <= k < |ps| ==> r.rows[k] == f.rows[ps[k]] && r.index[k] == f.index[ps[k]]
  {
    var ps := FirstPositions(f.rows);
    DedupKeepsFirstOccurrences(f.rows);
    Frame(f.columns, Select(f.index, ps), Dedup(f.rows))
  }

  /** `df.reset_index(drop=True)`: same rows, labels `0..n-1`. */
  function ResetIndex(f: Frame): (r: Frame)
    requires WellFormed(f)
    ensures WellFormed(r)
    ensures r.columns == f.columns && r.rows == f.rows
    ensures forall k :: 0 <= k < |r.index| ==> r.index[k] == k
  {
    Frame(f.columns, Range(|f.rows|), f.rows)
  }

  /** The sentinel written into missing cells. */
  const Unknown: Value := Str("Unknown")

  function FillCell(v: Value): Value
  {
    if v == Null then Unknown else v
  }

  /** Column `c` holds a missing cell: `df.isna().sum()[c] > 0`. */
  predicate HasMissing(rows: seq<Row>, c: nat)
  {
    exists i | 0 <= i < |rows| :: c < |rows[i]| && rows[i][c] == Null
  }

  /** Columns `from..width-1` that hold a missing cell, ascending. */
  function MissingColumnsFrom(rows: seq<Row>, from: nat, width: nat): (cs: seq<nat>)
    ensures forall c: nat :: c in cs <==> from <= c < width && HasMissing(rows, c)
    decreases width - from
  {
    if from >= width then []
    else
      var rest := MissingColumnsFrom(rows, from + 1, width);
      if HasMissing(rows, from) then [from] + rest else rest
  }

  /** `df.isna().sum()[df.isna().sum() > 0].index`, as column positions. */
  function MissingColumns(f: Frame): (cs: seq<nat>)
    ensures forall c: nat :: c in cs <==> c < |f.columns| && HasMissing(f.rows, c)
  {
    MissingColumnsFrom(f.rows, 0, |f.columns|)
  }

  /** `df[c].fillna('Unknown')` applied to column `c` of the rows. */
  function FillColumn(rows: seq<Row>, c: nat): (r: seq<Row>)
    ensures |r| == |rows|
    ensures forall i :: 0 <= i < |rows| ==> |r[i]| == |rows[i]|
    ensures forall i, j :: 0 <= i < |rows| && 0 <= j < |rows[i]| ==>
      r[i][j] == (if j == c then FillCell(rows[i][j]) else rows[i][j])
  {
    seq(|rows|, i requires 0 <= i < |rows| =>
      if c < |rows[i]| then rows[i][c := FillCell(rows[i][c])] else rows[i])
  }

  /** The fill loop over the listed columns, one column after another.
      After the loop a cell is filled exactly when its column was listed;
      listing a column twice does no harm. */
  function FillColumns(rows: seq<Row>, cs: seq<nat>): (r: seq<Row>)
    ensures |r| == |rows|
    ensures forall i :: 0 <= i < |rows| ==> |r[i]| == |rows[i]|
    ensures forall i, j :: 0 <= i < |rows| && 0 <= j < |rows[i]| ==>
      r[i][j] == (if j in cs then FillCell(rows[i][j]) else rows[i][j])
    decreases |cs|
  {
    if |cs| == 0 then rows
    else
      var once := FillColumn(rows, cs[0]);
      var r := FillColumns(once, cs[1..]);
      FillColumnsStep(rows, cs, once, r);
      r
  }

  /** One more turn of the fill loop: filling column `cs[0]` and then the
      rest fills exactly the listed columns. */
  lemma FillColumnsStep(rows: seq<Row>, cs: seq<nat>, once: seq<Row>, r: seq<Row>)
    requires |cs| > 0 && once == FillColumn(rows, cs[0])
    requires |r| == |once| && forall i :: 0 <= i < |once| ==> |r[i]| == |once[i]|
    requires forall i, j :: 0 <= i < |once| && 0 <= j < |once[i]| ==>
      r[i][j] == (if j in cs[1..] then FillCell(once[i][j]) else once[i][j])
    ensures forall i, j :: 0 <= i < |rows| && 0 <= j < |rows[i]| ==>
      r[i][j] == (if j in cs then FillCell(rows[i][j]) else rows[i][j])
  {
    forall i, j | 0 <= i < |rows| && 0 <= j < |rows[i]|
      ensures r[i][j] == (if j in cs then FillCell(rows[i][j]) else rows[i][j])
    {
      assert j in cs <==> j == cs[0] || j in cs[1..];
      assert |once[i]| == |rows[i]|;
      assert once[i][j] == (if j == cs[0] then FillCell(rows[i][j]) else rows[i][j]);
      assert r[i][j] == (if j in cs[1..] then FillCell(once[i][j]) else once[i][j]);
      FillCellTwice(rows[i][j]);
    }
  }

  lemma FillCellTwice(v: Value)
    ensures FillCell(FillCell(v)) == FillCell(v)
  {
  }

  /** Filling the columns that hold a missing cell fills every missing cell. */
  lemma FillMissingColumnsCells(f: Frame)
    requires WellFormed(f)
    ensures forall i, j :: 0 <= i < |f.rows| && 0 <= j < |f.columns| ==>
      FillColumns(f.rows, MissingColumns(f))[i][j] == FillCell(f.rows[i][j])
  {
    var cs := MissingColumns(f);
    forall i, j | 0 <= i < |f.rows| && 0 <= j < |f.columns|
      ensures FillColumns(f.rows, cs)[i][j] == FillCell(f.rows[i][j])
    {
      var r := FillColumns(f.rows, cs);
      assert r[i][j] == (if j in cs then FillCell(f.rows[i][j]) else f.rows[i][j]);
      if f.rows[i][j] == Null {
        assert HasMissing(f.rows, j);
      }
    }
  }

  /** Reference definition: every missing cell of the row becomes the
      sentinel. */
  function FillRow(row: Row): (r: Row)
    ensures |r| == |row|
    ensures forall j :: 0 <= j < |row| ==> r[j] == FillCell(row[j])
  {
    seq(|row|, j requires 0 <= j < |row| => FillCell(row[j]))
  }

  function FillCells(rows: seq<Row>): (r: seq<Row>)
    ensures |r| == |rows|
    ensures forall i :: 0 <= i < |rows| ==> r[i] == FillRow(rows[i])
  {
    seq(|rows|, i requires 0 <= i < |rows| => FillRow(rows[i]))
  }

  predicate NoMissing(rows: seq<Row>)
  {
    forall i, j :: 0 <= i < |rows| && 0 <= j < |rows[i]| ==> rows[i][j] != Null
  }

  /** The fill step of the extractor, with the effect it is meant to have:
      for each column holding a missing cell, fill that column. Afterwards
      no cell is missing, every cell that was missing is "Unknown", and every
      other cell is unchanged. */
  function FillMissing(f: Frame): (r: Frame)
    requires WellFormed(f)
    ensures WellFormed(r)
    ensures r.columns == f.columns && r.index == f.index
    ensures NoMissing(r.rows)
    ensures forall i, j :: 0 <= i < |f.rows| && 0 <= j < |f.columns| ==>
      r.rows[i][j] == (if f.rows[i][j] == Null then Unknown else f.rows[i][j])
  {
    var cs := MissingColumns(f);
    FillMissingColumnsCells(f);
    if |cs| > 0 then Frame(f.columns, f.index, FillColumns(f.rows, cs)) else f
  }

  /** The column-by-column fill agrees with the cell-by-cell reference. */
  lemma FillMissingIsCellwise(f: Frame)
    requires WellFormed(f)
    ensures FillMissing(f).rows == FillCells(f.rows)
  {
    var r := FillMissing(f).rows;
    var g := FillCells(f.rows);
    assert |r| == |g|;
    forall i | 0 <= i < |r|
      ensures r[i] == g[i]
    {
      assert |r[i]| == |g[i]|;
    }
  }

  /** What the chained `github_df[c].fillna('Unknown', inplace=True)` does
      when pandas copy-on-write is in force: it fills a temporary copy of the
      column and leaves the frame itself as it was. */
  function FillMissingCopyOnWrite(f: Frame): (r: Frame)
    requires WellFormed(f)
    ensures WellFormed(r) && r.columns == f.columns && |r.rows| == |f.rows|
    ensures forall i, j :: 0 <= i < |f.rows| && 0 <= j < |f.columns| ==> r.rows[i][j] == f.rows[i][j]
  {
    // Each `github_df[c].fillna(...)` fills a temporary copy of column c,
    // which is then discarded.
    f
  }

  /** Under copy-on-write a missing description survives the fill loop,
      where the intended fill turns it into "Unknown". */
  lemma CopyOnWriteFillKeepsMissing()
    ensures var f := Frame(["Description"], [0], [[Null]]);
      && WellFormed(f)
      && FillMissingCopyOnWrite(f).rows[0][0] == Null
      && FillMissing(f).rows[0][0] == Unknown
  {
    var f := Frame(["Description"], [0], [[Null]]);
    assert WellFormed(f);
    assert FillMissing(f).rows[0][0] == Unknown;
  }
}
