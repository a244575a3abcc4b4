/** The file-level step of the cleaner (`clean_eye_file`): a table is
    skipped when empty; otherwise each pupil column present in it is
    replaced by its cleaned series, and the result is written next to the
    input under the input's stem followed by `_clean.csv`. Reading and
    writing CSV are left to the caller: the table comes in as a value and
    the outcome names the path and the table to write. */
module EyeDataFiles {
  import opened Wrappers
  import opened Interpolation
  import opened CleanEyeData

  /** The columns the cleaner replaces (`COLS`). */
  const PupilColumns: seq<string> := ["Left Pupil Dilation", "Right Pupil Dilation"]

  /** The two pupil columns are different columns. */
  lemma PupilColumnsDistinct()
    ensures |PupilColumns| == 2 && PupilColumns[0] != PupilColumns[1]
  {
    assert PupilColumns[0][0] != PupilColumns[1][0];
  }

  /** A table read from CSV: each column by its header, rows in file order. */
  type Table = map<string, Series>

  /** `df.empty`: a table with no column or no row. */
  function IsEmpty(t: Table): (r: bool)
    ensures r <==> forall c :: c in t ==> t[c] == []
  {
    |t| == 0 || forall c :: c in t ==> |t[c]| == 0
  }

  /** A file path: the directories above the file, and the file's name. */
  datatype Path = Path(dirs: seq<string>, name: string)

  /** The position of the last `ch` in `s`, if any. */
  function LastIndexOf(s: string, ch: char): (r: Option<nat>)
    ensures r.Some? ==> r.value < |s| && s[r.value] == ch
    ensures r.Some? ==> forall k :: r.value < k < |s| ==> s[k] != ch
    ensures r.None? ==> forall k :: 0 <= k < |s| ==> s[k] != ch
  {
    if |s| == 0 then None
    else if s[|s| - 1] == ch then Some(|s| - 1)
    else LastIndexOf(s[..|s| - 1], ch)
  }

  /** `PurePath.stem`: the name without its final suffix. A suffix is what
      follows the last dot, provided that dot is neither the first nor the
      last character. */
  function Stem(name: string): (r: string)
    ensures r <= name
    ensures r != name ==> 0 < |r| < |name| - 1 && name[|r|] == '.'
    ensures r != name ==> forall k :: |r| < k < |name| ==> name[k] != '.'
  {
    match LastIndexOf(name, '.')
    case Some(i) => if 0 < i < |name| - 1 then name[..i] else name
    case None => name
  }

  /** A name made of a non-empty base and a non-empty extension without dots
      has the base as its stem. */
  lemma StemOfSuffixed(base: string, ext: string)
    requires |base| > 0 && |ext| > 0
    requires forall k :: 0 <= k < |ext| ==> ext[k] != '.'
    ensures Stem(base + "." + ext) == base
  {
    var name := base + "." + ext;
    assert name[|base|] == '.';
    assert forall k :: |base| < k < |name| ==> name[k] == ext[k - |base| - 1];
    assert LastIndexOf(name, '.') == Some(|base|);
    assert name[..|base|] == base;
  }

  /** The stem of the recorder's output file. */
  lemma StemOfEyeData()
    ensures Stem("eye_data.csv") == "eye_data"
  {
    StemOfSuffixed("eye_data", "csv");
    assert "eye_data" + "." + "csv" == "eye_data.csv";
  }

  /** The output file: beside the input, named after the input's stem with
      `_clean.csv` appended. */
  function OutputPath(fp: Path): (out: Path)
    ensures out.dirs == fp.dirs
    ensures out.name == Stem(fp.name) + "_clean.csv"
  {
    fp.(name := Stem(fp.name) + "_clean.csv")
  }

  /** The cleaned copy of `eye_data.csv` is `eye_data_clean.csv` beside it. */
  lemma OutputPathOfEyeData(dirs: seq<string>)
    ensures OutputPath(Path(dirs, "eye_data.csv")) == Path(dirs, "eye_data_clean.csv")
  {
    StemOfEyeData();
  }

  /** The columns of `cols` the table lacks, in the order of `cols`: those
      for which a warning is printed and nothing is done. */
  function Absent(t: Table, cols: seq<string>): (r: seq<string>)
    ensures forall c :: c in r <==> c in cols && c !in t
    ensures |r| <= |cols|
  {
    if cols == [] then []
    else Absent(t, cols[..|cols| - 1]) + (if cols[|cols| - 1] in t then [] else [cols[|cols| - 1]])
  }

  /** The table after cleaning the columns `cols`: those it has are
      cleaned, every other column is kept, and no column is added or
      removed. */
  function CleanedColumns(t: Table, cols: seq<string>): (r: Table)
    ensures r.Keys == t.Keys
    ensures forall c :: c in t && c in cols ==> r[c] == Cleaned(t[c])
    ensures forall c :: c in t && c !in cols ==> r[c] == t[c]
  {
    map c | c in t :: if c in cols then Cleaned(t[c]) else t[c]
  }

  /** No column changes its number of rows. */
  lemma CleanedColumnsKeepRows(t: Table, cols: seq<string>, c: string)
    requires c in t
    ensures c in CleanedColumns(t, cols) && |CleanedColumns(t, cols)[c]| == |t[c]|
  {
  }

  /** Cleaning one more column the table has. */
  lemma CleanedColumnsStep(t: Table, cols: seq<string>, col: string, cleaned: Series)
    requires col in t && col !in cols && cleaned == Cleaned(t[col])
    ensures CleanedColumns(t, cols)[col := cleaned] == CleanedColumns(t, cols + [col])
  {
  }

  /** Cleaning a column the table lacks changes nothing. */
  lemma CleanedColumnsSkip(t: Table, cols: seq<string>, col: string)
    requires col !in t
    ensures CleanedColumns(t, cols) == CleanedColumns(t, cols + [col])
  {
  }

  /** Cleaning column `k` of `cols` when the table has it and it was not
      among the earlier ones: the earlier result with that one column
      replaced, and no new absent column. */
  lemma CleanedPrefixStep(t: Table, cols: seq<string>, k: int, cleaned: Series)
    requires 0 <= k < |cols| && cols[k] in t && cols[k] !in cols[..k]
    requires cleaned == Cleaned(t[cols[k]])
    ensures CleanedColumns(t, cols[..k])[cols[k] := cleaned] == CleanedColumns(t, cols[..k + 1])
    ensures Absent(t, cols[..k + 1]) == Absent(t, cols[..k])
  {
    assert cols[..k + 1] == cols[..k] + [cols[k]];
    CleanedColumnsStep(t, cols[..k], cols[k], cleaned);
  }

  /** Skipping column `k` of `cols` when the table lacks it: nothing changes
      and the column is reported absent. */
  lemma CleanedPrefixSkip(t: Table, cols: seq<string>, k: int)
    requires 0 <= k < |cols| && cols[k] !in t
    ensures CleanedColumns(t, cols[..k]) == CleanedColumns(t, cols[..k + 1])
    ensures Absent(t, cols[..k + 1]) == Absent(t, cols[..k]) + [cols[k]]
  {
    assert cols[..k + 1] == cols[..k] + [cols[k]];
    CleanedColumnsSkip(t, cols[..k], cols[k]);
  }

  /** Each pupil column is visited once. */
  lemma PupilColumnNotYetSeen(k: int)
    requires 0 <= k < |PupilColumns|
    ensures PupilColumns[k] !in PupilColumns[..k]
  {
    PupilColumnsDistinct();
    if k == 1 {
      assert PupilColumns[..1] == [PupilColumns[0]];
    }
  }

  /** What `clean_eye_file` does with one file. */
  datatype Outcome =
    | SkippedEmpty
    | Written(path: Path, table: Table, missing: seq<string>)

  /** Skips an empty table; otherwise cleans each pupil column in place,
      skipping (and reporting) the absent ones, and names the output file. */
  method CleanEyeFile(fp: Path, df: Table) returns (o: Outcome)
    ensures o.SkippedEmpty? <==> IsEmpty(df)
    ensures o.Written? ==> o.path == OutputPath(fp)
    ensures o.Written? ==> o.table == CleanedColumns(df, PupilColumns)
    ensures o.Written? ==> o.missing == Absent(df, PupilColumns)
  {
    if IsEmpty(df) {
      return SkippedEmpty;
    }
    var t := df;
    var missing: seq<string> := [];
    assert t == CleanedColumns(df, []);
    for k := 0 to |PupilColumns|
      invariant t == CleanedColumns(df, PupilColumns[..k])
      invariant missing == Absent(df, PupilColumns[..k])
    {
      var col := PupilColumns[k];
      if col !in t {
        CleanedPrefixSkip(df, PupilColumns, k);
        missing := missing + [col];
        continue;
      }
      PupilColumnNotYetSeen(k);
      var cleaned := CleanSeries(t[col]);
      CleanedPrefixStep(df, PupilColumns, k, cleaned);
      t := t[col := cleaned];
    }
    assert PupilColumns[..|PupilColumns|] == PupilColumns;
    return Written(OutputPath(fp), t, missing);
  }
}
