/** The single-filter script: one email pattern and one office pattern, entered once, and
    a sheet of the rows whose email or office cell contains its pattern. */
module FilterSingle {
  import opened Wrappers
  import opened Text
  import opened DataFrame
  import opened SheetNames

  const EmailColumn: string := "Primary Email"
  const OfficeColumn: string := "Office"
  const FilteredPrefix: string := "Filtered "

  /** How a run ends once the file has been read. */
  datatype Outcome =
    | MissingColumns(missing: seq<string>)
      // a cancelled dialog returns `None`, and `str.contains(None)` raises
    | Crashed
    | Written(sheetName: string, rows: seq<nat>)

  /** `df[col].astype(str).str.lower().str.contains(pattern)` for row `i`: the pattern is
      used as entered, without lower-casing or stripping. */
  predicate SingleHit(t: Table, i: nat, col: nat, pattern: string)
    requires i < |t.rows|
  {
    Contains(Lower(CellText(CellAt(t, i, col))), pattern)
  }

  /** The mask of the filter: email test or office test. */
  function SingleMask(t: Table, cols: Columns, email: string, office: string): (m: seq<bool>)
    ensures |m| == |t.rows|
    ensures forall i :: 0 <= i < |t.rows| ==> m[i] == (SingleHit(t, i, cols.email, email) || SingleHit(t, i, cols.office, office))
  {
    OrMask(ContainsMask(t, cols.email, email), ContainsMask(t, cols.office, office))
  }

  /** `filtered_df`: the rows whose email cell contains the email answer or whose office
      cell contains the office answer, in their original order. */
  function FilteredRows(t: Table, cols: Columns, email: string, office: string): (rows: seq<nat>)
    ensures forall i: int :: i in rows <==>
      0 <= i < |t.rows| && (SingleHit(t, i, cols.email, email) || SingleHit(t, i, cols.office, office))
    ensures forall a, b :: 0 <= a < b < |rows| ==> rows[a] < rows[b]
  {
    Select(SingleMask(t, cols, email, office))
  }

  /** The script after reading the file: validate the columns, then filter with the two
      answers and write the filtered rows under "Filtered " followed by the office
      answer. */
  function FilterOnce(t: Table, email: Option<string>, office: Option<string>): (r: Outcome)
    ensures var cols := ResolveColumns(t.headers, EmailColumn, OfficeColumn);
      && (cols.Failure? <==> r.MissingColumns?)
      && (cols.Failure? ==> r.missing == cols.error)
      && (cols.Success? && (email.None? || office.None?) <==> r.Crashed?)
      && (r.Written? ==>
            && email.Some? && office.Some? && cols.Success?
            && r.sheetName == FilteredPrefix + office.value
            && r.rows == FilteredRows(t, cols.value, email.value, office.value))
  {
    var resolved := ResolveColumns(t.headers, EmailColumn, OfficeColumn);
    if resolved.Failure? then MissingColumns(resolved.error)
    else if email.None? || office.None? then Crashed
    else Written(FilteredPrefix + office.value, FilteredRows(t, resolved.value, email.value, office.value))
  }

  /** A substring of a text without upper-case letters has none either. */
  lemma {:induction false} ContainsKeepsNoUpper(hay: string, needle: string)
    requires NoUpper(hay) && Contains(hay, needle)
    ensures NoUpper(needle)
    decreases |hay|
  {
    if needle <= hay {
      assert forall i :: 0 <= i < |needle| ==> needle[i] == hay[i];
    } else {
      assert NoUpper(hay[1..]) by {
        assert forall i :: 0 <= i < |hay| - 1 ==> hay[1..][i] == hay[i + 1];
      }
      ContainsKeepsNoUpper(hay[1..], needle);
    }
  }

  lemma LowerHasNoUpper(s: string)
    ensures NoUpper(Lower(s))
  {
    var r := Lower(s);
    assert forall i :: 0 <= i < |r| ==> r[i] == LowerChar(s[i]);
  }

  /** Because the cells are lower-cased and the pattern is not, a pattern with an
      upper-case letter matches no row. */
  lemma UpperCasePatternMatchesNothing(t: Table, i: nat, col: nat, pattern: string)
    requires i < |t.rows| && !NoUpper(pattern)
    ensures !SingleHit(t, i, col, pattern)
  {
    var hay := Lower(CellText(CellAt(t, i, col)));
    LowerHasNoUpper(CellText(CellAt(t, i, col)));
    if Contains(hay, pattern) {
      ContainsKeepsNoUpper(hay, pattern);
    }
  }

  /** An empty answer is contained in every cell, so it keeps every row. */
  lemma EmptyEmailKeepsEveryRow(t: Table, office: string)
    requires FilterOnce(t, Some(""), Some(office)).Written?
    ensures forall i :: 0 <= i < |t.rows| ==> i in FilterOnce(t, Some(""), Some(office)).rows
  {
    var cols := ResolveColumns(t.headers, EmailColumn, OfficeColumn).value;
    forall i | 0 <= i < |t.rows|
      ensures SingleHit(t, i, cols.email, "")
    {
      assert [] <= Lower(CellText(CellAt(t, i, cols.email)));
    }
  }

  /** The filtered sheet's name never clashes with "Original Data". */
  lemma SheetNamesDiffer(office: string)
    ensures FilteredPrefix + office != OriginalSheetName
  {
    assert (FilteredPrefix + office)[0] == 'F' && OriginalSheetName[0] == 'O';
  }
}
