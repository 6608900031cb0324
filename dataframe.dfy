/** The table the scripts read, the case-insensitive column lookup they share and the
    boolean-mask operations they apply to it. */
module DataFrame {
  import opened Wrappers
  import opened Text

  /** One cell as read: `None` for an empty cell, otherwise its text. */
  type Cell = Option<string>

  /** A sheet as read: the header row and the data rows; data row `i` has index `i`. */
  datatype Table = Table(headers: seq<string>, rows: seq<seq<Cell>>)

  /** `astype(str)` on one cell: an empty cell (NaN) reads as "nan". */
  function CellText(c: Cell): (text: string)
    ensures c.None? ==> text == "nan"
    ensures c.Some? ==> text == c.value
  {
    c.GetOr("nan")
  }

  /** The cell of row `i` in column `j`; a row shorter than the header row is empty there. */
  function CellAt(t: Table, i: nat, j: nat): Cell
    requires i < |t.rows|
  {
    if j < |t.rows[i]| then t.rows[i][j] else None
  }

  /** `df.columns.str.strip()`. */
  function StripHeaders(headers: seq<string>): (r: seq<string>)
    ensures |r| == |headers|
    ensures forall j :: 0 <= j < |headers| ==> r[j] == StripSpaces(headers[j])
  {
    seq(|headers|, j requires 0 <= j < |headers| => StripSpaces(headers[j]))
  }

  /** The names the headers are looked up by: `col.lower()` of each stripped header. */
  function HeaderKeys(headers: seq<string>): (keys: seq<string>)
    ensures |keys| == |headers|
    ensures forall j :: 0 <= j < |headers| ==> keys[j] == Lower(StripSpaces(headers[j]))
  {
    seq(|headers|, j requires 0 <= j < |headers| => Lower(StripSpaces(headers[j])))
  }

  /** Position `j` holds `key` and no later position does. */
  predicate IsLastIndex(keys: seq<string>, key: string, j: nat) {
    && j < |keys|
    && keys[j] == key
    && forall j' :: j < j' < |keys| ==> keys[j'] != key
  }

  /** `{col.lower(): col for col in df.columns}`, each column given by its position:
      a later header overwrites an earlier one with the same lower-case name. */
  function LowerCols(keys: seq<string>): (m: map<string, nat>)
    ensures forall key :: key in m <==> key in keys
    ensures forall key :: key in m ==> IsLastIndex(keys, key, m[key])
  {
    if keys == [] then map[]
    else
      var init := keys[..|keys| - 1];
      assert keys == init + [keys[|keys| - 1]];
      LowerCols(init)[keys[|keys| - 1] := |keys| - 1]
  }

  /** The positions of the two required columns. */
  datatype Columns = Columns(email: nat, office: nat)

  /** Column resolution: strip the headers, map them by lower-case name, and fail with the
      lower-case names of the missing required columns, in order, before anything else
      happens. */
  function ResolveColumns(headers: seq<string>, emailName: string, officeName: string)
    : (r: Result<Columns, seq<string>>)
    ensures r.Failure? <==> Lower(emailName) !in HeaderKeys(headers) || Lower(officeName) !in HeaderKeys(headers)
    ensures r.Failure? ==>
      r.error == (if Lower(emailName) in HeaderKeys(headers) then [] else [Lower(emailName)]) +
                 (if Lower(officeName) in HeaderKeys(headers) then [] else [Lower(officeName)])
    ensures r.Success? ==> IsLastIndex(HeaderKeys(headers), Lower(emailName), r.value.email)
    ensures r.Success? ==> IsLastIndex(HeaderKeys(headers), Lower(officeName), r.value.office)
  {
    var keys := HeaderKeys(headers);
    var lowerCols := LowerCols(keys);
    var e, o := Lower(emailName), Lower(officeName);
    // [col for col in [e, o] if col not in lower_cols]
    var missing := (if e in lowerCols then [] else [e]) + (if o in lowerCols then [] else [o]);
    if missing != [] then Failure(missing)
    else Success(Columns(lowerCols[e], lowerCols[o]))
  }

  /** `lower_cols.get(key)`: the optional column answering to `key`. */
  function OptionalColumn(headers: seq<string>, key: string): (r: Option<nat>)
    ensures r.None? <==> key !in HeaderKeys(headers)
    ensures r.Some? ==> IsLastIndex(HeaderKeys(headers), key, r.value)
  {
    var lowerCols := LowerCols(HeaderKeys(headers));
    if key in lowerCols then Some(lowerCols[key]) else None
  }

  /** `df[col].astype(str).str.lower().str.contains(pattern)`: one flag per row. */
  function ContainsMask(t: Table, col: nat, pattern: string): (m: seq<bool>)
    ensures |m| == |t.rows|
    ensures forall i :: 0 <= i < |t.rows| ==> m[i] == Contains(Lower(CellText(CellAt(t, i, col))), pattern)
  {
    seq(|t.rows|, i requires 0 <= i < |t.rows| => Contains(Lower(CellText(CellAt(t, i, col))), pattern))
  }

  /** The test `if pattern: ... df[col].astype(str).str.lower().str.contains(pattern.lower())`
      applies to row `i`: an empty pattern matches nothing, any other matches when its
      lower-case form occurs in the lower-case cell text. */
  predicate PatternHit(t: Table, i: nat, col: nat, pattern: string)
    requires i < |t.rows|
  {
    pattern != [] && Contains(Lower(CellText(CellAt(t, i, col))), Lower(pattern))
  }

  /** Patterns that differ only in letter case hit the same rows. */
  lemma PatternHitIgnoresCase(t: Table, i: nat, col: nat, p: string, q: string)
    requires i < |t.rows| && SameIgnoringCase(p, q)
    ensures PatternHit(t, i, col, p) == PatternHit(t, i, col, q)
  {
    LowerIgnoresCase(p, q);
  }

  /** `a | b` on two masks of one table. */
  function OrMask(a: seq<bool>, b: seq<bool>): (m: seq<bool>)
    requires |a| == |b|
    ensures |m| == |a| && forall i :: 0 <= i < |a| ==> m[i] == (a[i] || b[i])
  {
    seq(|a|, i requires 0 <= i < |a| => a[i] || b[i])
  }

  /** `~a`. */
  function NotMask(a: seq<bool>): (m: seq<bool>)
    ensures |m| == |a| && forall i :: 0 <= i < |a| ==> m[i] == !a[i]
  {
    seq(|a|, i requires 0 <= i < |a| => !a[i])
  }

  /** `pd.Series(False, index=df.index)`. */
  function NoRows(n: nat): (m: seq<bool>)
    ensures |m| == n && forall i :: 0 <= i < n ==> !m[i]
  {
    seq(n, i => false)
  }

  /** `df[mask]`: the indices of the rows the mask keeps, as a subsequence of the
      table's rows in their original order. */
  function Select(mask: seq<bool>): (idx: seq<nat>)
    ensures forall k: int :: k in idx <==> 0 <= k < |mask| && mask[k]
    ensures forall a :: 0 <= a < |idx| ==> idx[a] < |mask|
    ensures forall a, b :: 0 <= a < b < |idx| ==> idx[a] < idx[b]
  {
    if mask == [] then []
    else
      var n := |mask| - 1;
      var init := Select(mask[..n]);
      assert forall a :: 0 <= a < |init| ==> init[a] in init && init[a] < n;
      init + (if mask[n] then [n] else [])
  }
}
