/** Sheet names: `sanitize_sheet_name` and the loop that appends " (2)", " (3)", ... until
    a name is free. */
module SheetNames {
  import opened Wrappers
  import opened Text

  /** Both scripts write the unfiltered table first, under this name. */
  const OriginalSheetName: string := "Original Data"

  /** Excel's limit on the length of a sheet name. */
  const MaxSheetNameLength: nat := 31

  /** The characters `sanitize_sheet_name` replaces: `: \ / ? * [ ]`. */
  predicate IsForbidden(c: char) {
    c == ':' || c == '\\' || c == '/' || c == '?' || c == '*' || c == '[' || c == ']'
  }

  predicate NoForbidden(s: string) {
    forall i :: 0 <= i < |s| ==> !IsForbidden(s[i])
  }

  /** Neither end is an apostrophe. */
  predicate NoOuterApostrophe(s: string) {
    s == [] || (s[0] != '\'' && s[|s| - 1] != '\'')
  }

  /** `re.sub(r'[:\\/?*\[\]]', ' ', name)`. */
  function ReplaceForbidden(s: string): (r: string)
    ensures |r| == |s| && NoForbidden(r)
    ensures forall i :: 0 <= i < |s| ==> r[i] == (if IsForbidden(s[i]) then ' ' else s[i])
  {
    seq(|s|, i requires 0 <= i < |s| => if IsForbidden(s[i]) then ' ' else s[i])
  }

  lemma NoForbiddenFrom(a: string, b: string)
    requires NoForbidden(b)
    requires forall i :: 0 <= i < |a| ==> a[i] == ' ' || a[i] in b
    ensures NoForbidden(a)
  {
  }

  lemma NoForbiddenSlice(s: string, a: nat, b: nat)
    requires a <= b <= |s| && NoForbidden(s)
    ensures NoForbidden(s[a..b])
  {
    assert forall i :: 0 <= i < b - a ==> s[a..b][i] == s[a + i];
  }

  /** `Strip` keeps a contiguous piece of its argument. */
  lemma StripIsSlice(s: string, drop: StripSet) returns (a: nat)
    ensures a + |Strip(s, drop)| <= |s| && Strip(s, drop) == s[a..a + |Strip(s, drop)|]
  {
    var r := Strip(s, drop);
    assert IsStripped(s, drop, r);
    a :| CutAt(s, drop, r, a);
  }

  /** A string that nothing at its ends would strip comes back from `Strip` unchanged. */
  lemma StripUnchanged(s: string, drop: StripSet)
    requires s == [] || (!Drops(drop, s[0]) && !Drops(drop, s[|s| - 1]))
    ensures Strip(s, drop) == s
  {
    assert TrimStart(s, drop) == s;
    TrimEndUnchanged(s, drop);
    StripByTrims(s, drop, s, s);
  }

  /** A piece of a string without forbidden characters and whitespace runs has none either. */
  lemma SliceKeepsClean(s: string, a: nat, b: nat)
    requires a <= b <= |s| && NoForbidden(s) && SingleSpaced(s)
    ensures NoForbidden(s[a..b]) && SingleSpaced(s[a..b])
  {
    NoForbiddenSlice(s, a, b);
    SingleSpacedSlice(s, a, b);
  }

  lemma StripKeepsClean(s: string, drop: StripSet)
    requires NoForbidden(s) && SingleSpaced(s)
    ensures NoForbidden(Strip(s, drop)) && SingleSpaced(Strip(s, drop))
  {
    var a := StripIsSlice(s, drop);
    SliceKeepsClean(s, a, a + |Strip(s, drop)|);
  }

  /** The first three steps: replace forbidden characters, collapse whitespace, strip it. */
  function CleanSpaces(s: string): (r: string)
    ensures NoForbidden(r) && SingleSpaced(r) && Trimmed(r)
  {
    var replaced := ReplaceForbidden(s);
    var collapsed := CollapseSpaces(replaced);
    NoForbiddenFrom(collapsed, replaced);
    StripKeepsClean(collapsed, Whitespace);
    StripSpaces(collapsed)
  }

  /** Collapsing and then stripping whitespace keeps the words of the replaced text, and
      with them its non-whitespace characters in order. */
  lemma CleanSpacesSameWords(s: string)
    ensures SplitWords(CleanSpaces(s)) == SplitWords(ReplaceForbidden(s))
    ensures NonSpace(CleanSpaces(s)) == NonSpace(ReplaceForbidden(s))
  {
    var replaced := ReplaceForbidden(s);
    var r := CleanSpaces(s);
    assert r == StripSpaces(CollapseSpaces(replaced));
    CollapseSpacesSameWords(replaced);
    SplitWordsStrip(CollapseSpaces(replaced));
    SplitWordsNonSpace(r);
    SplitWordsNonSpace(replaced);
  }

  /** The first three steps amount to `" ".join(s.split())` after the replacement. */
  lemma CleanSpacesIsNormalizeSpaces(s: string)
    ensures CleanSpaces(s) == NormalizeSpaces(ReplaceForbidden(s))
  {
    CleanSpacesSameWords(s);
    NormalFormIsUnique(CleanSpaces(s), NormalizeSpaces(ReplaceForbidden(s)));
  }

  /** `name.strip("'")`. */
  function StripApostrophes(s: string): (r: string)
    requires NoForbidden(s) && SingleSpaced(s)
    ensures NoForbidden(r) && SingleSpaced(r) && NoOuterApostrophe(r)
    ensures IsStripped(s, Apostrophes, r)
  {
    StripKeepsClean(s, Apostrophes);
    Strip(s, Apostrophes)
  }

  /** `name[:31]`. */
  function Truncate(s: string): (r: string)
    requires NoForbidden(s) && SingleSpaced(s)
    ensures NoForbidden(r) && SingleSpaced(r) && |r| <= MaxSheetNameLength
    ensures |r| <= |s| && r == s[..|r|] && (|s| <= MaxSheetNameLength ==> r == s)
    ensures |s| > MaxSheetNameLength ==> |r| == MaxSheetNameLength
  {
    var r := if |s| <= MaxSheetNameLength then s else s[..MaxSheetNameLength];
    SliceKeepsClean(s, 0, |r|);
    r
  }

  /** `sanitize_sheet_name` as both scripts write it: replace the forbidden characters by
      spaces, collapse whitespace runs to one space, strip whitespace, strip apostrophes,
      keep the first 31 characters. `None` gives "". */
  function SanitizeAsWritten(name: Option<string>): (r: string)
    ensures name.None? ==> r == ""
    ensures |r| <= MaxSheetNameLength && NoForbidden(r) && SingleSpaced(r)
    ensures r == [] || r[0] != '\''
  {
    var stripped := StripApostrophes(CleanSpaces(name.GetOr("")));
    if stripped != [] then Truncate(stripped) else []
  }

  /** `sanitize_sheet_name` as its own description intends it: the same steps, with the
      apostrophes stripped again after truncation, so that no end is an apostrophe. */
  function SanitizeSheetName(name: Option<string>): (r: string)
    ensures name.None? ==> r == ""
    ensures |r| <= MaxSheetNameLength && NoForbidden(r) && SingleSpaced(r)
    ensures NoOuterApostrophe(r)
  {
    var s := SanitizeAsWritten(name);
    var r := TrimEnd(s, Apostrophes);
    SliceKeepsClean(s, 0, |r|);
    r
  }

  /** A name with no forbidden character, no whitespace and no apostrophe at either end
      passes through the written sanitiser cut to its first 31 characters. */
  lemma {:induction false} SanitizeAsWrittenOfPlainName(s: string)
    requires s != [] && NoForbidden(s) && NoSpace(s) && NoOuterApostrophe(s)
    ensures SanitizeAsWritten(Some(s)) == Truncate(s)
  {
    assert ReplaceForbidden(s) == s;
    CollapseSpacesKeepsSingleSpaced(s);
    StripUnchanged(s, Whitespace);
    assert CleanSpaces(s) == s;
    StripUnchanged(s, Apostrophes);
  }

  /** The written sanitiser truncates after stripping apostrophes, so a plain name whose
      31st character is an apostrophe comes out ending in one, which its own description
      rules out; the corrected sanitiser does not. */
  lemma TruncationCanLeaveTrailingApostrophe(s: string)
    requires |s| > MaxSheetNameLength && s[MaxSheetNameLength - 1] == '\''
    requires NoForbidden(s) && NoSpace(s) && NoOuterApostrophe(s)
    ensures !NoOuterApostrophe(SanitizeAsWritten(Some(s)))
    ensures NoOuterApostrophe(SanitizeSheetName(Some(s)))
  {
    SanitizeAsWrittenOfPlainName(s);
    assert Truncate(s) == s[..MaxSheetNameLength];
  }

  /** Thirty 'a's, an apostrophe and a 'b': 32 characters, no apostrophe at either end. */
  const LongNameWithApostrophe: string := seq(30, _ => 'a') + "'b"

  lemma TruncationLeavesTrailingApostrophe()
    ensures !NoOuterApostrophe(SanitizeAsWritten(Some(LongNameWithApostrophe)))
    ensures NoOuterApostrophe(SanitizeSheetName(Some(LongNameWithApostrophe)))
  {
    var s := LongNameWithApostrophe;
    assert forall i :: 0 <= i < 30 ==> s[i] == 'a';
    assert s[30] == '\'' && s[31] == 'b';
    TruncationCanLeaveTrailingApostrophe(s);
  }

  /** A clean name: at most 31 characters, no forbidden character, no outer whitespace or
      apostrophe, and single plain spaces. Such a name is a fixed point of the sanitiser. */
  ghost predicate IsCleanSheetName(s: string) {
    |s| <= MaxSheetNameLength && NoForbidden(s) && SingleSpaced(s) && Trimmed(s) && NoOuterApostrophe(s)
  }

  lemma CleanSpacesKeepsCleanName(s: string)
    requires NoForbidden(s) && SingleSpaced(s) && Trimmed(s)
    ensures CleanSpaces(s) == s
  {
    assert ReplaceForbidden(s) == s;
    CollapseSpacesKeepsSingleSpaced(s);
    StripUnchanged(s, Whitespace);
  }

  lemma SanitizeAsWrittenKeepsCleanName(s: string)
    requires IsCleanSheetName(s)
    ensures SanitizeAsWritten(Some(s)) == s
  {
    CleanSpacesKeepsCleanName(s);
    StripUnchanged(s, Apostrophes);
  }

  lemma SanitizeKeepsCleanName(s: string)
    requires IsCleanSheetName(s)
    ensures SanitizeSheetName(Some(s)) == s
  {
    SanitizeAsWrittenKeepsCleanName(s);
    TrimEndUnchanged(s, Apostrophes);
  }

  /** The sanitiser is not idempotent: stripping apostrophes after stripping whitespace
      can uncover whitespace at the ends, which a second pass then strips. */
  lemma SanitizeIsNotIdempotent()
    ensures SanitizeAsWritten(Some("' a '")) == " a "
    ensures SanitizeAsWritten(Some(" a ")) == "a"
    ensures SanitizeSheetName(Some("' a '")) == " a "
    ensures SanitizeSheetName(Some(" a ")) == "a"
  {
    QuotedSpacedName();
    SpacedName();
    TrimEndUnchanged(" a ", Apostrophes);
    TrimEndUnchanged("a", Apostrophes);
  }

  lemma QuotedSpacedName()
    ensures SanitizeAsWritten(Some("' a '")) == " a "
  {
    QuotedSpacedNameIsClean();
    QuotedSpacedNameStrip();
  }

  lemma QuotedSpacedNameIsClean()
    ensures CleanSpaces("' a '") == "' a '"
  {
    var s := "' a '";
    assert NoForbidden(s) && SingleSpaced(s) && Trimmed(s);
    CleanSpacesKeepsCleanName(s);
  }

  lemma QuotedSpacedNameStrip()
    ensures Strip("' a '", Apostrophes) == " a "
  {
    var s, t, r := "' a '", " a '", " a ";
    assert TrimStart(s, Apostrophes) == t;
    assert TrimEnd(t, Apostrophes) == r;
    StripByTrims(s, Apostrophes, t, r);
  }

  lemma SpacedName()
    ensures SanitizeAsWritten(Some(" a ")) == "a"
  {
    var c := CleanSpaces(" a ");
    assert c == "a" by {
      SpacedNameCollapse();
      SpacedNameStrip();
    }
    assert StripApostrophes(c) == "a" by {
      StripUnchanged(c, Apostrophes);
    }
  }

  lemma SpacedNameCollapse()
    ensures CollapseSpaces(ReplaceForbidden(" a ")) == " a "
  {
    var s := " a ";
    assert ReplaceForbidden(s) == s;
    assert SingleSpaced(s);
    CollapseSpacesKeepsSingleSpaced(s);
  }

  lemma SpacedNameStrip()
    ensures StripSpaces(" a ") == "a"
  {
    var s, t, r := " a ", "a ", "a";
    assert TrimStart(s, Whitespace) == t;
    assert TrimEnd(t, Whitespace) == r;
    StripByTrims(s, Whitespace, t, r);
  }

  lemma TrimEndUnchanged(s: string, drop: StripSet)
    requires s == [] || !Drops(drop, s[|s| - 1])
    ensures TrimEnd(s, drop) == s
  {
  }

  /** `f"{base_name} ({suffix})"`: the base, then a space and the suffix in parentheses. */
  function Suffixed(base: string, k: nat): (r: string)
    ensures |r| >= |base| + 4 && r[..|base|] == base && r[|base|..|base| + 2] == " ("
    ensures r[|r| - 1] == ')' && r != base
  {
    base + " (" + Decimal(k) + ")"
  }

  /** Between " (" and ")" stand the decimal digits of `k`, which read back as `k`. */
  lemma SuffixedReadsBack(base: string, k: nat)
    ensures var r := Suffixed(base, k);
      && (forall i :: |base| + 2 <= i < |r| - 1 ==> '0' <= r[i] <= '9')
      && DigitsValue(r[|base| + 2..|r| - 1]) == k
  {
    var r := Suffixed(base, k);
    DecimalReadsBack(k);
    assert r[|base| + 2..|r| - 1] == Decimal(k);
  }

  /** The second "GBI" sheet is named "GBI (2)". */
  lemma SuffixedExample()
    ensures Suffixed("GBI", 2) == "GBI (2)"
  {
  }

  lemma SuffixedInjective(base: string, j: nat, k: nat)
    requires Suffixed(base, j) == Suffixed(base, k)
    ensures j == k
  {
    var sj, sk := Suffixed(base, j), Suffixed(base, k);
    assert |Decimal(j)| == |Decimal(k)|;
    assert Decimal(j) == sj[|base| + 2..|sj| - 1];
    assert Decimal(k) == sk[|base| + 2..|sk| - 1];
    DecimalInjective(j, k);
  }

  /** What the allocation loop must produce: a non-empty name not yet in `used`; `base`
      itself when that is free, otherwise `base` with the least suffix k >= 2 that is free. */
  ghost predicate IsAllocatedName(base: string, used: set<string>, name: string) {
    && name != [] && name !in used
    && if base != [] && base !in used then name == base
       else exists k: nat :: k >= 2 && name == Suffixed(base, k) &&
              forall j: nat :: 2 <= j < k ==> Suffixed(base, j) in used
  }

  /** The allocation is determined by `base` and `used`. */
  lemma AllocatedNameUnique(base: string, used: set<string>, n1: string, n2: string)
    requires IsAllocatedName(base, used, n1) && IsAllocatedName(base, used, n2)
    ensures n1 == n2
  {
    if base == [] || base in used {
      var k1: nat :| k1 >= 2 && n1 == Suffixed(base, k1) && forall j: nat :: 2 <= j < k1 ==> Suffixed(base, j) in used;
      var k2: nat :| k2 >= 2 && n2 == Suffixed(base, k2) && forall j: nat :: 2 <= j < k2 ==> Suffixed(base, j) in used;
      assert k1 < k2 ==> Suffixed(base, k1) in used;
      assert k2 < k1 ==> Suffixed(base, k2) in used;
    }
  }

  lemma SubsetCardinality(a: set<string>, b: set<string>)
    requires a <= b
    ensures |a| <= |b|
  {
    assert b == a + (b - a);
  }

  /** A candidate the loop has not produced before is not among the names it rejected. */
  lemma FreshCandidate(base: string, k: nat, tried: set<string>)
    requires k >= 2
    requires forall x :: x in tried ==> x == base || exists j: nat :: 2 <= j < k && x == Suffixed(base, j)
    ensures Suffixed(base, k) !in tried
  {
    if Suffixed(base, k) in tried {
      assert |Suffixed(base, k)| > |base|;
      var j: nat :| 2 <= j < k && Suffixed(base, k) == Suffixed(base, j);
      SuffixedInjective(base, j, k);
    }
  }

  /** The state of the allocation loop before it tries suffix `suffix`: `name` is the
      current candidate, every earlier candidate was taken, and `tried` holds the rejected
      candidates. */
  ghost predicate AllocationState(base: string, used: set<string>, suffix: nat, name: string, tried: set<string>) {
    && suffix >= 2
    && name == (if suffix == 2 then base else Suffixed(base, suffix - 1))
    && (suffix > 2 ==> base == [] || base in used)
    && (forall j: nat :: 2 <= j < suffix - 1 ==> Suffixed(base, j) in used)
    && tried <= used + {[]}
    && (suffix == 2 ==> tried == {})
    && (forall x :: x in tried ==> x == base || exists j: nat :: 2 <= j < suffix - 1 && x == Suffixed(base, j))
  }

  /** Rejecting the current candidate moves the loop to the next suffix and grows `tried`,
      which never leaves `used + {""}`. */
  lemma AllocationStep(base: string, used: set<string>, suffix: nat, name: string, tried: set<string>)
    requires AllocationState(base, used, suffix, name, tried)
    requires name == [] || name in used
    ensures AllocationState(base, used, suffix + 1, Suffixed(base, suffix), tried + {name})
    ensures |tried| < |tried + {name}| <= |used + {[]}|
  {
    if suffix > 2 {
      FreshCandidate(base, suffix - 1, tried);
    }
    SubsetCardinality(tried + {name}, used + {[]});
  }

  /** The `while not sheet_name or sheet_name in used_sheet_names` loop. */
  method AllocateSheetName(base: string, used: set<string>) returns (name: string)
    ensures IsAllocatedName(base, used, name)
  {
    name := base;
    var suffix: nat := 2;
    ghost var tried: set<string> := {};
    while name == [] || name in used
      invariant AllocationState(base, used, suffix, name, tried)
      decreases |used + {[]}| - |tried|
    {
      AllocationStep(base, used, suffix, name, tried);
      tried := tried + {name};
      name := Suffixed(base, suffix);
      suffix := suffix + 1;
    }
    assert suffix > 2 ==> name == Suffixed(base, suffix - 1);
  }

  /** The distinct elements of a sequence of names. */
  function Elems(names: seq<string>): (s: set<string>)
    ensures forall x :: x in s <==> x in names
  {
    set x | x in names
  }

  lemma ElemsSnoc(names: seq<string>, name: string)
    ensures Elems(names + [name]) == Elems(names) + {name}
  {
    assert forall x :: x in names + [name] <==> x in names || x == name;
  }

  /** Each name was allocated from its base against the reserved names and all earlier names. */
  ghost predicate AllocatedInOrder(bases: seq<string>, reserved: set<string>, names: seq<string>) {
    && |names| == |bases|
    && forall k :: 0 <= k < |names| ==> IsAllocatedName(bases[k], reserved + Elems(names[..k]), names[k])
  }

  /** Allocating one more name against everything allocated so far extends the order. */
  lemma AllocatedInOrderStep(bases: seq<string>, reserved: set<string>, names: seq<string>, base: string, name: string)
    requires AllocatedInOrder(bases, reserved, names)
    requires IsAllocatedName(base, reserved + Elems(names), name)
    ensures AllocatedInOrder(bases + [base], reserved, names + [name])
  {
    var bs, ns := bases + [base], names + [name];
    forall k | 0 <= k < |ns|
      ensures IsAllocatedName(bs[k], reserved + Elems(ns[..k]), ns[k])
    {
      if k < |names| {
        assert bs[k] == bases[k] && ns[k] == names[k] && ns[..k] == names[..k];
      } else {
        assert ns[..k] == names;
      }
    }
  }

  /** Names allocated in order are non-empty, pairwise distinct and avoid the reserved ones. */
  lemma AllocatedNamesDistinct(bases: seq<string>, reserved: set<string>, names: seq<string>)
    requires AllocatedInOrder(bases, reserved, names)
    ensures forall k :: 0 <= k < |names| ==> names[k] != [] && names[k] !in reserved
    ensures forall a, b :: 0 <= a < b < |names| ==> names[a] != names[b]
  {
    forall a, b | 0 <= a < b < |names|
      ensures names[a] != names[b]
    {
      assert names[a] in names[..b];
      assert IsAllocatedName(bases[b], reserved + Elems(names[..b]), names[b]);
    }
  }

  /** A written sheet: its name and the indices of the table rows it holds, in order. */
  datatype Sheet = Sheet(name: string, rows: seq<nat>)

  /** The names of `sheets`, in writing order. */
  function SheetNamesOf(sheets: seq<Sheet>): (names: seq<string>)
    ensures |names| == |sheets|
    ensures forall k :: 0 <= k < |sheets| ==> names[k] == sheets[k].name
  {
    seq(|sheets|, k requires 0 <= k < |sheets| => sheets[k].name)
  }

  /** `used_sheet_names` once `sheets` have been written after "Original Data". */
  function UsedNames(sheets: seq<Sheet>): set<string> {
    {OriginalSheetName} + Elems(SheetNamesOf(sheets))
  }

  lemma UsedNamesSnoc(sheets: seq<Sheet>, s: Sheet)
    ensures UsedNames(sheets + [s]) == UsedNames(sheets) + {s.name}
  {
    SheetNamesOfSnoc(sheets, s);
    ElemsSnoc(SheetNamesOf(sheets), s.name);
  }

  lemma SheetNamesOfSnoc(sheets: seq<Sheet>, s: Sheet)
    ensures SheetNamesOf(sheets + [s]) == SheetNamesOf(sheets) + [s.name]
  {
    var all := sheets + [s];
    assert forall q :: 0 <= q < |sheets| ==> all[q] == sheets[q];
  }

  /** Naming one more sheet against the names in use extends the allocation order. */
  lemma SheetNamesStep(bases: seq<string>, sheets: seq<Sheet>, s: Sheet)
    requires |sheets| < |bases|
    requires AllocatedInOrder(bases[..|sheets|], {OriginalSheetName}, SheetNamesOf(sheets))
    requires IsAllocatedName(bases[|sheets|], UsedNames(sheets), s.name)
    ensures AllocatedInOrder(bases[..|sheets| + 1], {OriginalSheetName}, SheetNamesOf(sheets + [s]))
  {
    var k := |sheets|;
    assert bases[..k + 1] == bases[..k] + [bases[k]];
    SheetNamesOfSnoc(sheets, s);
    AllocatedInOrderStep(bases[..k], {OriginalSheetName}, SheetNamesOf(sheets), bases[k], s.name);
  }

  /** Sheets named in allocation order have pairwise distinct, non-empty names that
      differ from "Original Data". */
  lemma SheetNamesDistinct(bases: seq<string>, sheets: seq<Sheet>)
    requires AllocatedInOrder(bases, {OriginalSheetName}, SheetNamesOf(sheets))
    ensures forall k :: 0 <= k < |sheets| ==> sheets[k].name != [] && sheets[k].name != OriginalSheetName
    ensures forall a, b :: 0 <= a < b < |sheets| ==> sheets[a].name != sheets[b].name
  {
    AllocatedNamesDistinct(bases, {OriginalSheetName}, SheetNamesOf(sheets));
  }

  /** A name allocated after `sheets`, such as the remainder's, differs from
      "Original Data" and from every name in `sheets`. */
  lemma UnusedNameIsNew(sheets: seq<Sheet>, name: string)
    requires name !in UsedNames(sheets)
    ensures name != OriginalSheetName
    ensures forall k :: 0 <= k < |sheets| ==> name != sheets[k].name
  {
    var names := SheetNamesOf(sheets);
    forall k | 0 <= k < |sheets|
      ensures name != sheets[k].name
    {
      assert names[k] in names;
    }
  }

  /** The allocation order over all of `bases`. */
  lemma AllNamesAllocated(bases: seq<string>, names: seq<string>)
    requires AllocatedInOrder(bases[..|bases|], {OriginalSheetName}, names)
    ensures AllocatedInOrder(bases, {OriginalSheetName}, names)
  {
    assert bases[..|bases|] == bases;
  }

  /** Sheet `k` holds `rowsOf(items[k])`, for every sheet written so far. */
  ghost predicate RowsFollow<T>(sheets: seq<Sheet>, items: seq<T>, rowsOf: T -> seq<nat>) {
    && |sheets| <= |items|
    && forall k :: 0 <= k < |sheets| ==> sheets[k].rows == rowsOf(items[k])
  }

  lemma RowsFollowStep<T>(sheets: seq<Sheet>, items: seq<T>, rowsOf: T -> seq<nat>, s: Sheet)
    requires |sheets| < |items| && RowsFollow(sheets, items, rowsOf)
    requires s.rows == rowsOf(items[|sheets|])
    ensures RowsFollow(sheets + [s], items, rowsOf)
  {
    var all := sheets + [s];
    assert forall q :: 0 <= q < |sheets| ==> all[q] == sheets[q];
  }
}
