/** The hard-coded multi-rule split: every rule of `FILTER_DEFINITIONS` becomes a sheet of
    the rows that match any of its (email, office) pairs, the rows no rule matches go to a
    remainder sheet, and repeated names inside each rule sheet are recorded. */
module FilterMultiBU {
  import opened Wrappers
  import opened Text
  import opened DataFrame
  import opened SheetNames
  import opened Duplicates

  /** One `{"email": ..., "office": ...}` entry; `None` stands for a missing key or a
      `None` value, both of which `or ""` turns into "". */
  datatype Pair = Pair(email: Option<string>, office: Option<string>)

  /** One entry of `FILTER_DEFINITIONS`: the sheet label and its pairs, or `None` when the
      value is not a list or tuple, which the script treats as no pairs at all. */
  datatype Rule = Rule(title: string, pairs: Option<seq<Pair>>)

  /** Everything written after "Original Data": one sheet per rule, the remainder sheet,
      and the recorded duplicate row numbers of each rule sheet that has any. */
  datatype Workbook = Workbook(sheets: seq<Sheet>, remainder: Sheet, duplicates: map<string, seq<nat>>)

  const EmailColumn: string := "Email"
  const OfficeColumn: string := "BU Code"

  /** `NAME_COLUMNS`: the first one present names the column duplicates are detected on. */
  const NameColumns: seq<string> := ["Name"]

  /** `REMAINDER_SHEET_NAME`. */
  const RemainderSheetName: string := "Remaining (Unmatched)"

  /** `FILTER_DEFINITIONS`, in insertion order. */
  const FilterDefinitions: seq<Rule> := [
    Rule("GBI", Some([Pair(Some("gil-bar"), Some("105"))])),
    Rule("McCoy", Some([Pair(Some("mccoy"), Some("662")), Pair(Some("mccoy"), Some("818"))])),
    Rule("APA", Some([Pair(Some("apa-conn"), Some("355"))])),
    Rule("HCNYE", Some([Pair(Some("hcnye"), Some("405"))])),
    Rule("Airtech", Some([Pair(Some("airtech"), Some("691"))])),
    Rule("GBS", Some([Pair(Some("gbs"), Some("815"))])),
    Rule("Ginns", Some([Pair(Some("sjginns"), Some("805"))])),
    Rule("DMG", Some([Pair(Some("dmg"), Some("820"))])),
    Rule("DynamicFan", Some([Pair(Some("dynamic"), Some("210"))])),
    Rule("JB", Some([Pair(Some("jbarrow"), Some(""))])),
    Rule("NSG ", Some([Pair(Some("nevada"), Some(""))])),
    Rule("APAV", Some([Pair(Some("apav"), Some("670"))])),
    Rule("Ambient", Some([Pair(Some("ambient-enterprises"), Some(""))]))
  ]

  /** `if not isinstance(pairs, (list, tuple)): pairs = []`. */
  function PairsOf(rule: Rule): (pairs: seq<Pair>)
    ensures rule.pairs.None? ==> pairs == []
    ensures rule.pairs.Some? ==> pairs == rule.pairs.value
  {
    rule.pairs.GetOr([])
  }

  /** `(pair.get(key) or "").strip()`. */
  function PatternOf(v: Option<string>): (p: string)
    ensures Trimmed(p)
    ensures v.None? ==> p == ""
  {
    StripSpaces(v.GetOr(""))
  }

  /** The pattern is the entered value with exactly its outer whitespace cut off. */
  lemma PatternOfIsStripped(v: Option<string>)
    ensures IsStripped(v.GetOr(""), Whitespace, PatternOf(v))
  {
    StripSpacesIsStripped(v.GetOr(""));
  }

  /** Row `i` matches a pair when its email cell contains the pair's email pattern or its
      office cell contains the pair's office pattern, ignoring case; an empty pattern
      matches nothing, so a pair with both patterns empty matches no row. */
  predicate PairMatches(t: Table, cols: Columns, pair: Pair, i: nat)
    requires i < |t.rows|
  {
    PatternHit(t, i, cols.email, PatternOf(pair.email)) || PatternHit(t, i, cols.office, PatternOf(pair.office))
  }

  /** Pairs whose patterns differ only in ASCII letter case select the same rows. */
  lemma PairMatchesIgnoresCase(t: Table, cols: Columns, a: Pair, b: Pair, i: nat)
    requires i < |t.rows|
    requires SameIgnoringCase(PatternOf(a.email), PatternOf(b.email))
    requires SameIgnoringCase(PatternOf(a.office), PatternOf(b.office))
    ensures PairMatches(t, cols, a, i) == PairMatches(t, cols, b, i)
  {
    PatternHitIgnoresCase(t, i, cols.email, PatternOf(a.email), PatternOf(b.email));
    PatternHitIgnoresCase(t, i, cols.office, PatternOf(a.office), PatternOf(b.office));
  }

  /** Some element of `xs` passes `test`, stated element by element from the last one
      back; `AnyOfIff` gives it as an existential. */
  predicate AnyOf<T>(xs: seq<T>, test: T -> bool)
    decreases |xs|
  {
    xs != [] && (AnyOf(xs[..|xs| - 1], test) || test(xs[|xs| - 1]))
  }

  lemma {:induction false} AnyOfIff<T>(xs: seq<T>, test: T -> bool)
    ensures AnyOf(xs, test) <==> exists q :: 0 <= q < |xs| && test(xs[q])
    decreases |xs|
  {
    if xs != [] {
      var n := |xs| - 1;
      var init := xs[..n];
      AnyOfIff(init, test);
      if AnyOf(init, test) {
        var q :| 0 <= q < n && test(init[q]);
        assert test(xs[q]);
      }
      if exists q :: 0 <= q < |xs| && test(xs[q]) {
        var q :| 0 <= q < |xs| && test(xs[q]);
        if q < n {
          assert test(init[q]);
        }
      }
    }
  }

  /** Extending a prefix by one element adds that element's test. */
  lemma AnyOfStep<T>(xs: seq<T>, test: T -> bool, k: nat)
    requires k < |xs|
    ensures AnyOf(xs[..k + 1], test) == (AnyOf(xs[..k], test) || test(xs[k]))
  {
    var after := xs[..k + 1];
    assert after[..k] == xs[..k] && after[k] == xs[k];
  }

  /** The test of row `i` against one pair. */
  function PairTest(t: Table, cols: Columns, i: nat): Pair -> bool {
    pair => i < |t.rows| && PairMatches(t, cols, pair, i)
  }

  /** Row `i` matches one of `pairs`. */
  predicate AnyPairMatches(t: Table, cols: Columns, pairs: seq<Pair>, i: nat)
    requires i < |t.rows|
  {
    AnyOf(pairs, PairTest(t, cols, i))
  }

  lemma AnyPairMatchesIff(t: Table, cols: Columns, pairs: seq<Pair>, i: nat)
    requires i < |t.rows|
    ensures AnyPairMatches(t, cols, pairs, i) <==> exists q :: 0 <= q < |pairs| && PairMatches(t, cols, pairs[q], i)
  {
    var test := PairTest(t, cols, i);
    AnyOfIff(pairs, test);
    if AnyPairMatches(t, cols, pairs, i) {
      var q :| 0 <= q < |pairs| && test(pairs[q]);
      assert PairMatches(t, cols, pairs[q], i);
    }
    if exists q :: 0 <= q < |pairs| && PairMatches(t, cols, pairs[q], i) {
      var q :| 0 <= q < |pairs| && PairMatches(t, cols, pairs[q], i);
      assert test(pairs[q]);
    }
  }

  /** Row `i` matches a rule when it matches one of the rule's pairs. */
  predicate RuleMatches(t: Table, cols: Columns, rule: Rule, i: nat)
    requires i < |t.rows|
  {
    AnyPairMatches(t, cols, PairsOf(rule), i)
  }

  /** The test of row `i` against one rule. */
  function RuleTest(t: Table, cols: Columns, i: nat): Rule -> bool {
    rule => i < |t.rows| && RuleMatches(t, cols, rule, i)
  }

  /** Row `i` matches one of `rules`. */
  predicate MatchedByAny(t: Table, cols: Columns, rules: seq<Rule>, i: nat)
    requires i < |t.rows|
  {
    AnyOf(rules, RuleTest(t, cols, i))
  }

  lemma MatchedByAnyIff(t: Table, cols: Columns, rules: seq<Rule>, i: nat)
    requires i < |t.rows|
    ensures MatchedByAny(t, cols, rules, i) <==> exists k :: 0 <= k < |rules| && RuleMatches(t, cols, rules[k], i)
  {
    var test := RuleTest(t, cols, i);
    AnyOfIff(rules, test);
    if MatchedByAny(t, cols, rules, i) {
      var k :| 0 <= k < |rules| && test(rules[k]);
      assert RuleMatches(t, cols, rules[k], i);
    }
    if exists k :: 0 <= k < |rules| && RuleMatches(t, cols, rules[k], i) {
      var k :| 0 <= k < |rules| && RuleMatches(t, cols, rules[k], i);
      assert test(rules[k]);
    }
  }

  function RuleMask(t: Table, cols: Columns, rule: Rule): (m: seq<bool>)
    ensures |m| == |t.rows|
    ensures forall i :: 0 <= i < |t.rows| ==> m[i] == RuleMatches(t, cols, rule, i)
  {
    seq(|t.rows|, i requires 0 <= i < |t.rows| => RuleMatches(t, cols, rule, i))
  }

  /** `~global_matched_mask` once every rule has been applied. */
  function UnmatchedMask(t: Table, cols: Columns, rules: seq<Rule>): (m: seq<bool>)
    ensures |m| == |t.rows|
    ensures forall i :: 0 <= i < |t.rows| ==> m[i] == !MatchedByAny(t, cols, rules, i)
  {
    seq(|t.rows|, i requires 0 <= i < |t.rows| => !MatchedByAny(t, cols, rules, i))
  }

  /** `pair_mask`: the email test and the office test of one pair, each applied only
      when its pattern is non-empty. */
  function PairMask(t: Table, cols: Columns, pair: Pair): (m: seq<bool>)
    ensures |m| == |t.rows|
    ensures forall i :: 0 <= i < |t.rows| ==> m[i] == PairMatches(t, cols, pair, i)
  {
    var e, o := PatternOf(pair.email), PatternOf(pair.office);
    var m0 := NoRows(|t.rows|);
    var m1 := if e != [] then OrMask(m0, ContainsMask(t, cols.email, Lower(e))) else m0;
    if o != [] then OrMask(m1, ContainsMask(t, cols.office, Lower(o))) else m1
  }

  /** The `for pair in pairs` loop: `combined_mask` is the union of the pair masks,
      skipping pairs whose two patterns are empty. */
  method CombinedMask(t: Table, cols: Columns, rule: Rule) returns (mask: seq<bool>)
    ensures |mask| == |t.rows|
    ensures forall i :: 0 <= i < |t.rows| ==> mask[i] == RuleMatches(t, cols, rule, i)
  {
    var pairs := PairsOf(rule);
    mask := NoRows(|t.rows|);
    var k := 0;
    while k < |pairs|
      invariant 0 <= k <= |pairs|
      invariant |mask| == |t.rows|
      invariant forall i :: 0 <= i < |t.rows| ==> mask[i] == AnyPairMatches(t, cols, pairs[..k], i)
    {
      var pair := pairs[k];
      var pm := PairMask(t, cols, pair);
      forall i | 0 <= i < |t.rows|
        ensures AnyPairMatches(t, cols, pairs[..k + 1], i) == (mask[i] || pm[i])
      {
        AnyPairMatchesStep(t, cols, pairs, k, i);
      }
      if PatternOf(pair.email) != [] || PatternOf(pair.office) != [] {
        mask := OrMask(mask, pm);
      }
      k := k + 1;
    }
    assert pairs[..k] == pairs;
  }

  lemma AnyPairMatchesStep(t: Table, cols: Columns, pairs: seq<Pair>, k: nat, i: nat)
    requires k < |pairs| && i < |t.rows|
    ensures AnyPairMatches(t, cols, pairs[..k + 1], i) == (AnyPairMatches(t, cols, pairs[..k], i) || PairMatches(t, cols, pairs[k], i))
  {
    AnyOfStep(pairs, PairTest(t, cols, i), k);
  }

  /** `sanitize_sheet_name(raw_sheet_label) or "Filtered"`: the sanitised label, or
      "Filtered" when sanitising leaves nothing. */
  function RuleBaseName(rule: Rule): (base: string)
    ensures base != [] && |base| <= MaxSheetNameLength
    ensures SanitizeAsWritten(Some(rule.title)) != [] ==> base == SanitizeAsWritten(Some(rule.title))
    ensures SanitizeAsWritten(Some(rule.title)) == [] ==> base == "Filtered"
  {
    var s := SanitizeAsWritten(Some(rule.title));
    if s != [] then s else "Filtered"
  }

  function RuleBaseNames(rules: seq<Rule>): (bases: seq<string>)
    ensures |bases| == |rules|
    ensures forall k :: 0 <= k < |rules| ==> bases[k] == RuleBaseName(rules[k])
  {
    seq(|rules|, k requires 0 <= k < |rules| => RuleBaseName(rules[k]))
  }

  /** `sanitize_sheet_name(REMAINDER_SHEET_NAME) or "Remaining"`: the configured name is
      already clean, so it is used as it stands. */
  function RemainderBaseName(): (base: string)
    ensures base == RemainderSheetName
  {
    RemainderSheetNameIsClean();
    var s := SanitizeAsWritten(Some(RemainderSheetName));
    if s != [] then s else "Remaining"
  }

  lemma RemainderSheetNameIsClean()
    ensures SanitizeAsWritten(Some(RemainderSheetName)) == RemainderSheetName
  {
    RemainderWords();
    TwoWordsClean("Remaining", "(Unmatched)");
    SanitizeAsWrittenKeepsCleanName(RemainderSheetName);
  }

  lemma RemainderWords()
    ensures "Remaining" + " " + "(Unmatched)" == RemainderSheetName
    ensures NoSpace("Remaining") && NoSpace("(Unmatched)")
    ensures NoForbidden("Remaining") && NoForbidden("(Unmatched)")
  {
  }

  /** Two words without whitespace or forbidden characters, joined by one space, form a
      clean sheet name when neither outer end is an apostrophe and the whole fits. */
  lemma TwoWordsClean(a: string, b: string)
    requires a != [] && b != [] && NoSpace(a) && NoSpace(b) && NoForbidden(a) && NoForbidden(b)
    requires a[0] != '\'' && b[|b| - 1] != '\'' && |a| + |b| + 1 <= MaxSheetNameLength
    ensures IsCleanSheetName(a + " " + b)
  {
    var words := [a, b];
    JoinWordsNormal(words);
    assert JoinWords(words[1..]) == b;
    assert JoinWords(words) == a + " " + b;
    NoForbiddenJoined(a, b);
  }

  /** Two words without a forbidden character, joined by a space, have none either. */
  lemma NoForbiddenJoined(a: string, b: string)
    requires NoForbidden(a) && NoForbidden(b)
    ensures NoForbidden(a + " " + b)
  {
    var s := a + " " + b;
    forall i | 0 <= i < |s|
      ensures !IsForbidden(s[i])
    {
      if i < |a| {
        assert s[i] == a[i];
      } else if i > |a| {
        assert s[i] == b[i - |a| - 1];
      }
    }
  }

  /** `f_lower_cols.get(candidate.lower())` finds a column whose name is non-empty. */
  predicate NamesColumn(headers: seq<string>, c: string) {
    c != [] && Lower(c) in HeaderKeys(headers)
  }

  /** Candidate `j` names a column and no earlier candidate does. */
  predicate IsFirstNaming(headers: seq<string>, candidates: seq<string>, j: nat)
    requires j < |candidates|
  {
    NamesColumn(headers, candidates[j]) && forall j' :: 0 <= j' < j ==> !NamesColumn(headers, candidates[j'])
  }

  /** The loop over `NAME_COLUMNS` with its `break`: the column of the first candidate
      that names one (the last column with that lower-cased name), or `None` when no
      candidate does. */
  function NameColumn(headers: seq<string>, candidates: seq<string>): (r: Option<nat>)
    ensures r.None? <==> forall j :: 0 <= j < |candidates| ==> !NamesColumn(headers, candidates[j])
    ensures r.Some? ==> exists j :: 0 <= j < |candidates| && IsFirstNaming(headers, candidates, j) &&
                                    IsLastIndex(HeaderKeys(headers), Lower(candidates[j]), r.value)
  {
    if candidates == [] then None
    else
      var c := candidates[0];
      var col := OptionalColumn(headers, Lower(c));
      if c != [] && col.Some? then
        assert IsFirstNaming(headers, candidates, 0);
        col
      else
        var rest := NameColumn(headers, candidates[1..]);
        NameColumnSkip(headers, candidates, rest);
        rest
  }

  /** When the first candidate names no column, the answer for the other candidates is the
      answer for all of them. */
  lemma NameColumnSkip(headers: seq<string>, candidates: seq<string>, r: Option<nat>)
    requires candidates != [] && !NamesColumn(headers, candidates[0])
    requires r.None? <==> forall j :: 0 <= j < |candidates| - 1 ==> !NamesColumn(headers, candidates[1..][j])
    requires r.Some? ==> exists j :: 0 <= j < |candidates| - 1 && IsFirstNaming(headers, candidates[1..], j) &&
                                     IsLastIndex(HeaderKeys(headers), Lower(candidates[1..][j]), r.value)
    ensures r.None? <==> forall j :: 0 <= j < |candidates| ==> !NamesColumn(headers, candidates[j])
    ensures r.Some? ==> exists j :: 0 <= j < |candidates| && IsFirstNaming(headers, candidates, j) &&
                                    IsLastIndex(HeaderKeys(headers), Lower(candidates[j]), r.value)
  {
    var rest := candidates[1..];
    assert forall j :: 0 <= j < |rest| ==> rest[j] == candidates[j + 1];
    if r.Some? {
      var j :| 0 <= j < |rest| && IsFirstNaming(headers, rest, j) && IsLastIndex(HeaderKeys(headers), Lower(rest[j]), r.value);
      assert IsFirstNaming(headers, candidates, j + 1);
    }
  }

  /** The row numbers recorded for a rule sheet holding `rows`: none for an empty sheet or
      when there is no Name column, otherwise, for every row whose key (an empty cell
      keyed as "nan") some other row of the sheet shares, its table index plus 2. */
  function SheetDuplicates(t: Table, nameCol: Option<nat>, rows: seq<nat>): (nums: seq<nat>)
    requires RowsOf(t, rows)
    ensures rows == [] || nameCol.None? ==> nums == []
    ensures forall x :: x in nums <==> (nameCol.Some? &&
      exists p :: 0 <= p < |rows| && IsDuplicateAt(KeysAsWritten(t, nameCol.value, rows), p) && x == rows[p] + 2)
  {
    if rows != [] && nameCol.Some? then DuplicateRowsAsWritten(t, nameCol.value, rows) else []
  }

  /** `duplicates_by_sheet` holds an entry for exactly the sheets with recorded rows. */
  ghost predicate DuplicatesRecorded(t: Table, nameCol: Option<nat>, sheets: seq<Sheet>, dups: map<string, seq<nat>>) {
    && (forall name :: name in dups ==> name in SheetNamesOf(sheets))
    && forall k :: 0 <= k < |sheets| ==> SheetRecorded(t, nameCol, sheets[k], dups)
  }

  /** `duplicates_by_sheet` holds the flagged rows of sheet `s` under its name, or no entry
      for it when none are flagged. */
  ghost predicate SheetRecorded(t: Table, nameCol: Option<nat>, s: Sheet, dups: map<string, seq<nat>>) {
    && RowsOf(t, s.rows)
    && var flagged := SheetDuplicates(t, nameCol, s.rows);
       if flagged != [] then s.name in dups && dups[s.name] == flagged
       else s.name !in dups
  }

  /** Recording rows under another sheet's name leaves what is recorded for `s` alone. */
  lemma SheetRecordedElsewhere(t: Table, nameCol: Option<nat>, s: Sheet, dups: map<string, seq<nat>>, name: string, flagged: seq<nat>)
    requires SheetRecorded(t, nameCol, s, dups) && s.name != name
    ensures SheetRecorded(t, nameCol, s, dups[name := flagged])
  {
  }

  /** The output for resolved columns `cols`: one sheet per rule holding the rows the rule
      matches, named in allocation order; the duplicates recorded for them; and the
      remainder sheet of the rows no rule matches, named after all rule sheets. */
  ghost predicate WorkbookFor(t: Table, cols: Columns, rules: seq<Rule>, w: Workbook) {
    && |w.sheets| == |rules|
    && SheetRows(t, cols, rules, w.sheets)
    && AllocatedInOrder(RuleBaseNames(rules), {OriginalSheetName}, SheetNamesOf(w.sheets))
    && DuplicatesRecorded(t, NameColumn(t.headers, NameColumns), w.sheets, w.duplicates)
    && w.remainder.rows == Select(UnmatchedMask(t, cols, rules))
    && IsAllocatedName(RemainderBaseName(), UsedNames(w.sheets), w.remainder.name)
  }

  lemma MatchedByAnyStep(t: Table, cols: Columns, rules: seq<Rule>, k: nat, i: nat)
    requires k < |rules| && i < |t.rows|
    ensures MatchedByAny(t, cols, rules[..k + 1], i) == (MatchedByAny(t, cols, rules[..k], i) || RuleMatches(t, cols, rules[k], i))
  {
    AnyOfStep(rules, RuleTest(t, cols, i), k);
  }

  /** `global_matched_mask = global_matched_mask | combined_mask` keeps the union of the
      masks of the rules applied so far. */
  lemma GlobalMaskStep(t: Table, cols: Columns, rules: seq<Rule>, k: nat, global: seq<bool>, combined: seq<bool>)
    requires k < |rules| && |global| == |t.rows| && |combined| == |t.rows|
    requires forall i :: 0 <= i < |t.rows| ==> global[i] == MatchedByAny(t, cols, rules[..k], i)
    requires forall i :: 0 <= i < |t.rows| ==> combined[i] == RuleMatches(t, cols, rules[k], i)
    ensures forall i :: 0 <= i < |t.rows| ==> OrMask(global, combined)[i] == MatchedByAny(t, cols, rules[..k + 1], i)
  {
    forall i | 0 <= i < |t.rows|
      ensures OrMask(global, combined)[i] == MatchedByAny(t, cols, rules[..k + 1], i)
    {
      MatchedByAnyStep(t, cols, rules, k, i);
    }
  }

  /** Recording the duplicates of one more sheet, under a name no earlier sheet has. */
  lemma DuplicatesRecordedStep(t: Table, nameCol: Option<nat>, sheets: seq<Sheet>, dups: map<string, seq<nat>>, s: Sheet, flagged: seq<nat>)
    requires DuplicatesRecorded(t, nameCol, sheets, dups)
    requires s.name !in SheetNamesOf(sheets) && RowsOf(t, s.rows)
    requires flagged == SheetDuplicates(t, nameCol, s.rows)
    ensures DuplicatesRecorded(t, nameCol, sheets + [s], if flagged != [] then dups[s.name := flagged] else dups)
  {
    var all := sheets + [s];
    var after := if flagged != [] then dups[s.name := flagged] else dups;
    SheetNamesOfSnoc(sheets, s);
    forall k | 0 <= k < |all|
      ensures SheetRecorded(t, nameCol, all[k], after)
    {
      if k < |sheets| {
        assert all[k] == sheets[k];
        assert SheetNamesOf(sheets)[k] == sheets[k].name;
        if flagged != [] {
          SheetRecordedElsewhere(t, nameCol, sheets[k], dups, s.name, flagged);
        }
      }
    }
  }

  /** `df[combined_mask]` for one rule. */
  function RuleRows(t: Table, cols: Columns): Rule -> seq<nat> {
    rule => Select(RuleMask(t, cols, rule))
  }

  /** Sheet `k` holds the rows rule `k` matches, for every sheet written so far. */
  ghost predicate SheetRows(t: Table, cols: Columns, rules: seq<Rule>, sheets: seq<Sheet>) {
    RowsFollow(sheets, rules, RuleRows(t, cols))
  }

  lemma SheetRowsStep(t: Table, cols: Columns, rules: seq<Rule>, sheets: seq<Sheet>, s: Sheet)
    requires |sheets| < |rules| && SheetRows(t, cols, rules, sheets)
    requires s.rows == Select(RuleMask(t, cols, rules[|sheets|]))
    ensures SheetRows(t, cols, rules, sheets + [s])
  {
    RowsFollowStep(sheets, rules, RuleRows(t, cols), s);
  }

  /** One iteration of `for raw_sheet_label, pairs in FILTER_DEFINITIONS.items()`: the
      rule's mask, its sheet under a fresh name, and the row numbers to record for it. */
  method WriteRuleSheet(t: Table, cols: Columns, nameCol: Option<nat>, rule: Rule, used: set<string>)
    returns (combined: seq<bool>, sheet: Sheet, flagged: seq<nat>)
    ensures |combined| == |t.rows|
    ensures forall i :: 0 <= i < |t.rows| ==> combined[i] == RuleMatches(t, cols, rule, i)
    ensures sheet.rows == Select(RuleMask(t, cols, rule)) && RowsOf(t, sheet.rows)
    ensures IsAllocatedName(RuleBaseName(rule), used, sheet.name)
    ensures flagged == SheetDuplicates(t, nameCol, sheet.rows)
  {
    combined := CombinedMask(t, cols, rule);
    assert combined == RuleMask(t, cols, rule);
    var rows := Select(combined);
    var name := AllocateSheetName(RuleBaseName(rule), used);
    sheet := Sheet(name, rows);
    flagged := SheetDuplicates(t, nameCol, rows);
  }

  /** One pass of the loop over the rules: from the state after the first `k` rules to
      the state after `k + 1`, given what `WriteRuleSheet` produced for rule `k`. */
  lemma RuleLoopStep(t: Table, cols: Columns, rules: seq<Rule>, k: nat,
                     global: seq<bool>, sheets: seq<Sheet>, dups: map<string, seq<nat>>, used: set<string>,
                     combined: seq<bool>, sheet: Sheet, flagged: seq<nat>)
    requires k < |rules| && |sheets| == k && |global| == |t.rows|
    requires forall i :: 0 <= i < |t.rows| ==> global[i] == MatchedByAny(t, cols, rules[..k], i)
    requires used == UsedNames(sheets)
    requires SheetRows(t, cols, rules, sheets)
    requires AllocatedInOrder(RuleBaseNames(rules)[..k], {OriginalSheetName}, SheetNamesOf(sheets))
    requires DuplicatesRecorded(t, NameColumn(t.headers, NameColumns), sheets, dups)
    requires |combined| == |t.rows|
    requires forall i :: 0 <= i < |t.rows| ==> combined[i] == RuleMatches(t, cols, rules[k], i)
    requires sheet.rows == Select(RuleMask(t, cols, rules[k])) && RowsOf(t, sheet.rows)
    requires IsAllocatedName(RuleBaseName(rules[k]), used, sheet.name)
    requires flagged == SheetDuplicates(t, NameColumn(t.headers, NameColumns), sheet.rows)
    ensures |OrMask(global, combined)| == |t.rows|
    ensures forall i :: 0 <= i < |t.rows| ==> OrMask(global, combined)[i] == MatchedByAny(t, cols, rules[..k + 1], i)
    ensures used + {sheet.name} == UsedNames(sheets + [sheet])
    ensures SheetRows(t, cols, rules, sheets + [sheet])
    ensures AllocatedInOrder(RuleBaseNames(rules)[..k + 1], {OriginalSheetName}, SheetNamesOf(sheets + [sheet]))
    ensures DuplicatesRecorded(t, NameColumn(t.headers, NameColumns), sheets + [sheet],
                               if flagged != [] then dups[sheet.name := flagged] else dups)
  {
    GlobalMaskStep(t, cols, rules, k, global, combined);
    SheetRowsStep(t, cols, rules, sheets, sheet);
    RuleLoopNamesStep(t, rules, sheets, dups, used, sheet, flagged);
  }

  /** The names and the recorded duplicates after one more rule sheet. */
  lemma RuleLoopNamesStep(t: Table, rules: seq<Rule>, sheets: seq<Sheet>, dups: map<string, seq<nat>>,
                          used: set<string>, sheet: Sheet, flagged: seq<nat>)
    requires |sheets| < |rules| && used == UsedNames(sheets)
    requires AllocatedInOrder(RuleBaseNames(rules)[..|sheets|], {OriginalSheetName}, SheetNamesOf(sheets))
    requires DuplicatesRecorded(t, NameColumn(t.headers, NameColumns), sheets, dups)
    requires RowsOf(t, sheet.rows)
    requires IsAllocatedName(RuleBaseName(rules[|sheets|]), used, sheet.name)
    requires flagged == SheetDuplicates(t, NameColumn(t.headers, NameColumns), sheet.rows)
    ensures used + {sheet.name} == UsedNames(sheets + [sheet])
    ensures AllocatedInOrder(RuleBaseNames(rules)[..|sheets| + 1], {OriginalSheetName}, SheetNamesOf(sheets + [sheet]))
    ensures DuplicatesRecorded(t, NameColumn(t.headers, NameColumns), sheets + [sheet],
                               if flagged != [] then dups[sheet.name := flagged] else dups)
  {
    SheetNamesStep(RuleBaseNames(rules), sheets, sheet);
    assert sheet.name !in SheetNamesOf(sheets);
    DuplicatesRecordedStep(t, NameColumn(t.headers, NameColumns), sheets, dups, sheet, flagged);
    UsedNamesSnoc(sheets, sheet);
  }

  /** The loop over the rules: every rule sheet, the recorded duplicates, the union of
      the rule masks and the set of names in use afterwards. */
  method WriteRuleSheets(t: Table, cols: Columns, rules: seq<Rule>)
    returns (global: seq<bool>, sheets: seq<Sheet>, dups: map<string, seq<nat>>, used: set<string>)
    ensures |sheets| == |rules| && |global| == |t.rows|
    ensures forall i :: 0 <= i < |t.rows| ==> global[i] == MatchedByAny(t, cols, rules[..|rules|], i)
    ensures used == UsedNames(sheets)
    ensures SheetRows(t, cols, rules, sheets)
    ensures AllocatedInOrder(RuleBaseNames(rules)[..|rules|], {OriginalSheetName}, SheetNamesOf(sheets))
    ensures DuplicatesRecorded(t, NameColumn(t.headers, NameColumns), sheets, dups)
  {
    var nameCol := NameColumn(t.headers, NameColumns);
    used := {OriginalSheetName};
    global := NoRows(|t.rows|);
    sheets := [];
    dups := map[];
    var k := 0;
    assert rules[..0] == [];
    while k < |rules|
      invariant k <= |rules| && |sheets| == k && |global| == |t.rows|
      invariant forall i :: 0 <= i < |t.rows| ==> global[i] == MatchedByAny(t, cols, rules[..k], i)
      invariant used == UsedNames(sheets)
      invariant SheetRows(t, cols, rules, sheets)
      invariant AllocatedInOrder(RuleBaseNames(rules)[..k], {OriginalSheetName}, SheetNamesOf(sheets))
      invariant DuplicatesRecorded(t, nameCol, sheets, dups)
    {
      var combined, sheet, flagged := WriteRuleSheet(t, cols, nameCol, rules[k], used);
      RuleLoopStep(t, cols, rules, k, global, sheets, dups, used, combined, sheet, flagged);
      global := OrMask(global, combined);
      used := used + {sheet.name};
      sheets := sheets + [sheet];
      dups := if flagged != [] then dups[sheet.name := flagged] else dups;
      k := k + 1;
    }
  }

  /** `main` from column validation to the remainder sheet: fail with the missing column
      names, or write one sheet per rule and the remainder. */
  method SplitWorkbook(t: Table, rules: seq<Rule>) returns (r: Result<Workbook, seq<string>>)
    ensures var cols := ResolveColumns(t.headers, EmailColumn, OfficeColumn);
      && (cols.Failure? ==> r == Failure(cols.error))
      && (cols.Success? ==> r.Success? && WorkbookFor(t, cols.value, rules, r.value))
  {
    var resolved := ResolveColumns(t.headers, EmailColumn, OfficeColumn);
    if resolved.Failure? {
      return Failure(resolved.error);
    }
    var cols := resolved.value;
    var global, sheets, dups, used := WriteRuleSheets(t, cols, rules);
    var remainderName := AllocateSheetName(RemainderBaseName(), used);
    var remainder := Sheet(remainderName, Select(NotMask(global)));
    FinishWorkbook(t, cols, rules, global, sheets, dups, used, remainder);
    r := Success(Workbook(sheets, remainder, dups));
  }

  /** After the last rule, the sheets written, the recorded duplicates and a remainder
      sheet of the rows outside `global`, named against the names in use, form the
      workbook. */
  lemma FinishWorkbook(t: Table, cols: Columns, rules: seq<Rule>, global: seq<bool>, sheets: seq<Sheet>,
                       dups: map<string, seq<nat>>, used: set<string>, remainder: Sheet)
    requires |sheets| == |rules| && |global| == |t.rows|
    requires forall i :: 0 <= i < |t.rows| ==> global[i] == MatchedByAny(t, cols, rules[..|rules|], i)
    requires used == UsedNames(sheets)
    requires SheetRows(t, cols, rules, sheets)
    requires AllocatedInOrder(RuleBaseNames(rules)[..|rules|], {OriginalSheetName}, SheetNamesOf(sheets))
    requires DuplicatesRecorded(t, NameColumn(t.headers, NameColumns), sheets, dups)
    requires remainder.rows == Select(NotMask(global))
    requires IsAllocatedName(RemainderBaseName(), used, remainder.name)
    ensures WorkbookFor(t, cols, rules, Workbook(sheets, remainder, dups))
  {
    AllRulesApplied(t, cols, rules, global);
    AllNamesAllocated(RuleBaseNames(rules), SheetNamesOf(sheets));
  }

  lemma AllRulesApplied(t: Table, cols: Columns, rules: seq<Rule>, global: seq<bool>)
    requires |global| == |t.rows|
    requires forall i :: 0 <= i < |t.rows| ==> global[i] == MatchedByAny(t, cols, rules[..|rules|], i)
    ensures NotMask(global) == UnmatchedMask(t, cols, rules)
  {
    assert rules[..|rules|] == rules;
  }

  /** Every row goes either to the remainder sheet or to at least one rule sheet, never
      to both. */
  lemma RemainderIsComplement(t: Table, cols: Columns, rules: seq<Rule>, w: Workbook, i: nat)
    requires |w.sheets| == |rules| && SheetRows(t, cols, rules, w.sheets)
    requires w.remainder.rows == Select(UnmatchedMask(t, cols, rules)) && i < |t.rows|
    ensures i in w.remainder.rows <==> forall k :: 0 <= k < |w.sheets| ==> i !in w.sheets[k].rows
  {
    MatchedByAnyIff(t, cols, rules, i);
    if i !in w.remainder.rows {
      var k :| 0 <= k < |rules| && RuleMatches(t, cols, rules[k], i);
      assert w.sheets[k].rows == Select(RuleMask(t, cols, rules[k]));
    }
  }

  /** The run with the hard-coded rules. */
  method SplitWithFilterDefinitions(t: Table) returns (r: Result<Workbook, seq<string>>)
    ensures var cols := ResolveColumns(t.headers, EmailColumn, OfficeColumn);
      && (cols.Failure? ==> r == Failure(cols.error))
      && (cols.Success? ==> r.Success? && WorkbookFor(t, cols.value, FilterDefinitions, r.value))
  {
    r := SplitWorkbook(t, FilterDefinitions);
  }
}
