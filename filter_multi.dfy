/** The interactive multi-filter split: the user enters (email, office) filters one after
    another, and every filter becomes a sheet of the rows that match it. */
module FilterMulti {
  import opened Wrappers
  import opened Text
  import opened DataFrame
  import opened SheetNames

  const EmailColumn: string := "Primary Email"
  const OfficeColumn: string := "Office"

  /** The answer to one `askstring` dialog: cancelled, or the text entered. */
  datatype Reply = Cancel | Entered(text: string)

  /** One pass of the `while True` loop as the user answers it: the email dialog, the
      office dialog (not shown when the email dialog was cancelled) and the "Add another
      filter?" question (only asked after a filter has been added). */
  datatype Round = Round(email: Reply, office: Reply, another: bool)

  /** One entered filter: both patterns stripped. */
  datatype Filter = Filter(email: string, office: string)

  /** What the loop accepts: stripped patterns, not both empty. */
  predicate ValidFilter(f: Filter) {
    Trimmed(f.email) && Trimmed(f.office) && (f.email != [] || f.office != [])
  }

  predicate ValidFilters(fs: seq<Filter>) {
    forall k :: 0 <= k < |fs| ==> ValidFilter(fs[k])
  }

  lemma ValidFiltersSnoc(acc: seq<Filter>, f: Filter)
    requires ValidFilter(f)
    ensures ValidFilters(acc) ==> ValidFilters(acc + [f])
  {
    var all := acc + [f];
    assert forall k :: 0 <= k < |acc| ==> all[k] == acc[k];
  }

  /** Leaving the loop by cancelling: the run ends when nothing was entered yet,
      otherwise it goes on with the filters collected. */
  function Finish(acc: seq<Filter>): (r: Option<seq<Filter>>)
    ensures r.None? <==> acc == []
    ensures r.Some? ==> r.value == acc
  {
    if acc == [] then None else Some(acc)
  }

  /** The filters the dialogs produce from `rounds`, once `acc` has been collected.
      Running out of rounds is taken as a cancel. */
  function Collect(rounds: seq<Round>, acc: seq<Filter>): (r: Option<seq<Filter>>)
    ensures r.None? ==> acc == []
    ensures r.Some? ==> r.value != [] && acc <= r.value && |r.value| <= |acc| + |rounds|
    ensures r.Some? && ValidFilters(acc) ==> ValidFilters(r.value)
    decreases |rounds|
  {
    if rounds == [] then Finish(acc)
    else
      var round := rounds[0];
      if round.email.Cancel? || round.office.Cancel? then Finish(acc)
      else
        var e, o := StripSpaces(round.email.text), StripSpaces(round.office.text);
        if e == [] && o == [] then Collect(rounds[1..], acc)
        else
          var acc' := acc + [Filter(e, o)];
          assert acc <= acc' && acc'[|acc|] == Filter(e, o);
          assert ValidFilter(Filter(e, o));
          ValidFiltersSnoc(acc, Filter(e, o));
          if !round.another then Some(acc') else Collect(rounds[1..], acc')
  }

  /** The round cancels one of its two dialogs. */
  predicate Cancels(round: Round) {
    round.email.Cancel? || round.office.Cancel?
  }

  /** What a round adds to the filters: nothing when it cancels or when both stripped
      patterns are empty, otherwise the filter of the stripped patterns. */
  function Entry(round: Round): seq<Filter> {
    if Cancels(round) then []
    else
      var e, o := StripSpaces(round.email.text), StripSpaces(round.office.text);
      if e == [] && o == [] then [] else [Filter(e, o)]
  }

  /** The loop ends at this round: a dialog is cancelled, or a filter is added and the
      answer to "Add another filter?" is no. */
  predicate Stops(round: Round) {
    Cancels(round) || (Entry(round) != [] && !round.another)
  }

  /** The entries of `rounds`, in order. */
  function Entries(rounds: seq<Round>): seq<Filter>
    decreases |rounds|
  {
    if rounds == [] then [] else Entry(rounds[0]) + Entries(rounds[1..])
  }

  /** The first round at which the loop ends, or `|rounds|` when none does
      (`FirstStopIsFirst`). */
  function FirstStop(rounds: seq<Round>): (m: nat)
    ensures m <= |rounds|
  {
    FirstWhere(rounds, Stops)
  }

  /** The first index of `s` whose element satisfies `p`, or `|s|` when none does. */
  function FirstWhere<T>(s: seq<T>, p: T -> bool): (m: nat)
    ensures m <= |s|
    decreases |s|
  {
    if s == [] || p(s[0]) then 0 else 1 + FirstWhere(s[1..], p)
  }

  /** No round before `FirstStop` stops the loop, and the round at `FirstStop`, if any,
      does. */
  lemma FirstStopIsFirst(rounds: seq<Round>)
    ensures var m := FirstStop(rounds);
      && (forall j :: 0 <= j < m ==> !Stops(rounds[j]))
      && (m < |rounds| ==> Stops(rounds[m]))
  {
    forall j | 0 <= j < FirstStop(rounds)
      ensures !Stops(rounds[j])
    {
      NoneBeforeFirst(rounds, Stops, j);
    }
    if FirstStop(rounds) < |rounds| {
      AtFirst(rounds, Stops);
    }
  }

  /** An element that fails `p` moves the first index on by one. */
  lemma FirstWhereSkip<T>(s: seq<T>, p: T -> bool)
    requires s != [] && !p(s[0])
    ensures FirstWhere(s, p) == 1 + FirstWhere(s[1..], p)
  {
  }

  /** No element before `FirstWhere` satisfies `p`. */
  lemma {:induction false} NoneBeforeFirst<T>(s: seq<T>, p: T -> bool, j: nat)
    requires j < FirstWhere(s, p)
    ensures !p(s[j])
    decreases j
  {
    if j > 0 {
      NoneBeforeFirst(s[1..], p, j - 1);
      assert s[j] == s[1..][j - 1];
    }
  }

  /** The element at `FirstWhere`, when there is one, satisfies `p`. */
  lemma {:induction false} AtFirst<T>(s: seq<T>, p: T -> bool)
    requires FirstWhere(s, p) < |s|
    ensures p(s[FirstWhere(s, p)])
    decreases |s|
  {
    if !p(s[0]) {
      AtFirst(s[1..], p);
      assert s[FirstWhere(s, p)] == s[1..][FirstWhere(s[1..], p)];
    }
  }

  /** The rounds whose entries count: those before the first stop, and the stopping
      round itself when it adds a filter rather than cancels. */
  function Taken(rounds: seq<Round>): (k: nat)
    ensures k <= |rounds|
  {
    var m := FirstStop(rounds);
    if m < |rounds| && !Cancels(rounds[m]) then m + 1 else m
  }

  lemma EntriesPrefixCons(rounds: seq<Round>, k: nat)
    requires 1 <= k <= |rounds|
    ensures Entries(rounds[..k]) == Entry(rounds[0]) + Entries(rounds[1..][..k - 1])
  {
    var p := rounds[..k];
    assert p[0] == rounds[0] && p[1..] == rounds[1..][..k - 1];
  }

  lemma TakenSkip(rounds: seq<Round>)
    requires rounds != [] && !Stops(rounds[0])
    ensures Taken(rounds) == 1 + Taken(rounds[1..])
  {
    var rest := rounds[1..];
    FirstWhereSkip(rounds, Stops);
    var m := FirstStop(rest);
    if m < |rest| {
      assert rounds[m + 1] == rest[m];
    }
  }

  /** `Collect` against its reference: the filters are those the counted rounds enter,
      after `acc`; the run ends with none when there are none. */
  lemma {:induction false} CollectIsEntries(rounds: seq<Round>, acc: seq<Filter>)
    ensures Collect(rounds, acc) == Finish(acc + Entries(rounds[..Taken(rounds)]))
    decreases |rounds|
  {
    if rounds == [] {
      assert acc + [] == acc;
    } else if Cancels(rounds[0]) {
      assert FirstStop(rounds) == 0 && Taken(rounds) == 0;
      assert acc + [] == acc;
    } else if Stops(rounds[0]) {
      CollectIsEntriesAtLast(rounds, acc);
    } else {
      CollectIsEntries(rounds[1..], acc + Entry(rounds[0]));
      CollectIsEntriesAtSkip(rounds, acc);
    }
  }

  /** The case of `CollectIsEntries` where the first round adds a filter and stops. */
  lemma CollectIsEntriesAtLast(rounds: seq<Round>, acc: seq<Filter>)
    requires rounds != [] && !Cancels(rounds[0]) && Stops(rounds[0])
    ensures Collect(rounds, acc) == Finish(acc + Entries(rounds[..Taken(rounds)]))
  {
    TakenAtStop(rounds);
    CollectAtStop(rounds, acc);
  }

  lemma TakenAtStop(rounds: seq<Round>)
    requires rounds != [] && !Cancels(rounds[0]) && Stops(rounds[0])
    ensures Taken(rounds) == 1 && Entries(rounds[..1]) == Entry(rounds[0])
  {
    assert FirstStop(rounds) == 0;
    EntriesPrefixCons(rounds, 1);
    assert rounds[1..][..0] == [];
    assert Entry(rounds[0]) + [] == Entry(rounds[0]);
  }

  lemma CollectAtStop(rounds: seq<Round>, acc: seq<Filter>)
    requires rounds != [] && !Cancels(rounds[0]) && Stops(rounds[0])
    ensures Collect(rounds, acc) == Finish(acc + Entry(rounds[0]))
  {
    var round := rounds[0];
    var f := Filter(StripSpaces(round.email.text), StripSpaces(round.office.text));
    assert Entry(round) == [f] && !round.another;
  }

  /** A round that does not stop the loop passes on the filters with its entry added. */
  lemma CollectStep(rounds: seq<Round>, acc: seq<Filter>)
    requires rounds != [] && !Stops(rounds[0])
    ensures Collect(rounds, acc) == Collect(rounds[1..], acc + Entry(rounds[0]))
  {
    if Entry(rounds[0]) == [] {
      assert acc + Entry(rounds[0]) == acc;
    }
  }

  /** The case of `CollectIsEntries` where the first round does not stop the loop. */
  lemma CollectIsEntriesAtSkip(rounds: seq<Round>, acc: seq<Filter>)
    requires rounds != [] && !Stops(rounds[0])
    requires var rest, e := rounds[1..], Entry(rounds[0]);
      Collect(rest, acc + e) == Finish(acc + e + Entries(rest[..Taken(rest)]))
    ensures Collect(rounds, acc) == Finish(acc + Entries(rounds[..Taken(rounds)]))
  {
    CollectStep(rounds, acc);
    EntriesAtSkip(rounds, acc);
  }

  lemma EntriesAtSkip(rounds: seq<Round>, acc: seq<Filter>)
    requires rounds != [] && !Stops(rounds[0])
    ensures var rest := rounds[1..];
      acc + Entries(rounds[..Taken(rounds)]) == acc + Entry(rounds[0]) + Entries(rest[..Taken(rest)])
  {
    var rest, e := rounds[1..], Entry(rounds[0]);
    TakenSkip(rounds);
    EntriesPrefixCons(rounds, Taken(rounds));
    AppendAssoc(acc, e, Entries(rest[..Taken(rest)]));
  }

  lemma AppendAssoc<T>(a: seq<T>, b: seq<T>, c: seq<T>)
    ensures a + b + c == a + (b + c)
  {
  }

  /** `CollectIsEntries` from an empty start. */
  lemma CollectFromStart(rounds: seq<Round>)
    ensures Collect(rounds, []) == Finish(Entries(rounds[..Taken(rounds)]))
  {
    CollectIsEntries(rounds, []);
    EmptyAppend(Entries(rounds[..Taken(rounds)]));
  }

  lemma EmptyAppend<T>(a: seq<T>)
    ensures [] + a == a
  {
  }

  /** A round that enters a non-empty pattern appends exactly its filter; answering no to
      "Add another filter?" then ends the run with the filters so far. */
  lemma CollectAddsFilter(rounds: seq<Round>, acc: seq<Filter>)
    requires rounds != [] && !Cancels(rounds[0])
    requires StripSpaces(rounds[0].email.text) != [] || StripSpaces(rounds[0].office.text) != []
    ensures var f := Filter(StripSpaces(rounds[0].email.text), StripSpaces(rounds[0].office.text));
      Collect(rounds, acc) == if rounds[0].another then Collect(rounds[1..], acc + [f]) else Some(acc + [f])
  {
  }

  /** A round whose two stripped patterns are empty is skipped. */
  lemma CollectSkipsBlankRound(rounds: seq<Round>, acc: seq<Filter>)
    requires rounds != [] && !Cancels(rounds[0])
    requires StripSpaces(rounds[0].email.text) == [] && StripSpaces(rounds[0].office.text) == []
    ensures Collect(rounds, acc) == Collect(rounds[1..], acc)
  {
  }

  /** Cancelling either dialog ends the run: with no filters when none was added,
      otherwise with the filters collected. */
  lemma CollectCancel(rounds: seq<Round>, acc: seq<Filter>)
    requires rounds != [] && Cancels(rounds[0])
    ensures Collect(rounds, acc) == (if acc == [] then None else Some(acc))
  {
  }

  /** Skipped rounds followed by a cancel end the run with no filters. */
  lemma {:induction false} CancelAfterBlankRoundsEndsRun(rounds: seq<Round>, n: nat)
    requires n < |rounds| && Cancels(rounds[n])
    requires forall j :: 0 <= j < n ==> !Cancels(rounds[j]) && Entry(rounds[j]) == []
    ensures Collect(rounds, []) == None
    decreases n
  {
    if n > 0 {
      var rest := rounds[1..];
      assert forall j :: 0 <= j < n - 1 ==> rest[j] == rounds[j + 1];
      CancelAfterBlankRoundsEndsRun(rest, n - 1);
      CollectSkipsBlankRound(rounds, []);
    }
  }

  /** The dialog loop itself. */
  method CollectFilters(rounds: seq<Round>) returns (r: Option<seq<Filter>>)
    ensures r == Collect(rounds, [])
    ensures r == Finish(Entries(rounds[..Taken(rounds)]))
  {
    CollectFromStart(rounds);
    var filters: seq<Filter> := [];
    var n := 0;
    while n < |rounds|
      invariant n <= |rounds|
      invariant Collect(rounds[n..], filters) == Collect(rounds, [])
    {
      var round := rounds[n];
      assert rounds[n..][1..] == rounds[n + 1..];
      if round.email.Cancel? {
        return Finish(filters);
      }
      if round.office.Cancel? {
        return Finish(filters);
      }
      var emailMatch := StripSpaces(round.email.text);
      var officeMatch := StripSpaces(round.office.text);
      if emailMatch == [] && officeMatch == [] {
        n := n + 1;
        continue;
      }
      filters := filters + [Filter(emailMatch, officeMatch)];
      if !round.another {
        return Some(filters);
      }
      n := n + 1;
    }
    return Finish(filters);
  }

  /** Cancelling the first email dialog ends the run with no filters. */
  lemma CancelFirstEndsRun(rounds: seq<Round>)
    requires rounds != [] && rounds[0].email.Cancel?
    ensures Collect(rounds, []) == None
  {
  }

  /** Whatever the dialogs return, the collected filters are non-empty, stripped and
      never have both patterns empty, and there is at most one per round. */
  lemma CollectedFiltersValid(rounds: seq<Round>)
    ensures var r := Collect(rounds, []);
      r.Some? ==> r.value != [] && |r.value| <= |rounds| && ValidFilters(r.value)
  {
  }

  /** Row `i` matches a filter when its email cell contains the email pattern or its
      office cell contains the office pattern, ignoring case; an empty pattern takes no
      part. */
  predicate FilterMatches(t: Table, cols: Columns, f: Filter, i: nat)
    requires i < |t.rows|
  {
    PatternHit(t, i, cols.email, f.email) || PatternHit(t, i, cols.office, f.office)
  }

  /** Filters whose patterns differ only in ASCII letter case select the same rows. */
  lemma FilterMatchesIgnoresCase(t: Table, cols: Columns, f: Filter, g: Filter, i: nat)
    requires i < |t.rows|
    requires SameIgnoringCase(f.email, g.email) && SameIgnoringCase(f.office, g.office)
    ensures FilterMatches(t, cols, f, i) == FilterMatches(t, cols, g, i)
  {
    PatternHitIgnoresCase(t, i, cols.email, f.email, g.email);
    PatternHitIgnoresCase(t, i, cols.office, f.office, g.office);
  }

  /** `mask`, built from `pd.Series(False, ...)` by or-ing in the test of each non-empty
      pattern. */
  function FilterMask(t: Table, cols: Columns, f: Filter): (m: seq<bool>)
    ensures |m| == |t.rows|
    ensures forall i :: 0 <= i < |t.rows| ==> m[i] == FilterMatches(t, cols, f, i)
  {
    var m0 := NoRows(|t.rows|);
    var m1 := if f.email != [] then OrMask(m0, ContainsMask(t, cols.email, Lower(f.email))) else m0;
    if f.office != [] then OrMask(m1, ContainsMask(t, cols.office, Lower(f.office))) else m1
  }

  /** `sanitize_sheet_name(office_match) or sanitize_sheet_name(email_match) or f'Filter {idx}'`
      for the filter at `position`, which `enumerate(filters, start=1)` numbers
      `position + 1`. */
  function FilterLabel(f: Filter, position: nat): (name: string)
    ensures name != []
    ensures var office := SanitizeAsWritten(Some(f.office));
      office != [] ==> name == office
    ensures var office, email := SanitizeAsWritten(Some(f.office)), SanitizeAsWritten(Some(f.email));
      office == [] && email != [] ==> name == email
    ensures SanitizeAsWritten(Some(f.office)) == [] && SanitizeAsWritten(Some(f.email)) == [] ==>
      name == "Filter " + Decimal(position + 1)
  {
    var office := SanitizeAsWritten(Some(f.office));
    var email := SanitizeAsWritten(Some(f.email));
    if office != [] then office else if email != [] then email else "Filter " + Decimal(position + 1)
  }

  const FilteredPrefix: string := "Filtered "

  /** The base sheet name of the filter at `position`. */
  function FilterBaseName(f: Filter, position: nat): (base: string)
    ensures |base| > |FilteredPrefix| && base[..|FilteredPrefix|] == FilteredPrefix
  {
    FilteredPrefix + FilterLabel(f, position)
  }

  function FilterBaseNames(filters: seq<Filter>): (bases: seq<string>)
    ensures |bases| == |filters|
    ensures forall k :: 0 <= k < |filters| ==> bases[k] == FilterBaseName(filters[k], k)
  {
    seq(|filters|, k requires 0 <= k < |filters| => FilterBaseName(filters[k], k))
  }

  /** A base name never collides with "Original Data", so it is only ever suffixed when an
      earlier filter produced the same name. */
  lemma BaseNameIsNotOriginal(f: Filter, position: nat)
    ensures FilterBaseName(f, position) != OriginalSheetName
  {
    var base := FilterBaseName(f, position);
    assert OriginalSheetName[0] == 'O' && base[0] == 'F';
  }

  /** The office pattern names the sheet whenever it survives sanitising; a clean office
      pattern of 31 characters gives a 40-character base name, longer than Excel allows. */
  lemma BaseNameCanExceedLimit(f: Filter, position: nat)
    requires IsCleanSheetName(f.office) && |f.office| == MaxSheetNameLength
    ensures FilterBaseName(f, position) == FilteredPrefix + f.office
    ensures |FilterBaseName(f, position)| == 40 > MaxSheetNameLength
  {
    SanitizeAsWrittenKeepsCleanName(f.office);
  }

  /** `df[mask].copy()` for one filter. */
  function FilterRowsOf(t: Table, cols: Columns): Filter -> seq<nat> {
    f => Select(FilterMask(t, cols, f))
  }

  /** Sheet `k` holds the rows filter `k` matches, for every sheet written so far. */
  ghost predicate FilterRows(t: Table, cols: Columns, filters: seq<Filter>, sheets: seq<Sheet>) {
    RowsFollow(sheets, filters, FilterRowsOf(t, cols))
  }

  /** The sheets written for `filters`: one per filter, in order, each holding the rows its
      filter matches and named in allocation order after "Original Data". */
  ghost predicate FilterSheetsFor(t: Table, cols: Columns, filters: seq<Filter>, sheets: seq<Sheet>) {
    && |sheets| == |filters|
    && FilterRows(t, cols, filters, sheets)
    && AllocatedInOrder(FilterBaseNames(filters), {OriginalSheetName}, SheetNamesOf(sheets))
  }

  /** The `for idx, (email_match, office_match) in enumerate(filters, start=1)` loop. */
  method WriteFilterSheets(t: Table, cols: Columns, filters: seq<Filter>) returns (sheets: seq<Sheet>)
    ensures FilterSheetsFor(t, cols, filters, sheets)
  {
    var used := {OriginalSheetName};
    sheets := [];
    ghost var bases := FilterBaseNames(filters);
    var k := 0;
    while k < |filters|
      invariant k <= |filters| && |sheets| == k
      invariant used == UsedNames(sheets)
      invariant FilterRows(t, cols, filters, sheets)
      invariant AllocatedInOrder(bases[..k], {OriginalSheetName}, SheetNamesOf(sheets))
    {
      var mask := FilterMask(t, cols, filters[k]);
      var name := AllocateSheetName(FilterBaseName(filters[k], k), used);
      var sheet := Sheet(name, Select(mask));
      RowsFollowStep(sheets, filters, FilterRowsOf(t, cols), sheet);
      SheetNamesStep(bases, sheets, sheet);
      UsedNamesSnoc(sheets, sheet);
      used := used + {name};
      sheets := sheets + [sheet];
      k := k + 1;
    }
    AllNamesAllocated(bases, SheetNamesOf(sheets));
  }

  /** How a run ends. */
  datatype Outcome =
    | MissingColumns(missing: seq<string>)
    | NoFilters
    | Written(filters: seq<Filter>, sheets: seq<Sheet>)

  /** `main` after the file has been read: validate the columns, collect the filters,
      write one sheet per filter. */
  method RunMulti(t: Table, rounds: seq<Round>) returns (out: Outcome)
    ensures var cols := ResolveColumns(t.headers, EmailColumn, OfficeColumn);
      && (cols.Failure? ==> out == MissingColumns(cols.error))
      && (cols.Success? && Collect(rounds, []).None? ==> out == NoFilters)
      && (cols.Success? && Collect(rounds, []).Some? ==>
            && out.Written? && out.filters == Collect(rounds, []).value
            && FilterSheetsFor(t, cols.value, out.filters, out.sheets))
  {
    var resolved := ResolveColumns(t.headers, EmailColumn, OfficeColumn);
    if resolved.Failure? {
      return MissingColumns(resolved.error);
    }
    var filters := CollectFilters(rounds);
    if filters.None? {
      return NoFilters;
    }
    var sheets := WriteFilterSheets(t, resolved.value, filters.value);
    return Written(filters.value, sheets);
  }

  /** A written run has at least one filter sheet; the sheet names are distinct, non-empty
      and differ from "Original Data". */
  lemma WrittenSheetsDistinct(t: Table, cols: Columns, filters: seq<Filter>, sheets: seq<Sheet>)
    requires filters != [] && FilterSheetsFor(t, cols, filters, sheets)
    ensures sheets != []
    ensures forall k :: 0 <= k < |sheets| ==> sheets[k].name != [] && sheets[k].name != OriginalSheetName
    ensures forall a, b :: 0 <= a < b < |sheets| ==> sheets[a].name != sheets[b].name
  {
    SheetNamesDistinct(FilterBaseNames(filters), sheets);
  }
}
