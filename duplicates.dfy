/** Duplicate detection on a filtered sheet: `normalize_name`, the
    `duplicated(keep=False) & (key != "")` rule and the row numbers that are recorded. */
module Duplicates {
  import opened Wrappers
  import opened Text
  import opened DataFrame

  /** `IGNORE_PUNCTUATION`. */
  const IgnorePunctuation: bool := true

  /** A character of `string.punctuation`. */
  predicate IsPunctuation(c: char) {
    ('!' <= c <= '/') || (':' <= c <= '@') || ('[' <= c <= '`') || ('{' <= c <= '~')
  }

  /** `s.translate(str.maketrans("", "", string.punctuation))`. */
  function RemovePunctuation(s: string): (r: string)
    ensures NoPunctuation(r)
    ensures forall i :: 0 <= i < |r| ==> r[i] in s
  {
    if s == [] then []
    else (if IsPunctuation(s[0]) then [] else [s[0]]) + RemovePunctuation(s[1..])
  }

  /** On one character: punctuation goes, anything else stays. */
  lemma RemovePunctuationOfChar(c: char)
    ensures RemovePunctuation([c]) == if IsPunctuation(c) then [] else [c]
  {
    assert [c][1..] == [];
  }

  /** Punctuation is removed piece by piece, so the kept characters stay in order. */
  lemma {:induction false} RemovePunctuationConcat(a: string, b: string)
    ensures RemovePunctuation(a + b) == RemovePunctuation(a) + RemovePunctuation(b)
    decreases |a|
  {
    if a == [] {
      assert a + b == b;
    } else {
      assert (a + b)[0] == a[0] && (a + b)[1..] == a[1..] + b;
      RemovePunctuationConcat(a[1..], b);
    }
  }

  lemma NoUpperFrom(a: string, b: string)
    requires NoUpper(b)
    requires forall i :: 0 <= i < |a| ==> a[i] == ' ' || a[i] in b
    ensures NoUpper(a)
  {
  }

  /** No character of `s` is punctuation. */
  predicate NoPunctuation(s: string) {
    forall i :: 0 <= i < |s| ==> !IsPunctuation(s[i])
  }

  lemma NoPunctuationFrom(a: string, b: string)
    requires NoPunctuation(b)
    requires forall i :: 0 <= i < |a| ==> a[i] == ' ' || a[i] in b
    ensures NoPunctuation(a)
  {
  }

  /** `str(value).lower().strip()` followed by `" ".join(s.split())`. */
  function SpacedKey(v: string): (r: string)
    ensures NoUpper(r) && Trimmed(r) && SingleSpaced(r)
  {
    var lowered := Lower(v);
    var stripped := StripSpaces(lowered);
    NoUpperFrom(stripped, lowered);
    var collapsed := NormalizeSpaces(stripped);
    NoUpperFrom(collapsed, stripped);
    collapsed
  }

  /** The punctuation step of `normalize_name`: drop punctuation, then collapse and
      strip whitespace again. */
  function DepunctuatedKey(s: string): (r: string)
    requires NoUpper(s)
    ensures NoUpper(r) && Trimmed(r) && SingleSpaced(r) && NoPunctuation(r)
  {
    var removed := RemovePunctuation(s);
    NoUpperFrom(removed, s);
    var r := NormalizeSpaces(removed);
    NoUpperFrom(r, removed);
    NoPunctuationFrom(r, removed);
    r
  }

  /** `normalize_name`: lower-case, strip, collapse whitespace, then drop punctuation and
      collapse again; `None` gives "". */
  function NormalizeName(value: Option<string>): (r: string)
    ensures value.None? ==> r == ""
    ensures NoUpper(r) && Trimmed(r) && SingleSpaced(r)
    ensures IgnorePunctuation ==> NoPunctuation(r)
  {
    match value
    case None => ""
    case Some(v) => if IgnorePunctuation then DepunctuatedKey(SpacedKey(v)) else SpacedKey(v)
  }

  /** The key at position `p` is non-empty and another position holds the same key. */
  predicate IsDuplicateAt(keys: seq<string>, p: nat)
    requires p < |keys|
  {
    keys[p] != "" && exists q :: 0 <= q < |keys| && q != p && keys[q] == keys[p]
  }

  /** `key.duplicated(keep=False) & (key != "")`: one flag per position of the sheet. */
  function DuplicateMask(keys: seq<string>): (m: seq<bool>)
    ensures |m| == |keys|
    ensures forall p :: 0 <= p < |keys| ==> m[p] == IsDuplicateAt(keys, p)
  {
    seq(|keys|, p requires 0 <= p < |keys| => IsDuplicateAt(keys, p))
  }

  /** A key occurs at two positions exactly when it occurs at least twice in the multiset
      of keys. */
  lemma {:induction false} TwoPositionsIffCountTwo(keys: seq<string>, p: nat)
    requires p < |keys|
    ensures (exists q :: 0 <= q < |keys| && q != p && keys[q] == keys[p]) <==> multiset(keys)[keys[p]] >= 2
  {
    var x := keys[p];
    var before, after := keys[..p], keys[p + 1..];
    assert keys == before + [x] + after;
    assert multiset(keys)[x] == multiset(before)[x] + 1 + multiset(after)[x];
    if exists q :: 0 <= q < |keys| && q != p && keys[q] == x {
      var q :| 0 <= q < |keys| && q != p && keys[q] == x;
      if q < p {
        assert before[q] == x;
      } else {
        assert after[q - p - 1] == x;
      }
    }
    if multiset(keys)[x] >= 2 {
      if x in before {
        var q :| 0 <= q < |before| && before[q] == x;
        assert keys[q] == x;
      } else {
        assert x in after;
        var q :| 0 <= q < |after| && after[q] == x;
        assert keys[p + 1 + q] == x;
      }
    }
  }

  /** The flagging rule agrees with counting: a position is flagged exactly when its key is
      non-empty and occurs at least twice among the sheet's keys. */
  lemma DuplicateMaskCounts(keys: seq<string>)
    ensures forall p :: 0 <= p < |keys| ==>
      (DuplicateMask(keys)[p] <==> keys[p] != "" && multiset(keys)[keys[p]] >= 2)
  {
    forall p | 0 <= p < |keys|
      ensures IsDuplicateAt(keys, p) <==> keys[p] != "" && multiset(keys)[keys[p]] >= 2
    {
      TwoPositionsIffCountTwo(keys, p);
    }
  }

  /** `keep=False` flags every occurrence: a flagged position always has a partner
      position, flagged as well, that holds the same key. */
  lemma DuplicateFlagsPaired(keys: seq<string>, p: nat)
    requires p < |keys| && IsDuplicateAt(keys, p)
    ensures exists q :: 0 <= q < |keys| && q != p && IsDuplicateAt(keys, q) && keys[q] == keys[p]
  {
    var q :| 0 <= q < |keys| && q != p && keys[q] == keys[p];
    assert IsDuplicateAt(keys, q);
  }

  /** Hence a sheet never has exactly one flagged row. */
  lemma NoLoneDuplicate(keys: seq<string>)
    ensures |Select(DuplicateMask(keys))| != 1
  {
    var m := DuplicateMask(keys);
    var flagged := Select(m);
    if |flagged| == 1 {
      var p := flagged[0];
      assert p in flagged;
      DuplicateFlagsPaired(keys, p);
      assert false;
    }
  }

  /** Every position of the sheet names a row of the table. */
  predicate RowsOf(t: Table, rows: seq<nat>) {
    forall p :: 0 <= p < |rows| ==> rows[p] < |t.rows|
  }

  /** `filtered_df[name_col].astype(str).apply(normalize_name)`: an empty cell has
      already become "nan" when it is normalised. */
  function KeysAsWritten(t: Table, nameCol: nat, rows: seq<nat>): (keys: seq<string>)
    requires RowsOf(t, rows)
    ensures |keys| == |rows|
  {
    seq(|rows|, p requires 0 <= p < |rows| => NormalizeName(Some(CellText(CellAt(t, rows[p], nameCol)))))
  }

  /** The keys with an empty cell giving the empty key, which the `key != ""` test skips. */
  function Keys(t: Table, nameCol: nat, rows: seq<nat>): (keys: seq<string>)
    requires RowsOf(t, rows)
    ensures |keys| == |rows|
    ensures forall p :: 0 <= p < |rows| && CellAt(t, rows[p], nameCol).None? ==> keys[p] == ""
  {
    seq(|rows|, p requires 0 <= p < |rows| => NormalizeName(CellAt(t, rows[p], nameCol)))
  }

  /** The values at the flagged positions, in order: `values[mask].tolist()`. */
  function Pick(mask: seq<bool>, values: seq<nat>): (r: seq<nat>)
    requires |mask| == |values|
    ensures forall x :: x in r <==> exists p :: 0 <= p < |mask| && mask[p] && values[p] == x
  {
    if mask == [] then []
    else
      var n := |mask| - 1;
      var init := Pick(mask[..n], values[..n]);
      assert forall p :: 0 <= p < n ==> mask[..n][p] == mask[p] && values[..n][p] == values[p];
      init + (if mask[n] then [values[n]] else [])
  }

  /** `Pick` lists one value per row `df[mask]` keeps, in the same order. */
  lemma {:induction false} PickFollowsSelect(mask: seq<bool>, values: seq<nat>)
    requires |mask| == |values|
    ensures var r, idx := Pick(mask, values), Select(mask);
      |r| == |idx| && forall k :: 0 <= k < |r| ==> r[k] == values[idx[k]]
    decreases |mask|
  {
    if mask != [] {
      var n := |mask| - 1;
      PickFollowsSelect(mask[..n], values[..n]);
      var init, kept := Pick(mask[..n], values[..n]), Select(mask[..n]);
      assert Pick(mask, values) == init + (if mask[n] then [values[n]] else []);
      assert Select(mask) == kept + (if mask[n] then [n] else []);
      forall k | 0 <= k < |init|
        ensures init[k] == values[kept[k]]
      {
        assert kept[k] < n;
      }
    }
  }

  /** `(dup_mask[dup_mask].index + 2).tolist()` as written: each flagged row is recorded by
      its index in the original table plus 2. */
  function DuplicateRowsAsWritten(t: Table, nameCol: nat, rows: seq<nat>): (nums: seq<nat>)
    requires RowsOf(t, rows)
    ensures forall r :: r in nums <==>
      exists p :: 0 <= p < |rows| && IsDuplicateAt(KeysAsWritten(t, nameCol, rows), p) && r == rows[p] + 2
  {
    var m := DuplicateMask(KeysAsWritten(t, nameCol, rows));
    Pick(m, seq(|rows|, p requires 0 <= p < |rows| => rows[p] + 2))
  }

  /** Row numbers as the sheet itself numbers them: its data start on row 2, so the flagged
      row at position `p` of the sheet is row `p + 2`; an empty Name is never flagged. */
  function DuplicateRows(t: Table, nameCol: nat, rows: seq<nat>): (nums: seq<nat>)
    requires RowsOf(t, rows)
    ensures forall r :: r in nums ==> 2 <= r < |rows| + 2
    ensures forall p :: 0 <= p < |rows| ==> (p + 2 in nums <==> IsDuplicateAt(Keys(t, nameCol, rows), p))
    ensures forall p :: 0 <= p < |rows| && p + 2 in nums ==> CellAt(t, rows[p], nameCol).Some?
  {
    var keys := Keys(t, nameCol, rows);
    var flagged := Select(DuplicateMask(keys));
    PlusTwoMembers(flagged);
    PlusTwo(flagged)
  }

  /** Every number plus 2, in order. */
  function PlusTwo(s: seq<nat>): (r: seq<nat>)
    ensures |r| == |s| && forall i :: 0 <= i < |s| ==> r[i] == s[i] + 2
  {
    seq(|s|, i requires 0 <= i < |s| => s[i] + 2)
  }

  lemma PlusTwoMembers(s: seq<nat>)
    ensures forall x :: x in s <==> x + 2 in PlusTwo(s)
    ensures forall y :: y in PlusTwo(s) ==> y >= 2 && y - 2 in s
  {
    var r := PlusTwo(s);
    forall x | x + 2 in r
      ensures x in s
    {
      var i :| 0 <= i < |r| && r[i] == x + 2;
    }
    forall x | x in s
      ensures x + 2 in r
    {
      var i :| 0 <= i < |s| && s[i] == x;
      assert r[i] == x + 2;
    }
  }

  /** A name with no upper-case letter, whitespace or punctuation is its own key. */
  lemma PlainNameIsItsOwnKey(s: string)
    requires s != [] && NoUpper(s) && NoSpace(s) && NoPunctuation(s)
    ensures NormalizeName(Some(s)) == s
  {
    assert Lower(s) == s;
    StripUnchangedSpaces(s);
    NormalizeSpacesOfWord(s);
    RemovePunctuationOfPlain(s);
  }

  lemma StripUnchangedSpaces(s: string)
    requires s != [] && NoSpace(s)
    ensures StripSpaces(s) == s
  {
    assert !IsSpace(s[0]) && !IsSpace(s[|s| - 1]);
    assert TrimStart(s, Whitespace) == s;
    assert TrimEnd(s, Whitespace) == s;
  }

  lemma NormalizeSpacesOfWord(s: string)
    requires s != [] && NoSpace(s)
    ensures NormalizeSpaces(s) == s
  {
    assert !IsSpace(s[0]);
    assert TrimStart(s, Whitespace) == s;
    WordLengthOfWord(s);
    assert s[..|s|] == s;
    assert TrimStart(s[|s|..], Whitespace) == [];
    assert SplitWords(s[|s|..]) == [];
    assert SplitWords(s) == [s];
  }

  lemma {:induction false} RemovePunctuationOfPlain(s: string)
    requires NoPunctuation(s)
    ensures RemovePunctuation(s) == s
  {
    if s != [] {
      assert NoPunctuation(s[1..]) by {
        assert forall i :: 0 <= i < |s| - 1 ==> s[1..][i] == s[i + 1];
      }
      RemovePunctuationOfPlain(s[1..]);
    }
  }

  /** Names with the same words once lower-cased get the same key, however they are spaced:
      case and spacing never tell two names apart. */
  lemma NormalizeNameSameWords(a: string, b: string)
    requires SplitWords(Lower(a)) == SplitWords(Lower(b))
    ensures NormalizeName(Some(a)) == NormalizeName(Some(b))
  {
    SplitWordsStrip(Lower(a));
    SplitWordsStrip(Lower(b));
    assert SpacedKey(a) == JoinWords(SplitWords(StripSpaces(Lower(a))));
    assert SpacedKey(b) == JoinWords(SplitWords(StripSpaces(Lower(b))));
  }

  /** What punctuation removal leaves of one word: nothing, or the word without its
      punctuation. */
  function KeptWord(w: string): (r: seq<string>)
    ensures |r| <= 1
    ensures r == [] <==> RemovePunctuation(w) == []
    ensures r != [] ==> r[0] == RemovePunctuation(w)
  {
    if RemovePunctuation(w) == [] then [] else [RemovePunctuation(w)]
  }

  /** Each word without its punctuation, words made only of punctuation dropped. */
  function KeptWords(words: seq<string>): (r: seq<string>)
    ensures |r| <= |words|
  {
    if words == [] then [] else KeptWord(words[0]) + KeptWords(words[1..])
  }

  lemma KeptWordsCons(w: string, rest: seq<string>)
    ensures KeptWords([w] + rest) == KeptWord(w) + KeptWords(rest)
  {
    assert ([w] + rest)[0] == w && ([w] + rest)[1..] == rest;
  }

  /** Whitespace is never punctuation, so removing punctuation keeps it. */
  lemma {:induction false} RemovePunctuationOfBlank(u: string)
    requires forall i :: 0 <= i < |u| ==> IsSpace(u[i])
    ensures RemovePunctuation(u) == u
  {
    assert NoPunctuation(u);
    RemovePunctuationOfPlain(u);
  }

  /** Removing punctuation after leading whitespace is the same, word-wise, as removing it
      from what follows the whitespace. */
  lemma RemovePunctuationLeadingBlank(x: string)
    ensures var t := TrimStart(x, Whitespace);
      && SplitWords(RemovePunctuation(x)) == SplitWords(RemovePunctuation(t))
      && SplitWords(x) == SplitWords(t)
  {
    var t := TrimStart(x, Whitespace);
    var u := x[..|x| - |t|];
    assert x == u + t;
    assert forall i :: 0 <= i < |u| ==> Drops(Whitespace, x[i]) && u[i] == x[i];
    RemovePunctuationConcat(u, t);
    RemovePunctuationOfBlank(u);
    SplitWordsBlankPrefix(u, RemovePunctuation(t));
    SplitWordsTrimStart(x);
  }

  /** A string that is empty or starts with whitespace still is after punctuation
      removal. */
  lemma RemovePunctuationKeepsBreak(rest: string)
    requires rest == [] || IsSpace(rest[0])
    ensures var r := RemovePunctuation(rest); r == [] || IsSpace(r[0])
  {
  }

  /** A word without its punctuation holds no whitespace. */
  lemma RemovePunctuationOfWord(w: string)
    requires NoSpace(w)
    ensures NoSpace(RemovePunctuation(w))
  {
    var r := RemovePunctuation(w);
    forall i | 0 <= i < |r|
      ensures !IsSpace(r[i])
    {
      var j :| 0 <= j < |w| && w[j] == r[i];
    }
  }

  /** Removing punctuation from a word followed by a break: what is left of the word,
      then the words of what is left of the rest. */
  lemma SplitWordsRemovePunctuationStep(w: string, rest: string)
    requires w != [] && NoSpace(w) && (rest == [] || IsSpace(rest[0]))
    ensures SplitWords(RemovePunctuation(w + rest))
         == KeptWord(w) + SplitWords(RemovePunctuation(rest))
  {
    var pw, pr := RemovePunctuation(w), RemovePunctuation(rest);
    RemovePunctuationConcat(w, rest);
    if pw == [] {
      assert pw + pr == pr;
    } else {
      RemovePunctuationOfWord(w);
      RemovePunctuationKeepsBreak(rest);
      SplitWordsWordThen(pw, pr);
    }
  }

  /** The words of a text without its punctuation are the text's words, each without its
      punctuation, the words made only of punctuation dropped. */
  lemma {:induction false} SplitWordsRemovePunctuation(x: string)
    ensures SplitWords(RemovePunctuation(x)) == KeptWords(SplitWords(x))
    decreases |x|
  {
    var t := TrimStart(x, Whitespace);
    RemovePunctuationLeadingBlank(x);
    if t == [] {
      SplitWordsOfNothing(RemovePunctuation(t));
      SplitWordsOfNothing(t);
    } else {
      var n := WordLength(t);
      SplitWordsRemovePunctuation(t[n..]);
      SplitWordsRemovePunctuationWord(t);
    }
  }

  /** The step of `SplitWordsRemovePunctuation` at a string that starts with a word. */
  lemma SplitWordsRemovePunctuationWord(t: string)
    requires t != [] && !IsSpace(t[0])
    requires var n := WordLength(t);
      SplitWords(RemovePunctuation(t[n..])) == KeptWords(SplitWords(t[n..]))
    ensures SplitWords(RemovePunctuation(t)) == KeptWords(SplitWords(t))
  {
    var n := WordLength(t);
    SplitWordsFirst(t);
    var w, rest := t[..n], t[n..];
    TakeDrop(t, n);
    SplitWordsRemovePunctuationStep(w, rest);
    KeptWordsCons(w, SplitWords(rest));
  }

  /** The spacing step alone is `" ".join(s.split())` of the lower-cased text: the
      `strip()` in front of it changes nothing. */
  lemma SpacedKeyIsNormalizeSpaces(v: string)
    ensures SpacedKey(v) == JoinWords(SplitWords(Lower(v)))
  {
    SplitWordsStrip(Lower(v));
  }

  /** The punctuation step in closed form: the words of the text, each without its
      punctuation and the empty ones dropped, joined by single spaces. */
  lemma DepunctuatedKeyClosedForm(s: string)
    requires NoUpper(s)
    ensures DepunctuatedKey(s) == JoinWords(KeptWords(SplitWords(s)))
  {
    SplitWordsRemovePunctuation(s);
  }

  /** `normalize_name` in closed form: lower-case, drop punctuation, then
      `" ".join(s.split())`. Equivalently: the lower-cased words, each without its
      punctuation, the empty ones dropped, joined by single spaces. */
  lemma NormalizeNameClosedForm(v: string)
    ensures NormalizeName(Some(v)) == JoinWords(SplitWords(RemovePunctuation(Lower(v))))
    ensures NormalizeName(Some(v)) == JoinWords(KeptWords(SplitWords(Lower(v))))
  {
    var lowered := Lower(v);
    var spaced := SpacedKey(v);
    assert spaced == NormalizeSpaces(StripSpaces(lowered));
    SplitWordsStrip(lowered);
    SplitWordsRemovePunctuation(spaced);
    SplitWordsRemovePunctuation(lowered);
    var key := NormalizeName(Some(v));
    assert key == NormalizeSpaces(RemovePunctuation(spaced));
    NormalFormIsUnique(key, NormalizeSpaces(RemovePunctuation(lowered)));
  }

  /** Two names get the same key exactly when, lower-cased and without punctuation, they
      have the same words. */
  lemma NormalizeNameEqualIff(a: string, b: string)
    ensures NormalizeName(Some(a)) == NormalizeName(Some(b))
        <==> SplitWords(RemovePunctuation(Lower(a))) == SplitWords(RemovePunctuation(Lower(b)))
  {
    NormalizeNameClosedForm(a);
    NormalizeNameClosedForm(b);
    var ra, rb := RemovePunctuation(Lower(a)), RemovePunctuation(Lower(b));
    assert NormalizeSpaces(ra) == JoinWords(SplitWords(ra));
    assert NormalizeSpaces(rb) == JoinWords(SplitWords(rb));
  }

  /** An empty Name cell becomes the key "nan" as written. */
  lemma NanKey()
    ensures NormalizeName(Some(CellText(None))) == "nan"
  {
    PlainNameIsItsOwnKey("nan");
  }

  /** As written, `astype(str)` turns an empty Name into "nan" before normalising, so the
      `key != ""` test never sees a blank: any two rows with an empty Name are both recorded
      as duplicates. With empty cells giving the empty key, neither is. */
  lemma BlankNamesFlaggedAsWritten(t: Table, nameCol: nat, rows: seq<nat>, p: nat, q: nat)
    requires RowsOf(t, rows) && p < |rows| && q < |rows| && p != q
    requires CellAt(t, rows[p], nameCol).None? && CellAt(t, rows[q], nameCol).None?
    ensures rows[p] + 2 in DuplicateRowsAsWritten(t, nameCol, rows)
    ensures p + 2 !in DuplicateRows(t, nameCol, rows)
  {
    NanKey();
    var keys := KeysAsWritten(t, nameCol, rows);
    assert keys[p] == "nan" && keys[q] == "nan";
    assert IsDuplicateAt(keys, p);
    assert Keys(t, nameCol, rows)[p] == "";
  }

  /** Three rows; the last two carry the same name. */
  const RepeatedName: Table := Table(["Name"], [[Some("bob")], [Some("ann")], [Some("ann")]])

  /** As written, the recorded numbers are original index + 2, yet they are applied to the
      filtered sheet: a sheet holding table rows 1 and 2 has data on sheet rows 2 and 3 only,
      but row 4 is recorded. Numbered by position in the sheet, rows 2 and 3 are recorded. */
  lemma RowNumbersPastSheetEndAsWritten()
    ensures 4 in DuplicateRowsAsWritten(RepeatedName, 0, [1, 2])
    ensures 4 > |[1, 2]| + 1
    ensures 2 in DuplicateRows(RepeatedName, 0, [1, 2]) && 3 in DuplicateRows(RepeatedName, 0, [1, 2])
  {
    var rows := [1, 2];
    RepeatedNameKeys();
    var keys := KeysAsWritten(RepeatedName, 0, rows);
    assert IsDuplicateAt(keys, 1);
    var fixedKeys := Keys(RepeatedName, 0, rows);
    assert IsDuplicateAt(fixedKeys, 0) && IsDuplicateAt(fixedKeys, 1);
  }

  /** Both rows of the sheet have the key "ann", either way the keys are computed. */
  lemma RepeatedNameKeys()
    ensures RowsOf(RepeatedName, [1, 2])
    ensures var keys := KeysAsWritten(RepeatedName, 0, [1, 2]); keys[0] == "ann" && keys[1] == "ann"
    ensures var keys := Keys(RepeatedName, 0, [1, 2]); keys[0] == "ann" && keys[1] == "ann"
  {
    assert RowsOf(RepeatedName, [1, 2]);
    assert CellAt(RepeatedName, 1, 0) == Some("ann") && CellAt(RepeatedName, 2, 0) == Some("ann");
    PlainNameIsItsOwnKey("ann");
  }


}
