/** Python string operations the scripts rely on, over `string` (`seq<char>`). */
module Text {

  /** Python's `str.isspace()`. The same set is what `\s` matches in a `re` pattern
      and where `str.split()` and `str.strip()` cut. */
  predicate IsSpace(c: char) {
    || c == ' '
    || ('\t' <= c <= '\r')
    || ('\U{1c}' <= c <= '\U{1f}')
    || c == '\U{85}' || c == '\U{a0}' || c == '\U{1680}'
    || ('\U{2000}' <= c <= '\U{200a}')
    || c == '\U{2028}' || c == '\U{2029}' || c == '\U{202f}' || c == '\U{205f}' || c == '\U{3000}'
  }

  predicate IsUpper(c: char) {
    'A' <= c <= 'Z'
  }

  /** `str.lower()` on one character (ASCII letters only). */
  function LowerChar(c: char): (r: char)
    ensures !IsUpper(r)
    ensures IsSpace(r) <==> IsSpace(c)
    ensures IsUpper(c) ==> 'a' <= r <= 'z' && r as int - 'a' as int == c as int - 'A' as int
    ensures !IsUpper(c) ==> r == c
  {
    if IsUpper(c) then (c as int + 32) as char else c
  }

  /** `str.lower()`. */
  function Lower(s: string): (r: string)
    ensures |r| == |s|
    ensures forall i :: 0 <= i < |s| ==> r[i] == LowerChar(s[i])
  {
    seq(|s|, i requires 0 <= i < |s| => LowerChar(s[i]))
  }

  /** `p` and `q` differ at most in the case of ASCII letters. */
  predicate SameIgnoringCase(p: string, q: string) {
    && |p| == |q|
    && forall i :: 0 <= i < |p| ==>
         || p[i] == q[i]
         || (IsUpper(p[i]) && q[i] as int == p[i] as int + 32)
         || (IsUpper(q[i]) && p[i] as int == q[i] as int + 32)
  }

  /** Lower-casing identifies strings that differ only in letter case. */
  lemma LowerIgnoresCase(p: string, q: string)
    requires SameIgnoringCase(p, q)
    ensures Lower(p) == Lower(q)
  {
    forall i | 0 <= i < |p|
      ensures Lower(p)[i] == Lower(q)[i]
    {
      assert LowerChar(p[i]) as int == LowerChar(q[i]) as int;
    }
  }

  predicate NoUpper(s: string) {
    forall i :: 0 <= i < |s| ==> !IsUpper(s[i])
  }

  predicate NoSpace(s: string) {
    forall i :: 0 <= i < |s| ==> !IsSpace(s[i])
  }

  /** No whitespace at either end. */
  predicate Trimmed(s: string) {
    s == [] || (!IsSpace(s[0]) && !IsSpace(s[|s| - 1]))
  }

  /** Every whitespace character is a plain space and no two of them are adjacent. */
  ghost predicate SingleSpaced(s: string) {
    && (forall i :: 0 <= i < |s| && IsSpace(s[i]) ==> s[i] == ' ')
    && (forall i, j :: 0 <= i < j < |s| && j == i + 1 ==> !(IsSpace(s[i]) && IsSpace(s[j])))
  }

  /** `needle in hay`: `needle` occurs in `hay` as a contiguous substring. */
  predicate Contains(hay: string, needle: string)
    decreases |hay|
  {
    needle <= hay || (hay != [] && Contains(hay[1..], needle))
  }

  /** The two character sets the scripts strip: whitespace (`strip()`) and
      apostrophes (`strip("'")`). */
  datatype StripSet = Whitespace | Apostrophes

  predicate Drops(set_: StripSet, c: char) {
    match set_
    case Whitespace => IsSpace(c)
    case Apostrophes => c == '\''
  }

  /** `s.lstrip(chars)`. */
  function TrimStart(s: string, drop: StripSet): (r: string)
    ensures |r| <= |s| && r == s[|s| - |r|..]
    ensures r == [] || !Drops(drop, r[0])
    ensures forall i :: 0 <= i < |s| - |r| ==> Drops(drop, s[i])
    decreases |s|
  {
    if s != [] && Drops(drop, s[0]) then
      var r := TrimStart(s[1..], drop);
      assert s[|s| - |r|..] == s[1..][|s| - 1 - |r|..];
      assert forall i :: 1 <= i < |s| ==> s[i] == s[1..][i - 1];
      r
    else s
  }

  /** `s.rstrip(chars)`. */
  function TrimEnd(s: string, drop: StripSet): (r: string)
    ensures |r| <= |s| && r == s[..|r|]
    ensures r == [] || !Drops(drop, r[|r| - 1])
    ensures forall i :: |r| <= i < |s| ==> Drops(drop, s[i])
    decreases |s|
  {
    if s != [] && Drops(drop, s[|s| - 1]) then TrimEnd(s[..|s| - 1], drop) else s
  }

  /** `r` is what is left of `s` once a prefix and a suffix made of characters of `drop`
      are cut off, and neither end of `r` is such a character. */
  ghost predicate IsStripped(s: string, drop: StripSet, r: string) {
    && (r == [] || (!Drops(drop, r[0]) && !Drops(drop, r[|r| - 1])))
    && exists a :: CutAt(s, drop, r, a)
  }

  /** `r` sits at offset `a` of `s`, with only characters of `drop` before and after it. */
  ghost predicate CutAt(s: string, drop: StripSet, r: string, a: int) {
    && 0 <= a <= |s| - |r| && r == s[a..a + |r|]
    && (forall i :: 0 <= i < a ==> Drops(drop, s[i]))
    && (forall i :: a + |r| <= i < |s| ==> Drops(drop, s[i]))
  }

  /** `s.strip(chars)`. */
  function Strip(s: string, drop: StripSet): (r: string)
    ensures IsStripped(s, drop, r)
    ensures forall i :: 0 <= i < |r| ==> r[i] in s
  {
    var t := TrimStart(s, drop);
    var kept := TrimEnd(t, drop);
    StripOfTrims(s, drop, t, kept);
    kept
  }

  /** `Strip` is the right trim of the left trim. */
  lemma StripByTrims(s: string, drop: StripSet, t: string, r: string)
    requires TrimStart(s, drop) == t && TrimEnd(t, drop) == r
    ensures Strip(s, drop) == r
  {
  }

  /** A left trim followed by a right trim cuts `s` at the offset where the left trim
      stopped. */
  lemma CutOfTrims(s: string, drop: StripSet, t: string, r: string)
    requires |t| <= |s| && t == s[|s| - |t|..]
    requires forall i :: 0 <= i < |s| - |t| ==> Drops(drop, s[i])
    requires |r| <= |t| && r == t[..|r|]
    requires forall i :: |r| <= i < |t| ==> Drops(drop, t[i])
    ensures CutAt(s, drop, r, |s| - |t|)
  {
    var a := |s| - |t|;
    assert r == s[a..a + |r|];
    assert forall i :: a + |r| <= i < |s| ==> s[i] == t[i - a];
  }

  /** What a left trim followed by a right trim leaves is `s` stripped, and is made of
      characters of `s`. */
  lemma StripOfTrims(s: string, drop: StripSet, t: string, r: string)
    requires |t| <= |s| && t == s[|s| - |t|..]
    requires forall i :: 0 <= i < |s| - |t| ==> Drops(drop, s[i])
    requires t == [] || !Drops(drop, t[0])
    requires |r| <= |t| && r == t[..|r|]
    requires forall i :: |r| <= i < |t| ==> Drops(drop, t[i])
    requires r == [] || !Drops(drop, r[|r| - 1])
    ensures IsStripped(s, drop, r)
    ensures forall i :: 0 <= i < |r| ==> r[i] in s
  {
    CutOfTrims(s, drop, t, r);
    CharsInSuffix(s, |s| - |t|);
    CharsInSlice(t, s, 0, |r|);
    assert r == t[0..|r|];
    assert r != [] ==> r[0] == t[0];
  }

  /** Only one string is `s` stripped of `drop`: the one `Strip` computes. */
  lemma StrippedIsUnique(s: string, drop: StripSet, r: string, r': string)
    requires IsStripped(s, drop, r) && IsStripped(s, drop, r')
    ensures r == r'
  {
    var a :| CutAt(s, drop, r, a);
    var b :| CutAt(s, drop, r', b);
    if r != [] && r' != [] {
      assert r[0] == s[a] && r'[0] == s[b];
      assert r[|r| - 1] == s[a + |r| - 1] && r'[|r'| - 1] == s[b + |r'| - 1];
      assert a == b;
      assert a + |r| == b + |r'|;
    }
  }

  /** `str.strip()` with no argument. */
  function StripSpaces(s: string): (r: string)
    ensures Trimmed(r)
    ensures forall i :: 0 <= i < |r| ==> r[i] in s
  {
    Strip(s, Whitespace)
  }
  /** `s.strip()` cuts exactly the outer whitespace of `s`. */
  lemma StripSpacesIsStripped(s: string)
    ensures IsStripped(s, Whitespace, StripSpaces(s))
  {
  }


  lemma SingleSpacedSlice(s: string, a: nat, b: nat)
    requires a <= b <= |s|
    requires SingleSpaced(s)
    ensures SingleSpaced(s[a..b])
  {
    var t := s[a..b];
    forall i, j | 0 <= i < j < |t| && j == i + 1
      ensures !(IsSpace(t[i]) && IsSpace(t[j]))
    {
      assert t[i] == s[a + i] && t[j] == s[a + j];
    }
  }

  /** The characters of `s` that are not whitespace, in order. */
  function NonSpace(s: string): string {
    if s == [] then [] else (if IsSpace(s[0]) then [] else [s[0]]) + NonSpace(s[1..])
  }

  lemma {:induction false} NonSpaceConcat(a: string, b: string)
    ensures NonSpace(a + b) == NonSpace(a) + NonSpace(b)
    decreases |a|
  {
    if a != [] {
      assert (a + b)[0] == a[0] && (a + b)[1..] == a[1..] + b;
      NonSpaceConcat(a[1..], b);
    } else {
      assert a + b == b;
    }
  }

  lemma {:induction false} NonSpaceOfWord(w: string)
    requires NoSpace(w)
    ensures NonSpace(w) == w
    decreases |w|
  {
    if w != [] {
      assert NoSpace(w[1..]) by {
        assert forall i :: 0 <= i < |w| - 1 ==> w[1..][i] == w[i + 1];
      }
      NonSpaceOfWord(w[1..]);
    }
  }

  lemma {:induction false} NonSpaceOfBlank(w: string)
    requires forall i :: 0 <= i < |w| ==> IsSpace(w[i])
    ensures NonSpace(w) == []
    decreases |w|
  {
    if w != [] {
      NonSpaceOfBlank(w[1..]);
    }
  }

  /** `re.sub(r'\s+', ' ', s)`: every maximal run of whitespace becomes one space. */
  function CollapseSpaces(s: string): (r: string)
    ensures SingleSpaced(r)
    ensures (s == []) == (r == [])
    ensures s != [] ==> r[0] == (if IsSpace(s[0]) then ' ' else s[0])
    ensures forall i :: 0 <= i < |r| ==> r[i] == ' ' || r[i] in s
    ensures NonSpace(r) == NonSpace(s)
  {
    if s == [] then []
    else if IsSpace(s[0]) && |s| > 1 && IsSpace(s[1]) then CollapseSpaces(s[1..])
    else
      var c := if IsSpace(s[0]) then ' ' else s[0];
      var rest := CollapseSpaces(s[1..]);
      assert ([c] + rest)[1..] == rest;
      [c] + rest
  }

  /** A trailing run of whitespace leaves one space at the end, and only such a run does. */
  lemma {:induction false} CollapseSpacesLast(s: string)
    ensures var r := CollapseSpaces(s);
      s != [] ==> (r[|r| - 1] == ' ' <==> IsSpace(s[|s| - 1]))
    decreases |s|
  {
    if |s| > 1 {
      CollapseSpacesLast(s[1..]);
      LastOfTail(s);
      if IsSpace(s[0]) && IsSpace(s[1]) {
        CollapseSpacesRun(s);
      } else {
        CollapseSpacesTail(s);
        LastOfTail(CollapseSpaces(s));
      }
    }
  }

  /** Whitespace followed by whitespace is dropped in favour of the rest of the run. */
  lemma CollapseSpacesRun(s: string)
    requires |s| > 1 && IsSpace(s[0]) && IsSpace(s[1])
    ensures CollapseSpaces(s) == CollapseSpaces(s[1..])
  {
  }

  lemma LastOfTail<T>(s: seq<T>)
    requires |s| > 1
    ensures s[1..][|s| - 2] == s[|s| - 1]
  {
  }

  /** A string that is already single-spaced is a fixed point of `CollapseSpaces`. */
  lemma {:induction false} CollapseSpacesKeepsSingleSpaced(s: string)
    requires SingleSpaced(s)
    ensures CollapseSpaces(s) == s
  {
    if s != [] {
      SingleSpacedSlice(s, 1, |s|);
      CollapseSpacesKeepsSingleSpaced(s[1..]);
      if IsSpace(s[0]) && |s| > 1 {
        assert !IsSpace(s[1]);
      }
    }
  }

  /** Every character of `a` occurs somewhere in `b`. */
  predicate CharsIn(a: string, b: string) {
    forall i :: 0 <= i < |a| ==> a[i] in b
  }

  /** The length of the run of non-whitespace characters that starts `t`. */
  function WordLength(t: string): (n: nat)
    ensures n <= |t| && NoSpace(t[..n])
    ensures t != [] && !IsSpace(t[0]) ==> n >= 1
  {
    if t == [] || IsSpace(t[0]) then 0 else 1 + WordLength(t[1..])
  }

  /** The run is maximal: it ends at the end of `t` or at a whitespace character. */
  lemma {:induction false} WordLengthMaximal(t: string)
    ensures WordLength(t) == |t| || IsSpace(t[WordLength(t)])
    decreases |t|
  {
    if t != [] && !IsSpace(t[0]) {
      WordLengthMaximal(t[1..]);
      assert t[1..][WordLength(t[1..])..] == t[WordLength(t)..];
    }
  }

  /** `str.split()` with no separator: the maximal runs of non-whitespace, in order. */
  function SplitWords(s: string): (words: seq<string>)
    ensures forall k :: 0 <= k < |words| ==> words[k] != [] && NoSpace(words[k])
    decreases |s|
  {
    var t := TrimStart(s, Whitespace);
    if t == [] then []
    else
      var n := WordLength(t);
      [t[..n]] + SplitWords(t[n..])
  }

  /** Every word in `words` is made of characters of `s`. */
  predicate WordsFrom(words: seq<string>, s: string) {
    forall k :: 0 <= k < |words| ==> CharsIn(words[k], s)
  }

  lemma WordsFromTrans(words: seq<string>, b: string, c: string)
    requires WordsFrom(words, b) && CharsIn(b, c)
    ensures WordsFrom(words, c)
  {
    forall k | 0 <= k < |words|
      ensures CharsIn(words[k], c)
    {
      CharsInTrans(words[k], b, c);
    }
  }

  lemma WordsFromCons(w: string, rest: seq<string>, s: string)
    requires CharsIn(w, s) && WordsFrom(rest, s)
    ensures WordsFrom([w] + rest, s)
  {
    var words := [w] + rest;
    assert forall k :: 0 < k < |words| ==> words[k] == rest[k - 1];
  }

  /** Splitting invents no characters. */
  lemma {:induction false} SplitWordsChars(s: string)
    ensures WordsFrom(SplitWords(s), s)
    decreases |s|
  {
    var t := TrimStart(s, Whitespace);
    if t != [] {
      var n := WordLength(t);
      SplitWordsChars(t[n..]);
      CharsInSuffix(s, |s| - |t|);
      CharsInSlice(t, s, 0, n);
      CharsInSlice(t, s, n, |t|);
      WordsFromTrans(SplitWords(t[n..]), t[n..], s);
      WordsFromCons(t[..n], SplitWords(t[n..]), s);
    }
  }

  lemma CharsInTrans(a: string, b: string, c: string)
    requires CharsIn(a, b) && CharsIn(b, c)
    ensures CharsIn(a, c)
  {
    forall i | 0 <= i < |a|
      ensures a[i] in c
    {
      var j :| 0 <= j < |b| && b[j] == a[i];
    }
  }

  lemma CharsInSuffix(s: string, a: nat)
    requires a <= |s|
    ensures CharsIn(s[a..], s)
  {
    assert forall i :: 0 <= i < |s| - a ==> s[a..][i] == s[a + i];
  }

  lemma CharsInSlice(t: string, s: string, a: nat, b: nat)
    requires a <= b <= |t| && CharsIn(t, s)
    ensures CharsIn(t[a..b], s)
  {
    assert forall i :: 0 <= i < b - a ==> t[a..b][i] == t[a + i];
  }

  /** The words run together: `"".join(words)`. */
  function Concat(words: seq<string>): string {
    if words == [] then [] else words[0] + Concat(words[1..])
  }

  lemma ConcatCons(w: string, rest: seq<string>)
    ensures Concat([w] + rest) == w + Concat(rest)
  {
    assert ([w] + rest)[0] == w && ([w] + rest)[1..] == rest;
  }

  /** `lstrip()` removes whitespace only. */
  lemma NonSpaceTrimStart(s: string)
    ensures NonSpace(TrimStart(s, Whitespace)) == NonSpace(s)
  {
    var t := TrimStart(s, Whitespace);
    var a := |s| - |t|;
    assert s == s[..a] + t;
    NonSpaceConcat(s[..a], t);
    assert forall i :: 0 <= i < a ==> IsSpace(s[..a][i]) by {
      assert forall i :: 0 <= i < a ==> s[..a][i] == s[i] && Drops(Whitespace, s[i]);
    }
    NonSpaceOfBlank(s[..a]);
  }

  /** The first word of `t` followed by the rest. */
  lemma NonSpaceFirstWord(t: string)
    ensures NonSpace(t) == t[..WordLength(t)] + NonSpace(t[WordLength(t)..])
  {
    var n := WordLength(t);
    assert t == t[..n] + t[n..];
    NonSpaceConcat(t[..n], t[n..]);
    NonSpaceOfWord(t[..n]);
  }

  /** One step of `str.split()` on a string with a word left. */
  lemma SplitWordsUnfold(s: string)
    requires TrimStart(s, Whitespace) != []
    ensures var t := TrimStart(s, Whitespace);
      SplitWords(s) == [t[..WordLength(t)]] + SplitWords(t[WordLength(t)..])
  {
  }

  /** The words of `str.split()`, run together, are the string's non-whitespace characters
      in their order. */
  lemma {:induction false} SplitWordsNonSpace(s: string)
    ensures Concat(SplitWords(s)) == NonSpace(s)
    decreases |s|
  {
    var t := TrimStart(s, Whitespace);
    NonSpaceTrimStart(s);
    if t != [] {
      var n := WordLength(t);
      SplitWordsUnfold(s);
      NonSpaceFirstWord(t);
      SplitWordsNonSpace(t[n..]);
      ConcatCons(t[..n], SplitWords(t[n..]));
    }
  }

  /** A string without whitespace at its start is its own `lstrip`. */
  lemma TrimStartNoop(s: string, drop: StripSet)
    requires s == [] || !Drops(drop, s[0])
    ensures TrimStart(s, drop) == s
  {
  }

  lemma {:induction false} TrimStartAppend(u: string, w: string, drop: StripSet)
    requires TrimStart(u, drop) != []
    ensures TrimStart(u + w, drop) == TrimStart(u, drop) + w
    decreases |u|
  {
    assert (u + w)[0] == u[0];
    if Drops(drop, u[0]) {
      assert (u + w)[1..] == u[1..] + w;
      TrimStartAppend(u[1..], w, drop);
    }
  }

  lemma {:induction false} TrimStartBlank(s: string, drop: StripSet)
    requires forall i :: 0 <= i < |s| ==> Drops(drop, s[i])
    ensures TrimStart(s, drop) == []
    decreases |s|
  {
    if s != [] {
      TrimStartBlank(s[1..], drop);
    }
  }

  lemma {:induction false} WordLengthAppend(v: string, w: string)
    requires w == [] || IsSpace(w[0])
    ensures WordLength(v + w) == WordLength(v)
    decreases |v|
  {
    if v == [] {
      assert v + w == w;
    } else {
      assert (v + w)[0] == v[0];
      if !IsSpace(v[0]) {
        assert (v + w)[1..] == v[1..] + w;
        WordLengthAppend(v[1..], w);
      }
    }
  }

  /** A string of whitespace only has no words, whatever precedes it as whitespace. */
  lemma SplitWordsBlank(u: string, w: string)
    requires TrimStart(u, Whitespace) == []
    requires forall i :: 0 <= i < |w| ==> IsSpace(w[i])
    ensures SplitWords(u + w) == []
  {
    assert forall i :: 0 <= i < |u| ==> Drops(Whitespace, u[i]);
    assert forall i :: 0 <= i < |u + w| ==> Drops(Whitespace, (u + w)[i]) by {
      assert forall i :: |u| <= i < |u + w| ==> (u + w)[i] == w[i - |u|];
    }
    TrimStartBlank(u + w, Whitespace);
  }

  /** The first word of `v + w` is the first word of `v` when `w` is whitespace. */
  lemma FirstWordAppend(v: string, w: string)
    requires forall i :: 0 <= i < |w| ==> IsSpace(w[i])
    ensures var n := WordLength(v);
      && WordLength(v + w) == n
      && (v + w)[..n] == v[..n]
      && (v + w)[n..] == v[n..] + w
  {
    assert w == [] || IsSpace(w[0]);
    WordLengthAppend(v, w);
    AppendSlices(v, w, WordLength(v));
  }

  lemma AppendSlices(v: string, w: string, n: nat)
    requires n <= |v|
    ensures (v + w)[..n] == v[..n] && (v + w)[n..] == v[n..] + w
  {
  }

  /** Trailing whitespace does not change the words. */
  lemma {:induction false} SplitWordsTrailing(u: string, w: string)
    requires forall i :: 0 <= i < |w| ==> IsSpace(w[i])
    ensures SplitWords(u + w) == SplitWords(u)
    decreases |u|
  {
    var v := TrimStart(u, Whitespace);
    if v == [] {
      SplitWordsBlank(u, w);
    } else {
      TrimStartAppend(u, w, Whitespace);
      var n := WordLength(v);
      FirstWordAppend(v, w);
      SplitWordsUnfold(u);
      SplitWordsUnfold(u + w);
      SplitWordsTrailing(v[n..], w);
    }
  }

  /** `str.split()` gives the same words as it gives after `lstrip()`. */
  lemma SplitWordsTrimStart(s: string)
    ensures SplitWords(TrimStart(s, Whitespace)) == SplitWords(s)
  {
    TrimStartNoop(TrimStart(s, Whitespace), Whitespace);
  }

  /** `rstrip()` cuts off a tail of whitespace. */
  lemma TrimEndTail(t: string)
    ensures var r := TrimEnd(t, Whitespace);
      && t == r + t[|r|..]
      && forall i :: 0 <= i < |t| - |r| ==> IsSpace(t[|r|..][i])
  {
    var r := TrimEnd(t, Whitespace);
    TakeDrop(t, |r|);
    forall i | 0 <= i < |t| - |r|
      ensures IsSpace(t[|r|..][i])
    {
      assert t[|r|..][i] == t[|r| + i] && Drops(Whitespace, t[|r| + i]);
    }
  }

  /** `str.split()` gives the same words with or without a `strip()` first. */
  lemma SplitWordsStrip(s: string)
    ensures SplitWords(StripSpaces(s)) == SplitWords(s)
  {
    var t := TrimStart(s, Whitespace);
    var r := TrimEnd(t, Whitespace);
    assert StripSpaces(s) == r;
    TrimEndTail(t);
    SplitWordsTrailing(r, t[|r|..]);
    SplitWordsTrimStart(s);
  }

  /** A string without whitespace is one run. */
  lemma {:induction false} WordLengthOfWord(s: string)
    requires NoSpace(s)
    ensures WordLength(s) == |s|
  {
    if s != [] {
      assert NoSpace(s[1..]) by {
        assert forall i :: 0 <= i < |s| - 1 ==> s[1..][i] == s[i + 1];
      }
      WordLengthOfWord(s[1..]);
    }
  }

  /** `lstrip()` removes a whitespace prefix entirely. */
  lemma {:induction false} TrimStartBlankPrefix(u: string, v: string)
    requires forall i :: 0 <= i < |u| ==> IsSpace(u[i])
    ensures TrimStart(u + v, Whitespace) == TrimStart(v, Whitespace)
    decreases |u|
  {
    if u == [] {
      assert u + v == v;
    } else {
      assert (u + v)[0] == u[0] && (u + v)[1..] == u[1..] + v;
      assert forall i :: 0 <= i < |u| - 1 ==> u[1..][i] == u[i + 1];
      TrimStartBlankPrefix(u[1..], v);
    }
  }

  /** Leading whitespace adds no word. */
  lemma SplitWordsBlankPrefix(u: string, v: string)
    requires forall i :: 0 <= i < |u| ==> IsSpace(u[i])
    ensures SplitWords(u + v) == SplitWords(v)
  {
    TrimStartBlankPrefix(u, v);
    SplitWordsTrimStart(u + v);
    SplitWordsTrimStart(v);
  }

  /** A word followed by nothing or by whitespace is the first word. */
  lemma SplitWordsWordThen(w: string, t: string)
    requires w != [] && NoSpace(w) && (t == [] || IsSpace(t[0]))
    ensures SplitWords(w + t) == [w] + SplitWords(t)
  {
    var s := w + t;
    assert s[0] == w[0];
    TrimStartNoop(s, Whitespace);
    WordLengthAppend(w, t);
    WordLengthOfWord(w);
    SplitWordsUnfold(s);
    assert s[..|w|] == w && s[|w|..] == t;
  }

  /** A non-whitespace character in front of nothing or of whitespace is a word of its
      own. */
  lemma SplitWordsConsBreak(c: char, x: string)
    requires !IsSpace(c) && (x == [] || IsSpace(x[0]))
    ensures SplitWords([c] + x) == [[c]] + SplitWords(x)
  {
    SplitWordsWordThen([c], x);
  }

  /** A string that starts with a word splits into that word and the words after it. */
  lemma SplitWordsFirst(x: string)
    requires x != [] && !IsSpace(x[0])
    ensures var n := WordLength(x);
      && x[..n] != [] && NoSpace(x[..n]) && (x[n..] == [] || IsSpace(x[n..][0]))
      && SplitWords(x) == [x[..n]] + SplitWords(x[n..])
  {
    WordLengthMaximal(x);
    TrimStartNoop(x, Whitespace);
    SplitWordsUnfold(x);
  }

  lemma PrependNoSpace(c: char, w: string)
    requires !IsSpace(c) && NoSpace(w)
    ensures NoSpace([c] + w)
  {
    assert forall i :: 1 <= i < |w| + 1 ==> ([c] + w)[i] == w[i - 1];
  }

  lemma PrependAtCut(c: char, x: string, n: nat)
    requires n <= |x|
    ensures [c] + x == ([c] + x[..n]) + x[n..]
  {
    assert x == x[..n] + x[n..];
  }

  /** A non-whitespace character in front of a word lengthens that word. */
  lemma SplitWordsConsJoin(c: char, x: string)
    requires !IsSpace(c) && x != [] && !IsSpace(x[0])
    ensures SplitWords(x) != []
    ensures SplitWords([c] + x) == [[c] + SplitWords(x)[0]] + SplitWords(x)[1..]
  {
    SplitWordsFirst(x);
    var n := WordLength(x);
    var w, t := x[..n], x[n..];
    var ws := SplitWords(t);
    PrependNoSpace(c, w);
    var cw := [c] + w;
    PrependAtCut(c, x, n);
    SplitWordsWordThen(cw, t);
    var sx := SplitWords(x);
    assert sx == [w] + ws;
    assert sx[0] == w && sx[1..] == ws;
    assert SplitWords([c] + x) == [cw] + ws;
  }

  lemma HeadTail(s: string)
    requires s != []
    ensures s == [s[0]] + s[1..]
  {
  }

  lemma SpaceBetween(w: string, t: string)
    ensures w + " " + t == w + (" " + t)
  {
  }

  lemma TakeDrop(s: string, n: nat)
    requires n <= |s|
    ensures s == s[..n] + s[n..]
  {
  }

  /** A string cut around position `n`. */
  lemma CutAround(s: string, n: nat)
    requires n < |s|
    ensures s == s[..n] + [s[n]] + s[n + 1..]
  {
  }

  /** A leading whitespace character adds no word. */
  lemma SplitWordsAfterSpace(x: string)
    requires x != [] && IsSpace(x[0])
    ensures SplitWords(x) == SplitWords(x[1..])
  {
    HeadTail(x);
    SplitWordsBlankPrefix([x[0]], x[1..]);
  }

  /** Unless it starts a run of whitespace, the first character of `s` is kept (as one
      space if it is whitespace) in front of the collapsed rest. */
  lemma CollapseSpacesTail(s: string)
    requires s != [] && !(IsSpace(s[0]) && |s| > 1 && IsSpace(s[1]))
    ensures CollapseSpaces(s)[1..] == CollapseSpaces(s[1..])
  {
  }

  /** One step of `CollapseSpacesSameWords` at a leading whitespace character. */
  lemma CollapseSameWordsAtSpace(s: string)
    requires s != [] && IsSpace(s[0])
    requires SplitWords(CollapseSpaces(s[1..])) == SplitWords(s[1..])
    ensures SplitWords(CollapseSpaces(s)) == SplitWords(s)
  {
    SplitWordsAfterSpace(s);
    if !(|s| > 1 && IsSpace(s[1])) {
      var c := CollapseSpaces(s);
      CollapseSpacesTail(s);
      SplitWordsAfterSpace(c);
    }
  }

  /** One step of `CollapseSpacesSameWords` at a leading non-whitespace character. */
  lemma CollapseSameWordsAtChar(s: string)
    requires s != [] && !IsSpace(s[0])
    requires SplitWords(CollapseSpaces(s[1..])) == SplitWords(s[1..])
    ensures SplitWords(CollapseSpaces(s)) == SplitWords(s)
  {
    var rest := CollapseSpaces(s[1..]);
    HeadTail(s);
    if s[1..] == [] || IsSpace(s[1..][0]) {
      SplitWordsConsBreak(s[0], s[1..]);
      SplitWordsConsBreak(s[0], rest);
    } else {
      SplitWordsConsJoin(s[0], s[1..]);
      SplitWordsConsJoin(s[0], rest);
    }
  }

  /** `re.sub(r'\s+', ' ', s)` does not change the words of `s`. */
  lemma {:induction false} CollapseSpacesSameWords(s: string)
    ensures SplitWords(CollapseSpaces(s)) == SplitWords(s)
    decreases |s|
  {
    if s != [] {
      CollapseSpacesSameWords(s[1..]);
      if IsSpace(s[0]) {
        CollapseSameWordsAtSpace(s);
      } else {
        CollapseSameWordsAtChar(s);
      }
    }
  }

  /** `" ".join(words)`: the separators add only whitespace. */
  function JoinWords(words: seq<string>): (r: string)
    ensures NonSpace(r) == NonSpace(Concat(words))
  {
    if words == [] then []
    else if |words| == 1 then
      assert words[1..] == [] && Concat(words) == words[0];
      words[0]
    else
      var rest := JoinWords(words[1..]);
      NonSpaceConcat(words[0] + " ", rest);
      NonSpaceConcat(words[0], " ");
      NonSpaceConcat(words[0], Concat(words[1..]));
      words[0] + " " + rest
  }

  /** Words without whitespace keep all their characters when run together. */
  lemma {:induction false} ConcatNonSpace(words: seq<string>)
    requires forall k :: 0 <= k < |words| ==> NoSpace(words[k])
    ensures NonSpace(Concat(words)) == Concat(words)
  {
    if words != [] {
      NonSpaceConcat(words[0], Concat(words[1..]));
      NonSpaceOfWord(words[0]);
      ConcatNonSpace(words[1..]);
    }
  }

  /** Joining non-empty words that hold no whitespace gives a trimmed, single-spaced
      string whose characters are spaces or characters of the words. */
  lemma {:induction false} JoinWordsNormal(words: seq<string>)
    requires forall k :: 0 <= k < |words| ==> words[k] != [] && NoSpace(words[k])
    ensures var r := JoinWords(words);
      && Trimmed(r) && SingleSpaced(r)
      && (words != [] ==> r != [] && r[0] == words[0][0])
      && (forall i :: 0 <= i < |r| ==> r[i] == ' ' || exists k :: 0 <= k < |words| && r[i] in words[k])
  {
    if |words| > 1 {
      var w, rest := words[0], words[1..];
      JoinWordsNormal(rest);
      var j := JoinWords(rest);
      var r := w + " " + j;
      assert r == JoinWords(words);
      forall i | 0 <= i < |r|
        ensures r[i] == ' ' || exists k :: 0 <= k < |words| && r[i] in words[k]
        ensures IsSpace(r[i]) ==> r[i] == ' '
      {
        if i < |w| {
          assert r[i] == w[i] && r[i] in words[0];
        } else if i > |w| {
          assert r[i] == j[i - |w| - 1];
          if r[i] != ' ' {
            var k :| 0 <= k < |rest| && r[i] in rest[k];
            assert rest[k] == words[k + 1];
          }
        }
      }
      forall a, b | 0 <= a < b < |r| && b == a + 1
        ensures !(IsSpace(r[a]) && IsSpace(r[b]))
      {
        if b < |w| {
          assert r[b] == w[b];
        } else if b == |w| {
          assert r[a] == w[|w| - 1];
        } else if b == |w| + 1 {
          assert r[b] == j[0];
        } else {
          assert r[a] == j[a - |w| - 1] && r[b] == j[b - |w| - 1];
        }
      }
      assert r[|r| - 1] == j[|j| - 1];
    } else if |words| == 1 {
      var w := words[0];
      assert forall i :: 0 <= i < |w| ==> !IsSpace(w[i]);
      assert forall i :: 0 <= i < |w| ==> w[i] in words[0];
    }
  }

  /** A word, one space and a string that starts with a word: the first word, then the
      words of the rest. */
  lemma SplitWordsSpaced(w: string, t: string)
    requires w != [] && NoSpace(w) && t != [] && !IsSpace(t[0])
    ensures SplitWords(w + " " + t) == [w] + SplitWords(t)
  {
    SpaceBetween(w, t);
    SplitWordsWordSpace(w, t);
  }

  lemma SplitWordsWordSpace(w: string, t: string)
    requires w != [] && NoSpace(w)
    ensures SplitWords(w + (" " + t)) == [w] + SplitWords(t)
  {
    SplitWordsWordBlank(w, " ", t);
  }

  /** A word, then whitespace, then anything: the word, then the words of the rest. */
  lemma SplitWordsWordBlank(w: string, u: string, t: string)
    requires w != [] && NoSpace(w)
    requires u != [] && forall i :: 0 <= i < |u| ==> IsSpace(u[i])
    ensures SplitWords(w + (u + t)) == [w] + SplitWords(t)
  {
    var ut := u + t;
    assert ut[0] == u[0];
    SplitWordsWordThen(w, ut);
    SplitWordsBlankPrefix(u, t);
  }

  /** A single word splits into itself. */
  lemma SplitWordsOfWord(w: string)
    requires w != [] && NoSpace(w)
    ensures SplitWords(w) == [w]
  {
    TrimStartNoop(w, Whitespace);
    WordLengthOfWord(w);
    SplitWordsUnfold(w);
    assert w[..|w|] == w;
    SplitWordsOfNothing(w[|w|..]);
  }

  lemma SplitWordsOfNothing(x: string)
    requires |x| == 0
    ensures SplitWords(x) == []
  {
  }

  /** `" ".join` puts one space after the first of two or more words. */
  lemma JoinWordsCons(w: string, rest: seq<string>)
    requires rest != []
    ensures JoinWords([w] + rest) == w + " " + JoinWords(rest)
  {
    assert ([w] + rest)[0] == w && ([w] + rest)[1..] == rest;
  }

  /** One step of `SplitJoinRoundTrip`: the first word in front of the joined rest. */
  lemma SplitJoinStep(words: seq<string>)
    requires |words| > 1 && words[0] != [] && NoSpace(words[0])
    requires JoinWords(words[1..]) != [] && !IsSpace(JoinWords(words[1..])[0])
    ensures SplitWords(JoinWords(words)) == [words[0]] + SplitWords(JoinWords(words[1..]))
  {
    SplitWordsSpaced(words[0], JoinWords(words[1..]));
  }

  lemma HeadRest<T>(s: seq<T>)
    requires |s| > 0
    ensures [s[0]] + s[1..] == s
  {
  }

  /** The step of `SplitJoinRoundTrip` for two or more words. */
  lemma SplitJoinRoundTripCons(words: seq<string>)
    requires |words| > 1
    requires forall k :: 0 <= k < |words| ==> words[k] != [] && NoSpace(words[k])
    requires SplitWords(JoinWords(words[1..])) == words[1..]
    ensures SplitWords(JoinWords(words)) == words
  {
    JoinRestStartsWithWord(words);
    SplitJoinStep(words);
    HeadRest(words);
  }

  /** Joining the words after the first gives a string that starts with a word. */
  lemma JoinRestStartsWithWord(words: seq<string>)
    requires |words| > 1
    requires forall k :: 0 <= k < |words| ==> words[k] != [] && NoSpace(words[k])
    ensures JoinWords(words[1..]) != [] && !IsSpace(JoinWords(words[1..])[0])
  {
    var rest := words[1..];
    assert forall k :: 0 <= k < |rest| ==> rest[k] == words[k + 1];
    JoinWordsNormal(rest);
  }

  /** Splitting `" ".join(words)` gives back the words, when none is empty or holds
      whitespace. */
  lemma {:induction false} SplitJoinRoundTrip(words: seq<string>)
    requires forall k :: 0 <= k < |words| ==> words[k] != [] && NoSpace(words[k])
    ensures SplitWords(JoinWords(words)) == words
  {
    if |words| == 0 {
      SplitWordsOfNothing(JoinWords(words));
    } else if |words| == 1 {
      SplitWordsOfWord(words[0]);
    } else {
      assert forall k :: 0 <= k < |words| - 1 ==> words[1..][k] == words[k + 1];
      SplitJoinRoundTrip(words[1..]);
      SplitJoinRoundTripCons(words);
    }
  }

  /** A trimmed, single-spaced string that is not one word is a word, one space and a
      shorter trimmed, single-spaced string that starts with a word. */
  lemma NormalSplitsAtSpace(s: string)
    requires s != [] && Trimmed(s) && SingleSpaced(s) && WordLength(s) < |s|
    ensures var n := WordLength(s);
      && n + 1 < |s| && s == s[..n] + " " + s[n + 1..]
      && s[..n] != [] && NoSpace(s[..n])
      && !IsSpace(s[n + 1..][0]) && Trimmed(s[n + 1..]) && SingleSpaced(s[n + 1..])
  {
    var n := WordLength(s);
    assert s[n] == ' ' && n + 1 < |s| && !IsSpace(s[n + 1]) by {
      WordLengthMaximal(s);
    }
    assert s[..n] != [] && NoSpace(s[..n]);
    NormalTail(s, n + 1);
    CutAround(s, n);
  }

  /** The tail of a trimmed, single-spaced string from a non-whitespace character on is
      trimmed and single-spaced. */
  lemma NormalTail(s: string, a: nat)
    requires a < |s| && Trimmed(s) && SingleSpaced(s) && !IsSpace(s[a])
    ensures !IsSpace(s[a..][0]) && Trimmed(s[a..]) && SingleSpaced(s[a..])
  {
    SingleSpacedSlice(s, a, |s|);
    var t := s[a..];
    assert t[0] == s[a] && t[|t| - 1] == s[|s| - 1];
  }

  /** A trimmed, single-spaced string is its own `" ".join(s.split())`. */
  lemma {:induction false} JoinSplitOfNormal(s: string)
    requires Trimmed(s) && SingleSpaced(s)
    ensures JoinWords(SplitWords(s)) == s
    decreases |s|
  {
    if s == [] {
      assert TrimStart(s, Whitespace) == [];
    } else if WordLength(s) == |s| {
      WordLengthOfWordRun(s);
      SplitWordsOfWord(s);
    } else {
      NormalSplitsAtSpace(s);
      var n := WordLength(s);
      var w, t := s[..n], s[n + 1..];
      JoinSplitOfNormal(t);
      SplitWordsSpaced(w, t);
      SplitWordsFirst(t);
      JoinWordsCons(w, SplitWords(t));
    }
  }

  /** A string that is one run holds no whitespace. */
  lemma WordLengthOfWordRun(s: string)
    requires WordLength(s) == |s|
    ensures NoSpace(s) && (s != [] ==> !IsSpace(s[0]))
  {
    assert s[..|s|] == s;
  }

  /** Two trimmed, single-spaced strings with the same words are equal. */
  lemma NormalFormIsUnique(a: string, b: string)
    requires Trimmed(a) && SingleSpaced(a) && Trimmed(b) && SingleSpaced(b)
    requires SplitWords(a) == SplitWords(b)
    ensures a == b
  {
    JoinSplitOfNormal(a);
    JoinSplitOfNormal(b);
  }

  /** `" ".join(s.split())`: trims the string and turns every run of whitespace into
      one space, keeping every other character in order. */
  function NormalizeSpaces(s: string): (r: string)
    ensures Trimmed(r) && SingleSpaced(r)
    ensures forall i :: 0 <= i < |r| ==> r[i] == ' ' || r[i] in s
    ensures NonSpace(r) == NonSpace(s)
    ensures SplitWords(r) == SplitWords(s)
  {
    var words := SplitWords(s);
    JoinWordsNormal(words);
    SplitJoinRoundTrip(words);
    SplitWordsChars(s);
    SplitWordsNonSpace(s);
    ConcatNonSpace(words);
    var r := JoinWords(words);
    assert forall i :: 0 <= i < |r| ==> r[i] == ' ' || r[i] in s by {
      forall i | 0 <= i < |r| && r[i] != ' '
        ensures r[i] in s
      {
        var k :| 0 <= k < |words| && r[i] in words[k];
        assert CharsIn(words[k], s);
        var j :| 0 <= j < |words[k]| && words[k][j] == r[i];
      }
    }
    r
  }

  function DigitChar(d: nat): (c: char)
    requires d < 10
    ensures '0' <= c <= '9'
  {
    ('0' as int + d) as char
  }

  /** `str(n)` / `f"{n}"` for a natural number: its decimal digits. */
  function Decimal(n: nat): (r: string)
    ensures |r| >= 1 && (n >= 10 ==> |r| >= 2)
    ensures forall i :: 0 <= i < |r| ==> '0' <= r[i] <= '9'
    ensures |r| > 1 ==> r[0] != '0'
  {
    if n < 10 then [DigitChar(n)] else Decimal(n / 10) + [DigitChar(n % 10)]
  }

  /** Different numbers have different decimal spellings. */
  lemma {:induction false} DecimalInjective(a: nat, b: nat)
    requires Decimal(a) == Decimal(b)
    ensures a == b
  {
    var da, db := Decimal(a), Decimal(b);
    if a >= 10 && b >= 10 {
      assert da[..|da| - 1] == Decimal(a / 10);
      assert db[..|db| - 1] == Decimal(b / 10);
      DecimalInjective(a / 10, b / 10);
      assert DigitChar(a % 10) == da[|da| - 1] == DigitChar(b % 10);
    } else if a < 10 && b < 10 {
      assert DigitChar(a) == da[0] == DigitChar(b);
    }
  }

  /** The number a string of decimal digits spells. */
  function DigitsValue(s: string): nat
    requires forall i :: 0 <= i < |s| ==> '0' <= s[i] <= '9'
  {
    if s == [] then 0 else 10 * DigitsValue(s[..|s| - 1]) + (s[|s| - 1] as int - '0' as int)
  }

  /** The numeral of `n` spells `n`. */
  lemma {:induction false} DecimalReadsBack(n: nat)
    ensures DigitsValue(Decimal(n)) == n
  {
    var d := Decimal(n);
    if n >= 10 {
      assert d[..|d| - 1] == Decimal(n / 10);
      DecimalReadsBack(n / 10);
    }
  }
}
