/**
 * The word-counting routine of the word counter window: `countWords`
 * trims the text, splits it on the regular expression `\s+` and returns
 * the number of pieces.  The Swing window around it is not modelled.
 */
module WordCounter {
  import opened Wrappers

  /**
   * The class `\s` of java.util.regex: space, and tab, line feed, vertical
   * tab, form feed, carriage return (U+0009 to U+000D).
   */
  predicate IsRegexSpace(c: char) {
    c == ' ' || '\t' <= c <= '\r'
  }

  /** The characters `String.trim()` strips: every code point up to U+0020. */
  predicate IsTrimmable(c: char) {
    c <= ' '
  }

  predicate AllTrimmable(s: string) {
    forall i | 0 <= i < |s| :: IsTrimmable(s[i])
  }

  predicate AllRegexSpace(s: string) {
    forall i | 0 <= i < |s| :: IsRegexSpace(s[i])
  }

  predicate NoRegexSpace(s: string) {
    forall i | 0 <= i < |s| :: !IsRegexSpace(s[i])
  }

  /** A string that `trim()` leaves as it is: empty, or not starting or ending in a trimmable character. */
  predicate IsTrimmed(s: string) {
    s == [] || (!IsTrimmable(s[0]) && !IsTrimmable(s[|s| - 1]))
  }

  // ---------------------------------------------------------------------
  // String.trim()
  // ---------------------------------------------------------------------

  /** Drops the leading trimmable characters: what is left is a suffix starting with a kept character. */
  function TrimStart(s: string): (r: string)
    ensures |r| <= |s| && r == s[|s| - |r|..]
    ensures r == [] || !IsTrimmable(r[0])
    ensures AllTrimmable(s[..|s| - |r|])
  {
    if s != [] && IsTrimmable(s[0]) then TrimStart(s[1..]) else s
  }

  /** Drops the trailing trimmable characters: what is left is a prefix ending in a kept character. */
  function TrimEnd(s: string): (r: string)
    ensures |r| <= |s| && r == s[..|r|]
    ensures r == [] || !IsTrimmable(r[|r| - 1])
    ensures AllTrimmable(s[|r|..])
  {
    if s != [] && IsTrimmable(s[|s| - 1]) then TrimEnd(s[..|s| - 1]) else s
  }

  /** `String.trim()`. */
  function Trim(s: string): (r: string)
    ensures IsTrimmed(r)
    ensures r == [] <==> AllTrimmable(s)
  {
    var front := TrimStart(s);
    var r := TrimEnd(front);
    assert r != [] ==> r[0] == front[0];
    r
  }

  lemma {:induction false} TrimStartOfPadded(w: string, t: string)
    requires AllTrimmable(w)
    ensures TrimStart(w + t) == TrimStart(t)
    decreases |w|
  {
    if w != [] {
      assert (w + t)[0] == w[0];
      assert (w + t)[1..] == w[1..] + t;
      TrimStartOfPadded(w[1..], t);
    } else {
      assert w + t == t;
    }
  }

  lemma {:induction false} TrimEndOfPadded(t: string, w: string)
    requires AllTrimmable(w)
    ensures TrimEnd(t + w) == TrimEnd(t)
    decreases |w|
  {
    if w != [] {
      assert (t + w)[..|t + w| - 1] == t + w[..|w| - 1];
      TrimEndOfPadded(t, w[..|w| - 1]);
    } else {
      assert t + w == t;
    }
  }

  lemma {:induction false} TrimStartOfSuffixPadded(t: string, w: string)
    requires AllTrimmable(w)
    ensures TrimStart(t) != [] ==> TrimStart(t + w) == TrimStart(t) + w
    ensures TrimStart(t) == [] ==> TrimStart(t + w) == []
    decreases |t|
  {
    if t == [] {
      assert t + w == w;
      TrimStartOfPadded(w, []);
      assert w + [] == w;
    } else if IsTrimmable(t[0]) {
      assert (t + w)[1..] == t[1..] + w;
      TrimStartOfSuffixPadded(t[1..], w);
    } else {
      assert (t + w)[0] == t[0];
    }
  }

  /** Trimmable padding at the end never changes what `trim()` returns. */
  lemma TrimIgnoresTrailing(t: string, w: string)
    requires AllTrimmable(w)
    ensures Trim(t + w) == Trim(t)
  {
    TrimStartOfSuffixPadded(t, w);
    if TrimStart(t) != [] {
      TrimEndOfPadded(TrimStart(t), w);
    }
  }

  /** Trimmable padding on either side never changes what `trim()` returns. */
  lemma TrimIgnoresPadding(w1: string, t: string, w2: string)
    requires AllTrimmable(w1) && AllTrimmable(w2)
    ensures Trim(w1 + t + w2) == Trim(t)
  {
    var u := t + w2;
    assert w1 + t + w2 == w1 + u;
    TrimStartOfPadded(w1, u);
    TrimOfSameStart(w1 + u, u);
    TrimIgnoresTrailing(t, w2);
  }

  lemma TrimOfSameStart(x: string, y: string)
    requires TrimStart(x) == TrimStart(y)
    ensures Trim(x) == Trim(y)
  {
  }

  /** `trim()` returns a string that is already trimmed unchanged. */
  lemma TrimOfTrimmed(s: string)
    requires IsTrimmed(s)
    ensures Trim(s) == s
  {
  }

  // ---------------------------------------------------------------------
  // String.split("\\s+")
  // ---------------------------------------------------------------------

  /** Position of the first `\s` character at or after k, or |s| when there is none. */
  function WordEnd(s: string, k: nat): (n: nat)
    requires k <= |s|
    ensures k <= n <= |s|
    ensures forall m | k <= m < n :: !IsRegexSpace(s[m])
    ensures n < |s| ==> IsRegexSpace(s[n])
    decreases |s| - k
  {
    if k == |s| || IsRegexSpace(s[k]) then k else WordEnd(s, k + 1)
  }

  /** End of the maximal run of `\s` characters starting at k: the greedy match of `\s+`. */
  function SpaceEnd(s: string, k: nat): (n: nat)
    requires k <= |s|
    ensures k <= n <= |s|
    ensures forall m | k <= m < n :: IsRegexSpace(s[m])
    ensures n < |s| ==> !IsRegexSpace(s[n])
    decreases |s| - k
  {
    if k == |s| || !IsRegexSpace(s[k]) then k else SpaceEnd(s, k + 1)
  }

  /** The pieces of s from position k on, cut at each maximal `\s` run, before Java drops trailing empty pieces. */
  function PiecesFrom(s: string, k: nat): (ps: seq<string>)
    requires k <= |s|
    ensures |ps| >= 1
    decreases |s| - k
  {
    var i := WordEnd(s, k);
    if i == |s| then [s[k..]]
    else [s[k..i]] + PiecesFrom(s, SpaceEnd(s, i))
  }

  /** Drops empty strings from the end, as `Pattern.split` with limit 0 does. */
  function DropTrailingEmpty(ps: seq<string>): (r: seq<string>)
    ensures |r| <= |ps| && r == ps[..|r|]
    ensures r == [] || r[|r| - 1] != []
    ensures forall i | |r| <= i < |ps| :: ps[i] == []
  {
    if ps != [] && ps[|ps| - 1] == [] then DropTrailingEmpty(ps[..|ps| - 1]) else ps
  }

  /** `s.split("\\s+")`: the input itself when nothing matches, otherwise the pieces without trailing empty ones. */
  function Split(s: string): seq<string> {
    if WordEnd(s, 0) == |s| then [s] else DropTrailingEmpty(PiecesFrom(s, 0))
  }

  // ---------------------------------------------------------------------
  // countWords and the reference count of words
  // ---------------------------------------------------------------------

  /** `countWords`: 0 for null or blank text, otherwise the number of pieces of the trimmed text. */
  function CountWords(text: Option<string>): nat {
    if text.None? || Trim(text.value) == [] then 0
    else |Split(Trim(text.value))|
  }

  /**
   * Reference count: the number of maximal runs of non-`\s` characters,
   * i.e. of positions holding a non-`\s` character that comes first or
   * follows a `\s` character; `afterSpace` says whether the position
   * before s counts as a boundary.
   */
  function RunsAfter(afterSpace: bool, s: string): nat
    decreases |s|
  {
    if s == [] then 0
    else (if afterSpace && !IsRegexSpace(s[0]) then 1 else 0) + RunsAfter(IsRegexSpace(s[0]), s[1..])
  }

  function Words(s: string): nat {
    RunsAfter(true, s)
  }

  /** A string of n characters holds at most n words. */
  lemma {:induction false} RunsAtMostLength(p: bool, s: string)
    ensures RunsAfter(p, s) <= |s|
    decreases |s|
  {
    if s != [] {
      RunsAtMostLength(IsRegexSpace(s[0]), s[1..]);
    }
  }

  /** Whether the position just after s is a boundary, given the one before s. */
  function EndsAfterSpace(afterSpace: bool, s: string): bool {
    if s == [] then afterSpace else IsRegexSpace(s[|s| - 1])
  }

  /** Counting runs distributes over concatenation, the boundary state carried across. */
  lemma {:induction false} RunsAfterConcat(p: bool, a: string, b: string)
    ensures RunsAfter(p, a + b) == RunsAfter(p, a) + RunsAfter(EndsAfterSpace(p, a), b)
    decreases |a|
  {
    if a == [] {
      assert a + b == b;
    } else {
      assert (a + b)[1..] == a[1..] + b;
      RunsAfterConcat(IsRegexSpace(a[0]), a[1..], b);
    }
  }

  lemma {:induction false} RunsOfSpaces(p: bool, w: string)
    requires AllRegexSpace(w)
    ensures RunsAfter(p, w) == 0
    decreases |w|
  {
    if w != [] {
      RunsOfSpaces(true, w[1..]);
    }
  }

  /** Over a stretch [k, i) of non-`\s` characters the count rises by one exactly when the stretch starts a run. */
  lemma {:induction false} RunsOverWord(p: bool, s: string, k: nat, i: nat)
    requires k < i <= |s|
    requires forall m | k <= m < i :: !IsRegexSpace(s[m])
    ensures RunsAfter(p, s[k..]) == (if p then 1 else 0) + RunsAfter(false, s[i..])
    decreases i - k
  {
    assert s[k..][1..] == s[k + 1..];
    if k + 1 < i {
      RunsOverWord(false, s, k + 1, i);
    }
  }

  /** Over a stretch [i, j) of `\s` characters the count does not rise, and a boundary follows it. */
  lemma {:induction false} RunsOverGap(p: bool, s: string, i: nat, j: nat)
    requires i < j <= |s|
    requires forall m | i <= m < j :: IsRegexSpace(s[m])
    ensures RunsAfter(p, s[i..]) == RunsAfter(true, s[j..])
    decreases j - i
  {
    assert s[i..][1..] == s[i + 1..];
    if i + 1 < j {
      RunsOverGap(true, s, i + 1, j);
    }
  }

  /**
   * From a position holding a non-`\s` character, on a string that does not
   * end in `\s`, the pieces are exactly the words: one per maximal run, none
   * of them empty or holding a `\s`.
   */
  lemma {:induction false} PiecesAreWords(s: string, k: nat)
    requires k < |s| && !IsRegexSpace(s[k]) && !IsRegexSpace(s[|s| - 1])
    ensures |PiecesFrom(s, k)| == RunsAfter(true, s[k..])
    ensures forall q | 0 <= q < |PiecesFrom(s, k)| :: PiecesFrom(s, k)[q] != [] && NoRegexSpace(PiecesFrom(s, k)[q])
    decreases |s| - k
  {
    var i := WordEnd(s, k);
    RunsOverWord(true, s, k, i);
    if i == |s| {
      assert s[i..] == [];
    } else {
      var j := SpaceEnd(s, i);
      RunsOverGap(false, s, i, j);
      PiecesAreWords(s, j);
      assert PiecesFrom(s, k) == [s[k..i]] + PiecesFrom(s, j);
    }
  }

  /** On trimmed, non-blank text the split keeps every piece: none is empty, none holds a `\s`. */
  lemma SplitOfTrimmed(s: string)
    requires s != [] && IsTrimmed(s)
    ensures |Split(s)| == Words(s) >= 1
    ensures forall q | 0 <= q < |Split(s)| :: Split(s)[q] != [] && NoRegexSpace(Split(s)[q])
  {
    PiecesAreWords(s, 0);
    assert s[0..] == s;
    RunsOverWord(true, s, 0, 1);
    var ps := PiecesFrom(s, 0);
    if WordEnd(s, 0) != |s| {
      assert ps[|ps| - 1] != [];
      assert DropTrailingEmpty(ps) == ps;
    }
  }

  /** `countWords` returns 0 exactly for null text and for text made only of trimmable characters. */
  lemma CountWordsZero(text: Option<string>)
    ensures CountWords(text) == 0 <==> text.None? || AllTrimmable(text.value)
  {
    if text.Some? && Trim(text.value) != [] {
      SplitOfTrimmed(Trim(text.value));
      RunsAtMostLength(true, Trim(text.value));
    }
  }

  /** For any other text the count is the number of maximal non-`\s` runs of the trimmed text, at least one. */
  lemma CountWordsIsWords(text: string)
    ensures CountWords(Some(text)) == Words(Trim(text))
    ensures !AllTrimmable(text) ==> CountWords(Some(text)) >= 1
  {
    if Trim(text) != [] {
      SplitOfTrimmed(Trim(text));
    }
  }

  /** The count never exceeds the length of the text, so Java's `int` result cannot wrap. */
  lemma CountWordsAtMostLength(text: string)
    ensures CountWords(Some(text)) <= |text|
  {
    CountWordsIsWords(text);
    RunsAtMostLength(true, Trim(text));
  }

  /** Leading and trailing whitespace (indeed any trimmable padding) does not change the count. */
  lemma CountWordsIgnoresPadding(w1: string, text: string, w2: string)
    requires AllTrimmable(w1) && AllTrimmable(w2)
    ensures CountWords(Some(w1 + text + w2)) == CountWords(Some(text))
  {
    TrimIgnoresPadding(w1, text, w2);
  }

  /** Between two words, a run of any number of `\s` characters counts as one separator. */
  lemma CountWordsCollapsesSeparators(a: string, w: string, b: string)
    requires a != [] && !IsTrimmable(a[0]) && b != [] && !IsTrimmable(b[|b| - 1])
    requires w != [] && AllRegexSpace(w)
    ensures CountWords(Some(a + w + b)) == CountWords(Some(a + " " + b))
  {
    var s1, s2 := a + w + b, a + " " + b;
    assert s1[0] == a[0] && s2[0] == a[0];
    assert s1[|s1| - 1] == b[|b| - 1] && s2[|s2| - 1] == b[|b| - 1];
    TrimOfTrimmed(s1);
    TrimOfTrimmed(s2);
    CountWordsIsWords(s1);
    CountWordsIsWords(s2);
    RunsAfterConcat(true, a + w, b);
    RunsAfterConcat(true, a, w);
    RunsAfterConcat(true, a + " ", b);
    RunsAfterConcat(true, a, " ");
    RunsOfSpaces(EndsAfterSpace(true, a), w);
    RunsOfSpaces(EndsAfterSpace(true, a), " ");
  }
}
