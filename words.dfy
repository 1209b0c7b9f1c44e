/** Word counting as done by Python's no-argument `str.split()`: a word is a
    maximal run of characters that are not whitespace, and leading, trailing
    and repeated whitespace produce no empty words. */
module Words {

  /** The code points of the characters for which Python's `str.isspace()`
      holds; these are the separators `str.split()` uses when it is given no
      argument. */
  const SpaceCodes: set<int> := {
    0x09, 0x0A, 0x0B, 0x0C, 0x0D, 0x1C, 0x1D, 0x1E, 0x1F, 0x20, 0x85, 0xA0, 0x1680,
    0x2000, 0x2001, 0x2002, 0x2003, 0x2004, 0x2005, 0x2006, 0x2007, 0x2008, 0x2009, 0x200A,
    0x2028, 0x2029, 0x202F, 0x205F, 0x3000
  }

  predicate IsSpace(c: char) {
    c as int in SpaceCodes
  }

  /** Empty or made of whitespace only. */
  predicate IsBlank(s: string) {
    forall i :: 0 <= i < |s| ==> IsSpace(s[i])
  }

  /** A non-empty string with no whitespace in it. */
  predicate IsWord(w: string) {
    |w| > 0 && forall i :: 0 <= i < |w| ==> !IsSpace(w[i])
  }

  /** `w` occurs in `s` at position `p` as a whole word: it has no
      whitespace, and the characters just before and just after it, if
      there are any, are whitespace. */
  predicate IsWordAt(s: string, p: int, w: string) {
    0 <= p && p + |w| <= |s| && s[p..p + |w|] == w && IsWord(w) &&
    (p == 0 || IsSpace(s[p - 1])) && (p + |w| == |s| || IsSpace(s[p + |w|]))
  }

  /** Position `i` of `s` is a word boundary: no word of `s` is under way
      there, so a word can begin at `i`. */
  predicate AtBoundary(s: string, i: nat)
    requires i <= |s|
  {
    i == 0 || i == |s| || IsSpace(s[i - 1]) || IsSpace(s[i])
  }

  /** The end of the run of whitespace that starts at `i`. */
  function SpaceRun(s: string, i: nat): (j: nat)
    requires i <= |s|
    ensures i <= j <= |s|
    ensures forall m :: i <= m < j ==> IsSpace(s[m])
    ensures j == |s| || !IsSpace(s[j])
    decreases |s| - i
  {
    if i == |s| || !IsSpace(s[i]) then i else SpaceRun(s, i + 1)
  }

  /** The end of the run of non-whitespace characters that starts at `i`. */
  function WordRun(s: string, i: nat): (j: nat)
    requires i <= |s|
    ensures i <= j <= |s|
    ensures forall m :: i <= m < j ==> !IsSpace(s[m])
    ensures j == |s| || IsSpace(s[j])
    decreases |s| - i
  {
    if i == |s| || IsSpace(s[i]) then i else WordRun(s, i + 1)
  }

  /** The words of `s` from position `i` on. */
  function SplitFrom(s: string, i: nat): (words: seq<string>)
    requires i <= |s|
    ensures forall k :: 0 <= k < |words| ==> IsWord(words[k])
    decreases |s| - i
  {
    var j := SpaceRun(s, i);
    if j == |s| then []
    else
      var e := WordRun(s, j);
      var rest := SplitFrom(s, e);
      assert IsWord(s[j..e]);
      assert forall k :: 1 <= k <= |rest| ==> ([s[j..e]] + rest)[k] == rest[k - 1];
      [s[j..e]] + rest
  }

  /** `s.split()`: the maximal runs of non-whitespace characters, in order;
      `WordPosition` shows where each of them lies in `s`. */
  function Split(s: string): seq<string> {
    SplitFrom(s, 0)
  }

  /** Whether a word begins at position `i` of `s`. */
  predicate WordBeginsAt(s: string, i: nat)
    requires i < |s|
  {
    !IsSpace(s[i]) && (i == 0 || IsSpace(s[i - 1]))
  }

  /** The number of positions from `i` on at which a word begins. */
  function StartsFrom(s: string, i: nat): nat
    requires i <= |s|
    decreases |s| - i
  {
    if i == |s| then 0
    else (if WordBeginsAt(s, i) then 1 else 0) + StartsFrom(s, i + 1)
  }

  /** No word begins inside a run of whitespace. */
  lemma {:induction false} StartsSkipSpace(s: string, i: nat)
    requires i <= |s|
    ensures StartsFrom(s, i) == StartsFrom(s, SpaceRun(s, i))
    decreases |s| - i
  {
    if i < |s| && IsSpace(s[i]) {
      StartsSkipSpace(s, i + 1);
    }
  }

  /** No word begins inside a word: from a position just after a
      non-whitespace character, the first beginning is past the word. */
  lemma {:induction false} StartsInWord(s: string, i: nat)
    requires 0 < i <= |s| && !IsSpace(s[i - 1])
    ensures StartsFrom(s, i) == StartsFrom(s, WordRun(s, i))
    decreases |s| - i
  {
    if i < |s| && !IsSpace(s[i]) {
      StartsInWord(s, i + 1);
    }
  }

  /** From a word boundary on, `SplitFrom` finds one word per word beginning. */
  lemma {:induction false} SplitFromLength(s: string, i: nat)
    requires i <= |s| && AtBoundary(s, i)
    ensures |SplitFrom(s, i)| == StartsFrom(s, i)
    decreases |s| - i
  {
    StartsSkipSpace(s, i);
    var j := SpaceRun(s, i);
    if j < |s| {
      var e := WordRun(s, j);
      assert WordBeginsAt(s, j);
      StartsInWord(s, j + 1);
      SplitFromLength(s, e);
    }
  }

  /** `len(s.split())`, computed as the number of positions of `s` at which
      a word begins. */
  function WordCount(s: string): (n: nat)
    ensures n == |Split(s)|
  {
    SplitFromLength(s, 0);
    StartsFrom(s, 0)
  }

  /** The characters of `s` that are not whitespace, in order. */
  function NonSpace(s: string): string {
    if s == [] then []
    else (if IsSpace(s[0]) then [] else [s[0]]) + NonSpace(s[1..])
  }

  function Concat(words: seq<string>): string {
    if words == [] then [] else words[0] + Concat(words[1..])
  }

  lemma NonSpaceStep(s: string, i: nat)
    requires i < |s|
    ensures NonSpace(s[i..]) == (if IsSpace(s[i]) then [] else [s[i]]) + NonSpace(s[i + 1..])
  {
    assert s[i..][1..] == s[i + 1..];
  }

  /** A run of whitespace contributes nothing to `NonSpace`. */
  lemma {:induction false} NonSpaceSkipSpace(s: string, i: nat)
    requires i <= |s|
    ensures NonSpace(s[i..]) == NonSpace(s[SpaceRun(s, i)..])
    decreases |s| - i
  {
    if i < |s| && IsSpace(s[i]) {
      NonSpaceStep(s, i);
      NonSpaceSkipSpace(s, i + 1);
    }
  }

  /** A run of non-whitespace characters comes through `NonSpace` whole. */
  lemma {:induction false} NonSpaceWordRun(s: string, i: nat)
    requires i <= |s|
    ensures NonSpace(s[i..]) == s[i..WordRun(s, i)] + NonSpace(s[WordRun(s, i)..])
    decreases |s| - i
  {
    if i < |s| && !IsSpace(s[i]) {
      NonSpaceStep(s, i);
      NonSpaceWordRun(s, i + 1);
      assert s[i..WordRun(s, i)] == [s[i]] + s[i + 1..WordRun(s, i)];
    }
  }

  lemma {:induction false} SplitFromKeepsNonSpace(s: string, i: nat)
    requires i <= |s|
    ensures Concat(SplitFrom(s, i)) == NonSpace(s[i..])
    decreases |s| - i
  {
    NonSpaceSkipSpace(s, i);
    var j := SpaceRun(s, i);
    if j < |s| {
      var e := WordRun(s, j);
      NonSpaceWordRun(s, j);
      SplitFromKeepsNonSpace(s, e);
      assert SplitFrom(s, i)[1..] == SplitFrom(s, e);
    }
  }

  /** Gluing the words of `s.split()` back together gives exactly the
      non-whitespace characters of `s`: splitting loses only whitespace. */
  lemma SplitKeepsNonSpace(s: string)
    ensures Concat(Split(s)) == NonSpace(s)
  {
    SplitFromKeepsNonSpace(s, 0);
    assert s[0..] == s;
  }

  /** Where the `k`-th word found from a word boundary `i` lies in `s`. */
  function WordPositionFrom(s: string, i: nat, k: nat): (p: nat)
    requires i <= |s| && AtBoundary(s, i) && k < |SplitFrom(s, i)|
    ensures i <= p && IsWordAt(s, p, SplitFrom(s, i)[k])
    decreases |s| - i
  {
    var j := SpaceRun(s, i);
    var e := WordRun(s, j);
    if k == 0 then
      assert SplitFrom(s, i)[0] == s[j..e];
      j
    else
      assert SplitFrom(s, i)[k] == SplitFrom(s, e)[k - 1];
      WordPositionFrom(s, e, k - 1)
  }

  /** Where the `k`-th word of `s.split()` begins in `s`. Its contract says
      that every word `s.split()` returns is a maximal run: it occurs in `s`
      between whitespace or the ends of `s`. */
  function WordPosition(s: string, k: nat): (p: nat)
    requires k < |Split(s)|
    ensures IsWordAt(s, p, Split(s)[k])
  {
    WordPositionFrom(s, 0, k)
  }

  /** A string has no words exactly when it is empty or all whitespace. */
  lemma WordCountZeroIffBlank(s: string)
    ensures WordCount(s) == 0 <==> IsBlank(s)
  {
    var j := SpaceRun(s, 0);
    if j < |s| {
      assert |Split(s)| > 0;
    }
  }
}
