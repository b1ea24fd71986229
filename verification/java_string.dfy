/**
 The operations of java.lang.String that the harness relies on, over `seq<char>`:
 `contains`, `indexOf`, `startsWith`, `toLowerCase` (restricted to ASCII),
 `replaceAll` with the punctuation class `[\-\+!\.\^:,]`, and `split("\\s+")`.
 */
module JavaString {

  /** The characters of the regular-expression class `\s`: `[ \t\n\x0B\f\r]`. */
  predicate IsWhitespace(c: char) {
    c == ' ' || c == '\t' || c == '\n' || c == '\U{000B}' || c == '\U{000C}' || c == '\r'
  }

  /** The characters the regular-expression `.` does not match (no DOTALL flag). */
  predicate IsLineTerminator(c: char) {
    c == '\n' || c == '\r' || c == '\U{0085}' || c == '\U{2028}' || c == '\U{2029}'
  }

  /** The members of the class `[\-\+!\.\^:,]` that queries are stripped of. */
  predicate IsPunct(c: char) {
    c == '-' || c == '+' || c == '!' || c == '.' || c == '^' || c == ':' || c == ','
  }

  predicate IsUpper(c: char) {
    'A' <= c <= 'Z'
  }

  // ---------------------------------------------------------------------------
  // Searching: indexOf, contains, startsWith

  /** `t` occurs in `s` starting at index `i`. */
  ghost predicate OccursAt(s: string, t: string, i: int) {
    0 <= i && i + |t| <= |s| && s[i..i + |t|] == t
  }

  /** `s.indexOf(t, from)` for `from` within the string: the first occurrence at or after `from`, or -1. */
  function IndexFrom(s: string, t: string, from: nat): int
    requires from <= |s|
    decreases |s| - from
  {
    if from + |t| > |s| then -1
    else if s[from..from + |t|] == t then from
    else IndexFrom(s, t, from + 1)
  }

  /** `indexOf` returns -1 exactly when there is no occurrence at or after `from`, and otherwise the first one. */
  lemma {:induction false} IndexFromFirst(s: string, t: string, from: nat)
    requires from <= |s|
    ensures IndexFrom(s, t, from) == -1 || (from <= IndexFrom(s, t, from) && OccursAt(s, t, IndexFrom(s, t, from)))
    ensures IndexFrom(s, t, from) == -1 <==> forall j :: from <= j ==> !OccursAt(s, t, j)
    ensures IndexFrom(s, t, from) != -1 ==> forall j :: from <= j < IndexFrom(s, t, from) ==> !OccursAt(s, t, j)
    decreases |s| - from
  {
    if from + |t| <= |s| && s[from..from + |t|] != t {
      IndexFromFirst(s, t, from + 1);
    }
  }

  /** `s.indexOf(t)`. */
  function IndexOf(s: string, t: string): int {
    IndexFrom(s, t, 0)
  }

  /** `s.contains(t)`, which Java defines as `s.indexOf(t) >= 0`. */
  predicate Contains(s: string, t: string) {
    IndexOf(s, t) >= 0
  }

  /** `contains` holds exactly when `t` occurs somewhere in `s`. */
  lemma ContainsIff(s: string, t: string)
    ensures Contains(s, t) <==> exists i :: OccursAt(s, t, i)
  {
    IndexFromFirst(s, t, 0);
  }

  /** `s.startsWith(p)`. */
  predicate StartsWith(s: string, p: string) {
    |p| <= |s| && s[..|p|] == p
  }

  // ---------------------------------------------------------------------------
  // Character-wise rewriting

  /** `s.replaceAll("[\\-\\+!\\.\\^:,]", " ")`: every punctuation character becomes a space. */
  function ReplacePunct(s: string): (r: string)
    ensures |r| == |s|
  {
    if s == [] then []
    else [if IsPunct(s[0]) then ' ' else s[0]] + ReplacePunct(s[1..])
  }

  /** Punctuation becomes a space, every other character stays, and no punctuation is left. */
  lemma {:induction false} ReplacePunctSpec(s: string)
    ensures forall i :: 0 <= i < |s| && IsPunct(s[i]) ==> ReplacePunct(s)[i] == ' '
    ensures forall i :: 0 <= i < |s| && !IsPunct(s[i]) ==> ReplacePunct(s)[i] == s[i]
    ensures forall i :: 0 <= i < |s| ==> !IsPunct(ReplacePunct(s)[i])
  {
    if s != [] {
      ReplacePunctSpec(s[1..]);
      var r := ReplacePunct(s);
      assert forall i :: 0 < i < |s| ==> r[i] == ReplacePunct(s[1..])[i - 1] && s[i] == s[1..][i - 1];
    }
  }

  function LowerChar(c: char): char {
    if IsUpper(c) then (c as int + 32) as char else c
  }

  /** `s.toLowerCase()` on the ASCII letters; every other character is kept. */
  function LowerAscii(s: string): (r: string)
    ensures |r| == |s|
  {
    if s == [] then []
    else [LowerChar(s[0])] + LowerAscii(s[1..])
  }

  /** Each character is lower-cased on its own, so no upper-case letter is left. */
  lemma {:induction false} LowerAsciiSpec(s: string)
    ensures forall i :: 0 <= i < |s| ==> LowerAscii(s)[i] == LowerChar(s[i])
    ensures forall i :: 0 <= i < |s| ==> !IsUpper(LowerAscii(s)[i])
  {
    if s != [] {
      LowerAsciiSpec(s[1..]);
      var r := LowerAscii(s);
      assert forall i :: 0 < i < |s| ==> r[i] == LowerAscii(s[1..])[i - 1] && s[i] == s[1..][i - 1];
    }
  }

  /** Lower-casing twice is lower-casing once. */
  lemma LowerAsciiIdempotent(s: string)
    ensures LowerAscii(LowerAscii(s)) == LowerAscii(s)
  {
    var once := LowerAscii(s);
    LowerAsciiSpec(s);
    LowerAsciiSpec(once);
    assert forall i :: 0 <= i < |once| ==> LowerAscii(once)[i] == once[i];
  }

  // ---------------------------------------------------------------------------
  // Whitespace splitting

  /** A non-empty run of non-whitespace characters: what `split("\\s+")` keeps between separators. */
  predicate IsWord(w: string) {
    w != [] && forall i :: 0 <= i < |w| ==> !IsWhitespace(w[i])
  }

  /** The length of the non-whitespace run at the front of `s`. */
  function RunLength(s: string): (n: nat)
    ensures n <= |s|
  {
    if s == [] || IsWhitespace(s[0]) then 0 else 1 + RunLength(s[1..])
  }

  /** The run is maximal: no whitespace inside it, and whitespace or the end right after it. */
  lemma {:induction false} RunLengthSpec(s: string)
    ensures forall i :: 0 <= i < RunLength(s) ==> !IsWhitespace(s[i])
    ensures RunLength(s) == |s| || IsWhitespace(s[RunLength(s)])
  {
    if s != [] && !IsWhitespace(s[0]) {
      RunLengthSpec(s[1..]);
      assert forall i :: 0 < i < |s| ==> s[i] == s[1..][i - 1];
    }
  }

  /** The maximal non-whitespace runs of `s`, in order. */
  function Words(s: string): (ws: seq<string>)
    decreases |s|
  {
    if s == [] then []
    else if IsWhitespace(s[0]) then Words(s[1..])
    else
      var n := RunLength(s);
      [s[..n]] + Words(s[n..])
  }

  /** Every run is a word, and its characters come from `s`. */
  lemma {:induction false} WordsSpec(s: string)
    ensures forall i :: 0 <= i < |Words(s)| ==> IsWord(Words(s)[i])
    ensures forall w, c :: w in Words(s) && c in w ==> c in s
    decreases |s|
  {
    if s != [] {
      if IsWhitespace(s[0]) {
        WordsSpec(s[1..]);
        assert forall c :: c in s[1..] ==> c in s;
      } else {
        var n := RunLength(s);
        RunLengthSpec(s);
        WordsSpec(s[n..]);
        assert forall c :: c in s[..n] ==> c in s;
        assert forall c :: c in s[n..] ==> c in s;
        assert IsWord(s[..n]);
      }
    }
  }

  /** A whitespace character ends the run at the front: the run of `a + [c] + b` is the run of `a`. */
  lemma {:induction false} RunLengthCut(a: string, c: char, b: string)
    requires IsWhitespace(c)
    ensures RunLength(a + [c] + b) == RunLength(a)
  {
    if a == [] {
      assert a + [c] + b == [c] + b;
    } else if !IsWhitespace(a[0]) {
      assert (a + [c] + b)[1..] == a[1..] + [c] + b;
      RunLengthCut(a[1..], c, b);
    }
  }

  /**
   The runs of a string cut at a whitespace character are the runs on its left followed
   by the runs on its right: no run crosses a separator, none is lost, and their order is kept.
   */
  lemma {:induction false} WordsCut(a: string, c: char, b: string)
    requires IsWhitespace(c)
    ensures Words(a + [c] + b) == Words(a) + Words(b)
    decreases |a|
  {
    var s := a + [c] + b;
    if a == [] {
      assert s == [c] + b;
      assert s[1..] == b;
    } else if IsWhitespace(a[0]) {
      assert s[1..] == a[1..] + [c] + b;
      WordsCut(a[1..], c, b);
    } else {
      var m := RunLength(a);
      RunLengthCut(a, c, b);
      assert s[..m] == a[..m];
      assert s[m..] == a[m..] + [c] + b;
      WordsCut(a[m..], c, b);
    }
  }

  /** A word on its own is one run: the whole of it. */
  lemma WordsOfWord(w: string)
    requires IsWord(w)
    ensures Words(w) == [w]
  {
    RunLengthSpec(w);
    assert RunLength(w) == |w|;
    assert w[..|w|] == w;
    assert w[|w|..] == [];
  }

  /**
   `s.split("\\s+")`. Java cuts `s` at every maximal whitespace run, keeps the empty
   piece in front of a leading run, drops trailing empty pieces, and returns `[s]`
   when nothing matched; so "" gives [""], an all-whitespace string gives [], and a
   string that starts with whitespace gives a leading "".
   */
  function SplitWhitespace(s: string): (r: seq<string>) {
    if s == [] then [""]
    else if Words(s) == [] then []
    else (if IsWhitespace(s[0]) then [""] else []) + Words(s)
  }

  /** Only the first piece may be empty; every other piece is a word, made of characters of `s`. */
  lemma SplitWhitespaceSpec(s: string)
    ensures forall i :: 0 <= i < |SplitWhitespace(s)| ==> SplitWhitespace(s)[i] == [] || IsWord(SplitWhitespace(s)[i])
    ensures forall i :: 0 < i < |SplitWhitespace(s)| ==> IsWord(SplitWhitespace(s)[i])
    ensures forall w, c :: w in SplitWhitespace(s) && c in w ==> c in s
  {
    WordsSpec(s);
  }

  /** A word followed by a space is split off as that word. */
  lemma WordsAfterWord(w: string, rest: string)
    requires IsWord(w)
    ensures Words(w + " " + rest) == [w] + Words(rest)
  {
    var s := w + " " + rest;
    var n := RunLength(s);
    RunLengthSpec(s);
    assert s[|w|] == ' ';
    assert n == |w|;
    assert s[..n] == w;
    assert s[n..] == " " + rest;
    assert (" " + rest)[1..] == rest;
  }
}
