/**
 The harness object itself: its configuration, the fixed stop-word table, the
 `listToString` joiner and the `isPresent` word-overlap test used by the BEST tier.
 */
module Watson {
  import opened JavaString

  /** The three quality tiers chosen at start-up. */
  datatype Configuration = Good | Better | Best

  /**
   The fields of a harness object that the modelled code reads. They are set once by
   the constructor and never change. `lemmatize` stands for the external NLP
   pipeline, which is only consulted when `isLemmatized` holds; `stopWords` is the
   hash set built from the stop-word table.
   */
  datatype Setup = Setup(configuration: Configuration, isLemmatized: bool, lemmatize: string -> seq<string>,
                         stopWords: set<string>)

  /** The constructor: keeps the chosen tier and lemmatisation flag and loads the stop-word table into a set. */
  function Create(configuration: Configuration, isLemmatized: bool, lemmatize: string -> seq<string>): (w: Setup)
    ensures w.configuration == configuration && w.isLemmatized == isLemmatized && w.lemmatize == lemmatize
    ensures w.stopWords == StopWords()
  {
    Setup(configuration, isLemmatized, lemmatize, StopWords())
  }

  // ---------------------------------------------------------------------------
  // listToString

  /** Every word followed by one space. */
  function Spaced(words: seq<string>): string {
    if words == [] then "" else words[0] + " " + Spaced(words[1..])
  }

  /** The string `listToString` builds: every word followed by one space, then one more space. */
  function ListString(words: seq<string>): string {
    Spaced(words) + " "
  }

  function TotalLength(words: seq<string>): nat {
    if words == [] then 0 else |words[0]| + TotalLength(words[1..])
  }

  lemma {:induction false} SpacedSnoc(words: seq<string>, w: string)
    ensures Spaced(words + [w]) == Spaced(words) + w + " "
  {
    if words == [] {
      assert [w][1..] == [];
    } else {
      assert (words + [w])[1..] == words[1..] + [w];
      SpacedSnoc(words[1..], w);
    }
  }

  /** Builds the joined string with a loop that appends to a buffer. */
  method ListToString(words: seq<string>) returns (r: string)
    ensures r == ListString(words)
  {
    var sb := "";
    for i := 0 to |words|
      invariant sb == Spaced(words[..i])
    {
      SpacedSnoc(words[..i], words[i]);
      assert words[..i + 1] == words[..i] + [words[i]];
      sb := sb + words[i];
      sb := sb + " ";
    }
    assert words[..|words|] == words;
    sb := sb + " ";
    r := sb;
  }

  /** The output has one space per word plus a trailing one; an empty list gives a single space. */
  lemma {:induction false} ListStringLength(words: seq<string>)
    ensures |ListString(words)| == TotalLength(words) + |words| + 1
    ensures words == [] ==> ListString(words) == " "
  {
    SpacedLength(words);
  }

  lemma {:induction false} SpacedLength(words: seq<string>)
    ensures |Spaced(words)| == TotalLength(words) + |words|
  {
    if words != [] {
      SpacedLength(words[1..]);
    }
  }

  /** Words separated by single spaces come back out of the whitespace splitter unchanged. */
  lemma {:induction false} WordsOfSpaced(words: seq<string>, tail: string)
    requires forall i :: 0 <= i < |words| ==> IsWord(words[i])
    ensures Words(Spaced(words) + tail) == words + Words(tail)
  {
    if words == [] {
      assert Spaced(words) + tail == tail;
    } else {
      WordsOfSpaced(words[1..], tail);
      assert Spaced(words) + tail == words[0] + " " + (Spaced(words[1..]) + tail);
      WordsAfterWord(words[0], Spaced(words[1..]) + tail);
      assert words == [words[0]] + words[1..];
    }
  }

  /**
   `listToString` and `split("\\s+")` are inverse on lists of words: joining and
   re-splitting returns the list, the empty list included.
   */
  lemma SplitListString(words: seq<string>)
    requires forall i :: 0 <= i < |words| ==> IsWord(words[i])
    ensures SplitWhitespace(ListString(words)) == words
  {
    WordsOfSpaced(words, " ");
    assert Words(" ") == [];
    if words != [] {
      assert ListString(words)[0] == words[0][0];
    }
  }

  // ---------------------------------------------------------------------------
  // Stop words

  /** `stopWordsArray`: the stop-word table, in the source's order. */
  const StopWordsArray: seq<string> := [
    "a", "about", "above", "after", "again", "against", "all", "am", "an", "and", "any", "are", "as",
    "at", "be", "because", "been", "before", "being", "below", "between", "both", "but", "by", "could",
    "did", "do", "does", "doing", "down", "during", "each", "few", "for", "from", "further", "had",
    "has", "have", "having", "he", "he'd", "he'll", "he's", "her", "here", "here's", "hers", "herself",
    "him", "himself", "his", "how", "how's", "i", "i'd", "i'll", "i'm", "i've", "if", "in", "into",
    "is", "it", "it's", "its", "itself", "let's", "me", "more", "most", "my", "myself", "nor", "of",
    "on", "once", "only", "or", "other", "ought", "our", "ours", "ourselves", "out", "over", "own",
    "same", "she", "she'd", "she'll", "she's", "should", "so", "some", "such", "than", "that",
    "that's", "the", "their", "theirs", "them", "themselves", "then", "there", "there's", "these",
    "they", "they'd", "they'll", "they're", "they've", "this", "those", "through", "to", "too",
    "under", "until", "up", "very", "was", "we", "we'd", "we'll", "we're", "we've", "were", "what",
    "what's", "when", "when's", "where", "where's", "which", "while", "who", "who's", "whom", "why",
    "why's", "with", "would", "you", "you'd", "you'll", "you're", "you've", "your", "yours",
    "yourself", "yourselves"]

  /** The hash set the constructor loads the table into. */
  function StopWords(): set<string> {
    set t | t in StopWordsArray
  }

  /** Loading the table into the hash set neither adds nor loses a word. */
  lemma StopWordsLoaded()
    ensures forall i :: 0 <= i < |StopWordsArray| ==> StopWordsArray[i] in StopWords()
    ensures forall t :: t in StopWords() ==> exists i :: 0 <= i < |StopWordsArray| && StopWordsArray[i] == t
  {
  }

  /** Exact, case-sensitive membership in the stop-word set. */
  predicate IsStopWord(w: Setup, word: string) {
    word in w.stopWords
  }

  /**
   For a constructed harness, `isStopWord` holds exactly for the entries of the table:
   loading the array into a hash set neither adds nor loses a word.
   */
  lemma StopWordOfTable(configuration: Configuration, isLemmatized: bool, lemmatize: string -> seq<string>, word: string)
    ensures IsStopWord(Create(configuration, isLemmatized, lemmatize), word)
            <==> exists i :: 0 <= i < |StopWordsArray| && StopWordsArray[i] == word
  {
  }

  // ---------------------------------------------------------------------------
  // isPresent

  /**
   Scans `words` in order and stops at the first one that is not a stop word and is
   one of the question's tokens (the source keeps those in a hash set; only
   membership is asked of it).
   */
  function AnyContentWord(w: Setup, words: seq<string>, question: seq<string>): bool {
    if words == [] then false
    else if IsStopWord(w, words[0]) then AnyContentWord(w, words[1..], question)
    else if words[0] in question then true
    else AnyContentWord(w, words[1..], question)
  }

  /** The scan succeeds exactly when some word of the list is a content word of `question`. */
  lemma {:induction false} AnyContentWordSpec(w: Setup, words: seq<string>, question: seq<string>)
    ensures AnyContentWord(w, words, question)
            <==> exists i :: 0 <= i < |words| && !IsStopWord(w, words[i]) && words[i] in question
  {
    if words != [] {
      AnyContentWordSpec(w, words[1..], question);
      assert forall i :: 0 < i < |words| ==> words[i] == words[1..][i - 1];
      if !IsStopWord(w, words[0]) && words[0] !in question {
        assert forall i :: 0 <= i < |words[1..]| ==> words[1..][i] == words[i + 1];
      }
    }
  }

  /**
   What `isPresent(topHit, question)` answers: whether some whitespace token of the
   lower-cased title is not a stop word and is also a token of the question, which is
   not lower-cased.
   */
  function Present(w: Setup, topHit: string, question: string): bool {
    var topHitWords := SplitWhitespace(LowerAscii(topHit));
    var questionWords := SplitWhitespace(question);
    AnyContentWord(w, topHitWords, questionWords)
  }

  /** `isPresent`: walks the title's tokens, skipping stop words, and returns at the first one the question has. */
  method IsPresent(w: Setup, topHit: string, question: string) returns (b: bool)
    ensures b == Present(w, topHit, question)
  {
    var topHitWords := SplitWhitespace(LowerAscii(topHit));
    var questionWords := SplitWhitespace(question);
    assert topHitWords[0..] == topHitWords;
    for i := 0 to |topHitWords|
      invariant Present(w, topHit, question) == AnyContentWord(w, topHitWords[i..], questionWords)
    {
      assert topHitWords[i..][1..] == topHitWords[i + 1..];
      if IsStopWord(w, topHitWords[i]) {
        continue;
      } else if topHitWords[i] in questionWords {
        return true;
      }
    }
    return false;
  }

  /** The title and the question share a token that is not a stop word, the title's tokens taken lower-cased. */
  lemma PresentSpec(w: Setup, topHit: string, question: string)
    ensures Present(w, topHit, question)
            <==> exists t :: t in SplitWhitespace(LowerAscii(topHit)) && !IsStopWord(w, t) && t in SplitWhitespace(question)
  {
    AnyContentWordSpec(w, SplitWhitespace(LowerAscii(topHit)), SplitWhitespace(question));
  }

  /** Lower-casing the title beforehand changes nothing: the title side is compared case-insensitively. */
  lemma PresentIgnoresTitleCase(w: Setup, topHit: string, question: string)
    ensures Present(w, LowerAscii(topHit), question) == Present(w, topHit, question)
  {
    LowerAsciiIdempotent(topHit);
  }

  /**
   The question side is not lower-cased: when every token of the question carries an
   upper-case letter, no title can share a token with it.
   */
  lemma CapitalisedQuestionNeverMatches(w: Setup, topHit: string, question: string)
    requires forall t :: t in SplitWhitespace(question) ==> exists c :: c in t && IsUpper(c)
    ensures !Present(w, topHit, question)
  {
    var lower := LowerAscii(topHit);
    PresentSpec(w, topHit, question);
    LowerAsciiSpec(topHit);
    SplitWhitespaceSpec(lower);
    forall t | t in SplitWhitespace(lower)
      ensures forall c :: c in t ==> !IsUpper(c)
    {
    }
  }

  /** A title made only of stop words never overlaps the question, whatever the question. */
  lemma StopWordTitleNeverMatches(w: Setup, topHit: string, question: string)
    requires forall t :: t in SplitWhitespace(LowerAscii(topHit)) ==> IsStopWord(w, t)
    ensures !Present(w, topHit, question)
  {
    PresentSpec(w, topHit, question);
  }
}
