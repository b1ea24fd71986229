/**
 The evaluation loop: `searchIndex` reads the questions file as four-line records
 (category, question, answer, separator), turns each question into a query, takes
 the top hit that `getTopHit` selects, and counts the records whose answer and top
 hit contain one another.
 */
module Evaluation {
  import opened Wrappers
  import opened JavaString
  import opened Watson

  /**
   The external index, as the loop sees it: whether the query parser accepts a query
   string, and the titles of the matching documents in ranking order (a document may
   have no stored title).
   */
  datatype Searcher = Searcher(parses: string -> bool, ranked: string -> seq<Option<string>>)

  /** The number of hits `getTopHit` asks the index for. */
  const MaxHits: nat := 200000

  /** `searcher.search(query, 200000)`: the best-ranked hits, at most `MaxHits` of them. */
  function Hits(searcher: Searcher, query: string): seq<Option<string>> {
    var all := searcher.ranked(query);
    if |all| <= MaxHits then all else all[..MaxHits]
  }

  /** The hits are a prefix of the ranking, at most `MaxHits` long, and all of it when it is shorter. */
  lemma HitsSpec(searcher: Searcher, query: string)
    ensures |Hits(searcher, query)| <= MaxHits
    ensures Hits(searcher, query) == searcher.ranked(query)[..|Hits(searcher, query)|]
    ensures |searcher.ranked(query)| <= MaxHits ==> Hits(searcher, query) == searcher.ranked(query)
    ensures |searcher.ranked(query)| > MaxHits ==> |Hits(searcher, query)| == MaxHits
  {
  }

  // ---------------------------------------------------------------------------
  // Query normalisation

  /**
   The question with every character of `[-+!.^:,]` replaced by a space; in the
   BETTER and BEST tiers followed by a space and the category, cleaned the same way
   and lower-cased.
   */
  function NormalizeQuery(configuration: Configuration, category: string, question: string): string {
    var quest := ReplacePunct(question);
    if configuration == Better || configuration == Best then quest + " " + LowerAscii(ReplacePunct(category))
    else quest
  }

  /**
   The query starts with the cleaned question; only the BETTER and BEST tiers append
   the cleaned, lower-cased category after one space; no punctuation of the class survives.
   */
  lemma NormalizeQuerySpec(configuration: Configuration, category: string, question: string)
    ensures |NormalizeQuery(configuration, category, question)|
            == (if configuration == Good then |question| else |question| + 1 + |category|)
    ensures NormalizeQuery(configuration, category, question)[..|question|] == ReplacePunct(question)
    ensures configuration != Good ==>
              NormalizeQuery(configuration, category, question)[|question|..] == " " + LowerAscii(ReplacePunct(category))
    ensures forall i :: 0 <= i < |NormalizeQuery(configuration, category, question)| ==>
              !IsPunct(NormalizeQuery(configuration, category, question)[i])
  {
    var quest := ReplacePunct(question);
    ReplacePunctSpec(question);
    ReplacePunctSpec(category);
    LowerAsciiSpec(ReplacePunct(category));
    if configuration != Good {
      var suffix := LowerAscii(ReplacePunct(category));
      var q := quest + " " + suffix;
      assert q[..|quest|] == quest;
      assert q[|quest|..] == " " + suffix;
      forall i | 0 <= i < |q|
        ensures !IsPunct(q[i])
      {
        if i > |quest| {
          assert q[i] == suffix[i - |quest| - 1];
          assert !IsPunct(ReplacePunct(category)[i - |quest| - 1]);
        }
      }
    } else {
      assert quest[..|question|] == quest;
    }
  }

  /** The query string handed to the parser: the normalised question, lemmatised and re-joined when so configured. */
  function Query(w: Setup, category: string, question: string): string {
    var q := NormalizeQuery(w.configuration, category, question);
    if w.isLemmatized then ListString(w.lemmatize(q)) else q
  }

  // ---------------------------------------------------------------------------
  // getTopHit

  /** The BEST-tier rejection of a title, with the tests in the order the source makes them. */
  predicate Rejected(w: Setup, title: string, quest: string) {
    Contains(quest, title) || Contains(title, quest) || IndexOf(quest, title) > -1
    || IndexOf(title, quest) > -1 || Present(w, title, quest)
  }

  /**
   The two `indexOf` tests repeat the two `contains` tests, so a title is rejected
   exactly when the title and the query contain one another or share a content word.
   */
  lemma RejectedIff(w: Setup, title: string, quest: string)
    ensures Rejected(w, title, quest)
            <==> (exists i :: OccursAt(quest, title, i)) || (exists i :: OccursAt(title, quest, i))
                 || exists t :: t in SplitWhitespace(LowerAscii(title)) && !IsStopWord(w, t) && t in SplitWhitespace(quest)
  {
    ContainsIff(quest, title);
    ContainsIff(title, quest);
    PresentSpec(w, title, quest);
  }

  /** A hit `getTopHit` may return: it has a title and, in the BEST tier, the title is not rejected. */
  predicate Acceptable(w: Setup, hit: Option<string>, quest: string) {
    hit.Some? && (w.configuration != Best || !Rejected(w, hit.value, quest))
  }

  /** The title of the first acceptable hit, or "no match". */
  function FirstAcceptable(w: Setup, hits: seq<Option<string>>, quest: string): string {
    if hits == [] then "no match"
    else if Acceptable(w, hits[0], quest) then hits[0].value
    else FirstAcceptable(w, hits[1..], quest)
  }

  /** What `getTopHit` returns for a ranked list: "NO HITS" for an empty list, otherwise the first acceptable title or "no match". */
  function TopHit(w: Setup, hits: seq<Option<string>>, quest: string): string {
    if hits == [] then "NO HITS" else FirstAcceptable(w, hits, quest)
  }

  /** The scan finds the first acceptable hit, and answers "no match" only when there is none. */
  lemma {:induction false} FirstAcceptableSpec(w: Setup, hits: seq<Option<string>>, quest: string)
    ensures (forall k :: 0 <= k < |hits| ==> !Acceptable(w, hits[k], quest))
            ==> FirstAcceptable(w, hits, quest) == "no match"
    ensures forall k :: (0 <= k < |hits| && Acceptable(w, hits[k], quest)
                         && forall j :: 0 <= j < k ==> !Acceptable(w, hits[j], quest))
                        ==> FirstAcceptable(w, hits, quest) == hits[k].value
  {
    if hits != [] && !Acceptable(w, hits[0], quest) {
      FirstAcceptableSpec(w, hits[1..], quest);
      forall k | 0 < k < |hits| && Acceptable(w, hits[k], quest)
                 && forall j :: 0 <= j < k ==> !Acceptable(w, hits[j], quest)
        ensures FirstAcceptable(w, hits[1..], quest) == hits[k].value
      {
        assert hits[1..][k - 1] == hits[k];
        assert forall j :: 0 <= j < k - 1 ==> hits[1..][j] == hits[j + 1];
      }
    }
  }

  /**
   `getTopHit`'s answer for a ranked list: "NO HITS" when the list is empty, "no match"
   when no hit is acceptable, and otherwise the title of the first acceptable hit.
   Outside the BEST tier the first acceptable hit is the first one with a title.
   */
  lemma TopHitSpec(w: Setup, hits: seq<Option<string>>, quest: string)
    ensures hits == [] ==> TopHit(w, hits, quest) == "NO HITS"
    ensures hits != [] && (forall k :: 0 <= k < |hits| ==> !Acceptable(w, hits[k], quest))
            ==> TopHit(w, hits, quest) == "no match"
    ensures forall k :: (0 <= k < |hits| && Acceptable(w, hits[k], quest)
                         && forall j :: 0 <= j < k ==> !Acceptable(w, hits[j], quest))
                        ==> TopHit(w, hits, quest) == hits[k].value
  {
    FirstAcceptableSpec(w, hits, quest);
  }

  /** `getTopHit`: runs the search and scans the hits in ranking order, returning at the first that qualifies. */
  method GetTopHit(w: Setup, searcher: Searcher, quest: string) returns (r: string)
    ensures r == TopHit(w, Hits(searcher, quest), quest)
  {
    var hits := Hits(searcher, quest);
    if |hits| == 0 {
      return "NO HITS";
    }
    assert hits[0..] == hits;
    for i := 0 to |hits|
      invariant TopHit(w, hits, quest) == FirstAcceptable(w, hits[i..], quest)
    {
      var title := hits[i];
      assert hits[i..][1..] == hits[i + 1..];
      if title.Some? {
        if w.configuration == Best {
          if Contains(quest, title.value) || Contains(title.value, quest) || IndexOf(quest, title.value) > -1
             || IndexOf(title.value, quest) > -1
          {
            // rejected: try the next hit
          } else {
            var present := IsPresent(w, title.value, quest);
            if !present {
              return title.value;
            }
          }
        } else {
          return title.value;
        }
      }
    }
    return "no match";
  }

  // ---------------------------------------------------------------------------
  // The record cycle and the tally

  /** The answer and the top hit count as a match when either occurs in the other. */
  predicate IsHit(result: string, ans: string) {
    Contains(result, ans) || Contains(ans, result)
  }

  /** A record is a hit exactly when its answer occurs in its top hit or its top hit occurs in its answer. */
  lemma IsHitIff(result: string, ans: string)
    ensures IsHit(result, ans) <==> (exists i :: OccursAt(result, ans, i)) || (exists i :: OccursAt(ans, result, i))
  {
    ContainsIff(result, ans);
    ContainsIff(ans, result);
  }

  /** The top hit for a record with this category line and question line. */
  function RecordResult(w: Setup, searcher: Searcher, category: string, question: string): string {
    var q := Query(w, category, question);
    TopHit(w, Hits(searcher, q), q)
  }

  /**
   `RecordResult` as a function of the two lines. The record cycle below is stated for
   any such function `top`, and the loop uses this one.
   */
  function Judge(w: Setup, searcher: Searcher): (string, string) -> string {
    (category, question) => RecordResult(w, searcher, category, question)
  }

  /**
   The (top hit, expected answer) pairs of the first `n` records: record `r` has its
   category on line 4r, its question on line 4r+1 and its answer on line 4r+2, and
   `top` gives the top hit of a category and a question.
   */
  function Outcomes(top: (string, string) -> string, lines: seq<string>, n: nat): (ps: seq<(string, string)>)
    requires 4 * n <= |lines| + 1
    ensures |ps| == n
  {
    if n == 0 then []
    else
      var r := n - 1;
      Outcomes(top, lines, r) + [(top(lines[4 * r], lines[4 * r + 1]), lines[4 * r + 2])]
  }

  /** Pair `r` is record `r`'s top hit and the answer on line 4r+2. */
  lemma {:induction false} OutcomesAt(top: (string, string) -> string, lines: seq<string>, n: nat, r: nat)
    requires 4 * n <= |lines| + 1 && r < n
    ensures Outcomes(top, lines, n)[r] == (top(lines[4 * r], lines[4 * r + 1]), lines[4 * r + 2])
  {
    if r < n - 1 {
      OutcomesAt(top, lines, n - 1, r);
    }
  }

  /** The hits among the pairs, counted from the last one back; never more than there are pairs. */
  function Tally(ps: seq<(string, string)>): (h: nat)
    ensures h <= |ps|
  {
    if ps == [] then 0
    else Tally(ps[..|ps| - 1]) + (if IsHit(ps[|ps| - 1].0, ps[|ps| - 1].1) then 1 else 0)
  }

  /** Adding one more pair adds one to the tally exactly when that pair is a hit. */
  lemma TallySnoc(ps: seq<(string, string)>, p: (string, string))
    ensures Tally(ps + [p]) == Tally(ps) + (if IsHit(p.0, p.1) then 1 else 0)
  {
    assert (ps + [p])[..|ps|] == ps;
  }

  /** One more record adds one to the tally exactly when its top hit and its answer contain one another. */
  lemma TallyNext(top: (string, string) -> string, lines: seq<string>, t: nat, result: string, ans: string)
    requires 4 * t + 3 <= |lines|
    requires result == top(lines[4 * t], lines[4 * t + 1]) && ans == lines[4 * t + 2]
    ensures Tally(Outcomes(top, lines, t + 1)) == Tally(Outcomes(top, lines, t)) + (if IsHit(result, ans) then 1 else 0)
  {
    var prev := Outcomes(top, lines, t);
    var pair := (result, ans);
    assert Outcomes(top, lines, t + 1) == prev + [pair];
    TallySnoc(prev, pair);
  }

  /** The pairs that are hits, by position. */
  ghost function HitPositions(ps: seq<(string, string)>): set<nat> {
    set r: nat | r < |ps| && IsHit(ps[r].0, ps[r].1)
  }

  /** The tally counts exactly the pairs that are hits. */
  lemma {:induction false} TallyCountsHits(ps: seq<(string, string)>)
    ensures Tally(ps) == |HitPositions(ps)|
  {
    if ps != [] {
      var n := |ps| - 1;
      var init := ps[..n];
      TallyCountsHits(init);
      var earlier := HitPositions(init);
      var hit := IsHit(ps[n].0, ps[n].1);
      assert Tally(ps) == Tally(init) + (if hit then 1 else 0);
      forall r: nat
        ensures r in HitPositions(ps) <==> r in earlier || (hit && r == n)
      {
        if r < n {
          assert ps[r] == init[r];
        }
      }
      if hit {
        assert HitPositions(ps) == earlier + {n};
        assert n !in earlier;
      } else {
        assert HitPositions(ps) == earlier;
      }
    }
  }

  /** The answer lines: those at an index of 2 modulo 4. */
  ghost function AnswerLines(m: nat): set<nat> {
    set i: nat | i < m && i % 4 == 2
  }

  /** A file of `m` lines has (m + 1) / 4 answer lines, the count the loop reports as its total. */
  lemma {:induction false} AnswerLineCount(m: nat)
    ensures |AnswerLines(m)| == (m + 1) / 4
  {
    if m > 0 {
      var k := m - 1;
      AnswerLineCount(k);
      Quarter(k);
      if k % 4 == 2 {
        assert AnswerLines(m) == AnswerLines(k) + {k};
      } else {
        assert AnswerLines(m) == AnswerLines(k);
      }
    }
  }

  /** One more line adds one to (m + 1) / 4 exactly when it is an answer line. */
  lemma Quarter(k: nat)
    ensures (k + 2) / 4 == (k + 1) / 4 + (if k % 4 == 2 then 1 else 0)
  {
    var q, r := k / 4, k % 4;
    assert k == 4 * q + r;
    assert (k + 1) / 4 == q + (if r == 3 then 1 else 0);
    assert (k + 2) / 4 == q + (if r >= 2 then 1 else 0);
  }

  /**
   Where line `ln` falls when `t` records have been counted before it: the count is
   (ln + 1) / 4, and the line is 4t + (ln mod 4), or 4t - 1 for a separator line.
   */
  lemma Phase(ln: nat, t: nat)
    requires 4 * t <= ln + 1 <= 4 * t + 3
    ensures t == (ln + 1) / 4
    ensures ln % 4 == 3 ==> ln + 1 == 4 * t
    ensures ln % 4 != 3 ==> ln == 4 * t + ln % 4
    ensures (ln + 1) % 4 == (if ln % 4 == 3 then 0 else ln % 4 + 1)
  {
    var q, r := ln / 4, ln % 4;
    assert ln == 4 * q + r;
    if r == 3 {
      assert t == q + 1;
      assert ln + 1 == 4 * (q + 1) + 0;
    } else {
      assert t == q;
      assert ln + 1 == 4 * q + (r + 1);
    }
  }

  /** Whether the parser accepts the query built from a category line and a question line. */
  function Accepts(w: Setup, searcher: Searcher): (string, string) -> bool {
    (category, question) => searcher.parses(Query(w, category, question))
  }

  /** Line `i`, read as a question line after its category line, is accepted. */
  predicate QuestionParses(accepts: (string, string) -> bool, lines: seq<string>, i: nat) {
    0 < i < |lines| ==> accepts(lines[i - 1], lines[i])
  }

  /**
   The question-line step of the loop that builds the query: strip punctuation, append
   the cleaned category in the BETTER and BEST tiers, and lemmatise when so configured.
   */
  method BuildQuery(w: Setup, category: string, question: string) returns (quest: string)
    ensures quest == Query(w, category, question)
  {
    quest := question;
    quest := ReplacePunct(quest);
    if w.configuration == Better || w.configuration == Best {
      quest := quest + " " + LowerAscii(ReplacePunct(category));
    }
    if w.isLemmatized {
      quest := ListToString(w.lemmatize(quest));
    }
  }

  /**
   How the loop ends: with its two counters, or with the parse error raised by the
   query of a question line (which the source does not catch).
   */
  datatype Evaluation = Finished(hitCount: nat, totalCount: nat) | ParseFailure(lineNumber: nat)

  /** The loop variables that survive from one line to the next. */
  datatype Progress = Progress(category: string, result: string, hitCount: nat, totalCount: nat)

  /**
   Reading line `ln`: a category line is remembered, a question line yields the
   record's top hit, an answer line counts the record (as a hit when it and the top
   hit contain one another), and a separator line changes nothing.
   */
  function Advance(top: (string, string) -> string, p: Progress, ln: nat, line: string): Progress {
    if ln % 4 == 0 then p.(category := line)
    else if ln % 4 == 1 then p.(result := top(p.category, line))
    else if ln % 4 == 2 then p.(hitCount := p.hitCount + (if IsHit(p.result, line) then 1 else 0),
                                totalCount := p.totalCount + 1)
    else p
  }

  /** The loop variables after the first `n` lines, when every query on the way parsed. */
  function ScanTo(top: (string, string) -> string, lines: seq<string>, n: nat): Progress
    requires n <= |lines|
  {
    if n == 0 then Progress("", "", 0, 0)
    else Advance(top, ScanTo(top, lines, n - 1), n - 1, lines[n - 1])
  }

  /**
   What holds of the loop variables before line `ln` is read: the category of the
   current record when the next line is its question, the top hit of the current
   record when the next line is its answer, and the records counted so far and their hits.
   */
  ghost predicate Scanning(top: (string, string) -> string, lines: seq<string>, ln: nat, p: Progress) {
    && ln <= |lines|
    && (ln % 4 == 1 ==> p.category == lines[ln - 1])
    && (ln % 4 == 2 ==> p.result == top(lines[ln - 2], lines[ln - 1]))
    && 4 * p.totalCount <= ln + 1 <= 4 * p.totalCount + 3
    && p.hitCount == Tally(Outcomes(top, lines, p.totalCount))
  }

  /** A category line is remembered for the question that follows it. */
  lemma CategoryStep(top: (string, string) -> string, lines: seq<string>, ln: nat, p: Progress)
    requires Scanning(top, lines, ln, p)
    requires ln < |lines| && ln % 4 == 0
    ensures Scanning(top, lines, ln + 1, Advance(top, p, ln, lines[ln]))
  {
    Phase(ln, p.totalCount);
  }

  /** A question line yields the record's top hit. */
  lemma QuestionStep(top: (string, string) -> string, lines: seq<string>, ln: nat, p: Progress)
    requires Scanning(top, lines, ln, p)
    requires ln < |lines| && ln % 4 == 1
    ensures Scanning(top, lines, ln + 1, Advance(top, p, ln, lines[ln]))
  {
    Phase(ln, p.totalCount);
  }

  /** An answer line closes the record: it is counted, and counted as a hit when it and the top hit contain one another. */
  lemma AnswerStep(top: (string, string) -> string, lines: seq<string>, ln: nat, p: Progress)
    requires Scanning(top, lines, ln, p)
    requires ln < |lines| && ln % 4 == 2
    ensures Scanning(top, lines, ln + 1, Advance(top, p, ln, lines[ln]))
  {
    var t := p.totalCount;
    Phase(ln, t);
    assert ln - 2 == 4 * t && ln - 1 == 4 * t + 1 && ln == 4 * t + 2;
    TallyNext(top, lines, t, p.result, lines[ln]);
  }

  /** The separator line changes nothing but the line number. */
  lemma SeparatorStep(top: (string, string) -> string, lines: seq<string>, ln: nat, p: Progress)
    requires Scanning(top, lines, ln, p)
    requires ln < |lines| && ln % 4 == 3
    ensures Scanning(top, lines, ln + 1, Advance(top, p, ln, lines[ln]))
  {
    Phase(ln, p.totalCount);
  }

  /** Every prefix of the file leaves the loop variables in the state `Scanning` describes. */
  lemma {:induction false} ScanToScanning(top: (string, string) -> string, lines: seq<string>, n: nat)
    requires n <= |lines|
    ensures Scanning(top, lines, n, ScanTo(top, lines, n))
  {
    if n == 0 {
      assert Outcomes(top, lines, 0) == [];
    } else {
      var ln := n - 1;
      var p := ScanTo(top, lines, ln);
      ScanToScanning(top, lines, ln);
      if ln % 4 == 0 {
        CategoryStep(top, lines, ln, p);
      } else if ln % 4 == 1 {
        QuestionStep(top, lines, ln, p);
      } else if ln % 4 == 2 {
        AnswerStep(top, lines, ln, p);
      } else {
        SeparatorStep(top, lines, ln, p);
      }
    }
  }

  /**
   After the whole file the loop has counted (m + 1) / 4 records, the number of answer
   lines, and its hit count is the tally of their outcomes.
   */
  lemma ScanToEnd(top: (string, string) -> string, lines: seq<string>)
    ensures ScanTo(top, lines, |lines|).totalCount == (|lines| + 1) / 4
    ensures ScanTo(top, lines, |lines|).hitCount == Tally(Outcomes(top, lines, (|lines| + 1) / 4))
  {
    var p := ScanTo(top, lines, |lines|);
    ScanToScanning(top, lines, |lines|);
    Phase(|lines|, p.totalCount);
  }

  /** Before a question line the remembered category is the line just read. */
  lemma CategoryBeforeQuestion(top: (string, string) -> string, lines: seq<string>, ln: nat)
    requires ln <= |lines| && ln % 4 == 1
    ensures ScanTo(top, lines, ln).category == lines[ln - 1]
  {
    ScanToScanning(top, lines, ln);
  }

  // ---------------------------------------------------------------------------
  // Parse failures

  /** The first question line before line `n` whose query the parser rejects, if any. */
  function FirstRejection(accepts: (string, string) -> bool, lines: seq<string>, n: nat): Option<nat> {
    if n == 0 then None
    else if FirstRejection(accepts, lines, n - 1).Some? then FirstRejection(accepts, lines, n - 1)
    else if (n - 1) % 4 == 1 && !QuestionParses(accepts, lines, n - 1) then Some(n - 1)
    else None
  }

  /**
   There is no rejection exactly when every question line is accepted; a rejection is a
   question line that is not accepted, and every question line before it is.
   */
  lemma {:induction false} FirstRejectionSpec(accepts: (string, string) -> bool, lines: seq<string>, n: nat)
    ensures FirstRejection(accepts, lines, n).None?
            <==> forall i: nat :: i < n && i % 4 == 1 ==> QuestionParses(accepts, lines, i)
    ensures FirstRejection(accepts, lines, n).Some? ==>
              var k := FirstRejection(accepts, lines, n).value;
              && k < n && k % 4 == 1 && !QuestionParses(accepts, lines, k)
              && forall i: nat :: i < k && i % 4 == 1 ==> QuestionParses(accepts, lines, i)
  {
    if n > 0 {
      FirstRejectionSpec(accepts, lines, n - 1);
    }
  }

  /** Reading further lines does not move the first rejection. */
  lemma {:induction false} FirstRejectionStays(accepts: (string, string) -> bool, lines: seq<string>, n: nat, m: nat)
    requires n <= m && FirstRejection(accepts, lines, n).Some?
    ensures FirstRejection(accepts, lines, m) == FirstRejection(accepts, lines, n)
    decreases m - n
  {
    if n < m {
      FirstRejectionStays(accepts, lines, n, m - 1);
    }
  }

  // ---------------------------------------------------------------------------
  // searchIndex

  /**
   What `searchIndex` returns for the lines of a questions file: the parse error of the
   first question line whose query is rejected, if there is one, and otherwise the two
   counters the loop ends with.
   */
  function Evaluate(w: Setup, searcher: Searcher, lines: seq<string>): Evaluation {
    match FirstRejection(Accepts(w, searcher), lines, |lines|)
    case Some(ln) => ParseFailure(ln)
    case None =>
      var p := ScanTo(Judge(w, searcher), lines, |lines|);
      Finished(p.hitCount, p.totalCount)
  }

  /**
   The evaluation finishes exactly when every question line's query parses; it then
   counts one record per answer line (a line whose index is 2 modulo 4) and counts as
   hits the records whose top hit and answer contain one another, so never more hits
   than records. Otherwise it fails at the first question line whose query the
   parser rejects.
   */
  lemma EvaluateSpec(w: Setup, searcher: Searcher, lines: seq<string>)
    ensures Evaluate(w, searcher, lines).Finished?
            <==> forall i: nat :: i < |lines| && i % 4 == 1 ==> QuestionParses(Accepts(w, searcher), lines, i)
    ensures Evaluate(w, searcher, lines).Finished? ==>
              && Evaluate(w, searcher, lines).totalCount == (|lines| + 1) / 4
              && Evaluate(w, searcher, lines).hitCount == Tally(Outcomes(Judge(w, searcher), lines, (|lines| + 1) / 4))
    ensures Evaluate(w, searcher, lines).Finished? ==>
              && Evaluate(w, searcher, lines).totalCount == |AnswerLines(|lines|)|
              && Evaluate(w, searcher, lines).hitCount == |HitPositions(Outcomes(Judge(w, searcher), lines, (|lines| + 1) / 4))|
              && Evaluate(w, searcher, lines).hitCount <= Evaluate(w, searcher, lines).totalCount
    ensures Evaluate(w, searcher, lines).ParseFailure? ==>
              var ln := Evaluate(w, searcher, lines).lineNumber;
              && ln < |lines| && ln % 4 == 1 && !QuestionParses(Accepts(w, searcher), lines, ln)
              && forall i: nat :: i < ln && i % 4 == 1 ==> QuestionParses(Accepts(w, searcher), lines, i)
  {
    FirstRejectionSpec(Accepts(w, searcher), lines, |lines|);
    ScanToEnd(Judge(w, searcher), lines);
    AnswerLineCount(|lines|);
    TallyCountsHits(Outcomes(Judge(w, searcher), lines, (|lines| + 1) / 4));
  }

  /** Reading a category line replaces the remembered category and asks nothing of the parser. */
  lemma CategoryRead(top: (string, string) -> string, accepts: (string, string) -> bool, lines: seq<string>, ln: nat)
    requires FirstRejection(accepts, lines, ln).None? && ln < |lines| && ln % 4 == 0
    ensures FirstRejection(accepts, lines, ln + 1).None?
    ensures ScanTo(top, lines, ln + 1) == ScanTo(top, lines, ln).(category := lines[ln])
  {
  }

  /** A question line whose query the parser rejects, after every earlier one was accepted, is where the evaluation fails. */
  lemma QuestionRejected(w: Setup, searcher: Searcher, lines: seq<string>, ln: nat, category: string, quest: string)
    requires FirstRejection(Accepts(w, searcher), lines, ln).None? && ln < |lines| && ln % 4 == 1
    requires category == lines[ln - 1] && quest == Query(w, category, lines[ln]) && !searcher.parses(quest)
    ensures Evaluate(w, searcher, lines) == ParseFailure(ln)
  {
    assert FirstRejection(Accepts(w, searcher), lines, ln + 1) == Some(ln);
    FirstRejectionStays(Accepts(w, searcher), lines, ln + 1, |lines|);
  }

  /** A question line whose query the parser accepts yields the record's top hit. */
  lemma QuestionAnswered(w: Setup, searcher: Searcher, lines: seq<string>, ln: nat, category: string, quest: string,
                         result: string)
    requires FirstRejection(Accepts(w, searcher), lines, ln).None? && ln < |lines| && ln % 4 == 1
    requires category == lines[ln - 1] && quest == Query(w, category, lines[ln]) && searcher.parses(quest)
    requires result == TopHit(w, Hits(searcher, quest), quest)
    ensures FirstRejection(Accepts(w, searcher), lines, ln + 1).None?
    ensures ScanTo(Judge(w, searcher), lines, ln + 1) == ScanTo(Judge(w, searcher), lines, ln).(result := result)
  {
    assert QuestionParses(Accepts(w, searcher), lines, ln);
    CategoryBeforeQuestion(Judge(w, searcher), lines, ln);
  }

  /** Reading an answer line counts the record, and counts it as a hit when its top hit and the answer contain one another. */
  lemma AnswerRead(top: (string, string) -> string, accepts: (string, string) -> bool, lines: seq<string>, ln: nat)
    requires FirstRejection(accepts, lines, ln).None? && ln < |lines| && ln % 4 == 2
    ensures FirstRejection(accepts, lines, ln + 1).None?
    ensures var p := ScanTo(top, lines, ln);
            ScanTo(top, lines, ln + 1)
            == p.(hitCount := if IsHit(p.result, lines[ln]) then p.hitCount + 1 else p.hitCount, totalCount := p.totalCount + 1)
  {
  }

  /** Reading a separator line changes nothing. */
  lemma SeparatorRead(top: (string, string) -> string, accepts: (string, string) -> bool, lines: seq<string>, ln: nat)
    requires FirstRejection(accepts, lines, ln).None? && ln < |lines| && ln % 4 == 3
    ensures FirstRejection(accepts, lines, ln + 1).None?
    ensures ScanTo(top, lines, ln + 1) == ScanTo(top, lines, ln)
  {
  }

  /** At the end of the file, with every query accepted, the evaluation is the two counters. */
  lemma EndOfFile(w: Setup, searcher: Searcher, lines: seq<string>, p: Progress)
    requires FirstRejection(Accepts(w, searcher), lines, |lines|).None?
    requires p == ScanTo(Judge(w, searcher), lines, |lines|)
    ensures Evaluate(w, searcher, lines) == Finished(p.hitCount, p.totalCount)
  {
  }

  /**
   `searchIndex`, with the questions file given as its lines: reads them in the record
   cycle, and a rejected query ends it with that line's parse error.
   */
  method SearchIndex(w: Setup, searcher: Searcher, lines: seq<string>) returns (e: Evaluation)
    ensures e == Evaluate(w, searcher, lines)
  {
    var category := "";
    var quest := "";
    var ans := "";
    var result := "";
    var hitCount := 0;
    var lineNumber := 0;
    var totalCount := 0;
    ghost var top, accepts := Judge(w, searcher), Accepts(w, searcher);

    while lineNumber < |lines|
      invariant lineNumber <= |lines|
      invariant Progress(category, result, hitCount, totalCount) == ScanTo(top, lines, lineNumber)
      invariant FirstRejection(accepts, lines, lineNumber).None?
    {
      var strLine := lines[lineNumber];
      if lineNumber % 4 == 0 {
        CategoryRead(top, accepts, lines, lineNumber);
        category := strLine;
      } else if lineNumber % 4 == 1 {
        CategoryBeforeQuestion(top, lines, lineNumber);
        quest := BuildQuery(w, category, strLine);
        if !searcher.parses(quest) {
          QuestionRejected(w, searcher, lines, lineNumber, category, quest);
          return ParseFailure(lineNumber);
        }
        result := GetTopHit(w, searcher, quest);
        QuestionAnswered(w, searcher, lines, lineNumber, category, quest, result);
      } else if lineNumber % 4 == 2 {
        AnswerRead(top, accepts, lines, lineNumber);
        ans := strLine;
        if Contains(result, ans) || Contains(ans, result) {
          hitCount := hitCount + 1;
        }
        totalCount := totalCount + 1;
      } else {
        SeparatorRead(top, accepts, lines, lineNumber);
      }
      lineNumber := lineNumber + 1;
    }
    EndOfFile(w, searcher, lines, Progress(category, result, hitCount, totalCount));
    return Finished(hitCount, totalCount);
  }
}
