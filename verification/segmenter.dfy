/**
 The wiki-dump segmenter: `indexFile` reads a file line by line, drops heading,
 comment and (in the GOOD tier) category lines, starts a new document at every
 line holding a `[[Title]]` marker, and hands each (title, contents) pair to the
 index writer.

 The reference for its output is `SegmentFile`: the lines are classified, the
 classified lines are cut into a preamble and one section per title (`Split`,
 a right fold), and `Documents` says which documents the reader emits from that.
 */
module Segmenter {
  import opened Wrappers
  import opened JavaString
  import opened Watson

  /** A document handed to the index: its stored title and its stored contents. */
  datatype Doc = Doc(title: string, contents: string)

  // ---------------------------------------------------------------------------
  // The title pattern \[\[(.+?)\]\]

  /**
   The pattern matches at `p` with its group ending at `k`: `[[` at `p`, a group
   `s[p + 2..k]` of one or more characters none of which is a line terminator,
   and `]]` at `k`.
   */
  ghost predicate TitleAt(s: string, p: int, k: int) {
    0 <= p && p + 2 < k && k + 2 <= |s| && s[p..p + 2] == "[[" && s[k..k + 2] == "]]"
    && forall j :: p + 2 <= j < k ==> !IsLineTerminator(s[j])
  }

  /** The lazy group `(.+?)`: the first `]]` at or after `k` that the group can reach. */
  function CloseFrom(s: string, p: nat, k: nat): (r: Option<nat>)
    requires p + 2 < k <= |s| && s[p..p + 2] == "[["
    requires forall j :: p + 2 <= j < k ==> !IsLineTerminator(s[j])
    ensures r.Some? ==> k <= r.value && TitleAt(s, p, r.value)
    ensures r.Some? ==> forall m :: k <= m < r.value ==> !TitleAt(s, p, m)
    ensures r.None? ==> forall m :: k <= m ==> !TitleAt(s, p, m)
    decreases |s| - k
  {
    if k + 2 > |s| then None
    else if s[k..k + 2] == "]]" then Some(k)
    else if IsLineTerminator(s[k]) then None
    else CloseFrom(s, p, k + 1)
  }

  /**
   `matcher.find()` from position `from`: the leftmost start at which the pattern
   matches, and for that start the shortest group.
   */
  function MatchFrom(s: string, from: nat): (r: Option<(nat, nat)>)
    ensures r.Some? ==> from <= r.value.0 && TitleAt(s, r.value.0, r.value.1)
    ensures r.Some? ==> forall p, k :: from <= p && TitleAt(s, p, k) ==>
                                       r.value.0 < p || (r.value.0 == p && r.value.1 <= k)
    ensures r.None? ==> forall p, k :: from <= p ==> !TitleAt(s, p, k)
    decreases |s| - from
  {
    if from + 2 >= |s| then None
    else if s[from..from + 2] == "[[" && !IsLineTerminator(s[from + 2]) then
      match CloseFrom(s, from, from + 3)
      case Some(k) => Some((from, k))
      case None => MatchFrom(s, from + 1)
    else MatchFrom(s, from + 1)
  }

  /**
   `matcher.group(1)` after a successful `matcher.find()` on the whole line: there is a
   title exactly when the pattern matches somewhere, and it is the group of the leftmost
   match, taken as short as possible.
   */
  function FindTitle(line: string): (r: Option<string>)
    ensures r.None? <==> forall p, k :: !TitleAt(line, p, k)
    ensures r.Some? ==> exists p, k :: TitleAt(line, p, k) && r.value == line[p + 2..k]
                                       && forall p', k' :: TitleAt(line, p', k') ==> p < p' || (p == p' && k <= k')
  {
    match MatchFrom(line, 0)
    case Some((p, k)) => Some(line[p + 2..k])
    case None => None
  }

  // ---------------------------------------------------------------------------
  // Classifying lines

  /** What one line of the file contributes. */
  datatype LineKind = Skipped | TitleLine(title: string) | ContentLine(text: string)

  /**
   Lines the reader drops before looking for a title: those in which `==` occurs, those
   that start with `#`, and, in the GOOD tier only, those in which `CATEGORIES:` occurs.
   */
  predicate IsSkipped(configuration: Configuration, line: string) {
    (configuration == Good && Contains(line, "CATEGORIES:")) || Contains(line, "==") || StartsWith(line, "#")
  }

  /** The skip rule in terms of occurrences. */
  lemma IsSkippedIff(configuration: Configuration, line: string)
    ensures IsSkipped(configuration, line)
            <==> (configuration == Good && exists i :: OccursAt(line, "CATEGORIES:", i))
                 || (exists i :: OccursAt(line, "==", i)) || StartsWith(line, "#")
  {
    ContainsIff(line, "CATEGORIES:");
    ContainsIff(line, "==");
  }

  /**
   One line, classified: dropped when it is skipped; otherwise a title marker when the
   pattern matches in it, and content (lemmatised when so configured) when it does not.
   */
  function Classify(w: Setup, line: string): LineKind {
    if IsSkipped(w.configuration, line) then Skipped
    else match FindTitle(line)
      case Some(t) => TitleLine(t)
      case None => ContentLine(if w.isLemmatized then ListString(w.lemmatize(line)) else line)
  }

  /**
   A line is dropped exactly when it is skipped; a line that is kept is a title line
   exactly when the pattern matches in it, with the title `FindTitle` extracts, and is
   otherwise content, lemmatised and re-joined when so configured.
   */
  lemma ClassifySpec(w: Setup, line: string)
    ensures Classify(w, line).Skipped? <==> IsSkipped(w.configuration, line)
    ensures Classify(w, line).TitleLine? <==> !IsSkipped(w.configuration, line) && exists p, q :: TitleAt(line, p, q)
    ensures Classify(w, line).TitleLine? ==> FindTitle(line) == Some(Classify(w, line).title)
    ensures Classify(w, line).ContentLine? ==>
              Classify(w, line).text == if w.isLemmatized then ListString(w.lemmatize(line)) else line
  {
  }

  function Kinds(w: Setup, lines: seq<string>): (ks: seq<LineKind>)
    ensures |ks| == |lines|
  {
    seq(|lines|, i requires 0 <= i < |lines| => Classify(w, lines[i]))
  }

  // ---------------------------------------------------------------------------
  // The reference: preamble, sections, documents

  /** The content lines before the first title, then one section per title with the content lines up to the next. */
  datatype Layout = Layout(preamble: string, sections: seq<Doc>)

  function Split(ks: seq<LineKind>): Layout {
    if ks == [] then Layout("", [])
    else
      var rest := Split(ks[1..]);
      match ks[0]
      case Skipped => rest
      case TitleLine(t) => Layout("", [Doc(t, rest.preamble)] + rest.sections)
      case ContentLine(c) => Layout(c + " " + rest.preamble, rest.sections)
  }

  /**
   The documents the reader emits for a layout. Without a title everything goes to
   one document titled "". With one title the preamble is lost. With two or more the
   preamble is prepended to the first document's contents.
   */
  function Documents(l: Layout): seq<Doc> {
    if |l.sections| == 0 then [Doc("", l.preamble)]
    else if |l.sections| == 1 then l.sections
    else [Doc(l.sections[0].title, l.preamble + l.sections[0].contents)] + l.sections[1..]
  }

  /** The documents `indexFile` adds for a file with these lines. */
  function SegmentFile(w: Setup, lines: seq<string>): seq<Doc> {
    Documents(Split(Kinds(w, lines)))
  }

  /** The titles of the title lines, in order. */
  function Titles(ks: seq<LineKind>): seq<string> {
    if ks == [] then []
    else (if ks[0].TitleLine? then [ks[0].title] else []) + Titles(ks[1..])
  }

  /** The content lines, each followed by one space, in order. */
  function Text(ks: seq<LineKind>): string {
    if ks == [] then ""
    else (if ks[0].ContentLine? then ks[0].text + " " else "") + Text(ks[1..])
  }

  ghost predicate NoTitles(ks: seq<LineKind>) {
    forall i :: 0 <= i < |ks| ==> !ks[i].TitleLine?
  }

  /** All contents, concatenated in order. */
  function AllContents(docs: seq<Doc>): string {
    if docs == [] then "" else docs[0].contents + AllContents(docs[1..])
  }

  // ---------------------------------------------------------------------------
  // Properties of the reference

  /** A run of lines without a title only adds its text to the front of what follows. */
  lemma {:induction false} SplitTitleFree(body: seq<LineKind>, rest: seq<LineKind>)
    requires NoTitles(body)
    ensures Split(body + rest) == Layout(Text(body) + Split(rest).preamble, Split(rest).sections)
  {
    if body == [] {
      assert body + rest == rest;
    } else {
      var ks := body + rest;
      var tail := body[1..];
      assert ks[0] == body[0];
      assert ks[1..] == tail + rest;
      assert NoTitles(tail) by {
        forall i | 0 <= i < |tail|
          ensures !tail[i].TitleLine?
        {
          assert tail[i] == body[i + 1];
        }
      }
      SplitTitleFree(tail, rest);
      var after := Split(tail + rest);
      var r := Split(rest);
      assert after == Layout(Text(tail) + r.preamble, r.sections);
      if body[0].Skipped? {
        assert Text(body) == Text(tail);
        assert Split(ks) == after;
      } else {
        assert !body[0].TitleLine?;
        var c := body[0].text;
        assert Text(body) == c + " " + Text(tail);
        assert Split(ks) == Layout(c + " " + after.preamble, after.sections);
        AppendAssoc(c + " ", Text(tail), r.preamble);
      }
    }
  }

  lemma AppendAssoc(a: string, b: string, c: string)
    ensures a + (b + c) == a + b + c
  {
  }

  /** One section per title line, carrying that line's title, in line order. */
  lemma {:induction false} SplitTitles(ks: seq<LineKind>)
    ensures |Split(ks).sections| == |Titles(ks)|
    ensures forall j :: 0 <= j < |Titles(ks)| ==> Split(ks).sections[j].title == Titles(ks)[j]
  {
    if ks != [] {
      SplitTitles(ks[1..]);
    }
  }

  /** Nothing is lost or duplicated by the layout: the preamble and the sections together are all the text. */
  lemma {:induction false} SplitText(ks: seq<LineKind>)
    ensures Text(ks) == Split(ks).preamble + AllContents(Split(ks).sections)
  {
    if ks != [] {
      SplitText(ks[1..]);
      var rest := Split(ks[1..]);
      match ks[0]
      case Skipped =>
      case TitleLine(t) =>
        assert ([Doc(t, rest.preamble)] + rest.sections)[1..] == rest.sections;
      case ContentLine(c) =>
    }
  }

  /**
   One document per title line, titled with that line's title and in line order; a
   file without a title line gives exactly one document, titled "", holding all the text.
   */
  lemma DocumentTitles(w: Setup, lines: seq<string>)
    ensures var ks := Kinds(w, lines);
            var docs := SegmentFile(w, lines);
            && |docs| == (if |Titles(ks)| == 0 then 1 else |Titles(ks)|)
            && (forall j :: 0 <= j < |Titles(ks)| ==> docs[j].title == Titles(ks)[j])
            && (Titles(ks) == [] ==> docs == [Doc("", Text(ks))])
  {
    var ks := Kinds(w, lines);
    SplitTitles(ks);
    SplitText(ks);
    var l := Split(ks);
    assert l.preamble + "" == l.preamble;
  }

  /**
   Every content line lands in exactly one document, in order, except the lines
   before the first title when there is exactly one title: those are lost.
   */
  lemma ContentConserved(w: Setup, lines: seq<string>)
    ensures var ks := Kinds(w, lines);
            var l := Split(ks);
            Text(ks) == (if |Titles(ks)| == 1 then l.preamble else "") + AllContents(SegmentFile(w, lines))
  {
    var ks := Kinds(w, lines);
    var l := Split(ks);
    SplitTitles(ks);
    SplitText(ks);
    if |l.sections| >= 2 {
      assert l.sections == [l.sections[0]] + l.sections[1..];
    }
  }

  // The content assignment, stated on a file laid out explicitly as a preamble
  // followed by blocks, each block a title line and the lines up to the next title.

  function Blocks(blocks: seq<(string, seq<LineKind>)>): seq<LineKind> {
    if blocks == [] then [] else [TitleLine(blocks[0].0)] + blocks[0].1 + Blocks(blocks[1..])
  }

  function BlockSections(blocks: seq<(string, seq<LineKind>)>): (secs: seq<Doc>)
    ensures |secs| == |blocks|
  {
    seq(|blocks|, j requires 0 <= j < |blocks| => Doc(blocks[j].0, Text(blocks[j].1)))
  }

  lemma {:induction false} SplitBlocks(blocks: seq<(string, seq<LineKind>)>)
    requires forall j :: 0 <= j < |blocks| ==> NoTitles(blocks[j].1)
    ensures Split(Blocks(blocks)) == Layout("", BlockSections(blocks))
  {
    if blocks != [] {
      var rest := Blocks(blocks[1..]);
      var body := blocks[0].1;
      SplitBlocks(blocks[1..]);
      SplitTitleFree(body, rest);
      var ks := Blocks(blocks);
      assert ks == [TitleLine(blocks[0].0)] + (body + rest);
      assert ks[0] == TitleLine(blocks[0].0);
      assert ks[1..] == body + rest;
      assert Text(body) + "" == Text(body);
      assert BlockSections(blocks) == [Doc(blocks[0].0, Text(body))] + BlockSections(blocks[1..]);
    }
  }

  /**
   For lines laid out as a preamble P, then title t0 with body B0, ..., title t(n-1)
   with body B(n-1): document k >= 1 is (tk, text of Bk); document 0 is (t0, text of B0),
   preceded by the text of P only when n >= 2; with no title it is ("", text of P).
   */
  lemma ContentAssignment(pre: seq<LineKind>, blocks: seq<(string, seq<LineKind>)>)
    requires NoTitles(pre)
    requires forall j :: 0 <= j < |blocks| ==> NoTitles(blocks[j].1)
    ensures var docs := Documents(Split(pre + Blocks(blocks)));
            && |docs| == (if blocks == [] then 1 else |blocks|)
            && (blocks == [] ==> docs == [Doc("", Text(pre))])
            && (|blocks| == 1 ==> docs == [Doc(blocks[0].0, Text(blocks[0].1))])
            && (|blocks| >= 2 ==> docs[0] == Doc(blocks[0].0, Text(pre) + Text(blocks[0].1)))
            && (forall k :: 1 <= k < |blocks| ==> docs[k] == Doc(blocks[k].0, Text(blocks[k].1)))
  {
    SplitBlocks(blocks);
    SplitTitleFree(pre, Blocks(blocks));
    assert Text(pre) + "" == Text(pre);
  }

  /** Dropping a line that is skipped leaves the documents unchanged, wherever the line stood. */
  lemma SkippedLineIgnored(w: Setup, before: seq<string>, line: string, after: seq<string>)
    requires IsSkipped(w.configuration, line)
    ensures SegmentFile(w, before + [line] + after) == SegmentFile(w, before + after)
  {
    assert Kinds(w, before + [line] + after) == Kinds(w, before) + [Skipped] + Kinds(w, after);
    assert Kinds(w, before + after) == Kinds(w, before) + Kinds(w, after);
    SplitSkip(Kinds(w, before), Kinds(w, after));
  }

  lemma {:induction false} SplitSkip(a: seq<LineKind>, b: seq<LineKind>)
    ensures Split(a + [Skipped] + b) == Split(a + b)
  {
    if a == [] {
      assert a + [Skipped] + b == [Skipped] + b;
      assert ([Skipped] + b)[1..] == b;
      assert a + b == b;
    } else {
      assert (a + [Skipped] + b)[1..] == a[1..] + [Skipped] + b;
      assert (a + b)[1..] == a[1..] + b;
      SplitSkip(a[1..], b);
    }
  }

  /**
   A CATEGORIES: line is dropped in the GOOD tier only; in the other tiers a line that
   neither holds `==` nor starts with `#` is never dropped.
   */
  lemma CategoriesDroppedOnlyInGood(w: Setup, line: string)
    requires Contains(line, "CATEGORIES:")
    ensures w.configuration == Good ==> Classify(w, line) == Skipped
    ensures w.configuration != Good && !Contains(line, "==") && !StartsWith(line, "#") ==>
              Classify(w, line) != Skipped
  {
  }

  // ---------------------------------------------------------------------------
  // The reader's state, in terms of the layout of the lines read so far

  /** Growing a layout at its end: what one more line does to it. */
  function Extend(l: Layout, k: LineKind): Layout {
    match k
    case Skipped => l
    case TitleLine(t) => Layout(l.preamble, l.sections + [Doc(t, "")])
    case ContentLine(c) =>
      var n := |l.sections|;
      if n == 0 then Layout(l.preamble + c + " ", [])
      else Layout(l.preamble, l.sections[..n - 1] + [Doc(l.sections[n - 1].title, l.sections[n - 1].contents + c + " ")])
  }

  lemma {:induction false} SplitSnoc(ks: seq<LineKind>, k: LineKind)
    ensures Split(ks + [k]) == Extend(Split(ks), k)
  {
    if ks == [] {
      assert [k][1..] == [];
    } else {
      assert (ks + [k])[0] == ks[0];
      assert (ks + [k])[1..] == ks[1..] + [k];
      SplitSnoc(ks[1..], k);
      var rest := Split(ks[1..]);
      match ks[0]
      case Skipped =>
      case ContentLine(c) =>
      case TitleLine(t) =>
        var secs := [Doc(t, rest.preamble)] + rest.sections;
        if k.ContentLine? && |rest.sections| > 0 {
          var n := |rest.sections|;
          assert secs[..n] == [Doc(t, rest.preamble)] + rest.sections[..n - 1];
        }
    }
  }

  /** `wikiTitle` and `wikiTitleFinal`: the latest title, or "" before the first. */
  function LastTitle(l: Layout): string {
    if |l.sections| == 0 then "" else l.sections[|l.sections| - 1].title
  }

  /** `wikiContentFinal`: the text since the latest title, or all text before the first. */
  function LastContents(l: Layout): string {
    if |l.sections| == 0 then l.preamble else l.sections[|l.sections| - 1].contents
  }

  /** `wikiContent`: like `LastContents`, except that it still holds the preamble while only one title has been read. */
  function OpenContents(l: Layout): string {
    if |l.sections| == 1 then l.preamble + l.sections[0].contents else LastContents(l)
  }

  /** The documents already handed to the writer: all but the one still open. */
  function Emitted(l: Layout): seq<Doc> {
    var n := |l.sections|;
    if n <= 1 then [] else [Doc(l.sections[0].title, l.preamble + l.sections[0].contents)] + l.sections[1..n - 1]
  }

  // ---------------------------------------------------------------------------
  // The index writer and the reader loop

  /** The index being built; the model keeps the documents added to it, in order. */
  class IndexWriter {
    var docs: seq<Doc>

    constructor ()
      ensures docs == []
    {
      docs := [];
    }
  }

  /** `addDoc`: one document with the given title and contents is added to the index. */
  method AddDoc(writer: IndexWriter, title: string, content: string)
    modifies writer
    ensures writer.docs == old(writer.docs) + [Doc(title, content)]
  {
    writer.docs := writer.docs + [Doc(title, content)];
  }

  /** `indexFile`, with the file given as its lines. */
  method IndexFile(w: Setup, writer: IndexWriter, lines: seq<string>)
    modifies writer
    ensures writer.docs == old(writer.docs) + SegmentFile(w, lines)
  {
    var wikiTitle := "";
    var wikiTitleFinal := "";
    var wikiContentFinal := "";
    var wikiContentPrevFinish := false;
    var wikiContent := "";
    var firstTime := true;

    var i := 0;
    ghost var layout := Split(Kinds(w, lines[..0]));
    while i < |lines|
      invariant 0 <= i <= |lines|
      invariant layout == Split(Kinds(w, lines[..i]))
      invariant Reader(firstTime, wikiTitle, wikiTitleFinal, wikiContentFinal, wikiContent) == ReaderOf(layout)
      invariant writer.docs == old(writer.docs) + Emitted(layout)
    {
      var strLine := lines[i];
      if Contains(strLine, "CATEGORIES:") && w.configuration == Good {
        // dropped in the GOOD tier
        SkippedRead(w, lines, i);
      } else if Contains(strLine, "==") || StartsWith(strLine, "#") {
        // headings and comments are dropped
        SkippedRead(w, lines, i);
      } else {
        var title := FindTitle(strLine);
        if title.Some? {
          TitleRead(w, lines, i, title.value);
          TitleStep(layout, title.value, Reader(firstTime, wikiTitle, wikiTitleFinal, wikiContentFinal, wikiContent), old(writer.docs));
          layout := Extend(layout, TitleLine(title.value));
          wikiContentPrevFinish := true;
          wikiContentFinal := "";
          wikiTitleFinal := title.value;
          if wikiContentPrevFinish && !firstTime {
            AddDoc(writer, wikiTitle, wikiContent);
            wikiTitle := title.value;
            wikiContent := "";
          }
          if firstTime {
            firstTime := false;
            wikiTitle := title.value;
          }
        } else {
          if w.isLemmatized {
            strLine := ListToString(w.lemmatize(strLine));
          }
          ContentRead(w, lines, i, strLine);
          ContentStep(layout, strLine, Reader(firstTime, wikiTitle, wikiTitleFinal, wikiContentFinal, wikiContent));
          layout := Extend(layout, ContentLine(strLine));
          wikiContentFinal := wikiContentFinal + strLine + " ";
          wikiContent := wikiContent + strLine + " ";
        }
      }
      i := i + 1;
    }
    assert lines[..i] == lines;
    AddDoc(writer, wikiTitleFinal, wikiContentFinal);
    LastDocument(layout, old(writer.docs));
  }

  /** Reading a line one more step: its classification is added at the end of the layout. */
  lemma NextLine(w: Setup, lines: seq<string>, i: nat)
    requires i < |lines|
    ensures Split(Kinds(w, lines[..i + 1])) == Extend(Split(Kinds(w, lines[..i])), Classify(w, lines[i]))
  {
    assert lines[..i + 1] == lines[..i] + [lines[i]];
    assert Kinds(w, lines[..i + 1]) == Kinds(w, lines[..i]) + [Classify(w, lines[i])];
    SplitSnoc(Kinds(w, lines[..i]), Classify(w, lines[i]));
  }

  /** A dropped line leaves the layout as it was. */
  lemma SkippedRead(w: Setup, lines: seq<string>, i: nat)
    requires i < |lines| && IsSkipped(w.configuration, lines[i])
    ensures Split(Kinds(w, lines[..i + 1])) == Split(Kinds(w, lines[..i]))
  {
    NextLine(w, lines, i);
  }

  /** A title line opens a new section. */
  lemma TitleRead(w: Setup, lines: seq<string>, i: nat, t: string)
    requires i < |lines| && !IsSkipped(w.configuration, lines[i]) && FindTitle(lines[i]) == Some(t)
    ensures Split(Kinds(w, lines[..i + 1])) == Extend(Split(Kinds(w, lines[..i])), TitleLine(t))
  {
    NextLine(w, lines, i);
  }

  /** Any other line is content, lemmatised when so configured. */
  lemma ContentRead(w: Setup, lines: seq<string>, i: nat, c: string)
    requires i < |lines| && !IsSkipped(w.configuration, lines[i]) && FindTitle(lines[i]).None?
    requires c == if w.isLemmatized then ListString(w.lemmatize(lines[i])) else lines[i]
    ensures Split(Kinds(w, lines[..i + 1])) == Extend(Split(Kinds(w, lines[..i])), ContentLine(c))
  {
    NextLine(w, lines, i);
  }

  /** The reader's variables. */
  datatype Reader = Reader(firstTime: bool, wikiTitle: string, wikiTitleFinal: string,
                           wikiContentFinal: string, wikiContent: string)

  /** The values the reader's variables hold once the lines read so far have this layout. */
  function ReaderOf(l: Layout): Reader {
    Reader(|l.sections| == 0, LastTitle(l), LastTitle(l), LastContents(l), OpenContents(l))
  }

  /**
   A title line: the open document is handed over unless this is the first title, and
   `wikiContent` is cleared unless this is the first title.
   */
  lemma TitleStep(l: Layout, t: string, r: Reader, before: seq<Doc>)
    requires r == ReaderOf(l)
    ensures ReaderOf(Extend(l, TitleLine(t))) == Reader(false, t, t, "", if r.firstTime then r.wikiContent else "")
    ensures Emitted(Extend(l, TitleLine(t))) == Emitted(l) + (if r.firstTime then [] else [Doc(r.wikiTitle, r.wikiContent)])
    ensures before + Emitted(Extend(l, TitleLine(t)))
            == if r.firstTime then before + Emitted(l) else before + Emitted(l) + [Doc(r.wikiTitle, r.wikiContent)]
  {
    var n := |l.sections|;
    if n >= 2 {
      var secs := l.sections + [Doc(t, "")];
      assert secs[1..n] == l.sections[1..n - 1] + [l.sections[n - 1]];
    }
  }

  /** A content line: both buffers grow by the line and a space; nothing is handed over. */
  lemma ContentStep(l: Layout, c: string, r: Reader)
    requires r == ReaderOf(l)
    ensures ReaderOf(Extend(l, ContentLine(c)))
            == r.(wikiContentFinal := r.wikiContentFinal + c + " ", wikiContent := r.wikiContent + c + " ")
    ensures Emitted(Extend(l, ContentLine(c))) == Emitted(l)
  {
    var n := |l.sections|;
    if n >= 2 {
      var secs := Extend(l, ContentLine(c)).sections;
      assert secs[0] == l.sections[0];
      assert secs[1..n - 1] == l.sections[1..n - 1];
    }
  }

  /** The final `addDoc` with `wikiTitleFinal` and `wikiContentFinal` completes the documents of the layout. */
  lemma LastDocument(l: Layout, before: seq<Doc>)
    ensures Emitted(l) + [Doc(LastTitle(l), LastContents(l))] == Documents(l)
    ensures before + Emitted(l) + [Doc(LastTitle(l), LastContents(l))] == before + Documents(l)
  {
    var n := |l.sections|;
    if n >= 2 {
      assert l.sections[1..] == l.sections[1..n - 1] + [l.sections[n - 1]];
    }
  }
}
