/** The text cleaner `clean_html` (main.py:109-118). The HTML parser is not part of
    the model: its output is given as the ordered list of text runs of the page with
    the h1-h6 headings already removed, which `get_text(separator='\n')` joins with
    newlines. Line splitting is done on '\n' only. */
module Normalizer {
  import opened Common
  import opened Strings

  /** Boilerplate markers: a line that contains either one is dropped. */
  const BenYehudaMarker := "פרויקט בן-יהודה"
  const VolunteersMarker := "הפיקו מתנדבי"

  /** How many lines the truncated rendering shows. */
  const LinesWhenTruncated := 50

  const DivOpen := "<div style='direction:rtl; text-align:right;'>"
  const DivClose := "</div>"
  const Ellipsis := "..."

  /** The three results of `clean_html`: the rendering, whether it was truncated, and the clean text. */
  datatype Cleaned = Cleaned(html: string, truncated: bool, text: string)

  /** The line filter of the list comprehension: not blank and free of both markers. */
  predicate Keep(line: string) {
    Strip(line) != [] && !Contains(line, BenYehudaMarker) && !Contains(line, VolunteersMarker)
  }

  /** The lines of `lines` that pass the filter, in their original order. */
  function KeepLines(lines: seq<string>): (kept: seq<string>)
    ensures forall i :: 0 <= i < |kept| ==> Keep(kept[i]) && kept[i] in lines
    ensures forall l :: l in lines && Keep(l) ==> l in kept
    ensures IsSubsequence(kept, lines)
  {
    if lines == [] then []
    else
      var rest := KeepLines(lines[1..]);
      if Keep(lines[0]) then [lines[0]] + rest
      else
        assert rest != [] ==> rest[0] != lines[0];
        rest
  }

  /** The filter keeps every copy of a line that passes, as many times as the page has it,
      and no copy of a line that fails. */
  lemma {:induction false} KeepLinesCounts(lines: seq<string>)
    ensures forall l :: multiset(KeepLines(lines))[l] == if Keep(l) then multiset(lines)[l] else 0
  {
    if lines != [] {
      KeepLinesCounts(lines[1..]);
      assert lines == [lines[0]] + lines[1..];
    }
  }

  /** The page text after `strip()`, cut into lines. */
  function PageLines(blocks: seq<string>): seq<string>
  {
    Split(Strip(Join(blocks, "\n")), '\n')
  }

  /** `clean_lines`: the page lines that survive the filter. */
  function SurvivingLines(blocks: seq<string>): seq<string>
  {
    KeepLines(PageLines(blocks))
  }

  function Div(body: string): string
  {
    DivOpen + body + DivClose
  }

  /** `clean_html(raw_html, max_words)`. The text is the full join of the surviving lines
      whatever the budget; only the rendering is cut, and then by a line count. */
  function Clean(blocks: seq<string>, maxWords: int): Cleaned
  {
    var lines := SurvivingLines(blocks);
    var text := Join(lines, "\n");
    if WordCount(text) <= maxWords then Cleaned(Div(Join(lines, "<br>")), false, text)
    else Cleaned(Div(Join(lines[..Min(LinesWhenTruncated, |lines|)], "<br>") + Ellipsis), true, text)
  }

  /** The clean text does not depend on the word budget. */
  lemma CleanTextIgnoresBudget(blocks: seq<string>, maxWords: int, otherBudget: int)
    ensures Clean(blocks, maxWords).text == Clean(blocks, otherBudget).text
    ensures Clean(blocks, maxWords).text == Join(SurvivingLines(blocks), "\n")
  {
  }

  /** The rendering in terms of the clean text: it is truncated exactly when the text has
      more words than the budget; otherwise it is the text with every newline replaced by
      `<br>`, and when truncated it is the first 50 lines of the text joined by `<br>`,
      followed by "...". */
  lemma CleanRendering(blocks: seq<string>, maxWords: int)
    ensures Clean(blocks, maxWords).truncated <==> WordCount(Clean(blocks, maxWords).text) > maxWords
    ensures !Clean(blocks, maxWords).truncated ==>
      Clean(blocks, maxWords).html == Div(ReplaceChar(Clean(blocks, maxWords).text, '\n', "<br>"))
    ensures Clean(blocks, maxWords).truncated ==>
      var lines := Split(Clean(blocks, maxWords).text, '\n');
      Clean(blocks, maxWords).html == Div(Join(lines[..Min(LinesWhenTruncated, |lines|)], "<br>") + Ellipsis)
  {
    var lines := SurvivingLines(blocks);
    var text := Join(lines, "\n");
    ReplaceCharIsJoinSplit(text, '\n', "<br>");
    if lines == [] {
      assert Split(text, '\n') == [[]];
      assert Split(text, '\n')[..Min(LinesWhenTruncated, 1)] == [[]];
    } else {
      SurvivingLinesHaveNoNewline(blocks);
      SplitJoin(lines, '\n');
    }
  }

  lemma SurvivingLinesHaveNoNewline(blocks: seq<string>)
    ensures forall i :: 0 <= i < |SurvivingLines(blocks)| ==> '\n' !in SurvivingLines(blocks)[i]
  {
    var page := PageLines(blocks);
    forall i | 0 <= i < |SurvivingLines(blocks)| ensures '\n' !in SurvivingLines(blocks)[i] {
      var j :| 0 <= j < |page| && page[j] == SurvivingLines(blocks)[i];
    }
  }

  /** The clean text is empty exactly when no line survives. */
  lemma CleanTextEmpty(blocks: seq<string>, maxWords: int)
    ensures Clean(blocks, maxWords).text == [] <==> SurvivingLines(blocks) == []
  {
    var lines := SurvivingLines(blocks);
    if lines != [] {
      assert Keep(lines[0]);
      assert lines[0] != [];
      assert |lines| > 1 ==> Join(lines, "\n") == lines[0] + "\n" + Join(lines[1..], "\n");
    }
  }

  /** The lines of the clean text are exactly the surviving lines, and none of them is
      blank or holds a marker. */
  lemma CleanTextLines(blocks: seq<string>, maxWords: int)
    requires Clean(blocks, maxWords).text != []
    ensures Split(Clean(blocks, maxWords).text, '\n') == SurvivingLines(blocks)
    ensures forall l :: l in Split(Clean(blocks, maxWords).text, '\n') ==>
      !AllSpace(l) && !Contains(l, BenYehudaMarker) && !Contains(l, VolunteersMarker)
  {
    var lines := SurvivingLines(blocks);
    SurvivingLinesHaveNoNewline(blocks);
    SplitJoin(lines, '\n');
    forall l | l in lines ensures !AllSpace(l) { StripEmptyIffBlank(l); }
  }

  /** Every page line that is not blank and holds no marker survives, and the survivors
      keep the page's order. */
  lemma SurvivingLinesFilter(blocks: seq<string>)
    ensures forall l :: (l in PageLines(blocks) && !AllSpace(l)
      && !Contains(l, BenYehudaMarker) && !Contains(l, VolunteersMarker)) ==> l in SurvivingLines(blocks)
    ensures IsSubsequence(SurvivingLines(blocks), PageLines(blocks))
    ensures forall l ::
              multiset(SurvivingLines(blocks))[l] ==
                if !AllSpace(l) && !Contains(l, BenYehudaMarker) && !Contains(l, VolunteersMarker)
                then multiset(PageLines(blocks))[l] else 0
  {
    KeepLinesCounts(PageLines(blocks));
    forall l ensures Keep(l) <==> !AllSpace(l) && !Contains(l, BenYehudaMarker) && !Contains(l, VolunteersMarker) {
      StripEmptyIffBlank(l);
    }
  }

  /** Cleaning only removes words: the clean text has no more words than the page text. */
  lemma {:induction false} CleanWordBound(blocks: seq<string>, maxWords: int)
    ensures WordCount(Clean(blocks, maxWords).text) <= WordCount(Join(blocks, "\n"))
  {
    var page := Strip(Join(blocks, "\n"));
    var lines := PageLines(blocks);
    StripKeepsWords(Join(blocks, "\n"));
    JoinSplit(page, '\n');
    WordCountJoin(lines);
    KeepLinesSumWords(lines);
    WordCountJoin(SurvivingLines(blocks));
  }

  lemma {:induction false} KeepLinesSumWords(lines: seq<string>)
    ensures SumWords(KeepLines(lines)) <= SumWords(lines)
  {
    if lines != [] {
      KeepLinesSumWords(lines[1..]);
      if Keep(lines[0]) {
        assert ([lines[0]] + KeepLines(lines[1..]))[1..] == KeepLines(lines[1..]);
      }
    }
  }

  lemma {:induction false} KeepLinesOfKept(lines: seq<string>)
    requires forall i :: 0 <= i < |lines| ==> Keep(lines[i])
    ensures KeepLines(lines) == lines
  {
    if lines != [] {
      KeepLinesOfKept(lines[1..]);
    }
  }

  /** Cleaning a clean text again changes nothing, provided that text has no whitespace
      at either end (a kept line is not itself stripped, so this can fail when the first
      or last page line was dropped). */
  lemma {:induction false} CleanIdempotent(blocks: seq<string>, maxWords: int)
    requires Strip(Clean(blocks, maxWords).text) == Clean(blocks, maxWords).text
    ensures Clean([Clean(blocks, maxWords).text], maxWords) == Clean(blocks, maxWords)
  {
    var lines := SurvivingLines(blocks);
    var text := Clean(blocks, maxWords).text;
    assert Join([text], "\n") == text;
    if lines == [] {
      assert PageLines([text]) == [[]];
    } else {
      SurvivingLinesHaveNoNewline(blocks);
      SplitJoin(lines, '\n');
      assert PageLines([text]) == lines;
      KeepLinesOfKept(lines);
    }
    assert SurvivingLines([text]) == lines;
  }

  /** Truncation is by line count, not by the word budget: with at most 50 surviving lines
      a truncated rendering still shows every line, so more words than the budget. */
  lemma {:induction false} TruncationIgnoresBudget(blocks: seq<string>, maxWords: int)
    requires Clean(blocks, maxWords).truncated
    requires |SurvivingLines(blocks)| <= LinesWhenTruncated
    ensures Clean(blocks, maxWords).html == Div(Join(SurvivingLines(blocks), "<br>") + Ellipsis)
    ensures SumWords(SurvivingLines(blocks)) > maxWords
  {
    var lines := SurvivingLines(blocks);
    assert lines[..|lines|] == lines;
    WordCountJoin(lines);
  }

  /** A credit line between two kept lines of verse is dropped and the verse survives,
      as long as the page does not start or end in whitespace. */
  lemma CreditLineDropped(one: string, two: string)
    requires Keep(one) && Keep(two)
    requires '\n' !in one && '\n' !in two
    requires !IsSpace(one[0]) && !IsSpace(two[|two| - 1])
    ensures SurvivingLines([one, BenYehudaMarker, two]) == [one, two]
  {
    var blocks := [one, BenYehudaMarker, two];
    assert blocks[1..] == [BenYehudaMarker, two];
    assert blocks[1..][1..] == [two];
    assert Join([two], "\n") == two;
    assert Join([BenYehudaMarker, two], "\n") == BenYehudaMarker + "\n" + two;
    var page := Join(blocks, "\n");
    assert page == one + "\n" + (BenYehudaMarker + "\n" + two);
    StripTrimmed(page);
    assert '\n' !in BenYehudaMarker;
    SplitJoin(blocks, '\n');
    assert StartsWith(BenYehudaMarker, BenYehudaMarker);
    assert !Keep(BenYehudaMarker);
    assert KeepLines(blocks[1..]) == [two];
  }

  /** Such a page is cleaned to the two lines joined by a newline, and shown in full when
      it is shorter than the word budget. */
  lemma CleanAroundCredit(one: string, two: string, maxWords: int)
    requires Keep(one) && Keep(two)
    requires '\n' !in one && '\n' !in two
    requires !IsSpace(one[0]) && !IsSpace(two[|two| - 1])
    requires |one| + |two| < maxWords
    ensures Clean([one, BenYehudaMarker, two], maxWords).text == one + "\n" + two
    ensures !Clean([one, BenYehudaMarker, two], maxWords).truncated
  {
    CreditLineDropped(one, two);
    CleanTextIgnoresBudget([one, BenYehudaMarker, two], maxWords, maxWords);
    CleanRendering([one, BenYehudaMarker, two], maxWords);
    var text := Join([one, two], "\n");
    assert [one, two][1..] == [two];
    assert Join([two], "\n") == two;
    assert text == one + "\n" + two;
    WordsAtMostLength(text, true);
  }

  /** The trim condition of `CleanIdempotent` cannot be dropped: when the credit line opens
      the page and the next line is indented, the clean text keeps the indent, and cleaning
      that text again strips it. */
  lemma CleanNotIdempotentWhenIndented(maxWords: int)
    ensures Clean([BenYehudaMarker, " ab"], maxWords).text == " ab"
    ensures Clean([" ab"], maxWords).text == "ab"
    ensures Clean([Clean([BenYehudaMarker, " ab"], maxWords).text], maxWords).text
         != Clean([BenYehudaMarker, " ab"], maxWords).text
  {
    IndentedAfterCredit(maxWords);
    IndentStripped(maxWords);
  }

  lemma IndentedAfterCredit(maxWords: int)
    ensures Clean([BenYehudaMarker, " ab"], maxWords).text == " ab"
  {
    var l := " ab";
    ShorterNotContained(l, BenYehudaMarker);
    ShorterNotContained(l, VolunteersMarker);
    assert Strip(l) == "ab";
    var blocks := [BenYehudaMarker, l];
    assert blocks[1..] == [l];
    assert Join([l], "\n") == l;
    var page := Join(blocks, "\n");
    assert page == BenYehudaMarker + "\n" + l;
    StripTrimmed(page);
    assert '\n' !in BenYehudaMarker;
    SplitJoin(blocks, '\n');
    assert StartsWith(BenYehudaMarker, BenYehudaMarker);
    assert KeepLines([l]) == [l];
    assert KeepLines(blocks) == [l];
    CleanTextIgnoresBudget(blocks, maxWords, maxWords);
  }

  lemma IndentStripped(maxWords: int)
    ensures Clean([" ab"], maxWords).text == "ab"
  {
    ShorterNotContained("ab", BenYehudaMarker);
    ShorterNotContained("ab", VolunteersMarker);
    assert Strip(" ab") == "ab";
    SplitNoSeparator("ab", '\n');
    assert KeepLines(["ab"]) == ["ab"];
    CleanTextIgnoresBudget([" ab"], maxWords, maxWords);
  }
}
