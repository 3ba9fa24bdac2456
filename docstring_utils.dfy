/** The docstring scanner of `citation_compass`: a keyword-presence heuristic
    and the extraction of a "keyword: information" citation block. */
module DocstringUtils {
  import opened Wrappers
  import opened Text

  /** `_CITATION_KEYWORDS` */
  const CitationKeywords: seq<string> := [
    "acknowledge",
    "acknowledgement",
    "acknowledgements",
    "cite",
    "citation",
    "citations",
    "reference",
    "references"
  ]

  /** `_CITATION_SECTION_HEADERS`: every keyword followed by a colon. */
  const SectionHeaders: set<string> := set k | k in CitationKeywords :: k + ":"

  /** The keywords are non-empty and contain neither a colon nor a line feed. */
  lemma KeywordsAreWords()
    ensures forall k :: k in CitationKeywords ==> |k| > 0 && ':' !in k && '\n' !in k
  {
    forall k | k in CitationKeywords
      ensures |k| > 0 && ':' !in k && '\n' !in k
    {
      assert forall i :: 0 <= i < |k| ==> 'a' <= k[i] <= 'z';
    }
  }

  // ---------------------------------------------------------------------------
  // check_docstring_for_any_keyword
  // ---------------------------------------------------------------------------

  /** `[line.lower() for line in docstring.split("\n")]` */
  function LowerLines(s: string): (r: seq<string>)
    ensures |r| == |Split(s)|
  {
    seq(|Split(s)|, i requires 0 <= i < |Split(s)| => Lower(Split(s)[i]))
  }

  /** `check_docstring_for_any_keyword`: some lower-cased line contains some
      keyword. Since no keyword spans a line feed, this is the same as a
      keyword occurring anywhere in the lower-cased text; `None` and the empty
      text have none. */
  function HasCitationKeyword(docstring: Option<string>): (r: bool)
    ensures r <==> docstring.Some? && exists k :: k in CitationKeywords && Contains(Lower(docstring.value), k)
  {
    if docstring.None? || |docstring.value| == 0 then
      KeywordsAreWords();
      false
    else
      var lines := LowerLines(docstring.value);
      KeywordInSomeLine(docstring.value);
      exists i, k | 0 <= i < |lines| && k in CitationKeywords :: Contains(lines[i], k)
  }

  lemma KeywordInSomeLine(s: string)
    ensures (exists i, k :: 0 <= i < |LowerLines(s)| && k in CitationKeywords && Contains(LowerLines(s)[i], k))
            <==> exists k :: k in CitationKeywords && Contains(Lower(s), k)
  {
    KeywordsAreWords();
    SplitLower(s);
    assert Split(Lower(s)) == LowerLines(s);
    forall k | k in CitationKeywords
      ensures Contains(Lower(s), k) <==> exists i :: 0 <= i < |LowerLines(s)| && Contains(LowerLines(s)[i], k)
    {
      ContainsIffSomeLine(Lower(s), k);
    }
  }

  // ---------------------------------------------------------------------------
  // extract_citation: the specification
  // ---------------------------------------------------------------------------

  /** The position of the first colon of `s` (`|s|` when there is none). */
  function ColonIndex(s: string): (i: nat)
    ensures i <= |s| && (i < |s| ==> s[i] == ':')
    ensures forall j :: 0 <= j < i ==> s[j] != ':'
  {
    if s == [] || s[0] == ':' then 0 else 1 + ColonIndex(s[1..])
  }

  /** `w in ws`, one element at a time. */
  predicate Among(w: string, ws: seq<string>) {
    ws != [] && (ws[0] == w || Among(w, ws[1..]))
  }

  lemma {:induction false} AmongIsIn(w: string, ws: seq<string>)
    ensures Among(w, ws) <==> w in ws
  {
    if ws != [] {
      AmongIsIn(w, ws[1..]);
      assert ws == [ws[0]] + ws[1..];
    }
  }

  /** The header a line begins with, ignoring case, if any: the lower-cased
      text up to and including its first colon, when the part before the
      colon is a keyword. (`HeaderOfSound` and `HeaderOfUnique` show that this
      is the one header of the set that the line starts with.) */
  function HeaderOf(line: string): (r: Option<string>)
    ensures r.Some? ==> |r.value| > 0
  {
    var s := Lower(line);
    var i := ColonIndex(s);
    if i < |s| && Among(s[..i], CitationKeywords) then Some(s[..i + 1]) else None
  }

  /** A header found is a header of the set that the lower-cased line starts
      with. */
  lemma HeaderOfSound(line: string)
    requires HeaderOf(line).Some?
    ensures HeaderOf(line).value in SectionHeaders && StartsWith(Lower(line), HeaderOf(line).value)
  {
    var s := Lower(line);
    var i := ColonIndex(s);
    var k := s[..i];
    assert HeaderOf(line) == Some(k + ":") by {
      assert s[..i + 1] == k + ":";
    }
    AmongIsIn(k, CitationKeywords);
    KeywordHeader(k);
  }

  lemma KeywordHeader(k: string)
    requires k in CitationKeywords
    ensures k + ":" in SectionHeaders
  {
  }

  /** A text that starts with a colon-free word and a colon has its first
      colon right after the word. */
  lemma ColonAfterWord(s: string, k: string)
    requires ':' !in k && StartsWith(s, k + ":")
    ensures ColonIndex(s) == |k| && s[..|k|] == k
  {
    var h := k + ":";
    assert s[..|h|] == h;
    forall j | 0 <= j < |k|
      ensures s[j] != ':'
    {
      assert s[j] == h[j] == k[j];
    }
    assert s[|k|] == h[|k|] == ':';
    ColonIndexAt(s, |k|);
    assert s[..|k|] == h[..|k|] == k;
  }

  /** A line that starts with a header of the set has that header and no
      other: each header ends in its only colon. */
  lemma HeaderOfUnique(line: string, h: string)
    requires h in SectionHeaders && StartsWith(Lower(line), h)
    ensures HeaderOf(line) == Some(h)
  {
    var k :| k in CitationKeywords && h == k + ":";
    assert ':' !in k by {
      KeywordsAreWords();
    }
    var s := Lower(line);
    ColonAfterWord(s, k);
    assert Among(k, CitationKeywords) by {
      AmongIsIn(k, CitationKeywords);
    }
    assert s[..|k| + 1] == h;
  }

  /** The first colon is the one with no colon before it. */
  lemma ColonIndexAt(s: string, i: nat)
    requires i < |s| && s[i] == ':'
    requires forall j :: 0 <= j < i ==> s[j] != ':'
    ensures ColonIndex(s) == i
  {
  }

  /** No two headers of the set both begin the same line, so the order in
      which the set is searched does not matter. */
  lemma HeadersPrefixFree(line: string, h1: string, h2: string)
    requires h1 in SectionHeaders && h2 in SectionHeaders
    requires StartsWith(Lower(line), h1) && StartsWith(Lower(line), h2)
    ensures h1 == h2
  {
    HeaderOfUnique(line, h1);
    HeaderOfUnique(line, h2);
  }

  /** The header of each line. */
  function LineHeaders(lines: seq<string>): (hs: seq<Option<string>>)
    ensures |hs| == |lines|
    ensures forall i :: 0 <= i < |lines| ==> hs[i] == HeaderOf(lines[i])
  {
    seq(|lines|, i requires 0 <= i < |lines| => HeaderOf(lines[i]))
  }

  /** `[line.strip() for line in docstring.split("\n")]` */
  function StrippedLines(s: string): (r: seq<string>)
    ensures |r| == |Split(s)|
  {
    seq(|Split(s)|, i requires 0 <= i < |Split(s)| => Strip(Split(s)[i]))
  }

  /** The index of the first line with a header, or the number of lines when
      none has one. */
  function FirstHeaderIndex(hs: seq<Option<string>>): (i: nat)
    ensures i <= |hs|
    ensures i < |hs| ==> hs[i].Some?
    ensures forall j :: 0 <= j < i ==> hs[j].None?
  {
    if hs == [] || hs[0].Some? then 0 else 1 + FirstHeaderIndex(hs[1..])
  }

  /** The number of lines before the first blank one (all of them if none is). */
  function BlockLength(lines: seq<string>): (n: nat)
    ensures n <= |lines|
    ensures forall j :: 0 <= j < n ==> |lines[j]| > 0
    ensures n < |lines| ==> |lines[n]| == 0
  {
    if lines == [] || |lines[0]| == 0 then 0 else 1 + BlockLength(lines[1..])
  }

  /** Each line preceded by a single space, concatenated. */
  function SpaceJoined(lines: seq<string>): string
  {
    if lines == [] then "" else SpaceJoined(lines[..|lines| - 1]) + " " + lines[|lines| - 1]
  }

  /** `line[n + 1:]`: the header line after its `n`-character header and the
      one character that follows it, whatever that character is. */
  function AfterHeader(line: string, n: nat): (r: string)
    ensures n + 1 <= |line| ==> r == line[n + 1..]
    ensures n + 1 > |line| ==> r == ""
  {
    if n + 1 <= |line| then line[n + 1..] else ""
  }

  /** The lines after line `i`, up to the first blank one. */
  function BlockAfter(lines: seq<string>, i: nat): seq<string>
    requires i < |lines|
  {
    var following := lines[i + 1..];
    following[..BlockLength(following)]
  }

  /** A header line, the header it begins with and the block of lines that
      follows it. */
  datatype Section = Section(line: string, header: string, block: seq<string>)

  /** The first line with a header, given the header of every line. */
  function FirstSection(lines: seq<string>, hs: seq<Option<string>>): Option<Section>
    requires |hs| == |lines|
  {
    var i := FirstHeaderIndex(hs);
    if i == |lines| then None else Some(Section(lines[i], hs[i].value, BlockAfter(lines, i)))
  }

  /** The citation a section gives: the rest of the header line and the
      block's lines, joined by spaces, stripped. */
  function SectionText(sec: Section): string
  {
    Strip(AfterHeader(sec.line, |sec.header|) + SpaceJoined(sec.block))
  }

  /** The citation the first header line of `lines` introduces, if any. */
  function CitationFromLines(lines: seq<string>): Option<string>
  {
    var sec := FirstSection(lines, LineHeaders(lines));
    if sec.None? then None else Some(SectionText(sec.value))
  }

  /** What `extract_citation` returns. */
  function ExtractedCitation(docstring: Option<string>): (r: Option<string>)
    ensures docstring.None? || |docstring.value| == 0 ==> r.None?
  {
    if docstring.None? || |docstring.value| == 0 then None
    else CitationFromLines(StrippedLines(docstring.value))
  }

  // ---------------------------------------------------------------------------
  // extract_citation: the code
  // ---------------------------------------------------------------------------

  /** The inner loop of `extract_citation`: tries the headers of the set in
      an arbitrary order against the lower-cased line. */
  method FindHeader(line: string) returns (header: Option<string>)
    ensures header == HeaderOf(line)
  {
    var lowered := Lower(line);
    var headers := SectionHeaders;
    while headers != {}
      invariant headers <= SectionHeaders
      invariant forall h :: h in SectionHeaders && h !in headers ==> !StartsWith(lowered, h)
      decreases |headers|
    {
      var keyword :| keyword in headers;
      if StartsWith(lowered, keyword) {
        HeaderOfUnique(line, keyword);
        return Some(keyword);
      }
      headers := headers - {keyword};
    }
    if HeaderOf(line).Some? {
      HeaderOfSound(line);
      assert false;
    }
    return None;
  }

  /** The `while` loop of `extract_citation`: appends `" " + line` for each
      line from `start` on until a blank line or the end. */
  method JoinFollowingLines(lines: seq<string>, start: nat) returns (text: string)
    requires start <= |lines|
    ensures text == SpaceJoined(lines[start..][..BlockLength(lines[start..])])
  {
    text := "";
    ghost var rest := lines[start..];
    var k := start;
    while k < |lines| && |lines[k]| > 0
      invariant start <= k <= |lines|
      invariant forall j :: 0 <= j < k - start ==> |rest[j]| > 0
      invariant text == SpaceJoined(rest[..k - start])
    {
      assert rest[k - start] == lines[k];
      assert rest[..k - start + 1][..k - start] == rest[..k - start];
      text := text + " " + lines[k];
      k := k + 1;
    }
    assert k < |lines| ==> rest[k - start] == lines[k];
    BlockLengthAt(rest, k - start);
  }

  /** The `for` loop of `extract_citation`: on the first line that begins
      with a header, takes the rest of that line and the following non-blank
      lines. */
  method CitationInLines(allLines: seq<string>) returns (r: Option<string>)
    ensures r == CitationFromLines(allLines)
  {
    var idx := 0;
    while idx < |allLines|
      invariant 0 <= idx <= |allLines|
      invariant forall j :: 0 <= j < idx ==> HeaderOf(allLines[j]).None?
    {
      var line := allLines[idx];
      var keyword := FindHeader(line);
      if keyword.Some? {
        var following := JoinFollowingLines(allLines, idx + 1);
        var citation := AfterHeader(line, |keyword.value|) + following;
        FirstHeaderLine(allLines, idx);
        return Some(Strip(citation));
      }
      idx := idx + 1;
    }
    NoHeaderLine(allLines);
    return None;
  }

  /** The citation comes from the first line with a header. */
  lemma FirstHeaderLine(lines: seq<string>, i: nat)
    requires i < |lines| && HeaderOf(lines[i]).Some?
    requires forall j :: 0 <= j < i ==> HeaderOf(lines[j]).None?
    ensures CitationFromLines(lines) == Some(SectionText(Section(lines[i], HeaderOf(lines[i]).value, BlockAfter(lines, i))))
  {
    FirstHeaderIndexAt(LineHeaders(lines), i);
  }

  /** Without a line with a header there is no citation. */
  lemma NoHeaderLine(lines: seq<string>)
    requires forall j :: 0 <= j < |lines| ==> HeaderOf(lines[j]).None?
    ensures CitationFromLines(lines) == None
  {
    FirstHeaderIndexAt(LineHeaders(lines), |lines|);
  }

  /** `extract_citation` */
  method ExtractCitation(docstring: Option<string>) returns (r: Option<string>)
    ensures r == ExtractedCitation(docstring)
  {
    if docstring.None? || |docstring.value| == 0 {
      return None;
    }
    var allLines := StrippedLines(docstring.value);
    r := CitationInLines(allLines);
  }

  // ---------------------------------------------------------------------------
  // Properties of the extracted citation
  // ---------------------------------------------------------------------------

  /** No citation exactly when there is no text or no line has a header. */
  lemma ExtractedNoneIffNoHeader(docstring: Option<string>)
    ensures ExtractedCitation(docstring).None? <==>
      || docstring.None?
      || |docstring.value| == 0
      || forall i :: 0 <= i < |StrippedLines(docstring.value)| ==> HeaderOf(StrippedLines(docstring.value)[i]).None?
  {
    if docstring.Some? && |docstring.value| > 0 {
      var lines := StrippedLines(docstring.value);
      var hs := LineHeaders(lines);
      if forall i :: 0 <= i < |lines| ==> HeaderOf(lines[i]).None? {
        FirstHeaderIndexAt(hs, |lines|);
      }
    }
  }

  /** The first header index is the one index with a header there (or the
      end) and none before. */
  lemma FirstHeaderIndexAt(hs: seq<Option<string>>, k: nat)
    requires k <= |hs| && (k < |hs| ==> hs[k].Some?)
    requires forall j :: 0 <= j < k ==> hs[j].None?
    ensures FirstHeaderIndex(hs) == k
  {
  }

  /** The block length is the index of the first blank line (or the end). */
  lemma BlockLengthAt(lines: seq<string>, n: nat)
    requires n <= |lines| && (n < |lines| ==> |lines[n]| == 0)
    requires forall j :: 0 <= j < n ==> |lines[j]| > 0
    ensures BlockLength(lines) == n
  {
  }

  /** The headers of concatenated lines are the concatenated headers. */
  lemma LineHeadersAppend(a: seq<string>, b: seq<string>)
    ensures LineHeaders(a + b) == LineHeaders(a) + LineHeaders(b)
  {
    var ab := a + b;
    assert forall j :: 0 <= j < |b| ==> ab[|a| + j] == b[j];
    assert forall j :: 0 <= j < |a| ==> ab[j] == a[j];
  }

  /** Lines without a header before the first header line do not change the
      citation, whatever the header test. */
  lemma LeadingHeaderless(pre: seq<string>, hpre: seq<Option<string>>, lines: seq<string>, hs: seq<Option<string>>)
    requires |hpre| == |pre| && |hs| == |lines|
    requires forall j :: 0 <= j < |hpre| ==> hpre[j].None?
    ensures FirstSection(pre + lines, hpre + hs) == FirstSection(lines, hs)
  {
    FirstHeaderIndexAfter(hpre, hs);
    var i := FirstHeaderIndex(hs);
    if i < |lines| {
      var all, hall := pre + lines, hpre + hs;
      assert all[|pre| + i] == lines[i] && hall[|pre| + i] == hs[i];
      assert BlockAfter(all, |pre| + i) == BlockAfter(lines, i) by {
        assert all[|pre| + i + 1..] == lines[i + 1..];
      }
    }
  }

  /** Entries without a header in front move the first header back by their
      number. */
  lemma {:induction false} FirstHeaderIndexAfter(hpre: seq<Option<string>>, hs: seq<Option<string>>)
    requires forall j :: 0 <= j < |hpre| ==> hpre[j].None?
    ensures FirstHeaderIndex(hpre + hs) == |hpre| + FirstHeaderIndex(hs)
  {
    if hpre != [] {
      var tail := hpre[1..];
      assert (hpre + hs)[0] == hpre[0] && (hpre + hs)[1..] == tail + hs;
      assert forall j :: 0 <= j < |tail| ==> tail[j] == hpre[j + 1];
      FirstHeaderIndexAfter(tail, hs);
    } else {
      assert hpre + hs == hs;
    }
  }

  /** Entries after the first header do not move it. */
  lemma FirstHeaderIndexBefore(hs: seq<Option<string>>, hmore: seq<Option<string>>)
    requires FirstHeaderIndex(hs) < |hs|
    ensures FirstHeaderIndex(hs + hmore) == FirstHeaderIndex(hs)
  {
    var i := FirstHeaderIndex(hs);
    assert forall j :: 0 <= j <= i ==> (hs + hmore)[j] == hs[j];
    FirstHeaderIndexAt(hs + hmore, i);
  }

  /** Non-header lines before the first header line do not change the result. */
  lemma LeadingLinesIgnored(pre: seq<string>, lines: seq<string>)
    requires forall j :: 0 <= j < |pre| ==> HeaderOf(pre[j]).None?
    ensures CitationFromLines(pre + lines) == CitationFromLines(lines)
  {
    LineHeadersAppend(pre, lines);
    LeadingHeaderless(pre, LineHeaders(pre), lines, LineHeaders(lines));
  }

  /** Once a blank line ends the first block, whatever follows does not
      change the citation, whatever the header test. */
  lemma TrailingAfterBlank(lines: seq<string>, hs: seq<Option<string>>, more: seq<string>, hmore: seq<Option<string>>)
    requires |hs| == |lines| && |hmore| == |more|
    requires FirstHeaderIndex(hs) < |lines|
    requires exists j :: FirstHeaderIndex(hs) < j < |lines| && |lines[j]| == 0
    ensures FirstSection(lines + more, hs + hmore) == FirstSection(lines, hs)
  {
    var i := FirstHeaderIndex(hs);
    var j :| i < j < |lines| && |lines[j]| == 0;
    FirstHeaderIndexBefore(hs, hmore);
    BlockAfterPrefix(lines, more, i, j);
    assert (lines + more)[i] == lines[i] && (hs + hmore)[i] == hs[i];
  }

  /** A block that a blank line ends is the same whatever follows. */
  lemma BlockAfterPrefix(lines: seq<string>, more: seq<string>, i: nat, j: nat)
    requires i < j < |lines| && |lines[j]| == 0
    ensures BlockAfter(lines + more, i) == BlockAfter(lines, i)
  {
    var rest := lines[i + 1..];
    assert (lines + more)[i + 1..] == rest + more;
    assert |rest[j - i - 1]| == 0;
    BlockLengthPrefix(rest, more, j - i - 1);
  }

  /** A block that a blank line ends is not lengthened by what follows. */
  lemma BlockLengthPrefix(a: seq<string>, b: seq<string>, j: nat)
    requires j < |a| && |a[j]| == 0
    ensures (a + b)[..BlockLength(a + b)] == a[..BlockLength(a)]
  {
    var n := BlockLength(a);
    assert forall k :: 0 <= k < |a| ==> (a + b)[k] == a[k];
    BlockLengthAt(a + b, n);
    assert (a + b)[..n] == a[..n];
  }

  /** Once a blank line ends the first block, whatever follows it (other
      headers included) does not change the result. */
  lemma TrailingLinesIgnored(lines: seq<string>, more: seq<string>)
    requires FirstHeaderIndex(LineHeaders(lines)) < |lines|
    requires exists j :: FirstHeaderIndex(LineHeaders(lines)) < j < |lines| && |lines[j]| == 0
    ensures CitationFromLines(lines + more) == CitationFromLines(lines)
  {
    LineHeadersAppend(lines, more);
    TrailingAfterBlank(lines, LineHeaders(lines), more, LineHeaders(more));
  }

  lemma {:induction false} SpaceJoinedHasNoNewline(lines: seq<string>)
    requires forall i :: 0 <= i < |lines| ==> '\n' !in lines[i]
    ensures '\n' !in SpaceJoined(lines)
  {
    if lines != [] {
      SpaceJoinedHasNoNewline(lines[..|lines| - 1]);
    }
  }

  lemma StrippedLinesHaveNoNewline(s: string)
    ensures forall i :: 0 <= i < |StrippedLines(s)| ==> '\n' !in StrippedLines(s)[i]
  {
    SplitHasNoNewline(s);
    forall i | 0 <= i < |Split(s)|
      ensures '\n' !in StrippedLines(s)[i]
    {
      StripHasNoNewline(Split(s)[i]);
    }
  }

  lemma AfterHeaderHasNoNewline(line: string, n: nat)
    requires '\n' !in line
    ensures '\n' !in AfterHeader(line, n)
  {
    if n + 1 <= |line| {
      assert forall x :: x in line[n + 1..] ==> x in line;
    }
  }

  lemma StripHasNoNewline(text: string)
    requires '\n' !in text
    ensures '\n' !in Strip(text)
  {
    StripKeepsCharacters(text);
  }

  /** The citation of a section without line feeds is a single line without
      whitespace at either end. */
  lemma SectionTextIsTrimmedLine(sec: Section)
    requires '\n' !in sec.line
    requires forall j :: 0 <= j < |sec.block| ==> '\n' !in sec.block[j]
    ensures var c := SectionText(sec);
      && '\n' !in c
      && (|c| > 0 ==> !IsSpace(c[0]) && !IsSpace(c[|c| - 1]))
  {
    SpaceJoinedHasNoNewline(sec.block);
    AfterHeaderHasNoNewline(sec.line, |sec.header|);
    StripHasNoNewline(AfterHeader(sec.line, |sec.header|) + SpaceJoined(sec.block));
    StripIsSlice(AfterHeader(sec.line, |sec.header|) + SpaceJoined(sec.block));
  }

  /** The first section is made of the given lines. */
  lemma FirstSectionFromLines(lines: seq<string>, hs: seq<Option<string>>)
    requires |hs| == |lines| && FirstSection(lines, hs).Some?
    ensures var sec := FirstSection(lines, hs).value;
      && sec.line in lines
      && forall j :: 0 <= j < |sec.block| ==> sec.block[j] in lines
  {
    var i := FirstHeaderIndex(hs);
    var block := BlockAfter(lines, i);
    assert forall j :: 0 <= j < |block| ==> block[j] == lines[i + 1 + j];
  }

  /** An extracted citation is a single line with no whitespace at either end. */
  lemma ExtractedIsTrimmedLine(docstring: Option<string>)
    requires ExtractedCitation(docstring).Some?
    ensures var c := ExtractedCitation(docstring).value;
      && '\n' !in c
      && (|c| > 0 ==> !IsSpace(c[0]) && !IsSpace(c[|c| - 1]))
  {
    var lines := StrippedLines(docstring.value);
    var hs := LineHeaders(lines);
    StrippedLinesHaveNoNewline(docstring.value);
    FirstSectionFromLines(lines, hs);
    SectionTextIsTrimmedLine(FirstSection(lines, hs).value);
  }
}

module DocstringExamples {
  import opened Wrappers
  import opened Text
  import opened DocstringUtils

  lemma StripUnchanged(s: string)
    requires |s| > 0 ==> !IsSpace(s[0]) && !IsSpace(s[|s| - 1])
    ensures Strip(s) == s
  {
  }

  /** A docstring of one stripped line is that one line. */
  lemma StrippedSingleLine(line: string)
    requires '\n' !in line && Strip(line) == line
    ensures StrippedLines(line) == [line]
  {
    SplitSingleLine(line);
  }

  /** A single line with a header yields the rest of that line, stripped. */
  lemma OneHeaderLine(line: string, h: string)
    ensures FirstSection([line], [Some(h)]) == Some(Section(line, h, []))
  {
    FirstHeaderIndexAt([Some(h)], 0);
    assert BlockAfter([line], 0) == [];
  }

  /** A one-line docstring that begins with header `h`. */
  lemma SingleHeaderLine(line: string, h: string)
    requires '\n' !in line && Strip(line) == line && |line| > 0
    requires h in SectionHeaders && StartsWith(Lower(line), h)
    ensures ExtractedCitation(Some(line)) == Some(Strip(AfterHeader(line, |h|)))
  {
    StrippedSingleLine(line);
    HeaderOfUnique(line, h);
    assert LineHeaders([line]) == [Some(h)];
    OneHeaderLine(line, h);
    assert AfterHeader(line, |h|) + SpaceJoined([]) == AfterHeader(line, |h|);
  }

  lemma CitationHeader(line: string)
    requires line == "Citation: Author, Title, year."
    ensures "citation:" in SectionHeaders && StartsWith(Lower(line), "citation:")
  {
    assert "citation" in CitationKeywords;
    assert "citation" + ":" == "citation:";
    assert Lower(line)[..9] == "citation:";
  }

  lemma CitationLineStripped(line: string)
    requires line == "Citation: Author, Title, year."
    ensures '\n' !in line && Strip(line) == line && |line| > 0
  {
    StripUnchanged(line);
  }

  lemma CitationBody(line: string)
    requires line == "Citation: Author, Title, year."
    ensures Strip(AfterHeader(line, 9)) == "Author, Title, year."
  {
    assert AfterHeader(line, 9) == "Author, Title, year.";
    StripUnchanged("Author, Title, year.");
  }

  /** The single-line docstring of the test suite yields the text after its header. */
  lemma CitationLine(line: string)
    requires line == "Citation: Author, Title, year."
    ensures ExtractedCitation(Some(line)) == Some("Author, Title, year.")
  {
    CitationHeader(line);
    CitationLineStripped(line);
    CitationBody(line);
    SingleHeaderLine(line, "citation:");
  }

  /** The character right after the header's colon is dropped whatever it
      is: without a space there, the first letter of the citation goes. */
  lemma NoSpaceAfterColon(line: string)
    requires line == "Citation:Author"
    ensures ExtractedCitation(Some(line)) == Some("uthor")
  {
    assert "citation" in CitationKeywords;
    assert "citation" + ":" == "citation:";
    assert Lower(line)[..9] == "citation:";
    StripUnchanged(line);
    assert AfterHeader(line, 9) == "uthor";
    StripUnchanged("uthor");
    SingleHeaderLine(line, "citation:");
  }
}
