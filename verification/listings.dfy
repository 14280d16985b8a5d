/**
 The listing extraction of the "download all listings" button: which headings
 introduce a listing, where its code block is, what language it is in, and
 what file name it gets in the archive.

 The page is modelled as the sequence of direct children of the `article`
 element (or of `main` when there is no article). A sibling walk with
 `nextElementSibling` is a walk along this sequence.
 */
module Listings {
  import opened Text
  import opened Regex
  import opened RegexLemmas
  import StableSort

  /* ------------------------------------------------------------ the page */

  /** A `code` element: its class list and the text the listing takes from
      it. */
  datatype Code = Code(classes: seq<string>, content: string)

  /** A `pre` element, with the first `code` element inside it. */
  datatype Pre = Pre(code: Option<Code>)

  /** A child of the article: its tag name, its text content, the first `pre`
      nested inside it, and the first `code` nested inside it. */
  datatype Element = Element(tag: string, text: string, nestedPre: Option<Pre>, nestedCode: Option<Code>)

  datatype Listing = Listing(number: nat, fileName: string, content: string, language: string)

  /* ---------------------------------------------------------- extensions */

  /** File extension for each language name a code block may carry. */
  const Extensions: map<string, string> := map[
    "asm" := "asm", "assembly" := "s", "c" := "c", "cpp" := "cpp", "cxx" := "cpp",
    "h" := "h", "hpp" := "hpp", "vhdl" := "vhd", "verilog" := "v", "python" := "py",
    "javascript" := "js", "typescript" := "ts", "java" := "java"]

  const ExtensionValues: set<string> := {"asm", "s", "c", "cpp", "h", "hpp", "vhd", "v", "py", "js", "ts", "java"}

  predicate AllWordChars(s: string) {
    forall i :: 0 <= i < |s| ==> IsWordChar(s[i])
  }

  lemma ExtensionValuesListed(key: string)
    requires key in Extensions
    ensures Extensions[key] in ExtensionValues
  {
  }

  lemma ExtensionValueShape(ext: string)
    requires ext in ExtensionValues
    ensures ext != "txt" && ext != [] && AllWordChars(ext)
  {
  }

  /** The table key of a language name: lower-cased and trimmed. */
  function LanguageKey(language: string): string {
    Trim(Lower(language))
  }

  function ExtensionFor(key: string): (ext: string)
    ensures ext == "txt" <==> key !in Extensions
    ensures ext != [] && AllWordChars(ext)
  {
    if key in Extensions then
      ExtensionValuesListed(key);
      ExtensionValueShape(Extensions[key]);
      Extensions[key]
    else "txt"
  }

  /** The extension for a language, looked up by its key; unknown languages
      get "txt". */
  function FileExtension(language: string): (ext: string)
    ensures ext == "txt" <==> LanguageKey(language) !in Extensions
    ensures LanguageKey(language) in Extensions ==> ext == Extensions[LanguageKey(language)]
    ensures ext != [] && AllWordChars(ext)
  {
    ExtensionFor(LanguageKey(language))
  }

  lemma LowerAppend(a: string, b: string)
    ensures Lower(a + b) == Lower(a) + Lower(b)
  {
  }

  /** Whitespace around the language name does not change the extension. */
  lemma FileExtensionIgnoresPadding(p: string, language: string, q: string)
    requires AllSpace(p) && AllSpace(q)
    ensures FileExtension(p + language + q) == FileExtension(language)
  {
    LowerAppend(p + language, q);
    LowerAppend(p, language);
    TrimIgnoresPadding(Lower(p), Lower(language), Lower(q));
  }

  /** Neither does the case of its letters. */
  lemma FileExtensionIgnoresCase(a: string, b: string)
    requires |a| == |b| && forall i :: 0 <= i < |a| ==> LowerChar(a[i]) == LowerChar(b[i])
    ensures FileExtension(a) == FileExtension(b)
  {
    assert Lower(a) == Lower(b);
  }

  /* ------------------------------------------------- file-name patterns */

  /** `\.\s+[^.]+\s+([^\s]+\.\w+)`: a name after a dot and some words. */
  const HeadingAfterWords: Pattern :=
    Pattern([Lit("."), Run(Space, 1), Run(NotDot, 1), Run(Space, 1)] + FileNameGroup(NotSpace) + [], false)

  /** `\.\s*([a-zA-Z0-9_-]+\.\w+)$`: a name right after a dot, at the end. */
  const HeadingAfterDot: Pattern :=
    Pattern([Lit("."), Run(Space, 0)] + FileNameGroup(FileChar) + [Eol], false)

  /** `([a-zA-Z0-9_-]+\.\w+)$`: a name at the end. */
  const HeadingAtEnd: Pattern :=
    Pattern([] + FileNameGroup(FileChar) + [Eol], false)

  const HeadingPatterns: seq<Pattern> := [HeadingAfterWords, HeadingAfterDot, HeadingAtEnd]

  /** `(?:Исходный файл|файл|file)[\s:]+(?:программы|program)?[\s:]*([^\s]+\.\w+)`
      with the `i` flag: a name after the word "file". */
  const SourceFileMention: Pattern :=
    Pattern([Choice(["Исходный файл", "файл", "file"], false), Run(SpaceOrColon, 1),
             Choice(["программы", "program"], true), Run(SpaceOrColon, 0)]
            + FileNameGroup(NotSpace) + [], true)

  /** `\*\*([^\s]+\.\w+)\*\*`: a name in Markdown bold markers. */
  const BoldName: Pattern :=
    Pattern([Lit("**")] + FileNameGroup(NotSpace) + [Lit("**")], false)

  /** `([a-zA-Z0-9_-]+\.\w+)`: a name anywhere. */
  const BareName: Pattern :=
    Pattern([] + FileNameGroup(FileChar) + [], false)

  const TextPatterns: seq<Pattern> := [SourceFileMention, BoldName, BareName]

  /** The capture of the first pattern whose group 1 is non-empty
      (`match && match[1]`). */
  function FirstCapture(patterns: seq<Pattern>, text: string): Option<string>
    decreases |patterns|
  {
    if patterns == [] then None
    else
      var g := Group1(patterns[0], text);
      if g.Some? && g.value != "" then g else FirstCapture(patterns[1..], text)
  }

  /** Every pattern of a list captures only file-name-shaped text. */
  predicate CapturesFileNames(patterns: seq<Pattern>, text: string) {
    forall i :: 0 <= i < |patterns| ==> CapturesFileName(patterns[i], text)
  }

  lemma {:induction false} FirstCaptureOfFileNamePatterns(patterns: seq<Pattern>, text: string)
    requires CapturesFileNames(patterns, text)
    ensures FirstCapture(patterns, text).Some? ==> FileNameLike(FirstCapture(patterns, text).value)
    decreases |patterns|
  {
    if patterns != [] {
      assert Group1(patterns[0], text).Some? ==> FileNameLike(Group1(patterns[0], text).value);
      assert CapturesFileNames(patterns[1..], text) by {
        forall i | 0 <= i < |patterns[1..]|
          ensures Group1(patterns[1..][i], text).Some? ==> FileNameLike(Group1(patterns[1..][i], text).value)
        {
          assert patterns[1..][i] == patterns[i + 1];
        }
      }
      FirstCaptureOfFileNamePatterns(patterns[1..], text);
    }
  }

  lemma NoMarkersIn(items: seq<Item>)
    requires forall i :: 0 <= i < |items| ==> items[i].Lit? || items[i].Run? || items[i].Choice? || items[i].Eol?
    ensures NoMarkers(items)
  {
  }

  /** What one pattern captures is shaped like a file name. */
  predicate CapturesFileName(p: Pattern, text: string) {
    Group1(p, text).Some? ==> FileNameLike(Group1(p, text).value)
  }

  lemma AfterWordsCaptures(text: string)
    ensures CapturesFileName(HeadingAfterWords, text)
  {
    if Group1(HeadingAfterWords, text).Some? {
      NoMarkersIn([Lit("."), Run(Space, 1), Run(NotDot, 1), Run(Space, 1)]);
      NoMarkersIn([]);
      FileNameCaptureShape(HeadingAfterWords, [Lit("."), Run(Space, 1), Run(NotDot, 1), Run(Space, 1)], NotSpace, [], text);
    }
  }

  lemma AfterDotCaptures(text: string)
    ensures CapturesFileName(HeadingAfterDot, text)
  {
    if Group1(HeadingAfterDot, text).Some? {
      NoMarkersIn([Lit("."), Run(Space, 0)]);
      NoMarkersIn([Eol]);
      FileNameCaptureShape(HeadingAfterDot, [Lit("."), Run(Space, 0)], FileChar, [Eol], text);
    }
  }

  lemma AtEndCaptures(text: string)
    ensures CapturesFileName(HeadingAtEnd, text)
  {
    if Group1(HeadingAtEnd, text).Some? {
      NoMarkersIn([]);
      NoMarkersIn([Eol]);
      FileNameCaptureShape(HeadingAtEnd, [], FileChar, [Eol], text);
    }
  }

  lemma SourceFileMentionCaptures(text: string)
    ensures CapturesFileName(SourceFileMention, text)
  {
    if Group1(SourceFileMention, text).Some? {
      var lead := [Choice(["Исходный файл", "файл", "file"], false), Run(SpaceOrColon, 1),
                   Choice(["программы", "program"], true), Run(SpaceOrColon, 0)];
      NoMarkersIn(lead);
      NoMarkersIn([]);
      FileNameCaptureShape(SourceFileMention, lead, NotSpace, [], text);
    }
  }

  lemma BoldNameCaptures(text: string)
    ensures CapturesFileName(BoldName, text)
  {
    if Group1(BoldName, text).Some? {
      NoMarkersIn([Lit("**")]);
      FileNameCaptureShape(BoldName, [Lit("**")], NotSpace, [Lit("**")], text);
    }
  }

  lemma BareNameCaptures(text: string)
    ensures CapturesFileName(BareName, text)
  {
    if Group1(BareName, text).Some? {
      NoMarkersIn([]);
      FileNameCaptureShape(BareName, [], FileChar, [], text);
    }
  }

  lemma ThreeCapture(patterns: seq<Pattern>, text: string)
    requires |patterns| == 3
    requires CapturesFileName(patterns[0], text) && CapturesFileName(patterns[1], text)
    requires CapturesFileName(patterns[2], text)
    ensures CapturesFileNames(patterns, text)
  {
    forall i | 0 <= i < 3 ensures CapturesFileName(patterns[i], text) {
    }
  }

  /** Whatever the text, both lists of patterns capture only file names. */
  lemma PatternsCaptureFileNames(text: string)
    ensures CapturesFileNames(HeadingPatterns, text)
    ensures CapturesFileNames(TextPatterns, text)
  {
    AfterWordsCaptures(text);
    AfterDotCaptures(text);
    AtEndCaptures(text);
    ThreeCapture(HeadingPatterns, text);
    SourceFileMentionCaptures(text);
    BoldNameCaptures(text);
    BareNameCaptures(text);
    ThreeCapture(TextPatterns, text);
  }

  /** A capture is a piece of the text, so a text without a dot yields none. */
  lemma {:induction false} NoDotNoCapture(patterns: seq<Pattern>, text: string)
    requires CapturesFileNames(patterns, text)
    requires '.' !in text
    ensures FirstCapture(patterns, text) == None
    decreases |patterns|
  {
    if patterns != [] {
      assert CapturesFileNames(patterns[1..], text) by {
        forall i | 0 <= i < |patterns[1..]|
          ensures Group1(patterns[1..][i], text).Some? ==> FileNameLike(Group1(patterns[1..][i], text).value)
        {
          assert patterns[1..][i] == patterns[i + 1];
        }
      }
      NoDotNoCapture(patterns[1..], text);
    }
  }

  /* ---------------------------------------------------------- file names */

  /** Only paragraphs and bold elements between the heading and the code
      block are searched for a file name. */
  predicate ReadForName(e: Element) {
    e.tag == "P" || e.tag == "STRONG"
  }

  /** A sibling that names the file. */
  predicate NamesFile(e: Element) {
    ReadForName(e) && FirstCapture(TextPatterns, e.text).Some?
  }

  /** The name given by the first sibling that names the file. */
  function SiblingName(siblings: seq<Element>): Option<string>
    decreases |siblings|
  {
    if siblings == [] then None
    else if NamesFile(siblings[0]) then FirstCapture(TextPatterns, siblings[0].text)
    else SiblingName(siblings[1..])
  }

  /** The default name `listing-<number>.<extension>`. */
  function FallbackName(number: nat, language: string): string {
    FallbackPrefix + NatToString(number) + "." + FileExtension(language)
  }

  /** The name of a listing: from its heading text, else from the first
      sibling that names a file, else the default name. */
  function ExtractFileName(headingText: string, siblings: seq<Element>, number: nat, language: string): (name: string)
    ensures FileNameLike(name)
  {
    var fromHeading := FirstCapture(HeadingPatterns, headingText);
    if fromHeading.Some? then
      PatternsCaptureFileNames(headingText);
      FirstCaptureOfFileNamePatterns(HeadingPatterns, headingText);
      fromHeading.value
    else
      var fromText := SiblingName(siblings);
      if fromText.Some? then
        SiblingNameIsFirstNamer(siblings);
        fromText.value
      else
        FallbackNameShape(number, language);
        FallbackName(number, language)
  }

  lemma DottedNameShape(stem: string, ext: string)
    requires stem != [] && forall i :: 0 <= i < |stem| ==> !IsSpace(stem[i])
    requires ext != [] && AllWordChars(ext)
    ensures FileNameLike(stem + "." + ext)
  {
    var s := stem + "." + ext;
    var j := |stem|;
    assert s[j] == '.';
    forall i | 0 <= i < |s| ensures !IsSpace(s[i]) {
      if i < j {
        assert s[i] == stem[i];
      } else if i > j {
        assert s[i] == ext[i - j - 1];
      }
    }
    forall i | j < i < |s| ensures IsWordChar(s[i]) {
      assert s[i] == ext[i - j - 1];
    }
  }

  const FallbackPrefix: string := "listing-"

  lemma FallbackPrefixHasNoSpace(i: nat)
    requires i < |FallbackPrefix|
    ensures !IsSpace(FallbackPrefix[i])
  {
    assert FallbackPrefix[0] == 'l' && FallbackPrefix[1] == 'i' && FallbackPrefix[2] == 's' && FallbackPrefix[3] == 't';
    assert FallbackPrefix[4] == 'i' && FallbackPrefix[5] == 'n' && FallbackPrefix[6] == 'g' && FallbackPrefix[7] == '-';
  }

  lemma FallbackStemHasNoSpace(digits: string)
    requires AllDigits(digits)
    ensures forall i :: 0 <= i < |FallbackPrefix + digits| ==> !IsSpace((FallbackPrefix + digits)[i])
  {
    var stem := FallbackPrefix + digits;
    forall i | 0 <= i < |stem| ensures !IsSpace(stem[i]) {
      if i < |FallbackPrefix| {
        assert stem[i] == FallbackPrefix[i];
        FallbackPrefixHasNoSpace(i);
      } else {
        assert stem[i] == digits[i - |FallbackPrefix|];
      }
    }
  }

  lemma FallbackNameShape(number: nat, language: string)
    ensures FileNameLike(FallbackName(number, language))
  {
    var digits := NatToString(number);
    FallbackStemHasNoSpace(digits);
    DottedNameShape(FallbackPrefix + digits, FileExtension(language));
  }

  /** The sibling search returns the capture of the first sibling that names
      a file, and nothing exactly when no sibling does; the name it returns
      is shaped like a file name. */
  lemma {:induction false} SiblingNameIsFirstNamer(siblings: seq<Element>)
    ensures SiblingName(siblings).None? <==> forall i :: 0 <= i < |siblings| ==> !NamesFile(siblings[i])
    ensures SiblingName(siblings).Some? ==>
              exists i :: 0 <= i < |siblings| && NamesFile(siblings[i])
                          && SiblingName(siblings) == FirstCapture(TextPatterns, siblings[i].text)
                          && forall j :: 0 <= j < i ==> !NamesFile(siblings[j])
    ensures SiblingName(siblings).Some? ==> FileNameLike(SiblingName(siblings).value)
    decreases |siblings|
  {
    if siblings != [] {
      SiblingNameIsFirstNamer(siblings[1..]);
      if NamesFile(siblings[0]) {
        PatternsCaptureFileNames(siblings[0].text);
        FirstCaptureOfFileNamePatterns(TextPatterns, siblings[0].text);
      } else {
        assert forall i :: 1 <= i < |siblings| ==> siblings[i] == siblings[1..][i - 1];
        if SiblingName(siblings).Some? {
          var i :| 0 <= i < |siblings[1..]| && NamesFile(siblings[1..][i])
                   && SiblingName(siblings[1..]) == FirstCapture(TextPatterns, siblings[1..][i].text)
                   && forall j :: 0 <= j < i ==> !NamesFile(siblings[1..][j]);
          assert siblings[i + 1] == siblings[1..][i];
        }
      }
    }
  }

  /** The elements that the file-name search reads. */
  function NameCandidates(siblings: seq<Element>): (r: seq<Element>)
    ensures forall i :: 0 <= i < |r| ==> ReadForName(r[i]) && r[i] in siblings
    decreases |siblings|
  {
    if siblings == [] then []
    else if ReadForName(siblings[0]) then [siblings[0]] + NameCandidates(siblings[1..])
    else NameCandidates(siblings[1..])
  }

  /** Elements other than paragraphs and bold text do not affect the name. */
  lemma {:induction false} OnlyCandidatesMatter(siblings: seq<Element>)
    ensures SiblingName(siblings) == SiblingName(NameCandidates(siblings))
    decreases |siblings|
  {
    if siblings != [] {
      OnlyCandidatesMatter(siblings[1..]);
      if ReadForName(siblings[0]) {
        var c := NameCandidates(siblings);
        assert c[0] == siblings[0] && c[1..] == NameCandidates(siblings[1..]);
      }
    }
  }

  /** The order of preference: a name in the heading wins over the siblings,
      which win over the default name; the default is used exactly when
      neither the heading nor any sibling names a file. */
  lemma ExtractFileNamePriority(headingText: string, siblings: seq<Element>, number: nat, language: string)
    ensures FirstCapture(HeadingPatterns, headingText).Some? ==>
              ExtractFileName(headingText, siblings, number, language) == FirstCapture(HeadingPatterns, headingText).value
    ensures FirstCapture(HeadingPatterns, headingText).None? && (exists i :: 0 <= i < |siblings| && NamesFile(siblings[i])) ==>
              Some(ExtractFileName(headingText, siblings, number, language)) == SiblingName(siblings)
    ensures FirstCapture(HeadingPatterns, headingText).None? && (forall i :: 0 <= i < |siblings| ==> !NamesFile(siblings[i])) ==>
              ExtractFileName(headingText, siblings, number, language) == FallbackName(number, language)
  {
    SiblingNameIsFirstNamer(siblings);
  }

  /* ---------------------------------------------------- listing headings */

  const ListingWord: string := "Листинг"

  /** `^Листинг\s+(\d+)` with the `i` flag: the number of a listing heading. */
  const ListingHeading: Pattern := Pattern([Bol, Lit(ListingWord), Run(Space, 1), Open, Run(Digit, 1), Close], true)

  /** `^Листинг\s+\d+` with the `i` flag: the test for a listing heading. */
  const ListingHeadingTest: Pattern := Pattern([Bol, Lit(ListingWord), Run(Space, 1), Run(Digit, 1)], true)

  /** A listing heading, read directly: the word "Листинг" in any case at the
      start, then at least one whitespace character, then at least one digit;
      the number is the whole run of digits. */
  function HeadingDigits(t: string): (r: Option<string>)
    ensures r.Some? ==> r.value != [] && AllDigits(r.value)
  {
    var w := |ListingWord|;
    if |t| >= w && SameIgnoringCase(t[..w], ListingWord) then
      var spaces := RunLength(t, Space, w);
      var digits := RunLength(t, Digit, w + spaces);
      if spaces == 0 || digits == 0 then None
      else
        var r := t[w + spaces..w + spaces + digits];
        assert forall i :: 0 <= i < |r| ==> r[i] == t[w + spaces + i];
        Some(r)
    else None
  }

  lemma ListingWordAt(t: string)
    ensures |ListingWord| == 7
    ensures LitAt(t, true, 0, ListingWord) <==> |t| >= 7 && SameIgnoringCase(t[..7], ListingWord)
  {
    if |t| >= 7 {
      assert forall i :: 0 <= i < 7 ==> t[..7][i] == t[i];
    }
  }

  const DigitGroup: seq<Item> := [Open, Run(Digit, 1), Close]

  /** The capturing digit part `(\d+)`, from position `q`. */
  lemma DigitGroupAt(t: string, q: nat, open: nat, group: Option<Span>)
    requires open <= q <= |t| && ValidSpan(t, group)
    ensures var d := RunLength(t, Digit, q);
            Try(t, true, DigitGroup, q, open, group) == if d == 0 then Fail else Success(Some(Span(q, q + d)))
  {
    var d := RunLength(t, Digit, q);
    var run := [Run(Digit, 1), Close];
    assert DigitGroup[0] == Open && DigitGroup[1..] == run;
    assert run[0] == Run(Digit, 1) && run[1..] == [Close];
    StepOpen(t, true, DigitGroup, q, open, group);
    if d >= 1 {
      assert Try(t, true, run, q, q, group) == TryRun(t, true, run, q, q, group, d);
      StepClose(t, true, [Close], q + d, q, group);
      assert [Close][1..] == [];
    }
  }

  /** The testing digit part `\d+`, from position `q`. */
  lemma DigitTestAt(t: string, q: nat, open: nat, group: Option<Span>)
    requires open <= q <= |t| && ValidSpan(t, group)
    ensures Try(t, true, [Run(Digit, 1)], q, open, group) == if RunLength(t, Digit, q) == 0 then Fail else Success(group)
  {
    var d := RunLength(t, Digit, q);
    assert [Run(Digit, 1)][1..] == [];
    if d >= 1 {
      assert Try(t, true, [Run(Digit, 1)], q, open, group) == TryRun(t, true, [Run(Digit, 1)], q, open, group, d);
    }
  }

  /** Either digit part fails exactly where no digit follows. */
  lemma DigitTail(t: string, tail: seq<Item>, q: nat, open: nat, group: Option<Span>)
    requires tail == DigitGroup || tail == [Run(Digit, 1)]
    requires open <= q <= |t| && ValidSpan(t, group)
    ensures Try(t, true, tail, q, open, group).Fail? <==> RunLength(t, Digit, q) == 0
  {
    if tail == DigitGroup {
      DigitGroupAt(t, q, open, group);
    } else {
      DigitTestAt(t, q, open, group);
    }
  }

  /** Inside a whitespace run the digit part fails, and so it does right
      after the run when no digit follows. */
  lemma SpacesThenNoDigit(t: string, tail: seq<Item>, p: nat, open: nat, group: Option<Span>)
    requires tail == DigitGroup || tail == [Run(Digit, 1)]
    requires open <= p <= |t| && ValidSpan(t, group)
    requires RunLength(t, Digit, p + RunLength(t, Space, p)) == 0
    ensures forall q :: p < q <= p + RunLength(t, Space, p) ==> Try(t, true, tail, q, open, group).Fail?
  {
    var sp := RunLength(t, Space, p);
    forall q | p < q <= p + sp
      ensures Try(t, true, tail, q, open, group).Fail?
    {
      if q < p + sp {
        assert IsSpace(t[q]) && !IsDigit(t[q]);
        assert RunLength(t, Digit, q) == 0;
      }
      DigitTail(t, tail, q, open, group);
    }
  }

  /** `\s+` followed by the digit part: the whitespace run is taken whole,
      because whitespace is never a digit. */
  lemma SpacedDigitsFound(t: string, items: seq<Item>, tail: seq<Item>, p: nat, open: nat, group: Option<Span>)
    requires tail == DigitGroup || tail == [Run(Digit, 1)]
    requires items == [Run(Space, 1)] + tail
    requires open <= p <= |t| && ValidSpan(t, group)
    requires RunLength(t, Space, p) >= 1 && RunLength(t, Digit, p + RunLength(t, Space, p)) >= 1
    ensures Try(t, true, items, p, open, group) == Try(t, true, tail, p + RunLength(t, Space, p), open, group)
  {
    assert items[0] == Run(Space, 1) && items[1..] == tail;
    var sp := RunLength(t, Space, p);
    assert Try(t, true, items, p, open, group) == TryRun(t, true, items, p, open, group, sp);
    DigitTail(t, tail, p + sp, open, group);
    TryRunPicks(t, true, items, p, open, group, sp, sp);
  }

  lemma SpacedDigitsMissing(t: string, items: seq<Item>, tail: seq<Item>, p: nat, open: nat, group: Option<Span>)
    requires tail == DigitGroup || tail == [Run(Digit, 1)]
    requires items == [Run(Space, 1)] + tail
    requires open <= p <= |t| && ValidSpan(t, group)
    requires RunLength(t, Space, p) == 0 || RunLength(t, Digit, p + RunLength(t, Space, p)) == 0
    ensures Try(t, true, items, p, open, group).Fail?
  {
    assert items[0] == Run(Space, 1) && items[1..] == tail;
    var sp := RunLength(t, Space, p);
    if sp >= 1 {
      assert Try(t, true, items, p, open, group) == TryRun(t, true, items, p, open, group, sp);
      SpacesThenNoDigit(t, tail, p, open, group);
      TryRunPicks(t, true, items, p, open, group, sp, 1);
    }
  }

  /** `^Листинг` at the start of either heading pattern. */
  lemma AnchoredWord(t: string, p: Pattern, rest: seq<Item>)
    requires p.ignoreCase && p.items == [Bol, Lit(ListingWord)] + rest
    ensures MatchFrom(p, t, 0)
            == if |t| >= 7 && SameIgnoringCase(t[..7], ListingWord) then Try(t, true, rest, 7, 0, None) else Fail
  {
    ListingWordAt(t);
    assert p.items[0] == Bol && p.items[1..] == [Lit(ListingWord)] + rest;
    assert ([Lit(ListingWord)] + rest)[0] == Lit(ListingWord) && ([Lit(ListingWord)] + rest)[1..] == rest;
    AnchoredMatch(p, t);
  }

  /** The word, at least one whitespace character and at least one digit
      start `t`. */
  predicate HeadingFound(t: string) {
    |t| >= 7 && SameIgnoringCase(t[..7], ListingWord)
    && RunLength(t, Space, 7) >= 1 && RunLength(t, Digit, 7 + RunLength(t, Space, 7)) >= 1
  }

  lemma HeadingMatchFound(t: string)
    requires HeadingFound(t)
    ensures var a := 7 + RunLength(t, Space, 7);
            MatchFrom(ListingHeading, t, 0) == Success(Some(Span(a, a + RunLength(t, Digit, a))))
  {
    var rest := [Run(Space, 1)] + DigitGroup;
    assert ListingHeading.items == [Bol, Lit(ListingWord)] + rest;
    AnchoredWord(t, ListingHeading, rest);
    var a := 7 + RunLength(t, Space, 7);
    SpacedGroupFound(t, rest, 7, a, RunLength(t, Digit, a));
  }

  /** Whitespace and digits from `p`: the group captures the `d` digits at
      `a`. */
  lemma SpacedGroupFound(t: string, rest: seq<Item>, p: nat, a: nat, d: nat)
    requires rest == [Run(Space, 1)] + DigitGroup
    requires p <= |t| && RunLength(t, Space, p) >= 1 && a == p + RunLength(t, Space, p)
    requires d == RunLength(t, Digit, a) && d >= 1
    ensures Try(t, true, rest, p, 0, None) == Success(Some(Span(a, a + d)))
  {
    SpacedDigitsFound(t, rest, DigitGroup, p, 0, None);
    DigitGroupFound(t, a, d);
  }

  lemma DigitGroupFound(t: string, a: nat, d: nat)
    requires a <= |t| && d == RunLength(t, Digit, a) && d >= 1
    ensures Try(t, true, DigitGroup, a, 0, None) == Success(Some(Span(a, a + d)))
  {
    DigitGroupAt(t, a, 0, None);
  }

  lemma HeadingMatchMissing(t: string)
    requires !HeadingFound(t)
    ensures MatchFrom(ListingHeading, t, 0).Fail?
  {
    var rest := [Run(Space, 1)] + DigitGroup;
    assert ListingHeading.items == [Bol, Lit(ListingWord)] + rest;
    AnchoredWord(t, ListingHeading, rest);
    if |t| >= 7 && SameIgnoringCase(t[..7], ListingWord) {
      SpacedDigitsMissing(t, rest, DigitGroup, 7, 0, None);
    }
  }

  lemma HeadingTestFound(t: string)
    requires HeadingFound(t)
    ensures Matches(ListingHeadingTest, t)
  {
    var rest := [Run(Space, 1)] + [Run(Digit, 1)];
    assert ListingHeadingTest.items == [Bol, Lit(ListingWord)] + rest;
    AnchoredWord(t, ListingHeadingTest, rest);
    SpacedDigitsFound(t, rest, [Run(Digit, 1)], 7, 0, None);
    DigitTestAt(t, 7 + RunLength(t, Space, 7), 0, None);
  }

  lemma HeadingTestMissing(t: string)
    requires !HeadingFound(t)
    ensures !Matches(ListingHeadingTest, t)
  {
    var rest := [Run(Space, 1)] + [Run(Digit, 1)];
    assert ListingHeadingTest.items == [Bol, Lit(ListingWord)] + rest;
    AnchoredWord(t, ListingHeadingTest, rest);
    if |t| >= 7 && SameIgnoringCase(t[..7], ListingWord) {
      SpacedDigitsMissing(t, rest, [Run(Digit, 1)], 7, 0, None);
    }
  }

  lemma ListingHeadingCaptures(t: string)
    ensures Group1(ListingHeading, t) == HeadingDigits(t)
  {
    if HeadingFound(t) {
      HeadingCaptureFound(t);
    } else {
      HeadingMatchMissing(t);
      HeadingDigitsMissing(t);
    }
  }

  lemma HeadingCaptureFound(t: string)
    requires HeadingFound(t)
    ensures Group1(ListingHeading, t) == HeadingDigits(t)
  {
    HeadingMatchFound(t);
    var a := 7 + RunLength(t, Space, 7);
    var e := a + RunLength(t, Digit, a);
    assert Group1(ListingHeading, t) == Some(t[a..e]);
    HeadingDigitsFound(t);
  }

  lemma HeadingDigitsFound(t: string)
    requires HeadingFound(t)
    ensures var a := 7 + RunLength(t, Space, 7);
            HeadingDigits(t) == Some(t[a..a + RunLength(t, Digit, a)])
  {
    assert |ListingWord| == 7;
  }

  lemma HeadingDigitsMissing(t: string)
    requires !HeadingFound(t)
    ensures HeadingDigits(t) == None
  {
    assert |ListingWord| == 7;
  }

  lemma ListingHeadingTests(t: string)
    ensures Matches(ListingHeadingTest, t) <==> HeadingDigits(t).Some?
  {
    if HeadingFound(t) {
      HeadingTestFound(t);
      HeadingDigitsFound(t);
    } else {
      HeadingTestMissing(t);
      HeadingDigitsMissing(t);
    }
  }

  /** The backtracking matcher reads a listing heading exactly as
      `HeadingDigits` does, for both the capturing and the testing pattern. */
  lemma ListingHeadingMeaning(t: string)
    ensures Group1(ListingHeading, t) == HeadingDigits(t)
    ensures Matches(ListingHeadingTest, t) <==> HeadingDigits(t).Some?
  {
    ListingHeadingCaptures(t);
    ListingHeadingTests(t);
  }

  /** The listing number of a heading: `parseInt` of the captured digits.
      The capture is always a run of digits (`ListingNumberMeaning`). */
  function ListingNumber(headingText: string): Option<nat> {
    match Group1(ListingHeading, Trim(headingText))
    case Some(digits) => if AllDigits(digits) then Some(DigitsValue(digits)) else None
    case None => None
  }

  /** A heading has a number exactly when it passes the listing test, and
      the number is the value of the digits after the word. */
  lemma ListingNumberMeaning(headingText: string)
    ensures ListingNumber(headingText).Some? <==> Matches(ListingHeadingTest, Trim(headingText))
    ensures var d := HeadingDigits(Trim(headingText));
            ListingNumber(headingText) == if d.Some? then Some(DigitsValue(d.value)) else None
  {
    ListingHeadingMeaning(Trim(headingText));
  }

  lemma TrimUnpadded(s: string)
    requires s != [] && !IsSpace(s[0]) && !IsSpace(s[|s| - 1])
    ensures Trim(s) == s
  {
  }

  lemma HeadingDigitsOfParts(word: string, spaces: string, digits: string, title: string)
    requires SameIgnoringCase(word, ListingWord)
    requires spaces != [] && AllSpace(spaces)
    requires digits != [] && AllDigits(digits)
    requires title == [] || !IsDigit(title[0])
    ensures HeadingDigits(word + spaces + digits + title) == Some(digits)
  {
    var t := word + spaces + digits + title;
    var a := 7 + |spaces|;
    var b := a + |digits|;
    assert |ListingWord| == 7 && t[..7] == word;
    assert t[7..a] == spaces;
    assert t[a..b] == digits;
    assert t[a] == digits[0] && !IsSpace(digits[0]);
    assert b < |t| ==> t[b] == title[0];
    RunOverSlice(t, Space, 7, spaces);
    RunOverSlice(t, Digit, a, digits);
  }

  /** A heading written as the word (in any case), whitespace, the decimal
      text of `n` and a title not starting with a digit has listing number
      `n`. */
  lemma ListingNumberOfHeading(word: string, spaces: string, n: nat, title: string)
    requires SameIgnoringCase(word, ListingWord)
    requires spaces != [] && AllSpace(spaces)
    requires title == [] || (!IsDigit(title[0]) && !IsSpace(title[|title| - 1]))
    ensures ListingNumber(word + spaces + NatToString(n) + title) == Some(n)
  {
    var digits := NatToString(n);
    var t := word + spaces + digits + title;
    assert t[0] == word[0];
    assert UpperChar(word[0]) == UpperChar(ListingWord[0]) == '\U{41B}';
    if title == [] {
      assert t[|t| - 1] == digits[|digits| - 1];
    } else {
      assert t[|t| - 1] == title[|title| - 1];
    }
    TrimUnpadded(t);
    HeadingDigitsOfParts(word, spaces, digits, title);
    ListingHeadingMeaning(t);
    DigitsValueOfNatToString(n);
  }

  /* ------------------------------------------------------------ the scan */

  /** `trim` of a heading's text passes the listing test. */
  predicate IsListingHeading(e: Element) {
    e.tag == "H3" && Matches(ListingHeadingTest, Trim(e.text))
  }

  /** Whether the page has a listing heading (what shows the button). */
  predicate HasListingHeading(article: seq<Element>) {
    exists h :: 0 <= h < |article| && IsListingHeading(article[h])
  }

  /** The check run on mount and again after a delay: without an article
      or `main` element the flag keeps its value. */
  function CheckForListings(hasListings: bool, root: Option<seq<Element>>): bool {
    if root.None? then hasListings else HasListingHeading(root.value)
  }

  /** The button shows once some `h3` of the page has a listing number;
      without an article the flag keeps its value. */
  lemma CheckForListingsMeaning(hasListings: bool, root: Option<seq<Element>>)
    ensures root.None? ==> CheckForListings(hasListings, root) == hasListings
    ensures root.Some? ==> (CheckForListings(hasListings, root) <==>
                            exists h :: 0 <= h < |root.value| && root.value[h].tag == "H3"
                                        && ListingNumber(root.value[h].text).Some?)
  {
    if root.Some? {
      forall h | 0 <= h < |root.value| {
        ListingNumberMeaning(root.value[h].text);
      }
    }
  }

  /** A sibling that holds a code block: a `pre`, or a `div` with a `pre`
      inside. */
  predicate HoldsCodeBlock(e: Element) {
    e.tag == "PRE" || (e.tag == "DIV" && e.nestedPre.Some?)
  }

  /** The position of the first element of `s` that holds a code block. */
  function FirstCodeBlock(s: seq<Element>): (r: Option<nat>)
    ensures r.Some? ==> r.value < |s| && HoldsCodeBlock(s[r.value])
                        && forall i :: 0 <= i < r.value ==> !HoldsCodeBlock(s[i])
    ensures r.None? ==> forall i :: 0 <= i < |s| ==> !HoldsCodeBlock(s[i])
  {
    if s == [] then None
    else if HoldsCodeBlock(s[0]) then Some(0)
    else match FirstCodeBlock(s[1..])
      case None => None
      case Some(k) => Some(k + 1)
  }

  /** The first sibling at or after `from` that holds a code block. */
  function NextCodeBlock(article: seq<Element>, from: nat): (r: Option<nat>)
    ensures r.Some? ==> from <= r.value < |article| && HoldsCodeBlock(article[r.value])
                        && forall i :: from <= i < r.value ==> !HoldsCodeBlock(article[i])
    ensures r.None? ==> forall i :: from <= i < |article| ==> !HoldsCodeBlock(article[i])
  {
    if from >= |article| then None
    else
      var r := FirstCodeBlock(article[from..]);
      assert forall i :: from <= i < |article| ==> article[i] == article[from..][i - from];
      match r
      case None => None
      case Some(k) => Some(from + k)
  }

  /** The code block is the first `pre` inside the sibling, or the sibling
      itself when it has none inside. */
  predicate BlockIsSibling(e: Element) {
    e.nestedPre.None?
  }

  /** The `code` element of the block that a sibling holds. */
  function BlockCode(e: Element): Option<Code> {
    match e.nestedPre
    case Some(pre) => pre.code
    case None => e.nestedCode
  }

  const LanguagePrefix: string := "language-"

  /** The language named by the first `language-` class, else "txt". */
  function LanguageOf(classes: seq<string>): (language: string)
    ensures (forall i :: 0 <= i < |classes| ==> !StartsWith(classes[i], LanguagePrefix)) ==> language == "txt"
    ensures forall i :: 0 <= i < |classes| && StartsWith(classes[i], LanguagePrefix)
                        && (forall j :: 0 <= j < i ==> !StartsWith(classes[j], LanguagePrefix))
                        ==> language == classes[i][|LanguagePrefix|..]
    decreases |classes|
  {
    if classes == [] then "txt"
    else if StartsWith(classes[0], LanguagePrefix) then classes[0][|LanguagePrefix|..]
    else
      assert forall i :: 1 <= i < |classes| ==> classes[i] == classes[1..][i - 1];
      LanguageOf(classes[1..])
  }

  /** Which siblings the file-name search reads. `UpToBlock` reads those
      between the heading and the sibling holding the code block.
      `AsWritten` stops only on reaching the code block itself, which is
      never a sibling when the block is nested in one, and then reads on to
      the end of the article. */
  datatype NameScope = UpToBlock | AsWritten

  function NameSiblings(article: seq<Element>, h: nat, j: nat, scope: NameScope): (r: seq<Element>)
    requires h < j < |article|
    ensures scope == UpToBlock ==> r == article[h + 1..j]
    ensures scope == AsWritten && BlockIsSibling(article[j]) ==> r == article[h + 1..j]
    ensures scope == AsWritten && !BlockIsSibling(article[j]) ==> r == article[h + 1..]
  {
    match scope
    case UpToBlock => article[h + 1..j]
    case AsWritten => if BlockIsSibling(article[j]) then article[h + 1..j] else article[h + 1..]
  }

  /** The listing introduced by sibling `h`, if it is a listing heading
      followed by a code block with a `code` element. */
  function ListingAt(article: seq<Element>, h: nat, scope: NameScope): Option<Listing>
    requires h < |article|
  {
    var heading := article[h];
    if heading.tag != "H3" then None
    else
      match ListingNumber(heading.text)
      case None => None
      case Some(number) =>
        match NextCodeBlock(article, h + 1)
        case None => None
        case Some(j) =>
          match BlockCode(article[j])
          case None => None
          case Some(code) =>
            var language := LanguageOf(code.classes);
            var name := ExtractFileName(heading.text, NameSiblings(article, h, j, scope), number, language);
            Some(Listing(number, name, code.content, language))
  }

  /** A listing comes from an `h3` whose text has its number, and its file
      name is shaped like one. */
  lemma ListingAtFacts(article: seq<Element>, h: nat, scope: NameScope)
    requires h < |article| && ListingAt(article, h, scope).Some?
    ensures article[h].tag == "H3"
    ensures ListingNumber(article[h].text) == Some(ListingAt(article, h, scope).value.number)
    ensures IsListingHeading(article[h])
    ensures FileNameLike(ListingAt(article, h, scope).value.fileName)
  {
    ListingNumberMeaning(article[h].text);
  }

  /** Once the heading, its number and its block are known, the listing is
      the block's content under the name the search finds. */
  lemma ListingAtBlock(article: seq<Element>, h: nat, j: nat, headingText: string, number: nat, code: Code,
                       scope: NameScope)
    requires h < |article| && article[h].tag == "H3" && article[h].text == headingText
    requires ListingNumber(headingText) == Some(number)
    requires NextCodeBlock(article, h + 1) == Some(j) && BlockCode(article[j]) == Some(code)
    ensures ListingAt(article, h, scope)
            == Some(Listing(number, ExtractFileName(headingText, NameSiblings(article, h, j, scope), number,
                                                    LanguageOf(code.classes)),
                            code.content, LanguageOf(code.classes)))
  {
  }

  /** What each sibling introduces, in page order. */
  function Introduced(article: seq<Element>, scope: NameScope): (r: seq<Option<Listing>>)
    ensures |r| == |article|
    ensures forall h :: 0 <= h < |article| ==> r[h] == ListingAt(article, h, scope)
  {
    seq(|article|, h requires 0 <= h < |article| => ListingAt(article, h, scope))
  }

  /** The listings of the page, in page order. */
  function Collect(article: seq<Element>, scope: NameScope): seq<Listing> {
    Somes(Introduced(article, scope))
  }

  /** `a.number - b.number` as a sort key. */
  function ByNumber(l: Listing): int {
    l.number
  }

  /** All listings of the page, ordered by number; listings with the same
      number keep their page order. */
  function ExtractListings(root: Option<seq<Element>>, scope: NameScope): (r: seq<Listing>)
    ensures root.None? ==> r == []
    ensures root.Some? ==> multiset(r) == multiset(Collect(root.value, scope))
    ensures StableSort.SortedBy(r, ByNumber)
  {
    match root
    case None => []
    case Some(article) => StableSort.Sort(Collect(article, scope), ByNumber)
  }

  /** The extracted listings are exactly those some heading introduces, in
      order of number, with equal numbers in page order. */
  lemma ExtractListingsMeaning(article: seq<Element>, scope: NameScope, l: Listing, k: int)
    ensures l in ExtractListings(Some(article), scope) <==>
              exists h :: 0 <= h < |article| && ListingAt(article, h, scope) == Some(l)
    ensures StableSort.WithKey(ExtractListings(Some(article), scope), ByNumber, k)
            == StableSort.WithKey(Collect(article, scope), ByNumber, k)
  {
    var collected := Collect(article, scope);
    assert l in ExtractListings(Some(article), scope) <==> l in multiset(collected);
    SomesMembers(Introduced(article, scope), l);
    StableSort.SortIsStable(collected, ByNumber, k);
  }

  /** Whenever the download finds a listing, the button was shown. */
  lemma ListingsImplyButton(root: Option<seq<Element>>, scope: NameScope)
    requires ExtractListings(root, scope) != []
    ensures root.Some? && HasListingHeading(root.value)
  {
    var r := ExtractListings(root, scope);
    var l := r[0];
    ExtractListingsMeaning(root.value, scope, l, 0);
    var h :| 0 <= h < |root.value| && ListingAt(root.value, h, scope) == Some(l);
    ListingAtFacts(root.value, h, scope);
  }

  /** The two scopes agree whenever the block is the sibling itself. */
  lemma ScopesAgreeOnBareBlocks(article: seq<Element>, h: nat)
    requires h < |article|
    requires forall j :: h < j < |article| && HoldsCodeBlock(article[j]) ==> BlockIsSibling(article[j])
    ensures ListingAt(article, h, AsWritten) == ListingAt(article, h, UpToBlock)
  {
  }

  /** With the search bounded by the block, no sibling that holds a code
      block is read for the name. */
  lemma UpToBlockStopsAtBlock(article: seq<Element>, h: nat, j: nat)
    requires h < j < |article| && NextCodeBlock(article, h + 1) == Some(j)
    ensures forall e :: e in NameSiblings(article, h, j, UpToBlock) ==> !HoldsCodeBlock(e)
  {
    forall e | e in NameSiblings(article, h, j, UpToBlock) ensures !HoldsCodeBlock(e) {
      var i :| 0 <= i < j - h - 1 && article[h + 1..j][i] == e;
      assert e == article[h + 1 + i];
    }
  }
}
