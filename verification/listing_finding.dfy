/**
 A page on which the file-name search of the listing extraction, as the
 component writes it, reads past the listing's code block.

 The search walks the siblings after the heading until it meets the code
 block. When the block is a `pre` nested in a `div` (the shape Docusaurus
 gives highlighted code), the block is not a sibling, the walk never meets
 it, and a paragraph anywhere further down the page can name the listing.
 */
module ListingFinding {
  import opened Text
  import opened Regex
  import opened RegexLemmas
  import opened Listings

  /** No character of "main.c" opens the words the file-mention pattern
      looks for, in any case. */
  lemma NoFileWordIn(t: string)
    requires t == "main.c"
    ensures forall pos, s :: 0 <= pos <= |t| && s in LeadingLiterals(SourceFileMention.items[0])
                             ==> !LitAt(t, true, pos, s)
  {
    assert LeadingLiterals(SourceFileMention.items[0]) == ["Исходный файл", "файл", "file"];
    forall pos, s | 0 <= pos <= |t| && s in ["Исходный файл", "файл", "file"]
      ensures !LitAt(t, true, pos, s)
    {
      if pos < |t| && |s| > 0 {
        assert s[0] == '\U{418}' || s[0] == '\U{444}' || s[0] == 'f';
        assert UpperChar(s[0]) == '\U{418}' || UpperChar(s[0]) == '\U{424}' || UpperChar(s[0]) == 'F';
        assert t[pos] in "main.c";
        assert !CharEq(true, t[pos + 0], s[0]);
      }
    }
  }

  lemma NoStarIn(t: string)
    requires t == "main.c"
    ensures forall pos, s :: 0 <= pos <= |t| && s in LeadingLiterals(BoldName.items[0]) ==> !LitAt(t, false, pos, s)
  {
    assert LeadingLiterals(BoldName.items[0]) == ["**"];
    forall pos | 0 <= pos <= |t| ensures !LitAt(t, false, pos, "**") {
      if pos < |t| {
        assert t[pos] in "main.c";
        assert !CharEq(false, t[pos + 0], "**"[0]);
      }
    }
  }

  /** The bare-name pattern captures the whole of a text made of a stem, a
      dot and an extension. */
  lemma BareNameWhole(t: string, j: nat)
    requires 0 < j && j + 2 <= |t| && t[j] == '.'
    requires RunLength(t, FileChar, 0) == j && RunLength(t, Word, j + 1) == |t| - (j + 1)
    ensures Group1(BareName, t) == Some(t)
  {
    var items := BareName.items;
    var i1 := [Run(FileChar, 1), Lit("."), Run(Word, 1), Close];
    assert items == [Open] + i1;
    assert items[0] == Open && items[1..] == i1;
    StemThenExtension(t, j, i1);
    assert Try(t, false, items, 0, 0, None) == Success(Some(Span(0, |t|)));
    assert t[0..|t|] == t;
  }

  lemma StemThenExtension(t: string, j: nat, i1: seq<Item>)
    requires 0 < j && j + 2 <= |t| && t[j] == '.'
    requires RunLength(t, FileChar, 0) == j && RunLength(t, Word, j + 1) == |t| - (j + 1)
    requires i1 == [Run(FileChar, 1), Lit("."), Run(Word, 1), Close]
    ensures Try(t, false, i1, 0, 0, None) == Success(Some(Span(0, |t|)))
  {
    var i2 := [Lit("."), Run(Word, 1), Close];
    assert i1[0] == Run(FileChar, 1) && i1[1..] == i2;
    DotThenExtension(t, j, i2);
    assert Try(t, false, i1, 0, 0, None) == TryRun(t, false, i1, 0, 0, None, j);
  }

  lemma DotThenExtension(t: string, j: nat, i2: seq<Item>)
    requires j + 2 <= |t| && t[j] == '.'
    requires RunLength(t, Word, j + 1) == |t| - (j + 1)
    requires i2 == [Lit("."), Run(Word, 1), Close]
    ensures Try(t, false, i2, j, 0, None) == Success(Some(Span(0, |t|)))
  {
    var i3 := [Run(Word, 1), Close];
    assert i2[0] == Lit(".") && i2[1..] == i3;
    assert LitAt(t, false, j, ".") by {
      assert t[j + 0] == "."[0];
    }
    ExtensionToEnd(t, j + 1, i3);
  }

  lemma ExtensionToEnd(t: string, q: nat, i3: seq<Item>)
    requires q < |t| && RunLength(t, Word, q) == |t| - q
    requires i3 == [Run(Word, 1), Close]
    ensures Try(t, false, i3, q, 0, None) == Success(Some(Span(0, |t|)))
  {
    assert i3[0] == Run(Word, 1) && i3[1..] == [Close];
    assert [Close][0] == Close && [Close][1..] == [];
    assert Try(t, false, [Close], |t|, 0, None) == Success(Some(Span(0, |t|)));
    assert Try(t, false, i3, q, 0, None) == TryRun(t, false, i3, q, 0, None, |t| - q);
  }

  lemma MainCRuns(t: string)
    requires t == "main.c"
    ensures |t| == 6 && t[4] == '.'
    ensures RunLength(t, FileChar, 0) == 4 && RunLength(t, Word, 5) == 1
  {
    RunLengthIs(t, FileChar, 0, 4);
    RunLengthIs(t, Word, 5, 1);
  }

  /** The bare-name pattern captures all of "main.c". */
  lemma BareNameOfMainC(t: string)
    requires t == "main.c"
    ensures Group1(BareName, t) == Some(t)
  {
    MainCRuns(t);
    BareNameWhole(t, 4);
  }

  /** "main.c" names a file through the third paragraph pattern. */
  lemma TextNameOfMainC(t: string)
    requires t == "main.c"
    ensures FirstCapture(TextPatterns, t) == Some(t)
  {
    MatchNeedsLeadingLiteral(SourceFileMention, t);
    NoFileWordIn(t);
    MatchNeedsLeadingLiteral(BoldName, t);
    NoStarIn(t);
    BareNameOfMainC(t);
    assert !Matches(SourceFileMention, t) && Group1(SourceFileMention, t) == None;
    assert !Matches(BoldName, t) && Group1(BoldName, t) == None;
    var rest := TextPatterns[1..];
    assert TextPatterns[0] == SourceFileMention && rest == [BoldName, BareName];
    assert rest[0] == BoldName && rest[1..] == [BareName];
    assert FirstCapture([BareName], t) == Some(t);
    assert FirstCapture(rest, t) == FirstCapture([BareName], t);
  }

  /** The page: a listing heading, the code block nested in a `div` (whose
      text is the code), and after the block a paragraph that mentions a
      file. */
  function NestedBlockPage(heading: string, code: Code, paragraph: string): seq<Element> {
    [Element("H3", heading, None, None), BlockDiv(code), Element("P", paragraph, None, None)]
  }

  /** The `div` Docusaurus wraps around a highlighted block. */
  function BlockDiv(code: Code): Element {
    Element("DIV", code.content, Some(Pre(Some(code))), Some(code))
  }

  lemma NumberOfListing1(heading: string)
    requires heading == "Листинг 1"
    ensures ListingNumber(heading) == Some(1)
    ensures FirstCapture(HeadingPatterns, heading) == None
  {
    assert NatToString(1) == "1";
    NumberOfWordSpaceOne(heading);
    NoDotInListing1(heading);
    NoDotHeading(heading);
  }

  lemma NoDotInListing1(heading: string)
    requires heading == "Листинг 1"
    ensures '.' !in heading
  {
    forall i | 0 <= i < |heading| ensures heading[i] != '.' {
      assert heading[i] in "Листинг 1";
    }
  }

  lemma NumberOfWordSpaceOne(heading: string)
    requires heading == ListingWord + " " + NatToString(1) + ""
    ensures ListingNumber(heading) == Some(1)
  {
    assert SameIgnoringCase(ListingWord, ListingWord);
    assert AllSpace(" ");
    ListingNumberOfHeading(ListingWord, " ", 1, "");
  }

  lemma NoDotHeading(heading: string)
    requires '.' !in heading
    ensures FirstCapture(HeadingPatterns, heading) == None
  {
    PatternsCaptureFileNames(heading);
    NoDotNoCapture(HeadingPatterns, heading);
  }

  lemma LanguageC(language: string, classes: seq<string>, c: string)
    requires language == "language-c" && classes == [language] && c == "c"
    ensures LanguageOf(classes) == c
    ensures FileExtension(c) == c
  {
    assert language[..9] == LanguagePrefix;
    assert language[9..] == c;
    assert Lower(c) == c;
    assert LanguageKey(c) == c;
    assert c in Extensions;
  }

  /** The facts about a page that decide its first listing: a numbered
      heading first, its block second, nothing between them, and `later`
      the siblings the unbounded search reads. */
  predicate ShapedLikePage(page: seq<Element>, heading: string, code: Code, later: seq<Element>) {
    && 0 < |page| && page[0].tag == "H3" && page[0].text == heading
    && NextCodeBlock(page, 0 + 1) == Some(1) && BlockCode(page[1]) == Some(code)
    && NameSiblings(page, 0, 1, UpToBlock) == []
    && NameSiblings(page, 0, 1, AsWritten) == later
  }

  /** The nested block page has that shape, the unbounded search reading the
      block's `div` and then the paragraph. */
  lemma PageShape(heading: string, code: Code, paragraph: string)
    ensures ShapedLikePage(NestedBlockPage(heading, code, paragraph), heading, code,
                           [BlockDiv(code), Element("P", paragraph, None, None)])
  {
    var page := NestedBlockPage(heading, code, paragraph);
    assert FirstCodeBlock(page[1..]) == Some(0);
    assert NameSiblings(page, 0, 1, UpToBlock) == [];
    assert NameSiblings(page, 0, 1, AsWritten) == [page[1], page[2]];
  }

  /** A sibling that is not read leaves the name to the one after it. */
  lemma NameAfterSkipped(headingText: string, skipped: Element, paragraph: string, n: nat, language: string)
    requires FirstCapture(HeadingPatterns, headingText) == None
    requires !ReadForName(skipped) && FirstCapture(TextPatterns, paragraph).Some?
    ensures ExtractFileName(headingText, [skipped, Element("P", paragraph, None, None)], n, language)
            == FirstCapture(TextPatterns, paragraph).value
  {
    var named := Element("P", paragraph, None, None);
    assert NamesFile(named);
    assert [skipped, named][1..] == [named];
    assert SiblingName([skipped, named]) == SiblingName([named]);
  }

  /** With no sibling to read, a heading that names no file leaves the
      default name. */
  lemma NameWithoutSiblings(headingText: string, n: nat, language: string)
    requires FirstCapture(HeadingPatterns, headingText) == None
    ensures ExtractFileName(headingText, [], n, language) == FallbackName(n, language)
  {
    ExtractFileNamePriority(headingText, [], n, language);
  }

  lemma ShapedListing(page: seq<Element>, heading: string, code: Code, later: seq<Element>, n: nat,
                      scope: NameScope, name: string)
    requires ShapedLikePage(page, heading, code, later) && ListingNumber(heading) == Some(n)
    requires ExtractFileName(heading, NameSiblings(page, 0, 1, scope), n, LanguageOf(code.classes)) == name
    ensures ListingAt(page, 0, scope) == Some(Listing(n, name, code.content, LanguageOf(code.classes)))
  {
    ListingAtBlock(page, 0, 1, heading, n, code, scope);
  }

  /** On any page of that shape whose unbounded search reads a skipped
      sibling and then a naming paragraph, the paragraph names the listing. */
  lemma ShapedAsWritten(page: seq<Element>, heading: string, code: Code, skipped: Element, paragraph: string,
                        n: nat)
    requires ShapedLikePage(page, heading, code, [skipped, Element("P", paragraph, None, None)])
    requires ListingNumber(heading) == Some(n) && FirstCapture(HeadingPatterns, heading) == None
    requires !ReadForName(skipped) && FirstCapture(TextPatterns, paragraph).Some?
    ensures ListingAt(page, 0, AsWritten)
            == Some(Listing(n, FirstCapture(TextPatterns, paragraph).value, code.content, LanguageOf(code.classes)))
  {
    NameAfterSkipped(heading, skipped, paragraph, n, LanguageOf(code.classes));
    ShapedListing(page, heading, code, [skipped, Element("P", paragraph, None, None)], n, AsWritten,
                  FirstCapture(TextPatterns, paragraph).value);
  }

  /** On any page of that shape the bounded search reads nothing. */
  lemma ShapedUpToBlock(page: seq<Element>, heading: string, code: Code, later: seq<Element>, n: nat)
    requires ShapedLikePage(page, heading, code, later)
    requires ListingNumber(heading) == Some(n) && FirstCapture(HeadingPatterns, heading) == None
    ensures ListingAt(page, 0, UpToBlock)
            == Some(Listing(n, FallbackName(n, LanguageOf(code.classes)), code.content, LanguageOf(code.classes)))
  {
    NameWithoutSiblings(heading, n, LanguageOf(code.classes));
    ShapedListing(page, heading, code, later, n, UpToBlock, FallbackName(n, LanguageOf(code.classes)));
  }

  /** As written, a listing whose heading names no file takes its name from
      a paragraph after its nested code block. */
  lemma AsWrittenReadsPastBlock(heading: string, code: Code, paragraph: string, n: nat)
    requires ListingNumber(heading) == Some(n) && FirstCapture(HeadingPatterns, heading) == None
    requires FirstCapture(TextPatterns, paragraph).Some?
    ensures ListingAt(NestedBlockPage(heading, code, paragraph), 0, AsWritten)
            == Some(Listing(n, FirstCapture(TextPatterns, paragraph).value, code.content, LanguageOf(code.classes)))
  {
    PageShape(heading, code, paragraph);
    ShapedAsWritten(NestedBlockPage(heading, code, paragraph), heading, code, BlockDiv(code), paragraph, n);
  }

  /** With the search bounded by the block, the same listing gets the
      default name. */
  lemma UpToBlockKeepsDefault(heading: string, code: Code, paragraph: string, n: nat)
    requires ListingNumber(heading) == Some(n) && FirstCapture(HeadingPatterns, heading) == None
    ensures ListingAt(NestedBlockPage(heading, code, paragraph), 0, UpToBlock)
            == Some(Listing(n, FallbackName(n, LanguageOf(code.classes)), code.content, LanguageOf(code.classes)))
  {
    PageShape(heading, code, paragraph);
    ShapedUpToBlock(NestedBlockPage(heading, code, paragraph), heading, code,
                    [BlockDiv(code), Element("P", paragraph, None, None)], n);
  }

  /** The page with heading "Листинг 1", a C block, and the paragraph
      "main.c": the listing is saved as main.c rather than listing-1.c. */
  lemma MainCExample(heading: string, language: string, content: string, paragraph: string)
    requires heading == "Листинг 1" && language == "language-c" && paragraph == "main.c"
    ensures var page := NestedBlockPage(heading, Code([language], content), paragraph);
            && ListingAt(page, 0, AsWritten) == Some(Listing(1, "main.c", content, "c"))
            && ListingAt(page, 0, UpToBlock) == Some(Listing(1, "listing-" + "1" + "." + "c", content, "c"))
  {
    var code := Code([language], content);
    NumberOfListing1(heading);
    TextNameOfMainC(paragraph);
    var c := LanguageOf(code.classes);
    LanguageC(language, code.classes, c);
    AsWrittenReadsPastBlock(heading, code, paragraph, 1);
    UpToBlockKeepsDefault(heading, code, paragraph, 1);
    assert NatToString(1) == "1";
    assert FallbackName(1, c) == FallbackPrefix + "1" + "." + c;
  }
}
