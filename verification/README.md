# Model of the documentation site's page logic

The site is a Docusaurus build of course notes. Its own TypeScript components do
six things that this project models:

- the **listings download button**. It finds every `h3` headed "Листинг N" on a
  page, pairs it with the code block that follows, and names each file. The name
  comes from the heading, from a paragraph after it, or from a default built from
  the block's language. The button packs the listings, sorted by number, into a
  ZIP archive named after the page's `h1`;
- the **home page**. It lists the documents of three sidebar categories, and
  builds each document's link and title from its id;
- the **ZIP marker and button pair**. `DownloadZipButton` renders a hidden marker
  element. `AutoDownloadZipButtons` collects the markers, hides them, and renders
  one download button per marker;
- the **favicon switcher**. It picks the dark or light icon from the theme
  attribute, the stored theme or the system preference;
- the **star counter**. It asks for the repository's star count and invites the
  next star with the right Russian plural.

Pages are modelled as sequences of elements. Attributes are modelled as options.
The browser's answers become parameters: a missing root element, a throwing
step, or how a fetch ends. Every operation is a pure function. Its contract, or
a lemma next to it, states what the operation promises.

The modules follow the components:

- `Text`: the JavaScript string operations the components rely on;
- `Regex` and `RegexLemmas`: a backtracking matcher for the few regular
  expressions with alternatives;
- `Listings`, `ListingArchive`, `ListingFinding` and `StableSort`: the listings
  button;
- `HomePage`, `ZipMarkers`, `Favicon` and `GitHubStars`: the other components.

Two details of the listings button, as the code has them:

- The language `asm` maps to the extension `asm`. Only `assembly` maps to `s`.
- The search for a heading's code block is not bounded by the next heading. It
  takes the first later sibling that holds a code block.

## Model

| member | source | states |
|---|---|---|
| Listings.FileExtension | website/src/components/DownloadListingsButton/index.tsx:74-93 | the extension is the table entry of the trimmed, lower-cased language, and "txt" exactly when that key is not in the table; it is a non-empty word |
| Listings.ExtensionFor | website/src/components/DownloadListingsButton/index.tsx:75-92 | "txt" exactly for keys outside the language table; otherwise a non-empty word |
| Listings.ExtensionValuesListed | website/src/components/DownloadListingsButton/index.tsx:75-89 | every value of the language table is one of the twelve listed extensions |
| Listings.ExtensionValueShape | website/src/components/DownloadListingsButton/index.tsx:75-89 | no table value is "txt", empty or holds a non-word character |
| Listings.FileExtensionIgnoresPadding | website/src/components/DownloadListingsButton/index.tsx:91 | whitespace around the language name does not change the extension |
| Listings.FileExtensionIgnoresCase | website/src/components/DownloadListingsButton/index.tsx:91 | languages equal up to case get the same extension |
| Listings.PatternsCaptureFileNames | website/src/components/DownloadListingsButton/index.tsx:105-108 | on any text, every heading pattern and every paragraph pattern captures only a space-free name with a dot and a word extension |
| Listings.FirstCaptureOfFileNamePatterns | website/src/components/DownloadListingsButton/index.tsx:111-116 | the first non-empty capture of such a pattern list is shaped like a file name |
| Listings.NoDotNoCapture | website/src/components/DownloadListingsButton/index.tsx:111-116 | a text without a dot yields no capture from either list |
| Listings.SiblingNameIsFirstNamer | website/src/components/DownloadListingsButton/index.tsx:119-138 | the sibling search yields nothing exactly when no paragraph or bold sibling names a file; otherwise it yields the capture of the first sibling that does |
| Listings.NameCandidates | website/src/components/DownloadListingsButton/index.tsx:121 | the elements searched for a name are the paragraph and bold siblings, each taken from the input |
| Listings.OnlyCandidatesMatter | website/src/components/DownloadListingsButton/index.tsx:121 | siblings other than paragraphs and bold text do not change the name found |
| Listings.ExtractFileName | website/src/components/DownloadListingsButton/index.tsx:96-143 | every name returned, whichever rule produced it, is shaped like a file name |
| Listings.ExtractFileNamePriority | website/src/components/DownloadListingsButton/index.tsx:102-142 | a name in the heading wins; otherwise the first naming sibling wins; the default `listing-N.ext` is used exactly when neither names a file |
| Listings.FallbackNameShape | website/src/components/DownloadListingsButton/index.tsx:141-142 | the default `listing-<number>.<extension>` is shaped like a file name |
| Listings.ListingHeadingMeaning | website/src/components/DownloadListingsButton/index.tsx:49 | the backtracking matcher on `^Листинг\s+(\d+)` with the `i` flag captures exactly the digit run after the case-insensitive word and its whitespace, and the test pattern succeeds exactly when that run exists |
| Listings.ListingNumberMeaning | website/src/components/DownloadListingsButton/index.tsx:159-165 | a heading has a number exactly when its trimmed text passes the listing test; the number is the decimal value of the captured digits |
| Listings.ListingNumberOfHeading | website/src/components/DownloadListingsButton/index.tsx:159-165 | a heading written as the word in any case, whitespace, the decimal text of n and a title not starting with a digit has number n |
| Listings.CheckForListingsMeaning | website/src/components/DownloadListingsButton/index.tsx:35-53 | without an `article` or `main` element the flag keeps its value; otherwise it is set exactly when some `h3` has a listing number |
| Listings.FirstCodeBlock | website/src/components/DownloadListingsButton/index.tsx:171-181 | the position found holds a `pre`, or a `div` with a `pre` inside, and no earlier sibling does; none is found only when no sibling does |
| Listings.NextCodeBlock | website/src/components/DownloadListingsButton/index.tsx:168-181 | the first sibling after the heading that holds a code block; none only when no later sibling holds one |
| Listings.LanguageOf | website/src/components/DownloadListingsButton/index.tsx:193-200 | the language is the text after `language-` in the first class that starts with it, and "txt" when no class does |
| Listings.NameSiblings | website/src/components/DownloadListingsButton/index.tsx:119-120 | the bounded search reads the siblings between the heading and the block; as written, a block nested in a `div` lets the search run to the end of the page |
| Listings.ListingAtFacts | website/src/components/DownloadListingsButton/index.tsx:158-273 | a listing comes only from an `h3` whose text passes the listing test, carries that heading's number, and has a name shaped like a file name |
| Listings.ListingAtBlock | website/src/components/DownloadListingsButton/index.tsx:165-273 | once the heading, its number and its block's `code` element are known, the listing is the code's content under the extracted name and the block's language |
| Listings.Introduced | website/src/components/DownloadListingsButton/index.tsx:158 | one entry per sibling, in page order, each being what that sibling introduces |
| Listings.ExtractListings | website/src/components/DownloadListingsButton/index.tsx:146-277 | no listings without a content root; otherwise a rearrangement of the listings the headings introduce, sorted by number |
| Listings.ExtractListingsMeaning | website/src/components/DownloadListingsButton/index.tsx:146-277 | a listing is extracted exactly when some heading introduces it, and listings with equal numbers keep their page order |
| Listings.ListingsImplyButton | website/src/components/DownloadListingsButton/index.tsx:35-53 | whenever extraction finds a listing, the visibility check has found a listing heading |
| Listings.ScopesAgreeOnBareBlocks | website/src/components/DownloadListingsButton/index.tsx:119-120 | when every later code block is a bare `pre` sibling, the as-written and the bounded search give the same listing |
| Listings.UpToBlockStopsAtBlock | website/src/components/DownloadListingsButton/index.tsx:119-120 | the bounded search reads no sibling that holds a code block |
| ListingFinding.AsWrittenReadsPastBlock | website/src/components/DownloadListingsButton/index.tsx:119-138 | as written, a heading that names no file, followed by a `div`-wrapped block and then a naming paragraph, takes its name from that paragraph |
| ListingFinding.UpToBlockKeepsDefault | website/src/components/DownloadListingsButton/index.tsx:119-142 | on the same page the bounded search reads nothing and the listing keeps its default name |
| ListingFinding.MainCExample | website/src/components/DownloadListingsButton/index.tsx:119-142 | "Листинг 1", a C block in a `div`, then the paragraph "main.c": as written the file is main.c, bounded it is listing-1.c |
| ListingFinding.ShapedAsWritten | website/src/components/DownloadListingsButton/index.tsx:119-138 | on every page of that shape, the paragraph after the block names the listing as written |
| ListingFinding.ShapedUpToBlock | website/src/components/DownloadListingsButton/index.tsx:119-142 | on every page of that shape, the bounded search gives the default name |
| RegexLemmas.FileNameCaptureShape | website/src/components/DownloadListingsButton/index.tsx:105-108 | any capture of a pattern `prefix (C+\.\w+) tail` with no other group is shaped like a file name |
| RegexLemmas.MatchNeedsLeadingLiteral | website/src/components/DownloadListingsButton/index.tsx:125-126 | a pattern that starts with a literal or a required alternation matches only where one of those literals occurs |
| StableSort.Sort | website/src/components/DownloadListingsButton/index.tsx:276 | the result is a rearrangement of the input, ordered by key |
| StableSort.SortIsStable | website/src/components/DownloadListingsButton/index.tsx:276 | for every key, the elements with that key appear in the result in their input order |
| StableSort.SortIsTheStableOrder | website/src/components/DownloadListingsButton/index.tsx:276 | any sorted rearrangement that keeps equal keys in input order equals the result, so the order is fully determined |
| ListingArchive.ArchiveMeaning | website/src/components/DownloadListingsButton/index.tsx:292-297 | the archive's names are exactly the listings' file names, and each name holds the content of the last listing with that name |
| ListingArchive.LaterListingOverwrites | website/src/components/DownloadListingsButton/index.tsx:295-297 | of two listings with the same name, the second one's content is kept |
| ListingArchive.SanitizeTitleShape | website/src/components/DownloadListingsButton/index.tsx:306-309 | the sanitised title consists of kept letters and single dashes, holds no doubled dash, and does not start or end with a dash |
| ListingArchive.CollapseRun | website/src/components/DownloadListingsButton/index.tsx:308 | a run of characters outside the class, between pieces that touch it only with kept characters, becomes exactly one `-`, and the pieces collapse on their own |
| ListingArchive.CollapseAppend | website/src/components/DownloadListingsButton/index.tsx:308 | collapsing a text cut after a kept character is collapsing the two parts |
| ListingArchive.CollapseOfSpaced | website/src/components/DownloadListingsButton/index.tsx:308 | one character outside the class between two kept ones becomes a single `-` |
| ListingArchive.SanitizeSpacedTitle | website/src/components/DownloadListingsButton/index.tsx:306-309 | the title "a b" gives "a-b" |
| ListingArchive.SanitizeTitleIdempotent | website/src/components/DownloadListingsButton/index.tsx:306-309 | sanitising a sanitised title changes nothing |
| ListingArchive.SanitizeKeepsRussian | website/src/components/DownloadListingsButton/index.tsx:308 | with `ё` among the kept letters, every Russian lower-case letter of the lowered title survives, in order |
| ListingArchive.YoDropped | website/src/components/DownloadListingsButton/index.tsx:308 | as written, the title "Ёж" sanitises to "ж", losing a Russian letter; the corrected class gives "ёж" |
| ListingArchive.PageTitle | website/src/components/DownloadListingsButton/index.tsx:303-305 | the title is never empty: the trimmed `h1` text, or "page" without a non-blank `h1` |
| ListingArchive.ZipFileNameShape | website/src/components/DownloadListingsButton/index.tsx:303-310 | the download name is the sanitised title followed by "-listings.zip", and that stem has the sanitised shape |
| ListingArchive.ZipFileNameOfYo | website/src/components/DownloadListingsButton/index.tsx:303-310 | a page headed "Ёж" downloads "ж-listings.zip" as written and "ёж-listings.zip" with the corrected class |
| ListingArchive.CatchClause | website/src/components/DownloadListingsButton/index.tsx:330-332 | a throw becomes a failure with the failure alert appended; a normal exit passes unchanged |
| ListingArchive.FinallyClause | website/src/components/DownloadListingsButton/index.tsx:333-335 | every exit, normal or thrown, gets one more write of `false` and keeps its outcome and alerts |
| ListingArchive.HandleDownloadMeaning | website/src/components/DownloadListingsButton/index.tsx:280-336 | the flag is set first and every later write clears it; no listings gives the not-found alert and no archive; any throw gives the failure alert; otherwise the archive of the listings under the page's zip name |
| ListingArchive.HandleDownloadOfYo | website/src/components/DownloadListingsButton/index.tsx:303-318 | as written, the handler downloads the listings of a page headed "Ёж" as "ж-listings.zip" |
| ListingArchive.ViewAroundClick | website/src/components/DownloadListingsButton/index.tsx:339-381 | the view of the first flag write is the disabled button with the spinner; the view of the last write is the enabled button with its text |
| HomePage.FindCategory | website/src/pages/index.tsx:32-37 | the position found is the first category with the caption; none only when no item is such a category |
| HomePage.DocIdsMembers | website/src/pages/index.tsx:40-42 | a string is kept exactly when it is a document reference among the items |
| HomePage.GetCategoryItemsMeaning | website/src/pages/index.tsx:27-46 | empty when the sidebar is not an array or has no category of that caption; otherwise exactly the document ids listed directly in the first such category |
| HomePage.ShippedSidebarHasNoItems | website/sidebars.ts:18-24 | the shipped sidebar holds no category, so every home-page section, including the three the page asks for, is empty |
| HomePage.StripUrlNumber | website/src/pages/index.tsx:53 | the name is kept, or exactly one prefix of digits and one separator is removed |
| HomePage.StripUrlNumberOfPrefixed | website/src/pages/index.tsx:53 | digits and one separator are removed, whatever follows them |
| HomePage.StripUrlNumberKeeps | website/src/pages/index.tsx:53 | a name that does not start with digits followed by a separator is kept |
| HomePage.StripTitleNumber | website/src/pages/index.tsx:73 | the result is a suffix; a name is changed exactly when it starts with a digit; the removed prefix is digits and then separators, what is left does not start with a separator, and it starts with no digit when no separator was removed |
| HomePage.StripTitleNumberOfPrefixed | website/src/pages/index.tsx:73 | digits, any run of separators and a rest not starting with a separator leave only the rest; the rest may start with a digit after a non-empty run, and must not when the run is empty |
| HomePage.CollapseSlashes | website/src/pages/index.tsx:54 | the result holds no doubled slash, is empty only for the empty input, and starts with a slash exactly when the input does |
| HomePage.CollapseRun | website/src/pages/index.tsx:54 | a run of one or more slashes between pieces that do not touch it with a slash of their own becomes exactly one slash, and the pieces collapse on their own |
| HomePage.CollapseOfDoubledSlash | website/src/pages/index.tsx:54 | "a//b" gives "a/b" |
| HomePage.CollapseIdentity | website/src/pages/index.tsx:54 | a string without a doubled slash is left unchanged |
| HomePage.CollapseIdempotent | website/src/pages/index.tsx:54 | collapsing twice is collapsing once |
| HomePage.CollapseKeepsText | website/src/pages/index.tsx:54 | only slashes are dropped; every other character stays, in order |
| HomePage.GetDocUrl | website/src/pages/index.tsx:49-55 | every link starts with "/labs/" and holds no doubled slash |
| HomePage.GetDocUrlOfSegments | website/src/pages/index.tsx:49-55 | with non-empty folder segments the link is "/labs/", the folders as written, then the last segment with its number prefix removed |
| HomePage.DashesToSpaces | website/src/pages/index.tsx:73 | the same length, with every dash a space and every other character kept |
| HomePage.Capitalize | website/src/pages/index.tsx:76 | the same length, the first character upper-cased and the rest unchanged |
| HomePage.FallbackTitleMeaning | website/src/pages/index.tsx:71-76 | the beautified name holds no dash, starts with the upper case of the first remaining character and keeps the rest with dashes as spaces |
| HomePage.FormatDocTitleMeaning | website/src/pages/index.tsx:58-77 | the dictionary title if the id has one; else "Лабораторная работа N" for a `labN` file name; else the beautified name, which holds no dash |
| HomePage.LabTitle | website/src/pages/index.tsx:67-69 | a `labN` file name outside the dictionary is titled with its digits |
| HomePage.CustomTitleBeatsLabRule | website/src/pages/index.tsx:18 | lab 7 of computer organisation matches the `labN` rule but keeps its dictionary title |
| HomePage.FolderAndName | website/src/pages/index.tsx:64 | the title is made from the segment after the last slash |
| HomePage.NoSlashNotCustom | website/src/pages/index.tsx:15-24 | every dictionary key has a folder, so an id without a slash takes no dictionary title |
| HomePage.UrlAndTitlePrefixesDiffer | website/src/pages/index.tsx:53 | the link drops one separator after the digits and the title drops all of them: "01--x" links to "/labs/-x" and is titled "X" |
| ZipMarkers.Encode | website/src/components/DownloadZipButton/index.tsx:24-38 | the marker carries the path, the given button text or the default one, and the file name only when given; it is hidden |
| ZipMarkers.Decode | website/src/components/AutoDownloadZipButtons/index.tsx:34-39 | an entry exactly for a non-empty path; the text falls back to the default when missing or empty; an empty file name counts as none |
| ZipMarkers.EncodeDecode | website/src/components/AutoDownloadZipButtons/index.tsx:34-39 | decoding a rendered marker gives back its path, its text or the default, and its file name |
| ZipMarkers.EmptyPathDropped | website/src/components/AutoDownloadZipButtons/index.tsx:38 | a marker with an empty path gives no button |
| ZipMarkers.DecodeEncodeDecode | website/src/components/AutoDownloadZipButtons/index.tsx:34-39 | every entry the scanner produces survives encoding and decoding again |
| ZipMarkers.ScanMembers | website/src/components/AutoDownloadZipButtons/index.tsx:27-43 | an entry is found exactly when some marker decodes to it |
| ZipMarkers.ScanAppend | website/src/components/AutoDownloadZipButtons/index.tsx:33-43 | the scan keeps document order |
| ZipMarkers.HideFound | website/src/components/AutoDownloadZipButtons/index.tsx:38-42 | every marker that gave an entry is hidden and every other marker is unchanged |
| ZipMarkers.RescanAfterHiding | website/src/components/AutoDownloadZipButtons/index.tsx:41 | hiding does not change what a later scan finds |
| ZipMarkers.FindZipButtonsMeaning | website/src/components/AutoDownloadZipButtons/index.tsx:18-52 | a non-empty scan replaces the list; no content root or an empty scan keeps it; the delayed second scan gives the same list |
| ZipMarkers.RenderButtons | website/src/components/AutoDownloadZipButtons/index.tsx:57-70 | nothing while the list is empty; otherwise one button per entry, in order |
| ZipMarkers.KeyEndsWithIndex | website/src/components/AutoDownloadZipButtons/index.tsx:65 | a button's index can be read back as what follows the last dash of its key |
| ZipMarkers.KeysDistinct | website/src/components/AutoDownloadZipButtons/index.tsx:63-65 | buttons at different positions have different keys, even when paths repeat |
| ZipMarkers.DownloadName | website/src/components/AutoDownloadZipButtons/index.tsx:102 | the download name is never empty |
| ZipMarkers.DownloadNameMeaning | website/src/components/AutoDownloadZipButtons/index.tsx:102 | a given name wins; otherwise the part of the path after its last slash; a path that is empty or ends in a slash gives "download.zip" |
| ZipMarkers.ClickButtonMeaning | website/src/components/AutoDownloadZipButtons/index.tsx:96-156 | the flag is set once and cleared once, by the catch block or by the timer; the file downloads exactly when nothing throws; the view of the first write is the disabled spinner and the view of the last write the enabled label |
| Favicon.ColorModeMeaning | website/src/components/FaviconSwitcher/index.tsx:4-32 | the mode is dark exactly when the theme attribute, the stored theme or the system preference asks for dark; on the server it is light |
| Favicon.IconHref | website/src/components/FaviconSwitcher/index.tsx:56-60 | the dark icon exactly for the dark mode and the light icon exactly for the light mode |
| Favicon.FirstIcon | website/src/components/FaviconSwitcher/index.tsx:45-47 | the position found is the first link whose `rel` is "icon" compared ASCII case-insensitively, as HTML compares `rel` in selectors; none only when no link has it |
| Favicon.MixedCaseIconReused | website/src/components/FaviconSwitcher/index.tsx:45-60 | a head whose only link has `rel` "Icon" gets that link's address replaced, and no second link is appended |
| Favicon.UpdateFaviconMeaning | website/src/components/FaviconSwitcher/index.tsx:41-61 | afterwards the first icon link has the current mode's icon, the one the rendered head uses; an existing icon link is reused and other links are untouched; without one, a link is appended |
| GitHubStars.JsRem | website/src/components/GitHubStars/index.tsx:6-7 | the remainder after the quotient rounded toward zero, taking the sign of the dividend |
| GitHubStars.NumberSuffix | website/src/components/GitHubStars/index.tsx:5-25 | always one of the three forms of "звезда" |
| GitHubStars.NumberSuffixRule | website/src/components/GitHubStars/index.tsx:9-24 | 11 to 14 in the last two digits take "звезд"; otherwise a last digit 1 takes "звезду", 2 to 4 take "звезды", and every other digit takes "звезд" |
| GitHubStars.NumberSuffixOfLastTwo | website/src/components/GitHubStars/index.tsx:6-7 | for counts of zero and above, only the last two digits matter |
| GitHubStars.NonPositiveIsGenitive | website/src/components/GitHubStars/index.tsx:6-24 | with truncated remainders, a count of zero or below always takes "звезд" |
| GitHubStars.Settle | website/src/components/GitHubStars/index.tsx:32-50 | loading ends; a count is stored when the response is ok; otherwise the error is set and the stars kept |
| GitHubStars.RenderAfterFetch | website/src/components/GitHubStars/index.tsx:52-65 | loading first; a failed request shows the plain link; a count c invites star c + 1, with the suffix for c + 1, and the number shown reads back as c + 1 |
| Text.JoinSplit | website/src/pages/index.tsx:51-54 | joining the pieces of a split gives back the string |
| Text.LastPartIsSuffix | website/src/pages/index.tsx:52 | the last piece of a split is the suffix after the last separator, or the whole string without one |
| Text.TrimIgnoresPadding | website/src/components/DownloadListingsButton/index.tsx:91 | trimming ignores whitespace added on either side |
| Text.SomesMembers | website/src/pages/index.tsx:40-42 | filtering keeps exactly the present values |
| Text.DigitsValueOfNatToString | website/src/components/GitHubStars/index.tsx:85 | the decimal text of a number reads back as that number |

## Left out

- Only the direct children of the content root are modelled. The page's `querySelectorAll("h3")` also finds headings nested at any depth.
- Case mapping covers ASCII letters and the basic Cyrillic block only. JavaScript's `toLowerCase` maps more characters; for example, U+212A KELVIN SIGN lowers to `k`.
- The text of a code block is taken as given. The choice between `innerText` and the tree walk over `token-line` elements (DownloadListingsButton/index.tsx:207-258) depends on layout and is not modelled.
- JSZip is reduced to a map from file name to content. JSZip also creates folder entries for names that contain `/`, and the compressed bytes are out of scope.
- Which step of a handler throws is a parameter: `Fault` for the listings button, `throws` for a ZIP button. The exceptions themselves come from the browser.
- Listings.FileExtension: the language table is a plain object, so `constructor`, `__proto__` and the other inherited keys return inherited values rather than "txt". The model treats every key outside the thirteen listed ones as unknown.
- Listings.ListingNumber: `parseInt` returns an IEEE double. Digit runs beyond 2^53 lose precision, and numbers of 1e21 and above print in exponent form (`listing-1e+21.txt`). The model keeps the exact natural number.
- HomePage.FormatDocTitle: the dictionary is a plain object too, so inherited keys such as `constructor` would take a function as their title. The model looks up only the eight entries.
- GitHubStars.Settle: an ok response whose body lacks `stargazers_count` stores `undefined`, and the page then shows `NaN`. The model takes the count as a natural number.
- The button-width effect, the timers that re-run the scans, the mutation observer, storage and media listeners, and the removal of the temporary link are left out. They are side effects with no state the model tracks.
- React's batching of state updates is not modelled: the handlers' flag writes are listed in order, but which of them is ever drawn is not. On the paths that end before any `await` (no listings, a throw while collecting them, a ZIP button's `catch`) the set and the clear are batched, and the disabled spinner never appears.
- Favicon.ColorMode: `localStorage.getItem` throws a `SecurityError` when the browser blocks site storage, and then `getColorMode` throws from the `useState` initialiser and from every favicon update (FaviconSwitcher/index.tsx:18). `Environment` has no case for a throwing storage read; the model always reads a stored theme or none.
- The link's object URL and `useBaseUrl` are not modelled. They are browser and router services.
- `DownloadPdfButton`, `Comments`, `scripts/create-zip.js` and the theme wrappers are not part of this model.

## Findings

| source | as written | input that shows it | evidently intended | confidence | as-written member | corrected member |
|---|---|---|---|---|---|---|
| website/src/components/DownloadListingsButton/index.tsx:119-138 | the search for a file name stops only on reaching the `pre` element itself, which is not a sibling when the block is wrapped in a `div`, so it reads past the block | "Листинг 1", then a `div` holding a C block, then a paragraph "main.c" | the name is searched only between the heading and its code block, giving listing-1.c | not executed | ListingFinding.MainCExample | ListingFinding.UpToBlockKeepsDefault |
| website/src/components/DownloadListingsButton/index.tsx:308 | the class `[^a-zа-я0-9]` leaves out `ё` (U+0451), so it is turned into a dash and then stripped | the page title "Ёж" gives "ж-listings.zip" | every Russian letter is kept, giving "ёж-listings.zip" | not executed | ListingArchive.YoDropped | ListingArchive.SanitizeKeepsRussian |
