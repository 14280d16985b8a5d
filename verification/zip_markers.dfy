/**
 Download buttons for prepared ZIP files. An MDX page places a hidden marker
 element whose `data-*` attributes carry the file's path, the button text and
 an optional download name; a scanner reads every marker of the page's
 content back and renders one download button per marker.

 An attribute is `None` when the element does not carry it. The scanner's
 second pass after 500 ms is a second call of the same scan, and the button's
 100 ms clean-up timer is the step that ends a click.
 */
module ZipMarkers {
  import opened Text
  import ListingArchive

  const DefaultButtonText: string := "📦 Скачать ZIP"
  const FallbackDownloadName: string := "download.zip"

  /* -------------------------------------------------------------- marker */

  /** The properties of the marker component. */
  datatype ZipProps = ZipProps(zipPath: string, buttonText: Option<string>, fileName: Option<string>)

  /** An element of the page as the scanner sees it: its three `data-*`
      attributes, whether it is styled `display: none`, and whether it is
      `aria-hidden`. */
  datatype Marker = Marker(
    zipPath: Option<string>, buttonText: Option<string>, fileName: Option<string>,
    displayNone: bool, ariaHidden: bool)

  /** What the marker component renders. React writes each attribute it is
      given as is and leaves out one whose value is `undefined`; the button
      text defaults when the property is left out, not when it is empty. */
  function Encode(p: ZipProps): (m: Marker)
    ensures m.zipPath == Some(p.zipPath)
    ensures m.buttonText == Some(if p.buttonText.Some? then p.buttonText.value else DefaultButtonText)
    ensures m.fileName == p.fileName
    ensures m.displayNone && m.ariaHidden
  {
    Marker(Some(p.zipPath), Some(p.buttonText.GetOr(DefaultButtonText)), p.fileName, true, true)
  }

  /* ------------------------------------------------------------- scanner */

  /** One entry of the scanner's state. */
  datatype ZipButtonInfo = ZipButtonInfo(zipPath: string, buttonText: string, fileName: Option<string>)

  /** JavaScript's `a || b` on an attribute that may be missing: a missing
      or empty value falls back. */
  function OrElse(a: Option<string>, b: string): string {
    if a.Some? && a.value != [] then a.value else b
  }

  /** `getAttribute(...) || undefined`. */
  function NonEmpty(a: Option<string>): Option<string> {
    if a.Some? && a.value != [] then a else None
  }

  /** What the scanner makes of one element: nothing unless it has a
      non-empty `data-zip-path`. */
  function Decode(m: Marker): (r: Option<ZipButtonInfo>)
    ensures r.Some? <==> m.zipPath.Some? && m.zipPath.value != []
    ensures r.Some? ==> r.value.zipPath == m.zipPath.value && r.value.buttonText != []
    ensures r.Some? && m.buttonText.Some? && m.buttonText.value != [] ==> r.value.buttonText == m.buttonText.value
    ensures r.Some? && (m.buttonText.None? || m.buttonText == Some([])) ==> r.value.buttonText == DefaultButtonText
    ensures r.Some? ==> r.value.fileName != Some([]) && (r.value.fileName.Some? ==> r.value.fileName == m.fileName)
    ensures r.Some? && m.fileName.Some? && m.fileName.value != [] ==> r.value.fileName == m.fileName
  {
    if m.zipPath.Some? && m.zipPath.value != [] then
      Some(ZipButtonInfo(m.zipPath.value, OrElse(m.buttonText, DefaultButtonText), NonEmpty(m.fileName)))
    else None
  }

  /** Decoding a rendered marker gives back its properties: the path, the
      text (the default when none was given) and the download name. */
  lemma EncodeDecode(p: ZipProps)
    requires p.zipPath != []
    requires p.buttonText != Some([]) && p.fileName != Some([])
    ensures Decode(Encode(p)) == Some(ZipButtonInfo(p.zipPath, p.buttonText.GetOr(DefaultButtonText), p.fileName))
  {
  }

  /** A marker with an empty path gives no button. */
  lemma EmptyPathDropped(p: ZipProps)
    requires p.zipPath == []
    ensures Decode(Encode(p)) == None
  {
  }

  /** The props an entry stands for. */
  function PropsOf(b: ZipButtonInfo): ZipProps {
    ZipProps(b.zipPath, Some(b.buttonText), b.fileName)
  }

  /** Every entry the scanner can produce survives a second encoding and
      decoding unchanged. */
  lemma DecodeEncodeDecode(m: Marker)
    requires Decode(m).Some?
    ensures Decode(Encode(PropsOf(Decode(m).value))) == Decode(m)
  {
    var b := Decode(m).value;
    EncodeDecode(PropsOf(b));
  }

  function Decoded(elements: seq<Marker>): seq<Option<ZipButtonInfo>> {
    seq(|elements|, i requires 0 <= i < |elements| => Decode(elements[i]))
  }

  /** The entries of the elements carrying a non-empty path, in document
      order. */
  function Scan(elements: seq<Marker>): seq<ZipButtonInfo> {
    Somes(Decoded(elements))
  }

  /** Each entry comes from an element, and each element with a path gives
      its entry. */
  lemma ScanMembers(elements: seq<Marker>, b: ZipButtonInfo)
    ensures b in Scan(elements) <==> exists i :: 0 <= i < |elements| && Decode(elements[i]) == Some(b)
  {
    SomesMembers(Decoded(elements), b);
    if b in Scan(elements) {
      var i :| 0 <= i < |Decoded(elements)| && Decoded(elements)[i] == Some(b);
      assert Decode(elements[i]) == Some(b);
    }
    if exists i :: 0 <= i < |elements| && Decode(elements[i]) == Some(b) {
      var i :| 0 <= i < |elements| && Decode(elements[i]) == Some(b);
      assert Decoded(elements)[i] == Some(b);
    }
  }

  /** The scan keeps document order: scanning two runs of elements is
      scanning each in turn. */
  lemma {:induction false} ScanAppend(a: seq<Marker>, b: seq<Marker>)
    ensures Scan(a + b) == Scan(a) + Scan(b)
    decreases |a|
  {
    if a == [] {
      assert a + b == b;
    } else {
      assert Decoded(a + b)[1..] == Decoded(a[1..] + b);
      assert Decoded(a)[1..] == Decoded(a[1..]);
      assert Decoded(a + b)[0] == Decoded(a)[0];
      ScanAppend(a[1..], b);
    }
  }

  /** The scanner hides every element it took an entry from and leaves the
      others as they were. */
  function HideFound(elements: seq<Marker>): (r: seq<Marker>)
    ensures |r| == |elements|
    ensures forall i :: 0 <= i < |r| ==>
              r[i] == (if Decode(elements[i]).Some? then elements[i].(displayNone := true) else elements[i])
  {
    seq(|elements|, i requires 0 <= i < |elements| =>
      if Decode(elements[i]).Some? then elements[i].(displayNone := true) else elements[i])
  }

  /** Hiding does not touch what the scanner reads, so a second scan of the
      same page finds the same entries. */
  lemma RescanAfterHiding(elements: seq<Marker>)
    ensures Scan(HideFound(elements)) == Scan(elements)
  {
    assert Decoded(HideFound(elements)) == Decoded(elements);
  }

  /** The page: the `article` element's markers if there is one, else the
      `main` element's, else neither. */
  datatype Page = Page(article: Option<seq<Marker>>, main: Option<seq<Marker>>)

  function Root(page: Page): Option<seq<Marker>> {
    if page.article.Some? then page.article else page.main
  }

  /** `findZipButtons` on the scanner's current list: a page without content
      root, or without any marker, leaves the list as it is; otherwise the
      list found replaces it. */
  function FindZipButtons(state: seq<ZipButtonInfo>, page: Page): seq<ZipButtonInfo> {
    match Root(page)
    case None => state
    case Some(elements) => if Scan(elements) != [] then Scan(elements) else state
  }

  /** The page after a scan: the markers it found are hidden. */
  function AfterScan(page: Page): Page {
    if page.article.Some? then page.(article := Some(HideFound(page.article.value)))
    else if page.main.Some? then page.(main := Some(HideFound(page.main.value)))
    else page
  }

  /** The list is replaced, never extended; an empty scan keeps it; and the
      second scan of an unchanged page gives the list of the first, whatever
      the list was before. */
  lemma FindZipButtonsMeaning(state: seq<ZipButtonInfo>, page: Page)
    ensures Root(page).Some? && Scan(Root(page).value) != [] ==>
              FindZipButtons(state, page) == Scan(Root(page).value)
    ensures (Root(page).None? || Scan(Root(page).value) == []) ==> FindZipButtons(state, page) == state
    ensures FindZipButtons(FindZipButtons(state, page), AfterScan(page)) == FindZipButtons(state, page)
  {
    if page.article.Some? {
      RescanAfterHiding(page.article.value);
    } else if page.main.Some? {
      RescanAfterHiding(page.main.value);
    }
  }

  /* ------------------------------------------------------------- render */

  /** The React key of the button at `index`. */
  function Key(b: ZipButtonInfo, index: nat): string {
    b.zipPath + "-" + NatToString(index)
  }

  datatype Rendered = Rendered(key: string, info: ZipButtonInfo)

  /** Nothing while the list is empty; otherwise one button per entry. */
  function RenderButtons(state: seq<ZipButtonInfo>): (r: Option<seq<Rendered>>)
    ensures r.None? <==> state == []
    ensures r.Some? ==> |r.value| == |state| && forall i :: 0 <= i < |state| ==> r.value[i].info == state[i]
  {
    if state == [] then None
    else Some(seq(|state|, i requires 0 <= i < |state| => Rendered(Key(state[i], i), state[i])))
  }

  /** The index can be read back from a key: it is what follows the last
      `-`, since a number has none. */
  lemma KeyEndsWithIndex(b: ZipButtonInfo, index: nat)
    ensures LastPart(Key(b, index), '-') == NatToString(index)
  {
    var n := NatToString(index);
    assert forall k :: 0 <= k < |n| ==> n[k] != '-';
    LastPartAfter(b.zipPath, n, '-');
    assert Key(b, index) == b.zipPath + ['-'] + n;
  }

  /** Keys of different positions differ, even when paths repeat or hold
      dashes and digits themselves. */
  lemma KeysDistinct(state: seq<ZipButtonInfo>)
    ensures RenderButtons(state).Some? ==>
              forall i, j :: 0 <= i < j < |state| ==> RenderButtons(state).value[i].key != RenderButtons(state).value[j].key
  {
    forall i, j | 0 <= i < j < |state| ensures Key(state[i], i) != Key(state[j], j) {
      if Key(state[i], i) == Key(state[j], j) {
        KeyEndsWithIndex(state[i], i);
        KeyEndsWithIndex(state[j], j);
        NatToStringInjective(i, j);
      }
    }
  }

  /* ------------------------------------------------------------- button */

  /** `fileName || zipPath.split("/").pop() || "download.zip"`. */
  function DownloadName(b: ZipButtonInfo): (r: string)
    ensures r != []
  {
    var last := LastPart(b.zipPath, '/');
    if b.fileName.Some? && b.fileName.value != [] then b.fileName.value
    else if last != [] then last
    else FallbackDownloadName
  }

  /** The given name wins; without one the file keeps the name after the
      last `/` of its path; a path ending in `/` (or empty) gives
      "download.zip". */
  lemma DownloadNameMeaning(b: ZipButtonInfo, folder: string, name: string)
    requires '/' !in name
    ensures b.fileName.Some? && b.fileName.value != [] ==> DownloadName(b) == b.fileName.value
    ensures (b.fileName.None? || b.fileName == Some([])) && b.zipPath == folder + "/" + name && name != [] ==>
              DownloadName(b) == name
    ensures (b.fileName.None? || b.fileName == Some([])) && (b.zipPath == [] || b.zipPath[|b.zipPath| - 1] == '/') ==>
              DownloadName(b) == FallbackDownloadName
    ensures (b.fileName.None? || b.fileName == Some([])) ==> '/' !in DownloadName(b)
  {
    if b.zipPath == folder + "/" + name {
      LastPartAfter(folder, name, '/');
      assert folder + "/" + name == folder + ['/'] + name;
    }
    if b.zipPath != [] && b.zipPath[|b.zipPath| - 1] == '/' {
      LastPartAfter(b.zipPath[..|b.zipPath| - 1], [], '/');
      assert b.zipPath[..|b.zipPath| - 1] + ['/'] + [] == b.zipPath;
    }
  }

  /** How the body of the click handler's `try` ends: the link was clicked
      and the clean-up timer set, or something threw. */
  datatype TryExit = LinkClicked | Threw

  /** One click on a download button: the download name it used, if the
      link was clicked, and every value written to `isProcessing`, in
      order. */
  datatype ZipClick = ZipClick(downloaded: Option<string>, flagWrites: seq<bool>)

  /** The writes of the `catch` block. */
  function CatchWrites(e: TryExit): seq<bool> {
    if e.Threw? then [false] else []
  }

  /** The write of the clean-up timer, which exists only if the `try` body
      reached `setTimeout`. */
  function TimerWrites(e: TryExit): seq<bool> {
    if e.LinkClicked? then [false] else []
  }

  /** `handleDownload` of a button, given whether the `try` body throws. */
  function ClickButton(b: ZipButtonInfo, throws: bool): ZipClick {
    var e := if throws then Threw else LinkClicked;
    ZipClick(if e.LinkClicked? then Some(DownloadName(b)) else None, [true] + CatchWrites(e) + TimerWrites(e))
  }

  /** The flag is set once on entry and cleared once, by the catch block or
      by the timer, whichever path was taken. The view of the first write is
      the disabled spinner; the view of the last write is the enabled button
      with its text. */
  lemma ClickButtonMeaning(b: ZipButtonInfo, throws: bool)
    ensures var c := ClickButton(b, throws);
            && c.flagWrites == [true, false]
            && (c.downloaded.Some? <==> !throws)
            && (c.downloaded.Some? ==> c.downloaded.value == DownloadName(b))
            && ListingArchive.View(true, c.flagWrites[0], b.buttonText) == ListingArchive.Shown(true, ListingArchive.Spinner)
            && ListingArchive.View(true, c.flagWrites[1], b.buttonText) == ListingArchive.Shown(false, ListingArchive.Label(b.buttonText))
  {
  }
}
