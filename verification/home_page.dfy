/**
 The helpers of the home page that turn a document id such as
 `peripheral-devices/01-intro` into a link and a title, and that read the
 document ids of one category out of the sidebar configuration.

 The anchored regular expressions of these helpers (`^\d+[-_.]`,
 `^\d+[-_.]*`, `^lab\d+$`, `/\/+/g`) are written out as string functions.
 */
module HomePage {
  import opened Text

  /* ------------------------------------------------------ custom titles */

  /** The titles written by hand for eight documents. */
  const CustomDocTitles: map<string, string> := map[
    "course-work/01-rp-op-design" := "Проектирование РП и ОП",
    "course-work/02-arithmetic-device" := "Арифметическое устройство",
    "computer-organization/lab7" := "Лабораторная работа 7 (JTAG)",
    "computer-organization/lab8" := "Лабораторная работа 8 (Таймер)",
    "peripheral-devices/lab1" := "ЛР 1: Введение и инструменты",
    "peripheral-devices/lab2" := "ЛР 2: Исследование команд",
    "peripheral-devices/lab3" := "ЛР 3: Прерывания и исключения",
    "peripheral-devices/lab4" := "ЛР 4: Страничная организация"
  ]

  /* ------------------------------------------------------------ sidebar */

  /** An entry of a sidebar array: a document id (a bare string), a category
      object with its caption and, when present, its `items`, or any other
      object. */
  datatype SidebarItem =
    | DocRef(id: string)
    | Category(caption: string, items: Option<seq<SidebarItem>>)
    | OtherObject

  /** `sidebars.labsSidebar`: an array of entries, or some other value. */
  datatype Sidebar = Entries(entries: seq<SidebarItem>) | NotAnArray

  /** The sidebar the site ships: the single document `intro`. */
  const LabsSidebar: Sidebar := Entries([DocRef("intro")])

  predicate IsCategoryNamed(item: SidebarItem, caption: string) {
    item.Category? && item.caption == caption
  }

  /** `i` is the first category with that caption (what `Array.prototype.find`
      returns). */
  predicate FirstCategoryAt(items: seq<SidebarItem>, caption: string, i: int) {
    && 0 <= i < |items| && IsCategoryNamed(items[i], caption)
    && forall j :: 0 <= j < i ==> !IsCategoryNamed(items[j], caption)
  }

  /** The position of the first category with the caption, if any. */
  function FindCategory(items: seq<SidebarItem>, caption: string): (r: Option<nat>)
    ensures r.Some? ==> FirstCategoryAt(items, caption, r.value)
    ensures r.None? ==> forall j :: 0 <= j < |items| ==> !IsCategoryNamed(items[j], caption)
    decreases |items|
  {
    if items == [] then None
    else if IsCategoryNamed(items[0], caption) then Some(0)
    else match FindCategory(items[1..], caption)
      case None => None
      case Some(k) => Some(k + 1)
  }

  function DocIdOf(item: SidebarItem): Option<string> {
    if item.DocRef? then Some(item.id) else None
  }

  /** `items.filter(item => typeof item === "string")`. */
  function DocIds(items: seq<SidebarItem>): seq<string> {
    Somes(seq(|items|, i requires 0 <= i < |items| => DocIdOf(items[i])))
  }

  /** `getCategoryItems(caption)`. */
  function GetCategoryItems(sidebar: Sidebar, caption: string): seq<string> {
    if sidebar.NotAnArray? then []
    else match FindCategory(sidebar.entries, caption)
      case None => []
      case Some(i) =>
        var c := sidebar.entries[i];
        if c.items.Some? then DocIds(c.items.value) else []
  }

  lemma DocIdsMembers(items: seq<SidebarItem>, x: string)
    ensures x in DocIds(items) <==> DocRef(x) in items
  {
    var ids := seq(|items|, i requires 0 <= i < |items| => DocIdOf(items[i]));
    SomesMembers(ids, x);
    if DocRef(x) in items {
      var i :| 0 <= i < |items| && items[i] == DocRef(x);
      assert ids[i] == Some(x);
    }
    if Some(x) in ids {
      var i :| 0 <= i < |ids| && ids[i] == Some(x);
      assert items[i] == DocRef(x);
    }
  }

  /** The result is empty unless the sidebar is an array with a category of
      that caption, and then it holds exactly the document ids listed directly
      in the first such category's `items`. */
  lemma GetCategoryItemsMeaning(sidebar: Sidebar, caption: string)
    ensures sidebar.NotAnArray? ==> GetCategoryItems(sidebar, caption) == []
    ensures sidebar.Entries? && (forall j :: 0 <= j < |sidebar.entries| ==> !IsCategoryNamed(sidebar.entries[j], caption))
            ==> GetCategoryItems(sidebar, caption) == []
    ensures forall i, x :: sidebar.Entries? && FirstCategoryAt(sidebar.entries, caption, i) ==>
              (x in GetCategoryItems(sidebar, caption) <==>
                 sidebar.entries[i].items.Some? && DocRef(x) in sidebar.entries[i].items.value)
  {
    if sidebar.Entries? {
      var r := FindCategory(sidebar.entries, caption);
      forall i, x | FirstCategoryAt(sidebar.entries, caption, i)
        ensures x in GetCategoryItems(sidebar, caption) <==>
                  sidebar.entries[i].items.Some? && DocRef(x) in sidebar.entries[i].items.value
      {
        assert r.Some? && r.value == i;
        if sidebar.entries[i].items.Some? {
          DocIdsMembers(sidebar.entries[i].items.value, x);
        }
      }
    }
  }

  /** The shipped sidebar has no category, so every section of the home page
      gets an empty list. */
  lemma ShippedSidebarHasNoItems(caption: string)
    ensures GetCategoryItems(LabsSidebar, caption) == []
    ensures GetCategoryItems(LabsSidebar, "Периферийные устройства") == []
    ensures GetCategoryItems(LabsSidebar, "Организация ЭВМ") == []
    ensures GetCategoryItems(LabsSidebar, "Курсовая работа") == []
  {
    GetCategoryItemsMeaning(LabsSidebar, caption);
    GetCategoryItemsMeaning(LabsSidebar, "Периферийные устройства");
    GetCategoryItemsMeaning(LabsSidebar, "Организация ЭВМ");
    GetCategoryItemsMeaning(LabsSidebar, "Курсовая работа");
  }

  /* ---------------------------------------------------- number prefixes */

  predicate IsPrefixSeparator(c: char) {
    c == '-' || c == '_' || c == '.'
  }

  /** The length of the run of decimal digits that starts `s`. */
  function DigitRun(s: string): (n: nat)
    ensures n <= |s|
    ensures forall i :: 0 <= i < n ==> IsDigit(s[i])
    ensures n == |s| || !IsDigit(s[n])
    decreases |s|
  {
    if s != [] && IsDigit(s[0]) then 1 + DigitRun(s[1..]) else 0
  }

  /** The length of the run of `-`, `_` and `.` that starts `s`. */
  function SeparatorRun(s: string): (n: nat)
    ensures n <= |s|
    ensures forall i :: 0 <= i < n ==> IsPrefixSeparator(s[i])
    ensures n == |s| || !IsPrefixSeparator(s[n])
    decreases |s|
  {
    if s != [] && IsPrefixSeparator(s[0]) then 1 + SeparatorRun(s[1..]) else 0
  }

  /** `p` is digits followed by exactly one separator: what `^\d+[-_.]`
      matches. */
  predicate IsUrlNumberPrefix(p: string) {
    |p| >= 2 && AllDigits(p[..|p| - 1]) && IsPrefixSeparator(p[|p| - 1])
  }

  /** `fileName.replace(/^\d+[-_.]/, "")`. The digits are taken greedily; a
      shorter digit run would leave a digit where the separator must be, so
      the greedy run is the only one that can match. */
  function StripUrlNumber(f: string): (r: string)
    ensures r == f || (|r| < |f| && f == f[..|f| - |r|] + r && IsUrlNumberPrefix(f[..|f| - |r|]))
  {
    var k := DigitRun(f);
    if k >= 1 && k < |f| && IsPrefixSeparator(f[k]) then
      assert f == f[..k + 1] + f[k + 1..];
      assert f[..k + 1][..k] == f[..k];
      f[k + 1..]
    else f
  }

  /** Exactly the one digits-and-separator prefix is removed, whatever
      follows it. */
  lemma StripUrlNumberOfPrefixed(digits: string, sep: char, rest: string)
    requires digits != [] && AllDigits(digits) && IsPrefixSeparator(sep)
    ensures StripUrlNumber(digits + [sep] + rest) == rest
  {
    var f := digits + [sep] + rest;
    DigitRunOfDigits(digits, [sep] + rest);
    assert f == digits + ([sep] + rest);
    assert f[|digits|] == sep;
    assert f[|digits| + 1..] == rest;
  }

  /** A name that does not start with digits and a separator is kept. */
  lemma StripUrlNumberKeeps(f: string)
    requires forall k :: 1 <= k < |f| && AllDigits(f[..k]) ==> !IsPrefixSeparator(f[k])
    ensures StripUrlNumber(f) == f
  {
    var r := StripUrlNumber(f);
    if r != f {
      assert false;
    }
  }

  /** The digit run of `digits + s` is `digits` when `s` does not go on with
      a digit. */
  lemma {:induction false} DigitRunOfDigits(digits: string, s: string)
    requires AllDigits(digits)
    requires s == [] || !IsDigit(s[0])
    ensures DigitRun(digits + s) == |digits|
    decreases |digits|
  {
    if digits != [] {
      assert (digits + s)[1..] == digits[1..] + s;
      DigitRunOfDigits(digits[1..], s);
    } else {
      assert digits + s == s;
    }
  }

  /** `p` is digits followed by a possibly empty run of separators: what
      `^\d+[-_.]*` matches. */
  predicate IsTitleNumberPrefix(p: string) {
    exists k :: 1 <= k <= |p| && AllDigits(p[..k]) && forall i :: k <= i < |p| ==> IsPrefixSeparator(p[i])
  }

  /** The pattern `^\d+[-_.]*` replaced by nothing: leading digits and then every
      separator after them. */
  function StripTitleNumber(f: string): (r: string)
    ensures |r| <= |f| && r == f[|f| - |r|..]
    ensures (f == [] || !IsDigit(f[0])) ==> r == f
    ensures f != [] && IsDigit(f[0]) ==> r != f
    ensures r != f ==> IsTitleNumberPrefix(f[..|f| - |r|]) && (r == [] || !IsPrefixSeparator(r[0]))
    ensures r != f && AllDigits(f[..|f| - |r|]) ==> r == [] || !IsDigit(r[0])
  {
    var k := DigitRun(f);
    if k == 0 then f
    else
      var rest := f[k..];
      var n := SeparatorRun(rest);
      assert rest[n..] == f[k + n..];
      assert f[..k + n][..k] == f[..k];
      f[k + n..]
  }

  /** Digits, any run of separators and a remainder that does not start
      with a separator, nor with a digit when the run is empty: the title
      keeps only the remainder. */
  lemma StripTitleNumberOfPrefixed(digits: string, seps: string, rest: string)
    requires digits != [] && AllDigits(digits)
    requires forall i :: 0 <= i < |seps| ==> IsPrefixSeparator(seps[i])
    requires rest == [] || !IsPrefixSeparator(rest[0])
    requires seps != [] || rest == [] || !IsDigit(rest[0])
    ensures StripTitleNumber(digits + seps + rest) == rest
  {
    var f := digits + seps + rest;
    var tail := seps + rest;
    assert f == digits + tail;
    DigitRunOfDigits(digits, tail);
    assert f[|digits|..] == tail;
    SeparatorRunOfSeparators(seps, rest);
    assert f[|digits| + |seps|..] == rest;
  }

  lemma {:induction false} SeparatorRunOfSeparators(seps: string, s: string)
    requires forall i :: 0 <= i < |seps| ==> IsPrefixSeparator(seps[i])
    requires s == [] || !IsPrefixSeparator(s[0])
    ensures SeparatorRun(seps + s) == |seps|
    decreases |seps|
  {
    if seps != [] {
      assert (seps + s)[1..] == seps[1..] + s;
      SeparatorRunOfSeparators(seps[1..], s);
    } else {
      assert seps + s == s;
    }
  }

  /* ------------------------------------------------------------ slashes */

  predicate NoDoubleSlash(s: string) {
    forall i :: 0 <= i < |s| - 1 ==> !(s[i] == '/' && s[i + 1] == '/')
  }

  /** The characters of `s` other than `/`. */
  function NonSlash(s: string): string
    decreases |s|
  {
    if s == [] then [] else (if s[0] == '/' then [] else [s[0]]) + NonSlash(s[1..])
  }

  /** `.replace(/\/+/g, "/")`: every run of slashes becomes one slash. */
  function CollapseSlashes(s: string): (r: string)
    ensures NoDoubleSlash(r)
    ensures r == [] <==> s == []
    ensures s != [] ==> (r[0] == '/' <==> s[0] == '/')
    decreases |s|
  {
    if s == [] then []
    else if |s| >= 2 && s[0] == '/' && s[1] == '/' then CollapseSlashes(s[1..])
    else
      var rest := CollapseSlashes(s[1..]);
      var r := [s[0]] + rest;
      assert r[1..] == rest;
      assert NoDoubleSlash(r) by {
        forall i | 0 <= i < |r| - 1 ensures !(r[i] == '/' && r[i + 1] == '/') {
          if i > 0 {
            assert r[i] == rest[i - 1] && r[i + 1] == rest[i];
          }
        }
      }
      r
  }

  /** A string without a doubled slash is left as it is, so collapsing
      twice is collapsing once. */
  lemma {:induction false} CollapseIdentity(s: string)
    requires NoDoubleSlash(s)
    ensures CollapseSlashes(s) == s
    decreases |s|
  {
    if s != [] {
      assert NoDoubleSlash(s[1..]) by {
        forall i | 0 <= i < |s[1..]| - 1 ensures !(s[1..][i] == '/' && s[1..][i + 1] == '/') {
          assert s[1..][i] == s[i + 1] && s[1..][i + 1] == s[i + 2];
        }
      }
      CollapseIdentity(s[1..]);
      assert !(|s| >= 2 && s[0] == '/' && s[1] == '/');
      assert [s[0]] + s[1..] == s;
    }
  }

  lemma CollapseIdempotent(s: string)
    ensures CollapseSlashes(CollapseSlashes(s)) == CollapseSlashes(s)
  {
    CollapseIdentity(CollapseSlashes(s));
  }

  /** Collapsing only drops slashes: every other character stays, in
      order. */
  lemma {:induction false} CollapseKeepsText(s: string)
    ensures NonSlash(CollapseSlashes(s)) == NonSlash(s)
    decreases |s|
  {
    if s != [] {
      CollapseKeepsText(s[1..]);
      var rest := CollapseSlashes(s[1..]);
      if !(|s| >= 2 && s[0] == '/' && s[1] == '/') {
        assert ([s[0]] + rest)[1..] == rest;
      }
    }
  }

  /** Collapsing works piece by piece when the first piece does not end with
      a slash. */
  lemma {:induction false} CollapseSlashesAppend(a: string, b: string)
    requires a == [] || a[|a| - 1] != '/'
    ensures CollapseSlashes(a + b) == CollapseSlashes(a) + CollapseSlashes(b)
    decreases |a|
  {
    if a == [] {
      assert a + b == b;
    } else {
      var ab := a + b;
      assert ab == [a[0]] + (a[1..] + b);
      assert a == [a[0]] + a[1..];
      CollapseCons(a[0], a[1..] + b);
      CollapseCons(a[0], a[1..]);
      if |a| == 1 {
        assert a[1..] + b == b;
      } else {
        assert (a[1..] + b)[0] == a[1];
        CollapseSlashesAppend(a[1..], b);
      }
    }
  }

  /** One step of the collapse: a slash followed by a slash is dropped,
      anything else is kept. */
  lemma CollapseCons(c: char, t: string)
    ensures CollapseSlashes([c] + t) ==
              if c == '/' && t != [] && t[0] == '/' then CollapseSlashes(t) else [c] + CollapseSlashes(t)
  {
    assert ([c] + t)[1..] == t;
  }

  /** A run of `k` slashes between two pieces that do not touch it with a
      slash of their own becomes exactly one slash. */
  lemma CollapseRun(a: string, k: nat, b: string)
    requires a == [] || a[|a| - 1] != '/'
    requires b == [] || b[0] != '/'
    requires k >= 1
    ensures CollapseSlashes(a + seq(k, _ => '/') + b) == CollapseSlashes(a) + "/" + CollapseSlashes(b)
  {
    var run := seq(k, _ => '/');
    AppendAssoc(a, run, b);
    CollapseSlashesAppend(a, run + b);
    CollapseRunFront(k, b);
    AppendAssoc(CollapseSlashes(a), "/", CollapseSlashes(b));
  }

  lemma {:induction false} CollapseRunFront(k: nat, b: string)
    requires b == [] || b[0] != '/'
    requires k >= 1
    ensures CollapseSlashes(seq(k, _ => '/') + b) == "/" + CollapseSlashes(b)
    decreases k
  {
    var run := seq(k, _ => '/');
    assert run + b == ['/'] + (seq(k - 1, _ => '/') + b);
    CollapseCons('/', seq(k - 1, _ => '/') + b);
    if k > 1 {
      assert (seq(k - 1, _ => '/') + b)[0] == '/';
      CollapseRunFront(k - 1, b);
    } else {
      assert seq(k - 1, _ => '/') + b == b;
    }
  }

  /** The two slashes of "a//b" become one. */
  lemma CollapseOfDoubledSlash()
    ensures CollapseSlashes("a//b") == "a/b"
  {
    CollapseRun("a", 2, "b");
    assert "a" + seq(2, _ => '/') + "b" == "a//b";
    assert CollapseSlashes("a") == "a" && CollapseSlashes("b") == "b";
  }

  /** Joining non-empty, slash-free segments with `/` gives a string that
      neither starts nor ends with a slash nor holds two in a row. */
  lemma {:induction false} JoinOfSegments(parts: seq<string>)
    requires parts != []
    requires forall i :: 0 <= i < |parts| ==> parts[i] != [] && '/' !in parts[i]
    ensures var j := Join(parts, '/');
            && j != [] && j[0] != '/' && j[|j| - 1] != '/' && NoDoubleSlash(j)
    decreases |parts|
  {
    if |parts| > 1 {
      JoinOfSegments(parts[1..]);
      var p := parts[0];
      var rest := Join(parts[1..], '/');
      var j := p + ['/'] + rest;
      assert j == Join(parts, '/');
      assert j[0] == p[0];
      assert j[|j| - 1] == rest[|rest| - 1];
      forall i | 0 <= i < |j| - 1 ensures !(j[i] == '/' && j[i + 1] == '/') {
        if i < |p| - 1 {
          assert j[i] == p[i] && j[i + 1] == p[i + 1];
        } else if i == |p| - 1 {
          assert j[i] == p[i];
        } else if i == |p| {
          assert j[i + 1] == rest[0];
        } else {
          assert j[i] == rest[i - |p| - 1] && j[i + 1] == rest[i - |p|];
        }
      }
    }
  }

  lemma NoDoubleSlashAppend(a: string, b: string)
    requires NoDoubleSlash(a) && NoDoubleSlash(b)
    requires a == [] || b == [] || a[|a| - 1] != '/' || b[0] != '/'
    ensures NoDoubleSlash(a + b)
  {
    var s := a + b;
    forall i | 0 <= i < |s| - 1 ensures !(s[i] == '/' && s[i + 1] == '/') {
      if i + 1 < |a| {
        assert s[i] == a[i] && s[i + 1] == a[i + 1];
      } else if i >= |a| {
        assert s[i] == b[i - |a|] && s[i + 1] == b[i + 1 - |a|];
      }
    }
  }

  /* ------------------------------------------------------------- getDocUrl */

  /** The path segments of a document id before the last one (what is left
      in `parts` after `pop`). */
  function FolderParts(docId: string): seq<string> {
    var parts := Split(docId, '/');
    parts[..|parts| - 1]
  }

  /** `getDocUrl(docId)`: the folders, then the file name without its
      number prefix, under `/labs/`, with runs of slashes collapsed. The
      `|| ""` fallback after `pop` changes nothing: `split` never yields an
      empty array. */
  function GetDocUrl(docId: string): (r: string)
    ensures |r| >= 6 && r[..6] == "/labs/"
    ensures NoDoubleSlash(r)
  {
    var clean := StripUrlNumber(LastPart(docId, '/'));
    var tail := "/" + Join(FolderParts(docId), '/') + "/" + clean;
    LabsPrefix(tail);
    CollapseSlashes("/labs" + tail)
  }

  lemma LabsCollapsed()
    ensures CollapseSlashes("/labs") == "/labs"
  {
    assert NoDoubleSlash("/labs");
    CollapseIdentity("/labs");
  }

  lemma LabsPrefix(tail: string)
    requires tail != [] && tail[0] == '/'
    ensures var r := CollapseSlashes("/labs" + tail);
            |r| >= 6 && r[..6] == "/labs/"
  {
    CollapseSlashesAppend("/labs", tail);
    LabsCollapsed();
  }

  /** A doubled slash between a word and a slash-free name becomes one. */
  lemma CollapseAfterWord(p: string, c: string)
    requires p != [] && p[|p| - 1] != '/' && CollapseSlashes(p) == p
    requires '/' !in c
    ensures CollapseSlashes(p + ("//" + c)) == p + "/" + c
  {
    CollapseSlashesAppend(p, "//" + c);
    assert ("//" + c)[1..] == "/" + c;
    assert NoDoubleSlash("/" + c);
    CollapseIdentity("/" + c);
  }

  /** The split of a document id: its folders, then its last segment. */
  lemma SplitIsFoldersThenLast(docId: string)
    ensures Split(docId, '/') == FolderParts(docId) + [LastPart(docId, '/')]
  {
    var parts := Split(docId, '/');
    assert parts == parts[..|parts| - 1] + [parts[|parts| - 1]];
  }

  lemma UrlWithoutFolders(clean: string)
    requires '/' !in clean
    ensures CollapseSlashes("/labs" + ("/" + Join([], '/') + "/" + clean)) == "/labs/" + clean
  {
    assert "/" + Join([], '/') + "/" + clean == "//" + clean;
    LabsCollapsed();
    CollapseAfterWord("/labs", clean);
  }

  lemma UrlWithFolders(folders: seq<string>, clean: string)
    requires folders != []
    requires forall i :: 0 <= i < |folders| ==> folders[i] != [] && '/' !in folders[i]
    requires '/' !in clean
    ensures CollapseSlashes("/labs" + ("/" + Join(folders, '/') + "/" + clean)) == "/labs/" + (Join(folders, '/') + "/") + clean
  {
    JoinOfSegments(folders);
    var j := Join(folders, '/');
    var s := ("/labs/" + j) + ("/" + clean);
    FolderUrlSlashes(j, clean);
    CollapseIdentity(s);
    assert "/labs" + ("/" + j + "/" + clean) == s;
    assert "/labs/" + (j + "/") + clean == s;
  }

  lemma FolderUrlSlashes(j: string, clean: string)
    requires j != [] && j[0] != '/' && j[|j| - 1] != '/' && NoDoubleSlash(j)
    requires '/' !in clean
    ensures NoDoubleSlash(("/labs/" + j) + ("/" + clean))
  {
    assert NoDoubleSlash("/" + clean);
    NoDoubleSlashAppend("/labs/", j);
    NoDoubleSlashAppend("/labs/" + j, "/" + clean);
  }

  /** When every folder segment is non-empty, the link is exactly the
      folders as written and the last segment with at most one number
      prefix removed: nothing else in the id changes. */
  lemma GetDocUrlOfSegments(docId: string)
    requires forall i :: 0 <= i < |FolderParts(docId)| ==> FolderParts(docId)[i] != []
    ensures var folders := FolderParts(docId);
            var clean := StripUrlNumber(LastPart(docId, '/'));
            GetDocUrl(docId) == "/labs/" + (if folders == [] then "" else Join(folders, '/') + "/") + clean
  {
    var folders := FolderParts(docId);
    var last := LastPart(docId, '/');
    var clean := StripUrlNumber(last);
    assert '/' !in clean by {
      if clean != last {
        assert last == last[..|last| - |clean|] + clean;
      }
    }
    if folders == [] {
      UrlWithoutFolders(clean);
    } else {
      forall i | 0 <= i < |folders| ensures folders[i] != [] && '/' !in folders[i] {
        SplitIsFoldersThenLast(docId);
        assert folders[i] == Split(docId, '/')[i];
      }
      UrlWithFolders(folders, clean);
    }
  }

  /* -------------------------------------------------------- formatDocTitle */

  const LabWorkTitle: string := "Лабораторная работа "

  /** `^lab\d+$`: `lab` followed by one or more digits and nothing else. */
  predicate IsLabName(f: string) {
    |f| >= 4 && f[..3] == "lab" && AllDigits(f[3..])
  }

  /** `.replace(/-/g, " ")`. */
  function DashesToSpaces(s: string): (r: string)
    ensures |r| == |s|
    ensures forall i :: 0 <= i < |s| ==> r[i] == (if s[i] == '-' then ' ' else s[i])
  {
    seq(|s|, i requires 0 <= i < |s| => if s[i] == '-' then ' ' else s[i])
  }

  /** `s.charAt(0).toUpperCase() + s.slice(1)`. */
  function Capitalize(s: string): (r: string)
    ensures |r| == |s|
    ensures s != [] ==> r[0] == UpperChar(s[0]) && r[1..] == s[1..]
  {
    if s == [] then [] else [UpperChar(s[0])] + s[1..]
  }

  /** The name the title is made from: the last segment, or the whole id
      when that segment is empty. */
  function TitleFileName(docId: string): string {
    var last := LastPart(docId, '/');
    if last != [] then last else docId
  }

  /** The beautified file name of the last rule. */
  function FallbackTitle(f: string): string {
    Capitalize(DashesToSpaces(StripTitleNumber(f)))
  }

  /** `formatDocTitle(docId)`. Every entry of the dictionary is a non-empty
      string, so its truthiness test is a key test. */
  function FormatDocTitle(docId: string): string {
    if docId in CustomDocTitles then CustomDocTitles[docId]
    else
      var f := TitleFileName(docId);
      if IsLabName(f) then LabWorkTitle + f[3..]
      else FallbackTitle(f)
  }

  /** The beautified name holds no `-`, starts with the upper-case form of
      the first character the number prefix leaves, and keeps the rest with
      each `-` turned into a space. */
  lemma FallbackTitleMeaning(f: string)
    ensures var clean := StripTitleNumber(f);
            var t := FallbackTitle(f);
            && |t| == |clean|
            && '-' !in t
            && (t != [] ==> t[0] == UpperChar(if clean[0] == '-' then ' ' else clean[0]))
            && forall i :: 1 <= i < |t| ==> t[i] == (if clean[i] == '-' then ' ' else clean[i])
  {
    CapitalizeSpaced(StripTitleNumber(f));
  }

  lemma CapitalizeSpaced(clean: string)
    ensures var t := Capitalize(DashesToSpaces(clean));
            && |t| == |clean|
            && '-' !in t
            && (t != [] ==> t[0] == UpperChar(if clean[0] == '-' then ' ' else clean[0]))
            && forall i :: 1 <= i < |t| ==> t[i] == (if clean[i] == '-' then ' ' else clean[i])
  {
    var d := DashesToSpaces(clean);
    var t := Capitalize(d);
    if d != [] {
      assert UpperChar(d[0]) != '-';
      forall i | 1 <= i < |t| ensures t[i] == d[i] {
        assert t[i] == t[1..][i - 1];
      }
    }
  }


  /** The rules in order: the dictionary first, then `labN`, then the
      beautified name. */
  lemma FormatDocTitleMeaning(docId: string)
    ensures docId in CustomDocTitles ==> FormatDocTitle(docId) == CustomDocTitles[docId]
    ensures docId !in CustomDocTitles && IsLabName(TitleFileName(docId)) ==>
              FormatDocTitle(docId) == LabWorkTitle + TitleFileName(docId)[3..]
    ensures docId !in CustomDocTitles && !IsLabName(TitleFileName(docId)) ==>
              FormatDocTitle(docId) == FallbackTitle(TitleFileName(docId)) && '-' !in FormatDocTitle(docId)
  {
    FallbackTitleMeaning(TitleFileName(docId));
  }

  /** A lab file name becomes the lab-work title with its digits. */
  lemma LabTitle(folder: string, digits: string)
    requires digits != [] && AllDigits(digits)
    requires folder + "/lab" + digits !in CustomDocTitles
    ensures FormatDocTitle(folder + "/lab" + digits) == LabWorkTitle + digits
  {
    var docId := folder + "/lab" + digits;
    var name := "lab" + digits;
    FolderAndName(folder, name);
    assert docId == folder + "/" + name;
    assert name[..3] == "lab" && name[3..] == digits;
  }

  /** A dictionary entry wins over the `labN` rule: lab 7 of the computer
      organisation course keeps its hand-written title. */
  lemma CustomTitleBeatsLabRule()
    ensures IsLabName(TitleFileName("computer-organization/lab7"))
    ensures FormatDocTitle("computer-organization/lab7") == "Лабораторная работа 7 (JTAG)"
  {
    LabSevenName("computer-organization/lab7");
    LabSevenTitle("computer-organization/lab7");
  }

  lemma LabSevenName(docId: string)
    requires docId == "computer-organization/lab7"
    ensures IsLabName(TitleFileName(docId))
  {
    FolderAndName("computer-organization", "lab7");
    assert docId == "computer-organization" + "/" + "lab7";
    assert IsLabName("lab7");
  }

  lemma LabSevenTitle(docId: string)
    requires docId == "computer-organization/lab7"
    ensures FormatDocTitle(docId) == "Лабораторная работа 7 (JTAG)"
  {
    assert docId in CustomDocTitles;
  }

  /** The title is made from the segment after the last slash. */
  lemma FolderAndName(folder: string, name: string)
    requires name != [] && '/' !in name
    ensures TitleFileName(folder + "/" + name) == name
  {
    LastPartAfter(folder, name, '/');
    assert folder + "/" + name == folder + ['/'] + name;
  }

  /** A document id without a slash is its own last segment and has no
      folders. */
  lemma PlainDocId(docId: string)
    requires docId != [] && '/' !in docId
    ensures LastPart(docId, '/') == docId && FolderParts(docId) == []
    ensures TitleFileName(docId) == docId
  {
    SplitNoSep(docId, '/');
  }

  lemma UrlOfDoubleDash()
    ensures GetDocUrl("01--x") == "/labs/-x"
  {
    PlainDocId("01--x");
    StripUrlNumberOfPrefixed("01", '-', "-x");
    assert "01--x" == "01" + ['-'] + "-x";
    GetDocUrlOfSegments("01--x");
  }

  lemma TitleOfDoubleDash()
    ensures FormatDocTitle("01--x") == "X"
  {
    PlainDocId("01--x");
    StripTitleNumberOfPrefixed("01", "--", "x");
    assert "01--x" == "01" + "--" + "x";
    NoSlashNotCustom("01--x");
    CapitalX();
  }

  lemma CapitalX()
    ensures Capitalize(DashesToSpaces("x")) == "X"
  {
    assert DashesToSpaces("x") == "x";
  }

  /** Every key of the dictionary has a folder, so an id without a slash
      never takes a hand-written title. */
  lemma NoSlashNotCustom(docId: string)
    requires '/' !in docId
    ensures docId !in CustomDocTitles
  {
    assert forall k :: k in CustomDocTitles ==> '/' in k;
  }

  /** The link and the title strip different prefixes: the link removes one
      separator after the digits, the title all of them. */
  lemma UrlAndTitlePrefixesDiffer()
    ensures GetDocUrl("01--x") == "/labs/-x"
    ensures FormatDocTitle("01--x") == "X"
  {
    UrlOfDoubleDash();
    TitleOfDoubleDash();
  }
}
