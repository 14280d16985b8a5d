/**
 What the listing button does with the listings it found: the archive it
 builds, the name it gives the archive, the `isProcessing` flag it keeps
 while it works, and the button it draws.

 The archive is the JSZip object reduced to its file table, a map from file
 name to content; compression and the blob download are not modelled.
 */
module ListingArchive {
  import opened Text
  import opened Listings

  /* ------------------------------------------------------------- archive */

  /** `listings.forEach(l => zip.file(l.fileName, l.content))`: each file
      added under an existing name replaces the earlier one. */
  function AddEntries(zip: map<string, string>, listings: seq<Listing>): map<string, string>
    decreases |listings|
  {
    if listings == [] then zip
    else AddEntries(zip[listings[0].fileName := listings[0].content], listings[1..])
  }

  function Archive(listings: seq<Listing>): map<string, string> {
    AddEntries(map[], listings)
  }

  /** The file names the listings carry. */
  function FileNames(listings: seq<Listing>): set<string> {
    set i | 0 <= i < |listings| :: listings[i].fileName
  }

  /** The listing at `i` is the last one with its name. */
  predicate LastOfName(listings: seq<Listing>, i: int) {
    0 <= i < |listings| && forall j :: i < j < |listings| ==> listings[j].fileName != listings[i].fileName
  }

  lemma FileNamesSplit(listings: seq<Listing>)
    requires listings != []
    ensures FileNames(listings) == {listings[0].fileName} + FileNames(listings[1..])
  {
    var rest := listings[1..];
    forall x | x in FileNames(listings) ensures x in {listings[0].fileName} + FileNames(rest) {
      var i :| 0 <= i < |listings| && listings[i].fileName == x;
      if i > 0 {
        assert rest[i - 1] == listings[i];
      }
    }
    forall x | x in FileNames(rest) ensures x in FileNames(listings) {
      var i :| 0 <= i < |rest| && rest[i].fileName == x;
      assert listings[i + 1] == rest[i];
    }
  }

  lemma {:induction false} AddEntriesKeys(zip: map<string, string>, listings: seq<Listing>)
    ensures AddEntries(zip, listings).Keys == zip.Keys + FileNames(listings)
    decreases |listings|
  {
    if listings != [] {
      AddEntriesKeys(zip[listings[0].fileName := listings[0].content], listings[1..]);
      FileNamesSplit(listings);
    }
  }

  /** A name no listing carries keeps the entry it had. */
  lemma {:induction false} AddEntriesKeeps(zip: map<string, string>, listings: seq<Listing>, name: string)
    requires name in zip && name !in FileNames(listings)
    ensures name in AddEntries(zip, listings) && AddEntries(zip, listings)[name] == zip[name]
    decreases |listings|
  {
    if listings != [] {
      FileNamesSplit(listings);
      AddEntriesKeeps(zip[listings[0].fileName := listings[0].content], listings[1..], name);
    }
  }

  /** The last listing with a name decides that name's content. */
  lemma {:induction false} AddEntriesLastWins(zip: map<string, string>, listings: seq<Listing>, i: nat)
    requires LastOfName(listings, i)
    ensures listings[i].fileName in AddEntries(zip, listings)
    ensures AddEntries(zip, listings)[listings[i].fileName] == listings[i].content
    decreases |listings|
  {
    var rest := listings[1..];
    var next := zip[listings[0].fileName := listings[0].content];
    if i == 0 {
      assert listings[0].fileName !in FileNames(rest) by {
        forall j | 0 <= j < |rest| ensures rest[j].fileName != listings[0].fileName {
          assert rest[j] == listings[j + 1];
        }
      }
      AddEntriesKeeps(next, rest, listings[0].fileName);
    } else {
      assert LastOfName(rest, i - 1) by {
        forall j | i - 1 < j < |rest| ensures rest[j].fileName != rest[i - 1].fileName {
          assert rest[j] == listings[j + 1];
        }
      }
      AddEntriesLastWins(next, rest, i - 1);
    }
  }

  /** The archive holds one file per distinct listing name, with the content
      of the last listing of that name. */
  lemma ArchiveMeaning(listings: seq<Listing>)
    ensures Archive(listings).Keys == FileNames(listings)
    ensures |Archive(listings)| == |FileNames(listings)|
    ensures forall i :: LastOfName(listings, i) ==>
              (listings[i].fileName in Archive(listings) && Archive(listings)[listings[i].fileName] == listings[i].content)
  {
    AddEntriesKeys(map[], listings);
    forall i | LastOfName(listings, i)
      ensures listings[i].fileName in Archive(listings) && Archive(listings)[listings[i].fileName] == listings[i].content
    {
      AddEntriesLastWins(map[], listings, i);
    }
  }

  /** Two listings under one name leave one file, holding the later content. */
  lemma LaterListingOverwrites(first: Listing, second: Listing)
    requires first.fileName == second.fileName
    ensures Archive([first, second]) == map[first.fileName := second.content]
  {
    var one := map[][first.fileName := first.content];
    assert [first, second][1..] == [second];
    assert [second][1..] == [];
    assert Archive([first, second]) == AddEntries(one, [second]);
    assert AddEntries(one, [second]) == one[second.fileName := second.content];
    assert one[second.fileName := second.content] == map[first.fileName := second.content];
  }

  /* ------------------------------------------------------------ zip name */

  /** Which letters the sanitiser keeps. `AsWrittenLetters` is the class
      `[a-zа-я0-9]` of the component, where `а-я` is U+0430..U+044F and so
      leaves out `ё` (U+0451); `WithYo` adds it. */
  datatype KeptLetters = AsWrittenLetters | WithYo

  predicate Kept(letters: KeptLetters, c: char) {
    || ('a' <= c <= 'z') || ('\U{430}' <= c <= '\U{44F}') || ('0' <= c <= '9')
    || (letters == WithYo && c == '\U{451}')
  }

  /** The characters of `s` the class keeps, in order. */
  function KeptOf(letters: KeptLetters, s: string): string
    decreases |s|
  {
    if s == [] then [] else (if Kept(letters, s[0]) then [s[0]] else []) + KeptOf(letters, s[1..])
  }

  /** The length of the run of characters outside the class that starts
      `s`. */
  function RunOutside(letters: KeptLetters, s: string): (n: nat)
    ensures n <= |s|
    ensures forall i :: 0 <= i < n ==> !Kept(letters, s[i])
    ensures n == |s| || Kept(letters, s[n])
    decreases |s|
  {
    if s != [] && !Kept(letters, s[0]) then 1 + RunOutside(letters, s[1..]) else 0
  }

  /** `.replace(/[^a-zа-я0-9]+/g, "-")`: every maximal run outside the class
      becomes one `-`. */
  function Collapse(letters: KeptLetters, s: string): string
    decreases |s|
  {
    if s == [] then []
    else if Kept(letters, s[0]) then [s[0]] + Collapse(letters, s[1..])
    else "-" + Collapse(letters, s[1 + RunOutside(letters, s[1..])..])
  }

  /** `.replace(/^-|-$/g, "")`: one `-` off the front and one off the end; a
      lone `-` is the front match and leaves nothing. */
  function StripDashes(c: string): string {
    var a := if |c| > 0 && c[0] == '-' then 1 else 0;
    var b := if |c| > a && c[|c| - 1] == '-' then |c| - 1 else |c|;
    c[a..b]
  }

  /** `title.toLowerCase()`, collapsed and stripped. */
  function SanitizeTitle(letters: KeptLetters, title: string): string {
    StripDashes(Collapse(letters, Lower(title)))
  }

  /** The shape of a sanitised name: only kept characters and `-`. */
  predicate DashedWord(letters: KeptLetters, s: string) {
    forall i :: 0 <= i < |s| ==> Kept(letters, s[i]) || s[i] == '-'
  }

  predicate NoDoubleDash(s: string) {
    forall i :: 0 <= i < |s| - 1 ==> !(s[i] == '-' && s[i + 1] == '-')
  }

  lemma {:induction false} KeptOfSplit(letters: KeptLetters, a: string, b: string)
    ensures KeptOf(letters, a + b) == KeptOf(letters, a) + KeptOf(letters, b)
    decreases |a|
  {
    if a != [] {
      assert (a + b)[0] == a[0] && (a + b)[1..] == a[1..] + b;
      KeptOfSplit(letters, a[1..], b);
    } else {
      assert a + b == b;
    }
  }

  lemma {:induction false} KeptOfNone(letters: KeptLetters, s: string)
    requires forall i :: 0 <= i < |s| ==> !Kept(letters, s[i])
    ensures KeptOf(letters, s) == []
    decreases |s|
  {
    if s != [] {
      KeptOfNone(letters, s[1..]);
    }
  }

  /** What a skipped run takes away holds no kept character. */
  lemma SkipRunKept(letters: KeptLetters, s: string)
    requires s != []
    ensures var n := RunOutside(letters, s[1..]);
            KeptOf(letters, s[1 + n..]) == KeptOf(letters, s[1..])
  {
    var t := s[1..];
    var n := RunOutside(letters, t);
    assert t == t[..n] + t[n..];
    assert t[n..] == s[1 + n..];
    KeptOfNone(letters, t[..n]);
    KeptOfSplit(letters, t[..n], t[n..]);
  }

  /** The collapsed text: kept characters and single dashes, with the kept
      characters of the input in their order, and a leading dash exactly
      when the input starts outside the class. */
  lemma {:induction false} CollapseShape(letters: KeptLetters, s: string)
    ensures CollapseFacts(letters, s, Collapse(letters, s))
    decreases |s|
  {
    if s != [] {
      var c := Collapse(letters, s);
      if Kept(letters, s[0]) {
        CollapseShape(letters, s[1..]);
        ConsFacts(letters, s, s[0], s[1..], Collapse(letters, s[1..]));
      } else {
        var rest := s[1 + RunOutside(letters, s[1..])..];
        CollapseShape(letters, rest);
        SkipRunKept(letters, s);
        ConsFacts(letters, s, '-', rest, Collapse(letters, rest));
      }
    }
  }

  /** What `CollapseShape` states of `c`, the collapse of `s`. */
  predicate CollapseFacts(letters: KeptLetters, s: string, c: string) {
    && DashedWord(letters, c) && NoDoubleDash(c)
    && KeptOf(letters, c) == KeptOf(letters, s)
    && (c == [] <==> s == [])
    && (c != [] ==> (c[0] == '-' <==> !Kept(letters, s[0])))
  }

  /** One step of the collapse: `x` put before the collapse of `rest`. */
  lemma ConsFacts(letters: KeptLetters, s: string, x: char, rest: string, c: string)
    requires s != [] && CollapseFacts(letters, rest, c)
    requires (Kept(letters, s[0]) && x == s[0]) || (!Kept(letters, s[0]) && x == '-')
    requires Kept(letters, s[0]) ==> rest == s[1..]
    requires !Kept(letters, s[0]) ==> (rest == [] || Kept(letters, rest[0])) && KeptOf(letters, rest) == KeptOf(letters, s[1..])
    ensures CollapseFacts(letters, s, [x] + c)
  {
    var r := [x] + c;
    assert forall i :: 1 <= i < |r| ==> r[i] == c[i - 1];
    assert DashedWord(letters, r);
    assert NoDoubleDash(r);
    KeptOfSplit(letters, [x], c);
    assert KeptOf(letters, s) == (if Kept(letters, s[0]) then [s[0]] else []) + KeptOf(letters, s[1..]);
  }

  /** A slice of a text with the sanitised shape has that shape. */
  lemma SliceKeepsShape(letters: KeptLetters, c: string, a: nat, b: nat)
    requires a <= b <= |c| && DashedWord(letters, c) && NoDoubleDash(c)
    ensures DashedWord(letters, c[a..b]) && NoDoubleDash(c[a..b])
  {
    assert forall i :: 0 <= i < b - a ==> c[a..b][i] == c[a + i];
  }

  /** Stripping leaves no dash at either end of a text without double
      dashes. */
  lemma StripDashesEnds(c: string)
    requires NoDoubleDash(c)
    ensures var r := StripDashes(c); r == [] || (r[0] != '-' && r[|r| - 1] != '-')
  {
    var a := if |c| > 0 && c[0] == '-' then 1 else 0;
    var b := if |c| > a && c[|c| - 1] == '-' then |c| - 1 else |c|;
    var r := c[a..b];
    if r != [] {
      assert r[0] == c[a] && r[|r| - 1] == c[b - 1];
      assert a == 1 ==> c[0] == '-' && c[1] != '-';
      assert b == |c| - 1 ==> c[|c| - 1] == '-' && c[|c| - 2] != '-';
    }
  }

  /** Stripping takes off only dashes. */
  lemma StripDashesKept(letters: KeptLetters, c: string)
    ensures KeptOf(letters, StripDashes(c)) == KeptOf(letters, c)
  {
    var a := if |c| > 0 && c[0] == '-' then 1 else 0;
    var b := if |c| > a && c[|c| - 1] == '-' then |c| - 1 else |c|;
    var d := c[a..];
    assert KeptOf(letters, d) == KeptOf(letters, c);
    if b < |c| {
      assert c[a..b] == d[..|d| - 1];
      DropLastDash(letters, d);
    } else {
      assert c[a..b] == d;
    }
  }

  lemma DropLastDash(letters: KeptLetters, x: string)
    requires x != [] && x[|x| - 1] == '-'
    ensures KeptOf(letters, x[..|x| - 1]) == KeptOf(letters, x)
  {
    assert x == x[..|x| - 1] + "-";
    KeptOfSplit(letters, x[..|x| - 1], "-");
    assert KeptOf(letters, "-") == [];
  }

  /** Stripping keeps the sanitised shape and adds clean ends. */
  lemma StripDashesShape(letters: KeptLetters, c: string)
    requires DashedWord(letters, c) && NoDoubleDash(c)
    ensures var r := StripDashes(c);
            && DashedWord(letters, r) && NoDoubleDash(r)
            && (r == [] || (r[0] != '-' && r[|r| - 1] != '-'))
            && KeptOf(letters, r) == KeptOf(letters, c)
  {
    var a := if |c| > 0 && c[0] == '-' then 1 else 0;
    var b := if |c| > a && c[|c| - 1] == '-' then |c| - 1 else |c|;
    SliceKeepsShape(letters, c, a, b);
    StripDashesEnds(c);
    StripDashesKept(letters, c);
  }

  /** A sanitised title holds only kept characters and single inner dashes,
      and keeps every kept character of the lowered title, in order. */
  lemma SanitizeTitleShape(letters: KeptLetters, title: string)
    ensures var r := SanitizeTitle(letters, title);
            && DashedWord(letters, r) && NoDoubleDash(r)
            && (r == [] || (r[0] != '-' && r[|r| - 1] != '-'))
            && KeptOf(letters, r) == KeptOf(letters, Lower(title))
  {
    CollapseShape(letters, Lower(title));
    StripDashesShape(letters, Collapse(letters, Lower(title)));
  }

  /** A run of characters outside the class, between pieces that touch it
      only with kept characters, becomes exactly one `-`. */
  lemma CollapseRun(letters: KeptLetters, a: string, run: string, b: string)
    requires a == [] || Kept(letters, a[|a| - 1])
    requires run != [] && forall i :: 0 <= i < |run| ==> !Kept(letters, run[i])
    requires b == [] || Kept(letters, b[0])
    ensures Collapse(letters, a + run + b) == Collapse(letters, a) + "-" + Collapse(letters, b)
  {
    AppendAssoc(a, run, b);
    CollapseAppend(letters, a, run + b);
    CollapseOfRun(letters, run, b);
    AppendAssoc(Collapse(letters, a), "-", Collapse(letters, b));
  }

  /** A leading run outside the class, up to a kept character, is one `-`. */
  lemma CollapseOfRun(letters: KeptLetters, run: string, b: string)
    requires run != [] && forall i :: 0 <= i < |run| ==> !Kept(letters, run[i])
    requires b == [] || Kept(letters, b[0])
    ensures Collapse(letters, run + b) == "-" + Collapse(letters, b)
  {
    var t := run + b;
    assert t[0] == run[0] && t[1..] == run[1..] + b;
    RunOutsideOfRun(letters, run[1..], b);
    assert t[1 + (|run| - 1)..] == b;
  }

  /** Collapsing works piece by piece when the first piece ends with a kept
      character. */
  lemma {:induction false} CollapseAppend(letters: KeptLetters, a: string, t: string)
    requires a == [] || Kept(letters, a[|a| - 1])
    ensures Collapse(letters, a + t) == Collapse(letters, a) + Collapse(letters, t)
    decreases |a|
  {
    if a == [] {
      assert a + t == t;
    } else {
      var rest := CollapseStep(letters, a, t);
      CollapseAppend(letters, rest, t);
    }
  }

  /** Splitting the rest that one step of `Collapse` leaves splits `a + t`. */
  lemma CollapseStep(letters: KeptLetters, a: string, t: string) returns (rest: string)
    requires a != [] && Kept(letters, a[|a| - 1])
    ensures |rest| < |a| && (rest == [] || Kept(letters, rest[|rest| - 1]))
    ensures Collapse(letters, rest + t) == Collapse(letters, rest) + Collapse(letters, t)
            ==> Collapse(letters, a + t) == Collapse(letters, a) + Collapse(letters, t)
  {
    var h;
    if Kept(letters, a[0]) {
      rest, h := CollapseKeptHead(letters, a, t);
    } else {
      rest, h := CollapseOutsideHead(letters, a, t);
    }
    SplitThroughHead(h, Collapse(letters, a), Collapse(letters, a + t),
                     Collapse(letters, rest), Collapse(letters, rest + t), Collapse(letters, t));
  }

  /** If `whole` is `h + part` and `wholeT` is `h + partT`, then splitting
      `partT` at `part` splits `wholeT` at `whole`. */
  lemma SplitThroughHead(h: string, whole: string, wholeT: string, part: string, partT: string, t: string)
    requires whole == h + part && wholeT == h + partT
    ensures partT == part + t ==> wholeT == whole + t
  {
    if partT == part + t {
      assert h + (part + t) == (h + part) + t;
    }
  }

  /** A kept first character is copied, on `a + t` as on `a`. */
  lemma CollapseKeptHead(letters: KeptLetters, a: string, t: string) returns (rest: string, h: string)
    requires a != [] && Kept(letters, a[0])
    ensures rest == a[1..]
    ensures Collapse(letters, a + t) == h + Collapse(letters, rest + t)
    ensures Collapse(letters, a) == h + Collapse(letters, rest)
  {
    assert (a + t)[0] == a[0] && (a + t)[1..] == a[1..] + t;
    rest, h := a[1..], [a[0]];
  }

  /** A first run outside the class that ends inside `a` becomes one `-`, on
      `a + t` as on `a`. */
  lemma CollapseOutsideHead(letters: KeptLetters, a: string, t: string) returns (rest: string, h: string)
    requires a != [] && !Kept(letters, a[0]) && Kept(letters, a[|a| - 1])
    ensures 0 < |rest| < |a| && rest[|rest| - 1] == a[|a| - 1]
    ensures Collapse(letters, a + t) == h + Collapse(letters, rest + t)
    ensures Collapse(letters, a) == h + Collapse(letters, rest)
  {
    assert (a + t)[0] == a[0] && (a + t)[1..] == a[1..] + t;
    var n := RunOutside(letters, a[1..]);
    assert Kept(letters, a[1..][|a| - 2]);
    rest, h := a[1 + n..], "-";
    RunOutsideOfPrefix(letters, a[1..], t);
    DropOfAppend(a, t, 1 + n);
  }

  lemma DropOfAppend(x: string, y: string, k: nat)
    requires k <= |x|
    ensures (x + y)[k..] == x[k..] + y
  {
  }

  /** The run outside the class ends inside `x` when `x` holds a kept
      character. */
  lemma {:induction false} RunOutsideOfPrefix(letters: KeptLetters, x: string, y: string)
    requires RunOutside(letters, x) < |x|
    ensures RunOutside(letters, x + y) == RunOutside(letters, x)
    decreases |x|
  {
    if !Kept(letters, x[0]) {
      assert (x + y)[1..] == x[1..] + y;
      RunOutsideOfPrefix(letters, x[1..], y);
    }
  }

  /** The run outside the class is all of `x` when `y` goes on with a kept
      character. */
  lemma {:induction false} RunOutsideOfRun(letters: KeptLetters, x: string, y: string)
    requires forall i :: 0 <= i < |x| ==> !Kept(letters, x[i])
    requires y == [] || Kept(letters, y[0])
    ensures RunOutside(letters, x + y) == |x|
    decreases |x|
  {
    if x == [] {
      assert x + y == y;
    } else {
      assert (x + y)[1..] == x[1..] + y;
      RunOutsideOfRun(letters, x[1..], y);
    }
  }

  /** The space of "a b" becomes a dash. */
  lemma SanitizeSpacedTitle(letters: KeptLetters)
    ensures SanitizeTitle(letters, "a b") == "a-b"
  {
    LowerOfSpaced();
    CollapseOfSpaced(letters, 'a', ' ', 'b');
    StripDashesOfSpaced();
  }

  lemma LowerOfSpaced()
    ensures Lower("a b") == ['a', ' ', 'b']
  {
    assert LowerChar('a') == 'a' && LowerChar(' ') == ' ' && LowerChar('b') == 'b';
  }

  lemma StripDashesOfSpaced()
    ensures StripDashes(['a', '-', 'b']) == "a-b"
  {
    assert ['a', '-', 'b'][0..3] == "a-b";
  }

  /** One character outside the class between two kept ones becomes `-`. */
  lemma CollapseOfSpaced(letters: KeptLetters, x: char, c: char, y: char)
    requires Kept(letters, x) && !Kept(letters, c) && Kept(letters, y)
    ensures Collapse(letters, [x, c, y]) == [x, '-', y]
  {
    CollapseRun(letters, [x], [c], [y]);
    assert [x] + [c] + [y] == [x, c, y];
    assert Collapse(letters, [x]) == [x] by {
      assert [x][1..] == [];
    }
    assert Collapse(letters, [y]) == [y] by {
      assert [y][1..] == [];
    }
  }

  /** `toLowerCase` leaves kept characters and dashes alone. */
  lemma LowerOfDashedWord(letters: KeptLetters, s: string)
    requires DashedWord(letters, s)
    ensures Lower(s) == s
  {
  }

  /** A text that already has the sanitised shape collapses to itself. */
  lemma {:induction false} CollapseOfDashedWord(letters: KeptLetters, s: string)
    requires DashedWord(letters, s) && NoDoubleDash(s)
    ensures Collapse(letters, s) == s
    decreases |s|
  {
    if s != [] {
      assert DashedWord(letters, s[1..]) && NoDoubleDash(s[1..]) by {
        assert forall i :: 0 <= i < |s| - 1 ==> s[1..][i] == s[i + 1];
      }
      if !Kept(letters, s[0]) {
        assert s[1..] == [] || Kept(letters, s[1]);
      }
      CollapseOfDashedWord(letters, s[1..]);
      assert s == [s[0]] + s[1..];
    }
  }

  /** Sanitising a sanitised title changes nothing. */
  lemma SanitizeTitleIdempotent(letters: KeptLetters, title: string)
    ensures SanitizeTitle(letters, SanitizeTitle(letters, title)) == SanitizeTitle(letters, title)
  {
    var r := SanitizeTitle(letters, title);
    SanitizeTitleShape(letters, title);
    LowerOfDashedWord(letters, r);
    CollapseOfDashedWord(letters, r);
    assert StripDashes(r) == r[0..|r|];
  }

  /** A lower-case letter of the Russian alphabet: `а`..`я` and `ё`. */
  predicate IsRussianLower(c: char) {
    ('\U{430}' <= c <= '\U{44F}') || c == '\U{451}'
  }

  /** The Russian letters of `s`, in order. */
  function RussianOf(s: string): string
    decreases |s|
  {
    if s == [] then [] else (if IsRussianLower(s[0]) then [s[0]] else []) + RussianOf(s[1..])
  }

  /** Every Russian letter is kept by the class with `ё`, so reading the
      Russian letters after the kept ones sees the same text. */
  lemma {:induction false} RussianOfKept(s: string)
    ensures RussianOf(KeptOf(WithYo, s)) == RussianOf(s)
    decreases |s|
  {
    if s != [] {
      RussianOfKept(s[1..]);
      var k := KeptOf(WithYo, s[1..]);
      if Kept(WithYo, s[0]) {
        assert KeptOf(WithYo, s) == [s[0]] + k;
        assert ([s[0]] + k)[0] == s[0] && ([s[0]] + k)[1..] == k;
      } else {
        assert !IsRussianLower(s[0]);
        assert KeptOf(WithYo, s) == k;
        assert RussianOf(s) == [] + RussianOf(s[1..]);
      }
    }
  }

  /** With `ё` in the class, the sanitised title keeps every Russian letter
      of the lowered title, in order. */
  lemma SanitizeKeepsRussian(title: string)
    ensures RussianOf(SanitizeTitle(WithYo, title)) == RussianOf(Lower(title))
  {
    SanitizeTitleShape(WithYo, title);
    RussianOfKept(SanitizeTitle(WithYo, title));
    RussianOfKept(Lower(title));
  }

  /** As written, the title "Ёж" loses its first letter: it lowers to "ёж",
      and `ё` is outside `а-я`. */
  lemma YoDropped(title: string)
    requires title == "Ёж"
    ensures Lower(title) == "ёж"
    ensures SanitizeTitle(AsWrittenLetters, title) == "ж"
    ensures RussianOf(SanitizeTitle(AsWrittenLetters, title)) != RussianOf(Lower(title))
    ensures SanitizeTitle(WithYo, title) == "ёж"
  {
    LowerOfYoZhe(title);
    var low := Lower(title);
    CollapseYoZhe(low);
    assert StripDashes("-ж") == "ж";
    assert StripDashes("ёж") == "ёж";
    RussianOfYoZhe(low);
  }

  lemma LowerOfYoZhe(title: string)
    requires title == "Ёж"
    ensures Lower(title) == "ёж"
  {
    assert LowerChar(title[0]) == '\U{451}' && LowerChar(title[1]) == '\U{436}';
  }

  lemma CollapseYoZhe(low: string)
    requires low == "ёж"
    ensures Collapse(AsWrittenLetters, low) == "-ж"
    ensures Collapse(WithYo, low) == "ёж"
  {
    var zhe := low[1..];
    assert zhe == "ж" && zhe[1..] == [];
    assert Collapse(AsWrittenLetters, zhe) == "ж";
    assert Collapse(WithYo, zhe) == "ж";
    assert RunOutside(AsWrittenLetters, zhe) == 0;
    assert low[1 + 0..] == zhe;
  }

  lemma RussianOfYoZhe(low: string)
    requires low == "ёж"
    ensures RussianOf("ж") == "ж" && RussianOf(low) == "ёж"
  {
    assert "ж"[1..] == [];
    assert low[1..] == "ж";
  }

  /** The title: the trimmed text of the page's `h1`, or "page" when there is
      no `h1` or its text is blank. */
  function PageTitle(h1: Option<string>): (r: string)
    ensures r != []
  {
    if h1.Some? && Trim(h1.value) != [] then Trim(h1.value) else "page"
  }

  const ZipSuffix: string := "-listings.zip"

  /** The archive's download name, for the letters the sanitiser keeps:
      `AsWrittenLetters` is what the page does, `WithYo` the corrected class. */
  function ZipFileName(letters: KeptLetters, h1: Option<string>): string {
    SanitizeTitle(letters, PageTitle(h1)) + ZipSuffix
  }

  /** The download name is a sanitised word followed by "-listings.zip". */
  lemma ZipFileNameShape(letters: KeptLetters, h1: Option<string>)
    ensures var z := ZipFileName(letters, h1);
            && |z| >= |ZipSuffix| && z[|z| - |ZipSuffix|..] == ZipSuffix
            && var stem := z[..|z| - |ZipSuffix|];
               stem == SanitizeTitle(letters, PageTitle(h1))
               && DashedWord(letters, stem) && NoDoubleDash(stem)
               && (stem == [] || (stem[0] != '-' && stem[|stem| - 1] != '-'))
  {
    var stem := SanitizeTitle(letters, PageTitle(h1));
    var z := ZipFileName(letters, h1);
    assert z == stem + ZipSuffix;
    assert z[..|z| - |ZipSuffix|] == stem;
    assert z[|z| - |ZipSuffix|..] == ZipSuffix;
    SanitizeTitleShape(letters, PageTitle(h1));
  }

  /** A page headed "Ёж" downloads "ж-listings.zip" as written, and
      "ёж-listings.zip" with the corrected letter class. */
  lemma ZipFileNameOfYo(h1: Option<string>)
    requires h1 == Some("Ёж")
    ensures ZipFileName(AsWrittenLetters, h1) == "ж" + ZipSuffix
    ensures ZipFileName(WithYo, h1) == "ёж" + ZipSuffix
  {
    assert Trim(h1.value) == h1.value by { TrimYoZhe(h1.value); }
    YoDropped(h1.value);
  }

  lemma TrimYoZhe(t: string)
    requires t == "Ёж"
    ensures Trim(t) == t
  {
    assert !IsSpace(t[0]) && !IsSpace(t[|t| - 1]);
  }

  /* ------------------------------------------------------------- handler */

  datatype Outcome = NoListings | Failed | Downloaded(zipName: string, archive: map<string, string>)

  /** One click: how it ends, the alerts it shows, and every value it writes
      to `isProcessing`, in order. */
  datatype Click = Click(outcome: Outcome, alerts: seq<string>, flagWrites: seq<bool>)

  const NotFoundAlert: string := "Листинги не найдены на странице"
  const FailureAlert: string := "Произошла ошибка при создании архива. Проверьте консоль для деталей."

  /** Where the `try` block of `handleDownload` throws, if it does: while
      collecting the listings, while filling or generating the archive, or
      while starting the download. The browser decides this, so it is a
      parameter. */
  datatype Fault = NoFault | InExtract | InArchive | InDownload

  /** How a part of the handler ends: normally, with an outcome, or by a
      throw; either way with the alerts shown and the flag values written so
      far. */
  datatype Exit =
    | Normal(outcome: Outcome, alerts: seq<string>, flagWrites: seq<bool>)
    | Thrown(alerts: seq<string>, flagWrites: seq<bool>)

  /** The `try` block. Without listings it alerts, clears the flag and
      returns before the archive is built. */
  function TryBlock(letters: KeptLetters, listings: seq<Listing>, h1: Option<string>, fault: Fault): Exit {
    if fault.InExtract? then Thrown([], [])
    else if listings == [] then Normal(NoListings, [NotFoundAlert], [false])
    else if fault.InArchive? || fault.InDownload? then Thrown([], [])
    else Normal(Downloaded(ZipFileName(letters, h1), Archive(listings)), [], [])
  }

  /** The `catch` clause: a throw becomes the failure alert. */
  function CatchClause(e: Exit): (r: Exit)
    ensures r.Normal?
    ensures e.Normal? ==> r == e
    ensures e.Thrown? ==> r.outcome.Failed? && r.alerts == e.alerts + [FailureAlert] && r.flagWrites == e.flagWrites
  {
    if e.Thrown? then Normal(Failed, e.alerts + [FailureAlert], e.flagWrites) else e
  }

  /** The `finally` clause: the flag is cleared on every path. */
  function FinallyClause(e: Exit): (r: Exit)
    ensures r.Normal? == e.Normal? && r.alerts == e.alerts
    ensures r.Normal? ==> r.outcome == e.outcome
    ensures r.flagWrites == e.flagWrites + [false]
  {
    e.(flagWrites := e.flagWrites + [false])
  }

  /** `handleDownload`: the flag is set, then the `try` block runs, with its
      `catch` and `finally` clauses. */
  function HandleDownload(letters: KeptLetters, listings: seq<Listing>, h1: Option<string>, fault: Fault): Click {
    var e := FinallyClause(CatchClause(TryBlock(letters, listings, h1, fault)));
    Click(e.outcome, e.alerts, [true] + e.flagWrites)
  }

  /** Every path sets the flag first and only clears it afterwards, so it ends
      false; no listings means an alert and no archive (unless collecting
      them already threw); a throw means the failure alert; otherwise the
      archive of the listings under the page's zip name. */
  lemma HandleDownloadMeaning(letters: KeptLetters, listings: seq<Listing>, h1: Option<string>, fault: Fault)
    ensures var c := HandleDownload(letters, listings, h1, fault);
            && |c.flagWrites| >= 2 && c.flagWrites[0] && !c.flagWrites[|c.flagWrites| - 1]
            && (forall k :: 0 < k < |c.flagWrites| ==> !c.flagWrites[k])
            && (c.outcome.NoListings? <==> !fault.InExtract? && listings == [])
            && (c.outcome.NoListings? ==> c.alerts == [NotFoundAlert] && |c.flagWrites| == 3)
            && (c.outcome.Failed? <==> fault.InExtract? || (listings != [] && !fault.NoFault?))
            && (c.outcome.Failed? ==> c.alerts == [FailureAlert] && |c.flagWrites| == 2)
            && (c.outcome.Downloaded? <==> listings != [] && fault.NoFault?)
            && (c.outcome.Downloaded? ==>
                  && c.alerts == [] && |c.flagWrites| == 2
                  && c.outcome.zipName == ZipFileName(letters, h1)
                  && c.outcome.archive.Keys == FileNames(listings)
                  && forall i :: LastOfName(listings, i) ==> c.outcome.archive[listings[i].fileName] == listings[i].content)
  {
    ArchiveMeaning(listings);
  }

  /** The page as written names the download of a page headed "Ёж"
      "ж-listings.zip"; the corrected letter class keeps the "ё". */
  lemma HandleDownloadOfYo(listings: seq<Listing>, h1: Option<string>)
    requires listings != [] && h1 == Some("Ёж")
    ensures HandleDownload(AsWrittenLetters, listings, h1, NoFault).outcome == Downloaded("ж" + ZipSuffix, Archive(listings))
    ensures HandleDownload(WithYo, listings, h1, NoFault).outcome == Downloaded("ёж" + ZipSuffix, Archive(listings))
  {
    DownloadedUnderZipName(AsWrittenLetters, listings, h1);
    DownloadedUnderZipName(WithYo, listings, h1);
    ZipFileNameOfYo(h1);
  }

  lemma DownloadedUnderZipName(letters: KeptLetters, listings: seq<Listing>, h1: Option<string>)
    requires listings != []
    ensures HandleDownload(letters, listings, h1, NoFault).outcome == Downloaded(ZipFileName(letters, h1), Archive(listings))
  {
    var t := TryBlock(letters, listings, h1, NoFault);
    assert t.Normal? && t.outcome == Downloaded(ZipFileName(letters, h1), Archive(listings));
    assert FinallyClause(CatchClause(t)).outcome == t.outcome;
  }

  /* -------------------------------------------------------------- button */

  datatype Face = Spinner | Label(text: string)
  datatype ButtonView = Hidden | Shown(disabled: bool, face: Face)

  /** What the component renders: nothing without listings; otherwise a
      button disabled while processing, with a spinner in place of its
      text. */
  function View(hasListings: bool, processing: bool, buttonText: string): ButtonView {
    if !hasListings then Hidden
    else Shown(processing, if processing then Spinner else Label(buttonText))
  }

  /** The view of the first flag write is the disabled spinner; the view of
      the last write is the enabled button with its text. Which writes are
      ever drawn is up to React's batching of updates. */
  lemma ViewAroundClick(letters: KeptLetters, listings: seq<Listing>, h1: Option<string>, fault: Fault, buttonText: string)
    ensures var w := HandleDownload(letters, listings, h1, fault).flagWrites;
            && |w| >= 2
            && View(true, w[0], buttonText) == Shown(true, Spinner)
            && View(true, w[|w| - 1], buttonText) == Shown(false, Label(buttonText))
  {
    HandleDownloadMeaning(letters, listings, h1, fault);
  }
}
