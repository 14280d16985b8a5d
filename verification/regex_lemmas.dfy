/**
 General facts about the matcher of module Regex: how a greedy run and an
 alternation hand over to the rest of the pattern, how the leftmost start
 position is chosen, and what a capture of the shape `(C+\.\w+)` looks like.
 */
module RegexLemmas {
  import opened Text
  import opened Regex

  /* ------------------------------------------------------ greedy runs */

  lemma {:induction false} RunLengthIs(t: string, k: CharClass, pos: nat, n: nat)
    requires pos + n <= |t|
    requires forall i :: pos <= i < pos + n ==> InClass(k, t[i])
    requires pos + n == |t| || !InClass(k, t[pos + n])
    ensures RunLength(t, k, pos) == n
    decreases n
  {
    if n > 0 {
      RunLengthIs(t, k, pos + 1, n - 1);
    }
  }

  /** A run over a slice of `t` whose characters are all in the class, and
      which the next character (if any) ends. */
  lemma RunOverSlice(t: string, k: CharClass, a: nat, part: string)
    requires a + |part| <= |t| && t[a..a + |part|] == part
    requires forall i :: 0 <= i < |part| ==> InClass(k, part[i])
    requires a + |part| == |t| || !InClass(k, t[a + |part|])
    ensures RunLength(t, k, a) == |part|
  {
    forall i | a <= i < a + |part| ensures InClass(k, t[i]) {
      assert t[i] == t[a..a + |part|][i - a];
    }
    RunLengthIs(t, k, a, |part|);
  }

  /** A greedy run settles on the longest length from which the rest of the
      pattern succeeds (or on its minimum, failing, when none does). */
  lemma {:induction false} TryRunPicks(t: string, ic: bool, items: seq<Item>, pos: nat, open: nat,
                                       group: Option<Span>, k: nat, j: nat)
    requires items != [] && items[0].Run? && items[0].min <= j <= k
    requires open <= pos && pos + k <= |t| && ValidSpan(t, group)
    requires forall q :: pos + j < q <= pos + k ==> Try(t, ic, items[1..], q, open, group).Fail?
    requires Try(t, ic, items[1..], pos + j, open, group).Success? || j == items[0].min
    ensures TryRun(t, ic, items, pos, open, group, k) == Try(t, ic, items[1..], pos + j, open, group)
    decreases k
  {
    if k > j {
      assert Try(t, ic, items[1..], pos + k, open, group).Fail?;
      TryRunPicks(t, ic, items, pos, open, group, k - 1, j);
    }
  }

  /** A successful run is the rest of the pattern from some later position. */
  lemma {:induction false} TryRunSuccess(t: string, ic: bool, items: seq<Item>, pos: nat, open: nat,
                                         group: Option<Span>, k: nat) returns (q: nat)
    requires items != [] && items[0].Run? && items[0].min <= k
    requires open <= pos && pos + k <= |t| && ValidSpan(t, group)
    requires TryRun(t, ic, items, pos, open, group, k).Success?
    ensures pos + items[0].min <= q <= pos + k
    ensures TryRun(t, ic, items, pos, open, group, k) == Try(t, ic, items[1..], q, open, group)
    decreases k
  {
    var a := Try(t, ic, items[1..], pos + k, open, group);
    if a.Success? || k == items[0].min {
      q := pos + k;
    } else {
      q := TryRunSuccess(t, ic, items, pos, open, group, k - 1);
    }
  }

  /** A successful alternation is the rest of the pattern from some position. */
  lemma {:induction false} TryChoiceSuccess(t: string, ic: bool, items: seq<Item>, pos: nat, open: nat,
                                            group: Option<Span>, i: nat) returns (q: nat)
    requires items != [] && items[0].Choice? && i <= |items[0].alts|
    requires open <= pos <= |t| && ValidSpan(t, group)
    requires TryChoice(t, ic, items, pos, open, group, i).Success?
    ensures pos <= q <= |t|
    ensures TryChoice(t, ic, items, pos, open, group, i) == Try(t, ic, items[1..], q, open, group)
    decreases |items[0].alts| - i
  {
    var alts := items[0].alts;
    if i == |alts| {
      q := pos;
    } else {
      var a := if LitAt(t, ic, pos, alts[i]) then Try(t, ic, items[1..], pos + |alts[i]|, open, group) else Fail;
      if a.Success? {
        q := pos + |alts[i]|;
      } else {
        q := TryChoiceSuccess(t, ic, items, pos, open, group, i + 1);
      }
    }
  }

  /* ------------------------------------------------- leftmost matching */

  /** Start positions at which the pattern fails do not matter. */
  lemma {:induction false} MatchFromSkip(p: Pattern, t: string, s: nat, j: nat)
    requires s <= j <= |t| + 1
    requires forall i :: s <= i < j ==> Try(t, p.ignoreCase, p.items, i, i, None).Fail?
    ensures MatchFrom(p, t, s) == MatchFrom(p, t, j)
    decreases j - s
  {
    if s < j {
      assert Try(t, p.ignoreCase, p.items, s, s, None).Fail?;
      MatchFromSkip(p, t, s + 1, j);
    }
  }

  /** A match is the pattern tried at some start position. */
  lemma {:induction false} MatchFromSuccess(p: Pattern, t: string, s: nat) returns (q: nat)
    requires MatchFrom(p, t, s).Success?
    ensures s <= q <= |t| && MatchFrom(p, t, s) == Try(t, p.ignoreCase, p.items, q, q, None)
    decreases |t| + 1 - s
  {
    if Try(t, p.ignoreCase, p.items, s, s, None).Fail? {
      q := MatchFromSuccess(p, t, s + 1);
    } else {
      q := s;
    }
  }

  /** A pattern that starts with `^` can only match at position 0. */
  lemma AnchoredMatch(p: Pattern, t: string)
    requires p.items != [] && p.items[0] == Bol
    ensures MatchFrom(p, t, 0) == Try(t, p.ignoreCase, p.items, 0, 0, None)
  {
    if Try(t, p.ignoreCase, p.items, 0, 0, None).Fail? {
      forall i | 1 <= i < |t| + 1
        ensures Try(t, p.ignoreCase, p.items, i, i, None).Fail?
      {
      }
      MatchFromSkip(p, t, 1, |t| + 1);
    }
  }

  /* ---------------------------------------------------------- captures */

  predicate NoMarkers(items: seq<Item>) {
    forall i :: 0 <= i < |items| ==> !items[i].Open? && !items[i].Close?
  }

  /** Items outside the capture group only move the position: a successful
      match through them is the rest of the pattern from a later position,
      with the same pending group. */
  lemma {:induction false} SkipPrefix(t: string, ic: bool, prefix: seq<Item>, rest: seq<Item>,
                                      pos: nat, open: nat, group: Option<Span>) returns (q: nat)
    requires open <= pos <= |t| && ValidSpan(t, group) && NoMarkers(prefix)
    requires Try(t, ic, prefix + rest, pos, open, group).Success?
    ensures pos <= q <= |t|
    ensures Try(t, ic, prefix + rest, pos, open, group) == Try(t, ic, rest, q, open, group)
    decreases |prefix|
  {
    var items := prefix + rest;
    if prefix == [] {
      assert items == rest;
      q := pos;
    } else {
      assert items[1..] == prefix[1..] + rest;
      assert NoMarkers(prefix[1..]) by {
        forall i | 0 <= i < |prefix[1..]| ensures !prefix[1..][i].Open? && !prefix[1..][i].Close? {
          assert prefix[1..][i] == prefix[i + 1];
        }
      }
      assert items[0] == prefix[0];
      assert !prefix[0].Open? && !prefix[0].Close?;
      match items[0]
      case Bol =>
        q := SkipPrefix(t, ic, prefix[1..], rest, pos, open, group);
      case Eol =>
        q := SkipPrefix(t, ic, prefix[1..], rest, pos, open, group);
      case Lit(s) =>
        q := SkipPrefix(t, ic, prefix[1..], rest, pos + |s|, open, group);
      case Run(k, min) =>
        var n := RunLength(t, k, pos);
        var q1 := TryRunSuccess(t, ic, items, pos, open, group, n);
        q := SkipPrefix(t, ic, prefix[1..], rest, q1, open, group);
      case Choice(_, _) =>
        var q1 := TryChoiceSuccess(t, ic, items, pos, open, group, 0);
        q := SkipPrefix(t, ic, prefix[1..], rest, q1, open, group);
    }
  }

  /** A successful match through marker-free items keeps the group as it was. */
  lemma KeepsGroup(t: string, ic: bool, items: seq<Item>, pos: nat, open: nat, group: Option<Span>)
    requires open <= pos <= |t| && ValidSpan(t, group) && NoMarkers(items)
    requires Try(t, ic, items, pos, open, group).Success?
    ensures Try(t, ic, items, pos, open, group).group == group
  {
    assert items + [] == items;
    var q := SkipPrefix(t, ic, items, [], pos, open, group);
  }

  /** The capture group `(C+\.\w+)` shared by the file-name patterns. */
  function FileNameGroup(k: CharClass): seq<Item> {
    [Open, Run(k, 1), Lit("."), Run(Word, 1), Close]
  }

  /** What a file-name capture looks like: no whitespace, and a dot that is
      neither the first character nor the last, followed only by word
      characters. */
  predicate FileNameLike(s: string) {
    && (forall i :: 0 <= i < |s| ==> !IsSpace(s[i]))
    && exists j :: 1 <= j < |s| - 1 && s[j] == '.' && forall i :: j < i < |s| ==> IsWordChar(s[i])
  }

  /* One step of `Try` on each kind of item. */

  lemma StepOpen(t: string, ic: bool, items: seq<Item>, pos: nat, open: nat, group: Option<Span>)
    requires open <= pos <= |t| && ValidSpan(t, group)
    requires items != [] && items[0] == Open
    ensures Try(t, ic, items, pos, open, group) == Try(t, ic, items[1..], pos, pos, group)
  {
  }

  lemma StepClose(t: string, ic: bool, items: seq<Item>, pos: nat, open: nat, group: Option<Span>)
    requires open <= pos <= |t| && ValidSpan(t, group)
    requires items != [] && items[0] == Close
    ensures Try(t, ic, items, pos, open, group) == Try(t, ic, items[1..], pos, open, Some(Span(open, pos)))
  {
  }

  lemma StepDot(t: string, ic: bool, items: seq<Item>, pos: nat, open: nat, group: Option<Span>)
    requires open <= pos <= |t| && ValidSpan(t, group)
    requires items != [] && items[0] == Lit(".")
    requires Try(t, ic, items, pos, open, group).Success?
    ensures pos < |t| && t[pos] == '.'
    ensures Try(t, ic, items, pos, open, group) == Try(t, ic, items[1..], pos + 1, open, group)
  {
    assert LitAt(t, ic, pos, ".");
    assert CharEq(ic, t[pos + 0], "."[0]);
  }

  lemma StepRun(t: string, ic: bool, items: seq<Item>, pos: nat, open: nat, group: Option<Span>) returns (q: nat)
    requires open <= pos <= |t| && ValidSpan(t, group)
    requires items != [] && items[0].Run?
    requires Try(t, ic, items, pos, open, group).Success?
    ensures pos + items[0].min <= q <= pos + RunLength(t, items[0].cls, pos)
    ensures Try(t, ic, items, pos, open, group) == Try(t, ic, items[1..], q, open, group)
  {
    var n := RunLength(t, items[0].cls, pos);
    assert Try(t, ic, items, pos, open, group) == TryRun(t, ic, items, pos, open, group, n);
    q := TryRunSuccess(t, ic, items, pos, open, group, n);
  }

  /** Whatever surrounds it, the group `(C+\.\w+)` captures a span shaped
      like a file name, when `C` contains no whitespace. */
  lemma GroupShape(t: string, ic: bool, k: CharClass, tail: seq<Item>, q: nat, open: nat, group: Option<Span>)
    requires k == NotSpace || k == FileChar
    requires open <= q <= |t| && ValidSpan(t, group) && NoMarkers(tail)
    requires Try(t, ic, FileNameGroup(k) + tail, q, open, group).Success?
    ensures var g := Try(t, ic, FileNameGroup(k) + tail, q, open, group).group;
            g.Some? && g.value.start == q && g.value.end <= |t| && FileNameLike(t[q..g.value.end])
  {
    var items := FileNameGroup(k) + tail;
    var result := Try(t, ic, items, q, open, group);
    var i1 := [Run(k, 1), Lit("."), Run(Word, 1), Close] + tail;
    var i2 := [Lit("."), Run(Word, 1), Close] + tail;
    var i3 := [Run(Word, 1), Close] + tail;
    var i4 := [Close] + tail;
    assert items[0] == Open && items[1..] == i1;
    assert i1[0] == Run(k, 1) && i1[1..] == i2;
    assert i2[0] == Lit(".") && i2[1..] == i3;
    assert i3[0] == Run(Word, 1) && i3[1..] == i4;
    assert i4[0] == Close && i4[1..] == tail;
    StepOpen(t, ic, items, q, open, group);
    var q1 := StepRun(t, ic, i1, q, q, group);
    StepDot(t, ic, i2, q1, q, group);
    var e := StepRun(t, ic, i3, q1 + 1, q, group);
    StepClose(t, ic, i4, e, q, group);
    KeepsGroup(t, ic, tail, e, q, Some(Span(q, e)));
    ShapeOfRuns(t, k, q, q1, e);
  }

  lemma ShapeOfRuns(t: string, k: CharClass, q: nat, q1: nat, e: nat)
    requires k == NotSpace || k == FileChar
    requires q < q1 && q1 + 2 <= e <= |t|
    requires forall i :: q <= i < q1 ==> InClass(k, t[i])
    requires t[q1] == '.'
    requires forall i :: q1 + 1 <= i < e ==> InClass(Word, t[i])
    ensures FileNameLike(t[q..e])
  {
    var s := t[q..e];
    assert forall i :: 0 <= i < |s| ==> !IsSpace(s[i]) by {
      forall i | 0 <= i < |s| ensures !IsSpace(s[i]) {
        assert s[i] == t[q + i];
        if q + i < q1 {
          assert InClass(k, t[q + i]);
        } else if q + i > q1 {
          assert InClass(Word, t[q + i]);
        }
      }
    }
    var j := q1 - q;
    assert s[j] == '.';
    assert forall i :: j < i < |s| ==> IsWordChar(s[i]) by {
      forall i | j < i < |s| ensures IsWordChar(s[i]) {
        assert s[i] == t[q + i];
        assert InClass(Word, t[q + i]);
      }
    }
  }

  /** Every capture of a pattern `prefix (C+\.\w+) tail`, with the group the
      only one, is shaped like a file name. */
  lemma FileNameCaptureShape(p: Pattern, prefix: seq<Item>, k: CharClass, tail: seq<Item>, t: string)
    requires k == NotSpace || k == FileChar
    requires p.items == prefix + FileNameGroup(k) + tail
    requires NoMarkers(prefix) && NoMarkers(tail)
    requires Group1(p, t).Some?
    ensures FileNameLike(Group1(p, t).value)
  {
    var q0 := MatchFromSuccess(p, t, 0);
    assert p.items == prefix + (FileNameGroup(k) + tail);
    var q := SkipPrefix(t, p.ignoreCase, prefix, FileNameGroup(k) + tail, q0, q0, None);
    GroupShape(t, p.ignoreCase, k, tail, q, q0, None);
  }

  /* ----------------------------------------------- leading literals */

  /** The literals an item must find at its position: its own text, or one
      of its branches. */
  function LeadingLiterals(item: Item): seq<string> {
    match item
    case Lit(s) => [s]
    case Choice(alts, _) => alts
    case _ => []
  }

  lemma {:induction false} TryChoiceLiteral(t: string, ic: bool, items: seq<Item>, pos: nat, open: nat,
                                            group: Option<Span>, i: nat) returns (j: nat)
    requires items != [] && items[0].Choice? && !items[0].optional && i <= |items[0].alts|
    requires open <= pos <= |t| && ValidSpan(t, group)
    requires TryChoice(t, ic, items, pos, open, group, i).Success?
    ensures i <= j < |items[0].alts| && LitAt(t, ic, pos, items[0].alts[j])
    decreases |items[0].alts| - i
  {
    if i < |items[0].alts| && LitAt(t, ic, pos, items[0].alts[i]) {
      j := i;
    } else {
      j := TryChoiceLiteral(t, ic, items, pos, open, group, i + 1);
    }
  }

  /** A pattern that starts with a literal, or with an alternation that is
      not optional, matches only where one of those literals occurs. */
  lemma MatchNeedsLeadingLiteral(p: Pattern, t: string)
    requires p.items != [] && (p.items[0].Lit? || (p.items[0].Choice? && !p.items[0].optional))
    ensures Matches(p, t) ==>
              exists pos, s :: 0 <= pos <= |t| && s in LeadingLiterals(p.items[0]) && LitAt(t, p.ignoreCase, pos, s)
  {
    if Matches(p, t) {
      var q := MatchFromSuccess(p, t, 0);
      if p.items[0].Lit? {
        assert LitAt(t, p.ignoreCase, q, p.items[0].text);
      } else {
        var j := TryChoiceLiteral(t, p.ignoreCase, p.items, q, q, None, 0);
        assert LitAt(t, p.ignoreCase, q, p.items[0].alts[j]);
      }
    }
  }
}
