/**
 A backtracking matcher for the small fragment of ECMAScript regular
 expressions that the site's components use: anchors, literals, greedy runs of
 a character class, an alternation of literals (optionally made optional with
 `?`), and one capture group.

 `Try` explores the alternatives in the order the ECMAScript semantics gives
 them priority: a greedy run tries its longest length first and gives back one
 character at a time, an alternation tries its branches left to right, and an
 optional group tries its body before the empty match. `Group1` is
 `String.prototype.match` without the `g` flag: the first start position
 (left to right) at which the pattern matches decides, and the value is the
 text of capture group 1.
 */
module Regex {
  import opened Text

  /** The character classes that occur in the site's patterns. */
  datatype CharClass =
    | Digit         // \d
    | Space         // \s
    | NotSpace      // [^\s]
    | Word          // \w
    | NotDot        // [^.]
    | FileChar      // [a-zA-Z0-9_-]
    | SpaceOrColon  // [\s:]

  /** Class membership. None of the classes contains a letter whose case
      could be folded into or out of it, so the `i` flag does not change it. */
  predicate InClass(k: CharClass, c: char) {
    match k
    case Digit => IsDigit(c)
    case Space => IsSpace(c)
    case NotSpace => !IsSpace(c)
    case Word => IsWordChar(c)
    case NotDot => c != '.'
    case FileChar => IsWordChar(c) || c == '-'
    case SpaceOrColon => IsSpace(c) || c == ':'
  }

  datatype Item =
    | Bol                                       // ^
    | Eol                                       // $
    | Lit(text: string)                         // a literal, e.g. \.
    | Run(cls: CharClass, min: nat)             // greedy class{min,}: class* or class+
    | Choice(alts: seq<string>, optional: bool) // (?:a|b|c), or (?:a|b|c)? when optional
    | Open                                      // start of capture group 1
    | Close                                     // end of capture group 1

  datatype Pattern = Pattern(items: seq<Item>, ignoreCase: bool)

  datatype Span = Span(start: nat, end: nat)

  /** Outcome of matching the rest of a pattern: failure, or success with the
      capture group as it stands at the end of the match. */
  datatype Attempt = Fail | Success(group: Option<Span>)

  predicate ValidSpan(t: string, g: Option<Span>) {
    g.Some? ==> g.value.start <= g.value.end <= |t|
  }

  /** Character equality, under the canonicalisation of the `i` flag. */
  predicate CharEq(ignoreCase: bool, a: char, b: char) {
    if ignoreCase then UpperChar(a) == UpperChar(b) else a == b
  }

  predicate LitAt(t: string, ignoreCase: bool, pos: nat, s: string) {
    pos + |s| <= |t| && forall i :: 0 <= i < |s| ==> CharEq(ignoreCase, t[pos + i], s[i])
  }

  /** Length of the longest run of class `k` characters starting at `pos`. */
  function RunLength(t: string, k: CharClass, pos: nat): (n: nat)
    requires pos <= |t|
    ensures pos + n <= |t|
    ensures forall i :: pos <= i < pos + n ==> InClass(k, t[i])
    ensures pos + n == |t| || !InClass(k, t[pos + n])
    decreases |t| - pos
  {
    if pos < |t| && InClass(k, t[pos]) then 1 + RunLength(t, k, pos + 1) else 0
  }

  /** Match `items` against `t` from `pos`, where a capture group opened at
      `open` may be pending and `group` is the capture recorded so far. */
  function Try(t: string, ic: bool, items: seq<Item>, pos: nat, open: nat, group: Option<Span>): (a: Attempt)
    requires open <= pos <= |t| && ValidSpan(t, group)
    ensures a.Success? ==> ValidSpan(t, a.group)
    decreases |items|, 2, 0
  {
    if items == [] then Success(group)
    else
      match items[0]
      case Bol => if pos == 0 then Try(t, ic, items[1..], pos, open, group) else Fail
      case Eol => if pos == |t| then Try(t, ic, items[1..], pos, open, group) else Fail
      case Lit(s) =>
        if LitAt(t, ic, pos, s) then Try(t, ic, items[1..], pos + |s|, open, group) else Fail
      case Run(k, min) =>
        var n := RunLength(t, k, pos);
        if n < min then Fail else TryRun(t, ic, items, pos, open, group, n)
      case Choice(_, _) => TryChoice(t, ic, items, pos, open, group, 0)
      case Open => Try(t, ic, items[1..], pos, pos, group)
      case Close => Try(t, ic, items[1..], pos, open, Some(Span(open, pos)))
  }

  /** A greedy run that has consumed `k` characters: try the rest of the
      pattern, and on failure give back one character, down to the minimum. */
  function TryRun(t: string, ic: bool, items: seq<Item>, pos: nat, open: nat, group: Option<Span>, k: nat): (a: Attempt)
    requires items != [] && items[0].Run? && items[0].min <= k
    requires open <= pos && pos + k <= |t| && ValidSpan(t, group)
    ensures a.Success? ==> ValidSpan(t, a.group)
    decreases |items|, 1, k
  {
    var a := Try(t, ic, items[1..], pos + k, open, group);
    if a.Success? || k == items[0].min then a else TryRun(t, ic, items, pos, open, group, k - 1)
  }

  /** An alternation at its `i`-th branch; an optional one falls back to the
      empty match after the last branch. */
  function TryChoice(t: string, ic: bool, items: seq<Item>, pos: nat, open: nat, group: Option<Span>, i: nat): (a: Attempt)
    requires items != [] && items[0].Choice? && i <= |items[0].alts|
    requires open <= pos <= |t| && ValidSpan(t, group)
    ensures a.Success? ==> ValidSpan(t, a.group)
    decreases |items|, 1, |items[0].alts| - i
  {
    var alts := items[0].alts;
    if i == |alts| then
      if items[0].optional then Try(t, ic, items[1..], pos, open, group) else Fail
    else
      var a := if LitAt(t, ic, pos, alts[i]) then Try(t, ic, items[1..], pos + |alts[i]|, open, group) else Fail;
      if a.Success? then a else TryChoice(t, ic, items, pos, open, group, i + 1)
  }

  /** The first match whose start position is `start` or later. */
  function MatchFrom(p: Pattern, t: string, start: nat): (a: Attempt)
    ensures a.Success? ==> ValidSpan(t, a.group)
    decreases |t| + 1 - start
  {
    if start > |t| then Fail
    else
      var a := Try(t, p.ignoreCase, p.items, start, start, None);
      if a.Success? then a else MatchFrom(p, t, start + 1)
  }

  /** `t.match(p)` without the `g` flag, reduced to capture group 1: `None`
      when there is no match or the group did not take part in it. */
  function Group1(p: Pattern, t: string): Option<string> {
    var a := MatchFrom(p, t, 0);
    if a.Success? && a.group.Some? then Some(t[a.group.value.start..a.group.value.end]) else None
  }

  /** `p.test(t)`. */
  predicate Matches(p: Pattern, t: string) {
    MatchFrom(p, t, 0).Success?
  }
}
