/**
 The star-count invitation: the Russian plural of "star" for a count, the
 `stars`/`loading`/`error` state the widget keeps while it asks GitHub for the
 repository's star count, and what it renders from that state.

 The request itself is a parameter: the model takes how it ended.
 */
module GitHubStars {
  import opened Text

  /* -------------------------------------------------------- plural suffix */

  const Genitive: string := "звезд"
  const Accusative: string := "звезду"
  const Paucal: string := "звезды"

  /** The quotient rounded toward zero. */
  function TruncQuot(a: int, b: int): int
    requires b > 0
  {
    if a >= 0 then a / b else -((-a) / b)
  }

  /** JavaScript's `%` on integers: what is left after taking away the
      quotient rounded toward zero, so the remainder takes the sign of the
      dividend (Dafny's `%` is never negative). */
  function JsRem(a: int, b: int): (r: int)
    requires b > 0
    ensures a >= 0 ==> 0 <= r < b
    ensures a < 0 ==> -b < r <= 0
    ensures a == b * TruncQuot(a, b) + r
  {
    if a >= 0 then a % b else -((-a) % b)
  }

  /** `getNumberSuffix(num)`. */
  function NumberSuffix(num: int): (r: string)
    ensures r == Genitive || r == Accusative || r == Paucal
  {
    var lastDigit := JsRem(num, 10);
    var lastTwoDigits := JsRem(num, 100);
    if 11 <= lastTwoDigits <= 14 then Genitive
    else if lastDigit == 1 then Accusative
    else if 2 <= lastDigit <= 4 then Paucal
    else Genitive
  }

  /** The grammar rule for non-negative counts, stated over the decimal
      digits: 11 to 14 in the last two digits take the genitive plural;
      otherwise a last digit of 1 takes the accusative singular, 2 to 4 the
      paucal form, and every other digit the genitive plural. */
  lemma NumberSuffixRule(n: nat)
    ensures 11 <= n % 100 <= 14 ==> NumberSuffix(n) == Genitive
    ensures !(11 <= n % 100 <= 14) && n % 10 == 1 ==> NumberSuffix(n) == Accusative
    ensures !(11 <= n % 100 <= 14) && 2 <= n % 10 <= 4 ==> NumberSuffix(n) == Paucal
    ensures n % 10 == 0 || 5 <= n % 10 ==> NumberSuffix(n) == Genitive
  {
  }

  /** The last digit is the last digit of the last two digits. */
  lemma LastDigitOfLastTwo(n: nat)
    ensures (n % 100) % 10 == n % 10
  {
    var q := n / 100;
    assert n == 100 * q + n % 100;
    assert n % 100 == 10 * ((n % 100) / 10) + (n % 100) % 10;
    assert n == 10 * (10 * q + (n % 100) / 10) + (n % 100) % 10;
  }

  /** For a non-negative count only the last two digits matter, so the
      suffix repeats every hundred. */
  lemma NumberSuffixOfLastTwo(n: nat)
    ensures NumberSuffix(n) == NumberSuffix(n % 100)
    ensures NumberSuffix(n + 100) == NumberSuffix(n)
  {
    LastDigitOfLastTwo(n);
    LastDigitOfLastTwo(n + 100);
    assert (n + 100) % 100 == n % 100;
  }

  /** A count of zero or below never takes the singular or paucal form: the
      truncated remainders are zero or negative. A floored remainder would
      have given `-9` the form of `1`. */
  lemma NonPositiveIsGenitive(n: int)
    requires n <= 0
    ensures NumberSuffix(n) == Genitive
  {
  }

  lemma TruncatedRemainderOfMinusNine()
    ensures JsRem(-9, 10) == -9 && (-9) % 10 == 1
    ensures NumberSuffix(-9) == Genitive && NumberSuffix(1) == Accusative
  {
  }

  /* ---------------------------------------------------------------- state */

  /** `stars` (null until a count arrives), `loading` and `error`. */
  datatype State = State(stars: Option<nat>, loading: bool, error: bool)

  const Initial: State := State(None, true, false)

  /** How the request ended: a response with `ok` and a star count, a
      response without `ok` (which the first handler turns into a thrown
      error), or a rejected promise. */
  datatype Response = Stars(count: nat) | NotOk | Rejected

  /** The state after the request settles. */
  function Settle(s: State, r: Response): (t: State)
    ensures !t.loading
    ensures r.Stars? ==> t.stars == Some(r.count) && t.error == s.error
    ensures !r.Stars? ==> t.error && t.stars == s.stars
  {
    match r
    case Stars(c) => s.(stars := Some(c), loading := false)
    case NotOk => s.(error := true, loading := false)
    case Rejected => s.(error := true, loading := false)
  }

  /* --------------------------------------------------------------- render */

  const LoadingText: string := "Загрузка..."
  const InviteText: string := "Поставьте звезду на GitHub"

  datatype View = Loading(text: string) | Invite(text: string) | Count(next: nat, suffix: string, text: string)

  /** The invitation for the next star: the count plus one, with the
      suffix for that same number. */
  function CountText(next: nat): string {
    "Чтобы не потерять документацию, пожалуйста, поставьте " + NatToString(next) + " " + NumberSuffix(next) + " на GitHub"
  }

  /** What the widget renders. */
  function Render(s: State): View {
    if s.loading then Loading(LoadingText)
    else if s.error || s.stars.None? then Invite(InviteText)
    else
      var next := s.stars.value + 1;
      Count(next, NumberSuffix(next), CountText(next))
  }

  /** From the initial state: loading until the request settles; a failed
      request shows the plain link; a count of `c` invites the `c + 1`-th
      star, with the suffix computed for `c + 1`. */
  lemma RenderAfterFetch(r: Response)
    ensures Render(Initial).Loading?
    ensures !r.Stars? ==> Render(Settle(Initial, r)) == Invite(InviteText)
    ensures r.Stars? ==>
              var v := Render(Settle(Initial, r));
              && v.Count? && v.next == r.count + 1 && v.suffix == NumberSuffix(r.count + 1)
              && DigitsValue(NatToString(v.next)) == r.count + 1
  {
    if r.Stars? {
      DigitsValueOfNatToString(r.count + 1);
    }
  }

  /** With no stars yet the widget asks for the first one. */
  lemma FirstStar()
    ensures Render(Settle(Initial, Stars(0))) == Count(1, Accusative, CountText(1))
  {
  }
}
