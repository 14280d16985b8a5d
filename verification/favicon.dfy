/**
 The favicon follows the site's colour mode. The mode is decided from, in
 order, whether a `window` exists (it does not while the page is rendered on
 the server), the `data-theme` attribute of the root element, the theme kept
 in `localStorage`, and the system's colour-scheme preference.

 The reads of the browser's globals become the fields of `Environment`; the
 subscriptions that re-run the update on a change are left to the caller.
 */
module Favicon {
  import opened Text

  datatype Mode = Dark | Light

  /** What `getColorMode` can read. `matchMedia` is `None` when the browser
      has no `window.matchMedia`, and otherwise whether the dark colour
      scheme is preferred. */
  datatype Environment =
    | ServerSide
    | Browser(dataTheme: Option<string>, storedTheme: Option<string>, prefersDark: Option<bool>)

  /** `getColorMode()`. */
  function ColorMode(env: Environment): Mode {
    if env.ServerSide? then Light
    else if env.dataTheme == Some("dark") then Dark
    else if env.storedTheme == Some("dark") then Dark
    else if env.prefersDark == Some(true) then Dark
    else Light
  }

  /** The three signals that ask for the dark mode. */
  predicate DarkSignal(env: Environment) {
    && env.Browser?
    && (env.dataTheme == Some("dark") || env.storedTheme == Some("dark") || env.prefersDark == Some(true))
  }

  /** The mode is light exactly when no dark signal holds: on the server,
      and in a browser where neither the attribute nor the stored theme is
      "dark" and the system does not prefer dark. A stored "dark" wins even
      over an attribute that says "light". */
  lemma ColorModeMeaning(env: Environment)
    ensures ColorMode(env) == Light <==> !DarkSignal(env)
    ensures ColorMode(env) == Dark <==> DarkSignal(env)
    ensures env.ServerSide? ==> ColorMode(env) == Light
    ensures env.Browser? && env.dataTheme == Some("light") && env.storedTheme == Some("dark") ==> ColorMode(env) == Dark
  {
  }

  const DarkIcon: string := "/docs/img/logo2-dark.svg"
  const LightIcon: string := "/docs/img/logo2.svg"

  /** The icon of a mode. */
  function IconHref(mode: Mode): (href: string)
    ensures href == DarkIcon <==> mode.Dark?
    ensures href == LightIcon <==> mode.Light?
  {
    if mode.Dark? then DarkIcon else LightIcon
  }

  /** A `<link>` element of the document head. */
  datatype Link = Link(rel: string, href: string)

  /** `[rel='icon']`: in an HTML document the value of `rel` is compared
      ASCII case-insensitively. No non-ASCII letter lowers to an ASCII one,
      so lowering both sides is that comparison. */
  predicate IsIcon(l: Link) {
    Lower(l.rel) == "icon"
  }

  /** The first link that `link[rel='icon']` selects. */
  function FirstIcon(head: seq<Link>): (r: Option<nat>)
    ensures r.Some? ==> r.value < |head| && IsIcon(head[r.value]) && forall j :: 0 <= j < r.value ==> !IsIcon(head[j])
    ensures r.None? ==> forall j :: 0 <= j < |head| ==> !IsIcon(head[j])
    decreases |head|
  {
    if head == [] then None
    else if IsIcon(head[0]) then Some(0)
    else match FirstIcon(head[1..])
      case None => None
      case Some(k) => Some(k + 1)
  }

  /** What `updateFavicon` leaves: the mode the component now holds and the
      head after the first icon link, or a newly appended one, got the
      mode's icon. */
  datatype Update = Update(mode: Mode, head: seq<Link>)

  function UpdateFavicon(env: Environment, head: seq<Link>): Update {
    var mode := ColorMode(env);
    match FirstIcon(head)
    case Some(i) => Update(mode, head[i := head[i].(href := IconHref(mode))])
    case None => Update(mode, head + [Link("icon", IconHref(mode))])
  }

  /** The `<Head>` the component renders for the mode it holds. */
  function RenderedIcon(mode: Mode): Link {
    Link("icon", IconHref(mode))
  }

  /** After an update there is an icon link whose address is the current
      mode's icon, the same address the rendered `<Head>` uses. An existing
      icon link is reused and the other links are untouched; without one, a
      link is appended. */
  lemma UpdateFaviconMeaning(env: Environment, head: seq<Link>)
    ensures var u := UpdateFavicon(env, head);
            && u.mode == ColorMode(env)
            && FirstIcon(u.head).Some?
            && u.head[FirstIcon(u.head).value].href == IconHref(ColorMode(env))
            && u.head[FirstIcon(u.head).value].href == RenderedIcon(u.mode).href
            && (FirstIcon(head).Some? ==>
                  |u.head| == |head| && FirstIcon(u.head) == FirstIcon(head)
                  && forall j :: 0 <= j < |head| && j != FirstIcon(head).value ==> u.head[j] == head[j])
            && (FirstIcon(head).None? ==> u.head[..|head|] == head && |u.head| == |head| + 1)
  {
    var u := UpdateFavicon(env, head);
    match FirstIcon(head)
    case Some(i) =>
      FirstIconUnchanged(head, i, IconHref(ColorMode(env)));
    case None =>
      FirstIconAppended(head, Link("icon", IconHref(ColorMode(env))));
  }

  /** A link whose `rel` is spelled "Icon" is the one reused: no second
      link is appended. */
  lemma MixedCaseIconReused(env: Environment, head: seq<Link>)
    requires head == [Link("Icon", "/x")]
    ensures UpdateFavicon(env, head).head == [Link("Icon", IconHref(ColorMode(env)))]
  {
    assert Lower("Icon") == "icon" by {
      assert LowerChar('I') == 'i';
    }
    assert FirstIcon(head) == Some(0);
  }

  /** Changing the address of the first icon link keeps it the first. */
  lemma FirstIconUnchanged(head: seq<Link>, i: nat, href: string)
    requires FirstIcon(head) == Some(i)
    ensures FirstIcon(head[i := head[i].(href := href)]) == Some(i)
  {
    var h := head[i := head[i].(href := href)];
    assert forall j :: 0 <= j < i ==> h[j] == head[j];
    assert IsIcon(h[i]);
  }

  /** Appending an icon to a head without one makes it the first icon. */
  lemma FirstIconAppended(head: seq<Link>, l: Link)
    requires FirstIcon(head).None? && IsIcon(l)
    ensures FirstIcon(head + [l]) == Some(|head|)
  {
    var h := head + [l];
    assert h[|head|] == l;
    assert forall j :: 0 <= j < |head| ==> h[j] == head[j];
  }
}
