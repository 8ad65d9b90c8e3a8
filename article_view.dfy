/**
 * The decisions of the `Article` component: which code blocks are highlighted and
 * with what text, how inline images are presented, the share URL, and the latch
 * that loads the highlighting theme once.
 */
module ArticleView {
  import opened Wrappers
  import Selection

  // ---------------------------------------------------------------------------
  // `/language-(\w+)/.exec(className || "")`

  /** `\w` without the Unicode flag: ASCII letters, digits and underscore. */
  predicate IsWordChar(c: char) {
    ('A' <= c <= 'Z') || ('a' <= c <= 'z') || ('0' <= c <= '9') || c == '_'
  }

  const LanguagePrefix: string := "language-"

  /** The pattern matches at `p`: the prefix, then at least one word character. */
  predicate MatchesAt(s: string, p: nat) {
    p + |LanguagePrefix| < |s|
    && s[p..p + |LanguagePrefix|] == LanguagePrefix
    && IsWordChar(s[p + |LanguagePrefix|])
  }

  /** `p` is where the regex engine reports its match: the leftmost start that matches. */
  predicate IsLeftmostMatch(s: string, p: nat) {
    MatchesAt(s, p) && forall q :: 0 <= q < p ==> !MatchesAt(s, q)
  }

  /** The greedy `\w+` starting at `i`: the longest run of word characters there. */
  function WordRun(s: string, i: nat): (w: string)
    requires i <= |s|
    ensures i + |w| <= |s| && w == s[i..i + |w|]
    ensures forall k :: 0 <= k < |w| ==> IsWordChar(w[k])
    ensures i + |w| == |s| || !IsWordChar(s[i + |w|])
    decreases |s| - i
  {
    if i < |s| && IsWordChar(s[i]) then [s[i]] + WordRun(s, i + 1) else ""
  }

  /** The first start position at or after `from` where the pattern matches. */
  function FirstMatchFrom(s: string, from: nat): (p: Option<nat>)
    requires from <= |s|
    ensures p.Some? ==> from <= p.value && MatchesAt(s, p.value)
    ensures p.Some? ==> forall q :: from <= q < p.value ==> !MatchesAt(s, q)
    ensures p.None? ==> forall q :: from <= q ==> !MatchesAt(s, q)
    decreases |s| - from
  {
    if from == |s| then None
    else if MatchesAt(s, from) then Some(from)
    else FirstMatchFrom(s, from + 1)
  }

  /** `match[1]` when the class string matches, None when `exec` returns null. */
  function Language(className: Option<string>): (lang: Option<string>)
    ensures var s := className.GetOr("");
      lang.None? <==> forall q: nat :: !MatchesAt(s, q)
    ensures var s := className.GetOr("");
      lang.Some? ==> exists p: nat :: IsLeftmostMatch(s, p) && lang.value == WordRun(s, p + |LanguagePrefix|)
    ensures lang.Some? ==> |lang.value| > 0 && forall k :: 0 <= k < |lang.value| ==> IsWordChar(lang.value[k])
  {
    var s := className.GetOr("");
    match FirstMatchFrom(s, 0)
    case None => None
    case Some(p) =>
      assert IsLeftmostMatch(s, p);
      Some(WordRun(s, p + |LanguagePrefix|))
  }

  /** The class a fenced block tagged `w` carries gives back `w`. */
  lemma {:induction false} LanguageOfFencedBlock(w: string)
    requires |w| > 0 && forall k :: 0 <= k < |w| ==> IsWordChar(w[k])
    ensures Language(Some(LanguagePrefix + w)) == Some(w)
  {
    var s := LanguagePrefix + w;
    var n := |LanguagePrefix|;
    assert s[0..n] == LanguagePrefix;
    assert s[n] == w[0];
    assert MatchesAt(s, 0);
    var r := WordRun(s, n);
    assert r == s[n..] == w;
  }

  /** An undefined class is read as "" and has no language. */
  lemma NoLanguageForUndefinedClass()
    ensures Language(None) == None
  {
  }

  // ---------------------------------------------------------------------------
  // The `code` override

  /** `String(children).replace(/\n$/, "")`: at most one final newline goes. */
  function StripFinalNewline(s: string): (r: string)
    ensures |s| > 0 && s[|s| - 1] == '\n' ==> r + "\n" == s
    ensures !(|s| > 0 && s[|s| - 1] == '\n') ==> r == s
  {
    if |s| > 0 && s[|s| - 1] == '\n' then s[..|s| - 1] else s
  }

  /** Appending one newline and stripping gives the text back, newlines inside included. */
  lemma {:induction false} StripFinalNewlineOnce(t: string)
    ensures StripFinalNewline(t + "\n") == t
  {
  }

  datatype CodeBlock =
    | Highlighted(language: string, text: string)   // the syntax highlighter with the theme
    | Plain(className: Option<string>, text: string) // the unstyled `<code>` element

  /** What the `code` override renders. */
  function RenderCode(className: Option<string>, children: string, themeLoaded: bool): (b: CodeBlock)
    ensures b.Highlighted? <==> Language(className).Some? && themeLoaded
    ensures b.Highlighted? ==> b.language == Language(className).value
    ensures b.Highlighted? ==> b.text == StripFinalNewline(children)
    ensures b.Plain? ==> b.className == className && b.text == children
  {
    match Language(className)
    case Some(lang) =>
      if themeLoaded then Highlighted(lang, StripFinalNewline(children)) else Plain(className, children)
    case None => Plain(className, children)
  }

  /** Before and after the theme loads, a block's text differs by at most one trailing newline. */
  lemma {:induction false} TwoPhaseText(className: Option<string>, children: string)
    ensures RenderCode(className, children, false).Plain?
    ensures var before, after := RenderCode(className, children, false), RenderCode(className, children, true);
      after.text == before.text || after.text + "\n" == before.text
  {
  }

  // ---------------------------------------------------------------------------
  // The `img` override

  datatype ImageBlock = ImageBlock(
    src: string, alt: string, width: nat, height: nat, quality: nat, caption: Option<string>)

  const InlineWidth: nat := 800
  const InlineHeight: nat := 500
  const InlineQuality: nat := 100

  /** What the `img` override renders: fixed size, and a caption exactly when alt text is given. */
  function RenderImage(src: Option<string>, alt: Option<string>): (img: ImageBlock)
    ensures img.width == InlineWidth && img.height == InlineHeight && img.quality == InlineQuality
    ensures img.src == src.GetOr("") && img.alt == alt.GetOr("")
    ensures img.caption.Some? <==> alt.Some? && alt.value != ""
    ensures img.caption.Some? ==> img.caption.value == img.alt
  {
    var a := alt.GetOr("");
    ImageBlock(src.GetOr(""), a, InlineWidth, InlineHeight, InlineQuality, if a != "" then Some(a) else None)
  }

  // ---------------------------------------------------------------------------
  // The share URL

  /** `articleUrl`: origin plus the deep-link path; "" when there is no window (server render). */
  function ShareUrl(origin: Option<string>, slug: string): (url: string)
    ensures origin.None? ==> url == ""
    ensures origin.Some? ==> url == origin.value + Selection.ArticleQuery + slug
    ensures origin.Some? && slug != "" ==> url == origin.value + Selection.PushedPath(Some(slug))
  {
    if origin.Some? then origin.value + Selection.ArticleQuery + slug else ""
  }

  // ---------------------------------------------------------------------------
  // The theme latch: `monokaiStyle` and the effect that imports it

  /** Whether the theme is loaded, and how many imports of it were requested. */
  datatype Latch = Latch(themeLoaded: bool, requests: nat)

  datatype Event =
    | Effect(isExpanded: bool)  // the effect runs after a render
    | Resolved                  // an import of the theme finishes

  /** The effect imports the theme only while expanded and not yet loaded. */
  predicate RequestsLoad(st: Latch, isExpanded: bool) {
    isExpanded && !st.themeLoaded
  }

  function Step(st: Latch, ev: Event): (next: Latch)
    ensures next.requests >= st.requests
    ensures st.themeLoaded ==> next == st
    ensures next.requests > st.requests ==> ev == Effect(true) && !st.themeLoaded && next.requests == st.requests + 1
    ensures next.themeLoaded && !st.themeLoaded ==> ev == Resolved && st.requests > 0
  {
    match ev
    case Effect(e) => if RequestsLoad(st, e) then st.(requests := st.requests + 1) else st
    case Resolved => if st.requests > 0 then st.(themeLoaded := true) else st
  }

  function Run(st: Latch, events: seq<Event>): (last: Latch)
    ensures last.requests >= st.requests
    ensures st.themeLoaded ==> last.themeLoaded
    decreases |events|
  {
    if events == [] then st else Run(Step(st, events[0]), events[1..])
  }

  /** Once loaded, the theme stays loaded and no further import is requested. */
  lemma {:induction false} LoadedIsFinal(st: Latch, events: seq<Event>)
    requires st.themeLoaded
    ensures Run(st, events) == st
  {
    if events != [] {
      LoadedIsFinal(Step(st, events[0]), events[1..]);
    }
  }

  /** The theme is loaded lazily: from the initial state, only after some expanded render. */
  lemma {:induction false} LoadedOnlyAfterExpansion(st: Latch, events: seq<Event>)
    requires !st.themeLoaded && st.requests == 0
    requires Run(st, events).themeLoaded
    ensures exists i :: 0 <= i < |events| && events[i] == Effect(true)
  {
    var next := Step(st, events[0]);
    if events[0] == Effect(true) {
      assert events[0] == Effect(true);
    } else {
      assert next == st;
      LoadedOnlyAfterExpansion(next, events[1..]);
      var i :| 0 <= i < |events[1..]| && events[1..][i] == Effect(true);
      assert events[i + 1] == Effect(true);
    }
  }

  /** The theme state of one `Article` instance. */
  class ArticleTheme {
    var themeLoaded: bool
    var requests: nat

    function State(): Latch
      reads this
    {
      Latch(themeLoaded, requests)
    }

    constructor()
      ensures State() == Latch(false, 0)
    {
      themeLoaded := false;
      requests := 0;
    }

    /** The `useEffect` on `[isExpanded, monokaiStyle]`; returns whether it started an import. */
    method RunEffect(isExpanded: bool) returns (requested: bool)
      modifies this
      ensures requested <==> isExpanded && !old(themeLoaded)
      ensures State() == Step(old(State()), Effect(isExpanded))
      ensures themeLoaded == old(themeLoaded)
    {
      requested := isExpanded && !themeLoaded;
      if requested {
        requests := requests + 1;
      }
    }

    /** `setMonokaiStyle(mod.monokai)` when a requested import finishes. */
    method ThemeResolved()
      modifies this
      ensures State() == Step(old(State()), Resolved)
      ensures old(themeLoaded) ==> themeLoaded
    {
      if requests > 0 {
        themeLoaded := true;
      }
    }
  }
}
