/**
 * The index page's expand/collapse selection (`Home`): one nullable expanded slug,
 * changed by `toggleArticle` and seeded by the `?article=` deep-link effect, and
 * the path `toggleArticle` pushes so that the URL mirrors the selection.
 */
module Selection {
  import opened Wrappers

  /** The query prefix of a deep link to an expanded article. */
  const ArticleQuery: string := "/?article="
  /** The path for "nothing expanded". */
  const RootPath: string := "/"

  /** `newSlug = expanded === slug ? null : slug`. */
  function Toggled(current: Option<string>, slug: string): (next: Option<string>)
    ensures next == None || next == Some(slug)
    ensures next == None <==> current == Some(slug)
  {
    if current == Some(slug) then None else Some(slug)
  }

  /**
   * The path `toggleArticle` pushes for the new selection. The branch tests
   * `newSlug` for truthiness, so an empty slug pushes the root path.
   */
  function PushedPath(next: Option<string>): (path: string)
    ensures next.Some? && next.value != "" ==> path == ArticleQuery + next.value
    ensures next.None? || next.value == "" ==> path == RootPath
  {
    if next.Some? && next.value != "" then ArticleQuery + next.value else RootPath
  }

  /** The deep-link effect: a non-empty `article` query replaces the selection, unchecked. */
  function DeepLinked(current: Option<string>, routerReady: bool, query: Option<string>): (next: Option<string>)
    ensures routerReady && query.Some? && query.value != "" ==> next == query
    ensures !(routerReady && query.Some? && query.value != "") ==> next == current
  {
    if routerReady && query.Some? && query.value != "" then query else current
  }

  /** `isExpanded={expandedArticleSlug === article.slug}`. */
  predicate IsExpanded(selection: Option<string>, slug: string): (expanded: bool)
    ensures expanded ==> Toggled(selection, slug) == None
    ensures !expanded ==> Toggled(selection, slug) == Some(slug)
  {
    selection == Some(slug)
  }

  /** The URL determines the selection: two selections without an empty slug push the same path only if equal. */
  lemma {:induction false} PushedPathInjective(x: Option<string>, y: Option<string>)
    requires x != Some("") && y != Some("")
    requires PushedPath(x) == PushedPath(y)
    ensures x == y
  {
    if x.Some? && y.Some? {
      var px, py := PushedPath(x), PushedPath(y);
      assert x.value == px[|ArticleQuery|..];
      assert y.value == py[|ArticleQuery|..];
    }
  }

  /** An empty slug is the one case where the pushed URL does not reflect the selection. */
  lemma EmptySlugLeavesRootPath()
    ensures Toggled(None, "") == Some("") && PushedPath(Toggled(None, "")) == RootPath
  {
  }

  /** Toggling the same slug twice restores "collapsed" unless that slug was the one expanded. */
  lemma ToggleTwice(current: Option<string>, slug: string)
    ensures Toggled(Toggled(current, slug), slug) == (if current == Some(slug) then Some(slug) else None)
  {
  }

  /** Activating `s` and then a different `t` leaves exactly `t` expanded. */
  lemma SwitchSelection(current: Option<string>, s: string, t: string)
    requires s != t
    ensures Toggled(Toggled(current, s), t) == Some(t)
    ensures !IsExpanded(Toggled(Toggled(current, s), t), s)
  {
  }

  predicate Distinct(slugs: seq<string>) {
    forall i, j :: 0 <= i < j < |slugs| ==> slugs[i] != slugs[j]
  }

  /** How many cards of the page render expanded. */
  function ExpandedCount(selection: Option<string>, slugs: seq<string>): nat {
    if slugs == [] then 0
    else (if IsExpanded(selection, slugs[0]) then 1 else 0) + ExpandedCount(selection, slugs[1..])
  }

  /** With distinct slugs at most one card is expanded: exactly one when the selection is a listed slug. */
  lemma {:induction false} AtMostOneExpanded(selection: Option<string>, slugs: seq<string>)
    requires Distinct(slugs)
    ensures ExpandedCount(selection, slugs) <= 1
    ensures ExpandedCount(selection, slugs) == 1 <==> selection.Some? && selection.value in slugs
  {
    if slugs != [] {
      var rest := slugs[1..];
      assert Distinct(rest) by {
        forall i, j | 0 <= i < j < |rest| ensures rest[i] != rest[j] {
          assert rest[i] == slugs[i + 1] && rest[j] == slugs[j + 1];
        }
      }
      AtMostOneExpanded(selection, rest);
      if IsExpanded(selection, slugs[0]) {
        assert slugs[0] !in rest by {
          forall k | 0 <= k < |rest| ensures rest[k] != slugs[0] {
            assert rest[k] == slugs[k + 1];
          }
        }
        NoneExpandedWhenAbsent(selection, rest);
      }
      assert slugs == [slugs[0]] + rest;
    }
  }

  /** A selection that is not among the slugs expands no card (a deep link to an unknown slug). */
  lemma {:induction false} NoneExpandedWhenAbsent(selection: Option<string>, slugs: seq<string>)
    requires selection.None? || selection.value !in slugs
    ensures ExpandedCount(selection, slugs) == 0
  {
    if slugs != [] {
      assert slugs == [slugs[0]] + slugs[1..];
      NoneExpandedWhenAbsent(selection, slugs[1..]);
    }
  }

  /** The state `Home` keeps: the expanded slug and the URL last pushed (or loaded). */
  class Home {
    var expanded: Option<string>
    var url: string

    /** The URL shows the current selection. */
    predicate InSync()
      reads this
    {
      url == PushedPath(expanded)
    }

    /** First render: nothing expanded, the browser at whatever URL it was opened with. */
    constructor(initialUrl: string)
      ensures expanded == None && url == initialUrl
    {
      expanded := None;
      url := initialUrl;
    }

    /** `toggleArticle(slug)`: update the selection, then push its path. */
    method Toggle(slug: string)
      modifies this
      ensures expanded == Toggled(old(expanded), slug)
      ensures url == PushedPath(expanded)
      ensures InSync()
      ensures slug != "" ==> (url == ArticleQuery + slug <==> expanded == Some(slug))
      ensures url == RootPath <==> expanded == None || slug == ""
    {
      var newSlug := Toggled(expanded, slug);
      expanded := newSlug;
      if newSlug.Some? && newSlug.value != "" {
        url := ArticleQuery + slug;
      } else {
        url := RootPath;
      }
    }

    /** The deep-link effect; it reads the query and pushes nothing. */
    method ApplyDeepLink(routerReady: bool, query: Option<string>)
      modifies this
      ensures expanded == DeepLinked(old(expanded), routerReady, query)
      ensures url == old(url)
      ensures routerReady && query.Some? && query.value != "" && old(url) == ArticleQuery + query.value ==> InSync()
    {
      if routerReady && query.Some? && query.value != "" {
        expanded := query;
      }
    }
  }
}
