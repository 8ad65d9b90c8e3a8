# Blog article pipeline — a verified model

This project models the logic of a small statically generated blog that is not UI layout:

- **Article loading** (`getStaticProps` of the index page). Each content file is a name, a
  front-matter metadata map and a Markdown body. Loading turns each file into an article record:
  - the slug is the file name with one trailing `.md` removed;
  - absent or empty fields become `""`;
  - an absent or empty featured image becomes `null`.

  The records are then sorted in place, newest date first.
- **Expand/collapse selection** (`Home`). The page holds one nullable expanded slug.
  `toggleArticle` collapses the article when it is already expanded and otherwise switches to it,
  then pushes `/?article=<slug>` or `/`. A non-empty `article` query seeds the selection on load.
- **Article rendering decisions** (`Article`):
  - the `language-(\w+)` class match;
  - the highlighted-or-plain choice for code blocks and the trailing-newline strip;
  - the inline image defaults and caption rule;
  - the share URL;
  - the latch that imports the highlighting theme once.

Files: `wrappers.dfy` (Option), `article_repository.dfy` (module `ArticleRepository`),
`selection.dfy` (module `Selection`, class `Home`), `article_view.dfy` (module `ArticleView`,
class `ArticleTheme`).

Modelling choices:

- Metadata is `map<string, string>`. A missing key is `undefined` and `""` is the falsy string.
- `new Date(date).getTime()` is a parameter `key: string -> Option<int>`, with `None` standing for NaN.
- The comparator `time(b) - time(a)` is read as "b goes first" only when both times exist and the
  difference is positive. A NaN result counts as +0, as in ECMAScript.
- ECMAScript leaves the sort algorithm open. The model uses an insertion sort on an `array` driven
  by that comparator. Newest-first order is proved only when every date parses. With NaN keys the
  comparator is inconsistent and the source gives undated articles no defined place.
- `toggleArticle` tests the new slug for truthiness before pushing. So an empty slug (a file named
  `.md`) is selected while the root path `/` is pushed. The model keeps this. `Home.Toggle` proves
  URL/state agreement for every non-empty slug, and `Selection.EmptySlugLeavesRootPath` exhibits the
  empty-slug case.
- Edge cases the code leaves as they are, and the model keeps:
  - unparseable dates get no defined position in the sort;
  - a deep-link slug is not checked against the known slugs (`Selection.NoneExpandedWhenAbsent`:
    an unknown one simply expands no card);
  - one failing file aborts the whole load.

## Model

| member | source | states |
|---|---|---|
| `ArticleRepository.SlugOf` | pages/index.tsx:88 | a name ending in `.md` is the slug plus `.md`; any other name is its own slug |
| `ArticleRepository.SlugOfMdFile` | pages/index.tsx:88 | exactly one `.md` is removed: `SlugOf(n + ".md") == n` for every `n`, even one ending in `.md` |
| `ArticleRepository.SlugInjectiveOnMdFiles` | pages/index.tsx:88 | two distinct `.md` file names never yield the same slug |
| `ArticleRepository.SlugCollision` | pages/index.tsx:88 | without the `.md` suffix, `notes` and `notes.md` collide on slug `notes` |
| `ArticleRepository.ToArticle` | pages/index.tsx:90-97 | title, date and description are the metadata value when present and non-empty, else `""`; content is the body; featuredImage is null exactly when absent or empty; slug is `SlugOf(filename)` |
| `ArticleRepository.LoadArticles` | pages/index.tsx:84-98 | one record per listed file, in listing order, each carrying the slug of its own file name |
| `ArticleRepository.LoadArticlesOnePerFile` | pages/index.tsx:84-98 | loading yields exactly one record per file, in listing order, each that file's record |
| `ArticleRepository.LoadedSlugsDistinct` | pages/index.tsx:84-98 | distinct `.md` files load into records with pairwise distinct slugs |
| `ArticleRepository.SortNewestFirst` | pages/index.tsx:101 | the in-place sort leaves a permutation of the records, with non-increasing dates whenever every date parses |
| `ArticleRepository.GetStaticProps` | pages/index.tsx:80-108 | the returned collection is a permutation of the loaded records (one per file), newest first when every date parses |
| `Selection.Toggled` | pages/index.tsx:45 | the new selection is null exactly when the slug was the one expanded, and the slug otherwise |
| `Selection.PushedPath` | pages/index.tsx:49-53 | a non-empty selected slug pushes `/?article=<slug>`; no selection or an empty slug pushes `/` |
| `Selection.DeepLinked` | pages/index.tsx:28-32 | once the router is ready, a non-empty query becomes the selection, unchecked; otherwise the selection is unchanged |
| `Selection.IsExpanded` | pages/index.tsx:70-71 | a card renders expanded exactly when its click would collapse it; a collapsed card's click selects its slug |
| `Selection.PushedPathInjective` | pages/index.tsx:49-53 | for selections without an empty slug, equal pushed paths mean equal selections: the URL determines the state |
| `Selection.EmptySlugLeavesRootPath` | pages/index.tsx:45-53 | selecting the empty slug pushes `/`, the path of "nothing expanded" |
| `Selection.ToggleTwice` | pages/index.tsx:45 | toggling a slug twice returns to collapsed, unless that slug was expanded to begin with |
| `Selection.SwitchSelection` | pages/index.tsx:45 | activating `s` then a different `t` leaves `t` expanded and `s` not |
| `Selection.AtMostOneExpanded` | pages/index.tsx:61-71 | with distinct slugs at most one card renders expanded, and exactly one when the selection is a listed slug |
| `Selection.NoneExpandedWhenAbsent` | pages/index.tsx:29-32 | a selection that is no listed slug (an unknown deep link) expands no card |
| `Selection.Home.constructor` | pages/index.tsx:25 | the page starts with nothing expanded at the URL it was opened with |
| `Selection.Home.Toggle` | pages/index.tsx:44-54 | the state becomes the toggled selection and the URL its pushed path, so the two agree; for a non-empty slug the URL is `/?article=<slug>` exactly when that slug is expanded |
| `Selection.Home.ApplyDeepLink` | pages/index.tsx:28-42 | the state becomes the deep-linked selection, the URL is not changed, and a page opened at `/?article=<q>` ends in agreement |
| `ArticleView.WordRun` | components/Article.tsx:65 | the greedy `\w+`: a substring at the position, all word characters, followed by the end or a non-word character |
| `ArticleView.FirstMatchFrom` | components/Article.tsx:65 | the leftmost start position where `language-` is followed by a word character, or none when there is no such position |
| `ArticleView.Language` | components/Article.tsx:65 | no language exactly when no position matches (an undefined class reads as `""`); otherwise the maximal word run after the leftmost match, non-empty and all word characters |
| `ArticleView.LanguageOfFencedBlock` | components/Article.tsx:65 | the class `language-<w>` of a block tagged with word `w` yields `w` |
| `ArticleView.NoLanguageForUndefinedClass` | components/Article.tsx:65 | an undefined class has no language |
| `ArticleView.StripFinalNewline` | components/Article.tsx:74 | one final newline is removed if present; otherwise the text is unchanged |
| `ArticleView.StripFinalNewlineOnce` | components/Article.tsx:74 | appending one newline and stripping gives any text back, so only one newline is removed |
| `ArticleView.RenderCode` | components/Article.tsx:64-81 | highlighted exactly when a language matched and the theme is loaded, with that language and the text with one final newline removed if present; otherwise the plain element with the class and children unchanged |
| `ArticleView.TwoPhaseText` | components/Article.tsx:66-79 | before the theme loads a block is plain, and its text differs from the later render by at most one trailing newline |
| `ArticleView.RenderImage` | components/Article.tsx:51-63 | missing src and alt become `""`, size is fixed at 800×500 with quality 100, and a caption equal to alt is shown exactly when alt is non-empty |
| `ArticleView.ShareUrl` | components/Article.tsx:38-40 | without a window the URL is `""`; with one it is origin + `/?article=` + slug, the same path `toggleArticle` pushes |
| `ArticleView.Step` | components/Article.tsx:42-46 | one effect run or import resolution: the request count never drops, a loaded theme stays and nothing else changes, a new request happens only on an expanded render while unloaded, and the theme becomes loaded only by resolving a requested import |
| `ArticleView.Run` | components/Article.tsx:42-46 | over any sequence of renders and resolutions the request count never drops and a loaded theme stays loaded |
| `ArticleView.LoadedIsFinal` | components/Article.tsx:42-48 | once the theme is loaded no later render or resolution changes the latch: no further import is requested |
| `ArticleView.LoadedOnlyAfterExpansion` | components/Article.tsx:42-48 | starting unloaded with no import, the theme can only be loaded after some render with the article expanded |
| `ArticleView.ArticleTheme.constructor` | components/Article.tsx:37 | a new article instance starts with no theme and no import requested |
| `ArticleView.ArticleTheme.RunEffect` | components/Article.tsx:42-48 | the effect starts an import exactly when expanded and not yet loaded, and never clears the theme |
| `ArticleView.ArticleTheme.ThemeResolved` | components/Article.tsx:44-46 | a finished import sets the theme, which is never reset |

## Left out

- Reading the content directory and files, and front-matter parsing. A file is given as its name, metadata map and body.
- Front-matter values that are not strings (YAML numbers, booleans, or dates parsed into `Date` objects). Metadata values are modelled as strings.
- Date parsing. The time of a date string is an abstract parameter, and NaN is `None`.
- The exact algorithm of `Array.prototype.sort`, which ECMAScript does not fix. An insertion sort with the same comparator stands in.
- ArticleRepository.SortNewestFirst: does not state the position of undated records or stability. The source gives NaN comparisons no defined order.
- Markdown rendering, `next/image`, the syntax highlighter and the dynamic imports. These are foreign libraries; only the decisions around them are modelled.
- The asynchronous timing of the theme import, the 100 ms scroll-into-view timer and `router.push` history behaviour.
- URL encoding. The slug is interpolated raw, so no parse-back from a URL to a slug is claimed for slugs containing `&`, `#` or `?`.
- The featured-image thumbnail and hero image (fixed sizes, shown when the image is non-null). This is presentational markup.
- The share button: native share, the clipboard fallback and the 2000 ms "copied" timer. These are browser API calls; the button is not part of this model.
- The article detail page (pages/articles/[slug].tsx) is not part of this model: its single-article loader from `<slug>.md`, its theme import on mount (without the expanded latch), and its share URL `origin + "/articles/" + slug`.
- ArticleView.RenderCode / ArticleView.TwoPhaseText: code-block children are modelled as one string. The source applies `String(children)` to a React node value while the plain branch renders the nodes themselves; when a block holds several nodes (raw HTML inside it), the highlighted text is their comma-joined string form, and the two-phase text property holds only for string children.
- Selection.DeepLinked / Selection.Home.ApplyDeepLink: the `article` query is modelled as an optional string. A repeated `?article=` parameter yields an array, which the unchecked cast stores as the selection; that case is not modelled.
