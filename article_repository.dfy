/**
 * Build-time loading of the article collection (`getStaticProps` of the index page):
 * one record per content file, field defaults, and an in-place sort newest first.
 * Reading the directory and splitting front matter from the body happen outside the
 * model: each file arrives as its name, its metadata map and its body text.
 */
module ArticleRepository {
  import opened Wrappers

  /** Front-matter metadata: a key that is not in the map is `undefined`. */
  type Metadata = map<string, string>

  /** One content file as the loader sees it after front-matter parsing. */
  datatype SourceFile = SourceFile(filename: string, data: Metadata, body: string)

  /** The record handed to the page; `featuredImage` None is `null`. */
  datatype Article = Article(
    title: string,
    date: string,
    description: string,
    content: string,
    featuredImage: Option<string>,
    slug: string)

  const MdSuffix: string := ".md"

  predicate EndsWithMd(filename: string) {
    |filename| >= |MdSuffix| && filename[|filename| - |MdSuffix|..] == MdSuffix
  }

  /** `filename.replace(/\.md$/, "")`: one trailing ".md", matched case-sensitively. */
  function SlugOf(filename: string): (slug: string)
    ensures EndsWithMd(filename) ==> slug + MdSuffix == filename
    ensures !EndsWithMd(filename) ==> slug == filename
  {
    if EndsWithMd(filename) then filename[..|filename| - |MdSuffix|] else filename
  }

  /** Appending ".md" and deriving the slug gives the name back, whatever it ends with. */
  lemma {:induction false} SlugOfMdFile(name: string)
    ensures SlugOf(name + MdSuffix) == name
  {
  }

  /** Two distinct ".md" files never share a slug. */
  lemma {:induction false} SlugInjectiveOnMdFiles(f: string, g: string)
    requires EndsWithMd(f) && EndsWithMd(g) && f != g
    ensures SlugOf(f) != SlugOf(g)
  {
  }

  /** Without the ".md" convention two files can collide: "notes" and "notes.md". */
  lemma SlugCollision()
    ensures SlugOf("notes") == SlugOf("notes.md") == "notes"
  {
  }

  /** `data[key] || ""`: an absent or empty value becomes "". */
  function Field(data: Metadata, key: string): string {
    if key in data then data[key] else ""
  }

  /** `data.featuredImage || null`: an absent or empty value becomes null. */
  function ImageField(data: Metadata, key: string): Option<string> {
    if key in data && data[key] != "" then Some(data[key]) else None
  }

  /** Truthy in JavaScript: present and not the empty string. */
  predicate Present(data: Metadata, key: string) {
    key in data && data[key] != ""
  }

  /** The record `getStaticProps` builds for one file. */
  function ToArticle(f: SourceFile): (a: Article)
    ensures a.slug == SlugOf(f.filename)
    ensures a.title == (if Present(f.data, "title") then f.data["title"] else "")
    ensures a.date == (if Present(f.data, "date") then f.data["date"] else "")
    ensures a.description == (if Present(f.data, "description") then f.data["description"] else "")
    ensures a.content == f.body
    ensures a.featuredImage.None? <==> !Present(f.data, "featuredImage")
    ensures a.featuredImage.Some? ==> a.featuredImage.value == f.data["featuredImage"] != ""
  {
    Article(
      Field(f.data, "title"),
      Field(f.data, "date"),
      Field(f.data, "description"),
      f.body,
      ImageField(f.data, "featuredImage"),
      SlugOf(f.filename))
  }

  /** `filenames.map(...)`: one record per listed file, in listing order. */
  function LoadArticles(files: seq<SourceFile>): (loaded: seq<Article>)
    ensures |loaded| == |files|
    ensures forall i :: 0 <= i < |files| ==> loaded[i].slug == SlugOf(files[i].filename)
  {
    seq(|files|, i requires 0 <= i < |files| => ToArticle(files[i]))
  }

  /** The loaded records, position by position, are the files' records. */
  lemma {:induction false} LoadArticlesOnePerFile(files: seq<SourceFile>)
    ensures |LoadArticles(files)| == |files|
    ensures forall i :: 0 <= i < |files| ==> LoadArticles(files)[i].slug == SlugOf(files[i].filename)
    ensures forall i :: 0 <= i < |files| ==> LoadArticles(files)[i] == ToArticle(files[i])
  {
  }

  /** Distinct ".md" files load into records with distinct slugs. */
  lemma {:induction false} LoadedSlugsDistinct(files: seq<SourceFile>)
    requires forall i :: 0 <= i < |files| ==> EndsWithMd(files[i].filename)
    requires forall i, j :: 0 <= i < j < |files| ==> files[i].filename != files[j].filename
    ensures forall i, j :: 0 <= i < j < |LoadArticles(files)| ==>
      LoadArticles(files)[i].slug != LoadArticles(files)[j].slug
  {
  }

  // ---------------------------------------------------------------------------
  // Sorting by date. `new Date(date).getTime()` is abstracted as `key`: Some(ms)
  // for a parseable date, None for NaN.

  predicate Dated(key: string -> Option<int>, x: Article) {
    key(x.date).Some?
  }

  /** Every record has a parseable date. */
  predicate AllDated(key: string -> Option<int>, s: seq<Article>) {
    forall k :: 0 <= k < |s| ==> Dated(key, s[k])
  }

  /** The date key of a record, 0 standing in for NaN (only used when dated). */
  function Time(key: string -> Option<int>, x: Article): int {
    key(x.date).GetOr(0)
  }

  /**
   * The comparator `(a, b) => time(b) - time(a)` is positive, i.e. `b` must come
   * before `a`. A NaN result is read by the sort as +0: the pair stays as it is.
   */
  predicate ComesFirst(key: string -> Option<int>, b: Article, a: Article) {
    Dated(key, a) && Dated(key, b) && Time(key, b) - Time(key, a) > 0
  }

  /** Dates are non-increasing: newest first. */
  predicate NewestFirst(key: string -> Option<int>, s: seq<Article>) {
    forall p, q :: 0 <= p < q < |s| ==> Time(key, s[p]) >= Time(key, s[q])
  }

  method SwapWithPrevious(a: array<Article>, j: nat)
    requires 0 < j < a.Length
    modifies a
    ensures a[..] == old(a[..])[j - 1 := old(a[j])][j := old(a[j - 1])]
    ensures multiset(a[..]) == multiset(old(a[..]))
  {
    a[j - 1], a[j] := a[j], a[j - 1];
  }

  /**
   * `articles.sort(cmp)` reorders the array in place. ECMAScript does not fix the
   * algorithm; this is an insertion sort driven by the same comparator.
   */
  method SortNewestFirst(a: array<Article>, key: string -> Option<int>)
    modifies a
    ensures multiset(a[..]) == multiset(old(a[..]))
    ensures AllDated(key, old(a[..])) ==> NewestFirst(key, a[..])
  {
    ghost var dated := AllDated(key, a[..]);
    var i := 0;
    while i < a.Length
      invariant 0 <= i <= a.Length
      invariant multiset(a[..]) == multiset(old(a[..]))
      invariant dated ==> AllDated(key, a[..])
      invariant dated ==> NewestFirst(key, a[..i])
    {
      var j := i;
      while j > 0 && ComesFirst(key, a[j], a[j - 1])
        invariant 0 <= j <= i < a.Length
        invariant multiset(a[..]) == multiset(old(a[..]))
        invariant dated ==> AllDated(key, a[..])
        invariant dated ==> forall p, q :: 0 <= p < q <= i && q != j ==> Time(key, a[p]) >= Time(key, a[q])
        invariant dated ==> forall q :: j < q <= i ==> Time(key, a[j]) > Time(key, a[q])
      {
        SwapWithPrevious(a, j);
        j := j - 1;
      }
      i := i + 1;
    }
  }

  /**
   * `getStaticProps`: load every file, then sort the records newest first. The
   * result is a permutation of the loaded records; when every date parses it is
   * ordered newest first.
   */
  method GetStaticProps(files: seq<SourceFile>, key: string -> Option<int>)
    returns (articles: seq<Article>)
    ensures |articles| == |files|
    ensures multiset(articles) == multiset(LoadArticles(files))
    ensures AllDated(key, LoadArticles(files)) ==> NewestFirst(key, articles)
  {
    var loaded := LoadArticles(files);
    var a := new Article[|loaded|](i requires 0 <= i < |loaded| => loaded[i]);
    assert a[..] == loaded;
    SortNewestFirst(a, key);
    articles := a[..];
    assert |multiset(articles)| == |multiset(loaded)|;
  }
}
