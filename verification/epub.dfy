/**
 Assembly of the e-book (`prepare`, `addContent`, `Make` in
 epubgen/epub.go). The container library, the slug and hash functions, the
 store directory and the final write are oracles gathered in `World`.
 */
module Epub {
  import opened GoLib
  import opened Html
  import opened Extract
  import opened ImageEmbed

  const HeadingOpen := "<h1>"
  const HeadingClose := "</h1>"

  /** `prepare`: the section body, the title as a heading followed by the
      article's content. */
  function Prepare(a: Article): (body: string)
    ensures HasPrefix(body, HeadingOpen + a.title + HeadingClose)
    ensures |body| == |HeadingOpen| + |a.title| + |HeadingClose| + |a.content|
    ensures body[|body| - |a.content|..] == a.content
  {
    HeadingOpen + a.title + HeadingClose + a.content
  }

  /** Reads a section body back into title and content: the title is what
      stands between the opening tag and the first closing tag. */
  function SplitSection(s: string): Option<(string, string)>
  {
    if !HasPrefix(s, HeadingOpen) then None
    else
      var body := s[|HeadingOpen|..];
      match IndexOf(body, HeadingClose)
      case None => None
      case Some(i) => Some((body[..i], body[i + |HeadingClose|..]))
  }

  /** A section body determines the article's title and content, as long as
      the title does not itself hold the closing heading tag. */
  lemma PrepareRoundTrip(a: Article)
    requires !Contains(a.title, HeadingClose)
    ensures SplitSection(Prepare(a)) == Some((a.title, a.content))
  {
    var s := Prepare(a);
    assert s[..|HeadingOpen|] == HeadingOpen;
    var body := s[|HeadingOpen|..];
    var t := |a.title|;
    assert body == a.title + HeadingClose + a.content;
    assert body[t..t + |HeadingClose|] == HeadingClose;
    forall i | 0 <= i < t
      ensures !OccursAt(body, HeadingClose, i)
    {
      if i + |HeadingClose| <= t {
        assert body[i..i + |HeadingClose|] == a.title[i..i + |HeadingClose|];
        assert !OccursAt(a.title, HeadingClose, i);
      } else if i + |HeadingClose| <= |body| {
        var d := t - i;
        assert body[t] == '<' && HeadingClose[d] != '<';
        assert body[i..i + |HeadingClose|][d] == body[t];
      }
    }
    assert OccursAt(body, HeadingClose, t);
    var found := IndexOf(body, HeadingClose);
    assert found.Some?;
    assert found.value == t;
    assert body[..t] == a.title;
    assert body[t + |HeadingClose|..] == a.content;
  }

  /** A section as `AddSection` receives it: its title and body. */
  datatype Section = Section(title: string, body: string)

  function SectionOf(a: Article): Section
  {
    Section(a.title, Prepare(a))
  }

  /** The sections `AddSection` accepts from `articles`, in article order;
      `addSection(k)` is its answer for article k. */
  function AcceptedSections(articles: seq<Article>, addSection: nat -> GoError): seq<Section>
    decreases |articles|
  {
    if |articles| == 0 then []
    else
      var n := |articles| - 1;
      AcceptedSections(articles[..n], addSection)
      + (if addSection(n) == Nil then [SectionOf(articles[n])] else [])
  }

  /** No section is accepted exactly when every `AddSection` call failed. */
  lemma {:induction false} NoSectionIffAllRejected(articles: seq<Article>, addSection: nat -> GoError)
    ensures AcceptedSections(articles, addSection) == [] <==>
              forall k :: 0 <= k < |articles| ==> addSection(k) != Nil
    decreases |articles|
  {
    if |articles| > 0 {
      NoSectionIffAllRejected(articles[..|articles| - 1], addSection);
    }
  }

  /** When every `AddSection` call succeeds, the book holds one section per
      article, in article order. */
  lemma {:induction false} AllAcceptedKeepsOrder(articles: seq<Article>, addSection: nat -> GoError)
    requires forall k :: 0 <= k < |articles| ==> addSection(k) == Nil
    ensures |AcceptedSections(articles, addSection)| == |articles|
    ensures forall k :: 0 <= k < |articles| ==> AcceptedSections(articles, addSection)[k] == SectionOf(articles[k])
    decreases |articles|
  {
    if |articles| > 0 {
      AllAcceptedKeepsOrder(articles[..|articles| - 1], addSection);
    }
  }

  /** At most one section per article. */
  lemma {:induction false} AcceptedSectionsBound(articles: seq<Article>, addSection: nat -> GoError)
    ensures |AcceptedSections(articles, addSection)| <= |articles|
    decreases |articles|
  {
    if |articles| > 0 {
      AcceptedSectionsBound(articles[..|articles| - 1], addSection);
    }
  }

  const NoArticleAddedMsg := "No article was added, epub creation failed"
  const NoReadableUrlMsg := "No readable url given, exiting without creating epub"

  /** `addContent`: every article is offered once, in order; the error is
      returned exactly when none was added. */
  method AddContent(articles: seq<Article>, addSection: nat -> GoError)
    returns (accepted: seq<Section>, err: GoError)
    ensures accepted == AcceptedSections(articles, addSection)
    ensures |accepted| <= |articles|
    ensures err != Nil <==> accepted == []
    ensures err != Nil ==> err == Error(NoArticleAddedMsg)
  {
    var added := 0;
    accepted := [];
    for i := 0 to |articles|
      invariant accepted == AcceptedSections(articles[..i], addSection)
      invariant added == |accepted|
    {
      if addSection(i) == Nil {
        accepted := accepted + [SectionOf(articles[i])];
        added := added + 1;
      }
      assert articles[..i + 1][..i] == articles[..i];
    }
    assert articles[..|articles|] == articles;
    AcceptedSectionsBound(articles, addSection);
    if added == 0 {
      err := Error(NoArticleAddedMsg);
    } else {
      err := Nil;
    }
  }

  const StagingPrefix := "tmp-"

  /** The staging folder: named by the hash of the urls joined with "-". */
  function StagingFolder(pageUrls: seq<string>, genHash: string -> string): (folder: string)
    ensures HasPrefix(folder, StagingPrefix)
    ensures folder[|StagingPrefix|..] == genHash(Join(pageUrls, "-"))
  {
    StagingPrefix + genHash(Join(pageUrls, "-"))
  }

  /** The folder name is only as unique as the joined urls: a url holding
      the separator makes two different url lists share one folder, and
      with it the fallback file name. */
  lemma StagingFolderSharedByEqualJoins(genHash: string -> string)
    ensures ["a-b"] != ["a", "b"]
    ensures StagingFolder(["a-b"], genHash) == StagingFolder(["a", "b"], genHash)
    ensures OutputFileName("", StagingFolder(["a-b"], genHash)) == OutputFileName("", StagingFolder(["a", "b"], genHash))
  {
    assert ["a-b"][0] != ["a", "b"][0];
    assert Join(["a", "b"], "-") == "a" + "-" + Join(["b"], "-") == "a-b";
  }

  const FallbackPrefix := "kindle-send-doc-"
  const Extension := ".epub"

  /** The output file name: the title's slug, or a name built from the
      staging folder when the slug is empty. Either way it ends in the
      extension, and what precedes the extension is the slug when there is
      one. */
  function OutputFileName(titleSlug: string, tmpFolder: string): (name: string)
    ensures |name| >= |Extension| && name[|name| - |Extension|..] == Extension
    ensures |titleSlug| > 0 ==> name[..|name| - |Extension|] == titleSlug
    ensures |titleSlug| == 0 ==> name[..|name| - |Extension|] == FallbackPrefix + tmpFolder
  {
    if |titleSlug| == 0 then FallbackPrefix + tmpFolder + Extension else titleSlug + Extension
  }

  /** Two books with different non-empty slugs get different file names, and
      a book without a slug is named after its staging folder, so different
      folders give different names. */
  lemma {:induction false} OutputFileNameInjective(slug1: string, slug2: string, tmp1: string, tmp2: string)
    requires (|slug1| > 0 && |slug2| > 0 && slug1 != slug2) || (|slug1| == 0 && |slug2| == 0 && tmp1 != tmp2)
    ensures OutputFileName(slug1, tmp1) != OutputFileName(slug2, tmp2)
  {
    var n1, n2 := OutputFileName(slug1, tmp1), OutputFileName(slug2, tmp2);
    if |slug1| == 0 {
      assert (FallbackPrefix + tmp1)[|FallbackPrefix|..] != (FallbackPrefix + tmp2)[|FallbackPrefix|..];
    }
    assert n1[..|n1| - |Extension|] != n2[..|n2| - |Extension|];
  }

  /** The book as `Make` leaves it: title, accepted sections, cover reference. */
  datatype Book = Book(title: string, sections: seq<Section>, cover: Option<string>)

  /** Everything outside the pipeline's own logic that `Make` consults. */
  datatype World = World(
    genHash: string -> string,            // util.GenHash
    read: Reader,                         // readability.FromURL, by url and attempt
    arrival: seq<nat>,                    // order in which fetch goroutines deliver
    staged: set<string>,                  // files already in the staging folder
    imageHash: string -> string,          // util.GetHash
    images: nat -> nat -> ImageOracle,    // by article index, then node position
    render: Renderer,                     // goquery's Html()
    addSection: nat -> GoError,           // AddSection, by article index
    addCover: string -> AddResult,        // AddImage(coverUrl, "cover.png")
    slug: string -> string,               // slug.Make
    storeDir: string,                     // getStoreDir
    write: string -> GoError)             // Epub.Write

  /** `Make`: one e-book from a list of urls. Fails when the list is empty,
      when no section could be added, or when the write fails; otherwise
      returns the path of the written file, named after the slug of the
      title, which defaults to url 0's fetched title. Every article has its
      images embedded, one after another in url order, before any section
      is added; the sections are the embedded articles `AddSection`
      accepted, in url order. `embedded` is the batch of embedded articles. */
  method Make(pageUrls: seq<string>, title: string, coverUrl: string, w: World)
    returns (path: string, err: GoError, book: Option<Book>, embedded: Batch)
    requires IsArrivalOrder(w.arrival, |pageUrls|)
    ensures err != Nil ==> path == ""
    ensures |pageUrls| == 0 ==> err == Error(NoReadableUrlMsg) && book == None
    ensures |pageUrls| > 0 ==> book.Some?
    ensures |pageUrls| > 0 ==>
              && |embedded.articles| == |pageUrls| && |embedded.stages| == |pageUrls| + 1
              && embedded.stages[0] == Stage(map[], w.staged)
              && EmbedsFollow(FetchAll(pageUrls, w.read), |pageUrls|,
                              Embedder(StagingFolder(pageUrls, w.genHash), w.imageHash, w.render),
                              w.images, embedded.stages, embedded.articles)
              && book.value.sections == AcceptedSections(embedded.articles, w.addSection)
    ensures book.Some? ==>
              && book.value.title == (if title == "" then FetchURL(pageUrls[0], w.read).title else title)
              && book.value.cover == (if coverUrl == "" then None else Some(w.addCover(coverUrl).ref))
              && |book.value.sections| <= |pageUrls|
              && (book.value.sections == [] <==> forall k :: 0 <= k < |pageUrls| ==> w.addSection(k) != Nil)
    ensures book.Some? && (forall k :: 0 <= k < |pageUrls| ==> w.addSection(k) == Nil) ==>
              && |book.value.sections| == |pageUrls|
              && forall k :: 0 <= k < |pageUrls| ==>
                   book.value.sections[k].title == FetchURL(pageUrls[k], w.read).title
    ensures book.Some? && book.value.sections == [] ==> err == Error(NoArticleAddedMsg)
    ensures book.Some? && book.value.sections != [] ==>
              var target := JoinPath(w.storeDir, OutputFileName(w.slug(book.value.title), StagingFolder(pageUrls, w.genHash)));
              err == w.write(target) && (err == Nil ==> path == target)
  {
    var tmpFolder := StagingFolder(pageUrls, w.genHash);
    var articles := GetReadableArticles(pageUrls, w.read, w.arrival);
    if |articles| == 0 {
      return "", Error(NoReadableUrlMsg), None, Batch([], map[], w.staged, [Stage(map[], w.staged)]);
    }
    assert articles == FetchAll(pageUrls, w.read);
    var bookTitle := if |title| == 0 then articles[0].title else title;
    assert bookTitle == if title == "" then FetchURL(pageUrls[0], w.read).title else title;
    embedded := EmbedAll(articles, map[], w.staged, tmpFolder, w.imageHash, w.images, w.render);
    var accepted, addErr := AddContent(embedded.articles, w.addSection);
    NoSectionIffAllRejected(embedded.articles, w.addSection);
    if forall k :: 0 <= k < |pageUrls| ==> w.addSection(k) == Nil {
      AllAcceptedKeepsOrder(embedded.articles, w.addSection);
      forall k | 0 <= k < |pageUrls|
        ensures accepted[k].title == FetchURL(pageUrls[k], w.read).title
      {
        assert accepted[k] == SectionOf(embedded.articles[k]);
        assert embedded.articles[k].title == articles[k].title;
      }
    }
    var cover := if |coverUrl| != 0 then Some(w.addCover(coverUrl).ref) else None;
    book := Some(Book(bookTitle, accepted, cover));
    if addErr != Nil {
      return "", addErr, book, embedded;
    }
    path := JoinPath(w.storeDir, OutputFileName(w.slug(bookTitle), tmpFolder));
    err := w.write(path);
    if err != Nil {
      path := "";
    }
  }
}
