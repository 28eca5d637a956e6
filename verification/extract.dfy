/**
 Readable-content extraction (`fetchReadable`, `fetchURL`,
 `getReadableArticles` in epubgen/epub.go).

 `readability.FromURL` is an oracle: `read(url, k)` is what the k-th call
 for `url` returns (k = 1, 2, 3 like `fetchReadable`'s `retry` counter). The
 fan-in over the result channel is modelled by an arrival order: the
 sequence of url indices in the order their goroutines delivered.
 */
module Extract {
  import opened GoLib
  import opened Html

  /** The fields of `readability.Article` the pipeline uses. */
  datatype Article = Article(title: string, content: string, node: Doc)

  /** Go's zero value `readability.Article{}`. */
  const EmptyArticle := Article("", "", [])

  /** One return of `readability.FromURL`. */
  datatype FetchOutcome = FetchOutcome(article: Article, err: GoError)

  type Reader = (string, nat) -> FetchOutcome

  const MaxFetchAttempts: nat := 3

  /** A title holding this marker is an upstream "bad gateway" page. */
  const BadGatewayMarker := "502"

  /** The loop's exit test: no error, and no bad-gateway marker in the title. */
  predicate Accepted(o: FetchOutcome)
  {
    o.err == Nil && !Contains(o.article.title, BadGatewayMarker)
  }

  /** What `fetchReadable` returns, with the number of `FromURL` calls made. */
  datatype Fetched = Fetched(article: Article, err: GoError, attempts: nat)

  /** The retry loop from attempt `retry` on: the outcome of the attempt it
      stopped at, and that attempt's number. */
  function RetryRead(url: string, read: Reader, retry: nat): (r: (FetchOutcome, nat))
    requires 1 <= retry <= MaxFetchAttempts
    ensures retry <= r.1 <= MaxFetchAttempts
    ensures r.0 == read(url, r.1)
    ensures forall k :: retry <= k < r.1 ==> !Accepted(read(url, k))
    ensures r.1 < MaxFetchAttempts ==> Accepted(r.0)
    decreases MaxFetchAttempts - retry
  {
    var o := read(url, retry);
    if Accepted(o) || retry == MaxFetchAttempts then (o, retry)
    else RetryRead(url, read, retry + 1)
  }

  /** `fetchReadable`: at most three attempts, stopping at the first accepted
      one; the error is the last attempt's, and on error the article is empty.
      A bad-gateway title on the last attempt is returned without error. */
  function FetchReadable(url: string, read: Reader): (r: Fetched)
    ensures 1 <= r.attempts <= MaxFetchAttempts
    ensures forall k :: 1 <= k < r.attempts ==> !Accepted(read(url, k))
    ensures r.attempts < MaxFetchAttempts ==> Accepted(read(url, r.attempts))
    ensures r.err == read(url, r.attempts).err
    ensures r.err == Nil ==> r.article == read(url, r.attempts).article
    ensures r.err != Nil ==> r.article == EmptyArticle
  {
    var (o, n) := RetryRead(url, read, 1);
    if o.err != Nil then Fetched(EmptyArticle, o.err, n)
    else Fetched(o.article, Nil, n)
  }

  /** Every attempt answered without error but with a bad-gateway title:
      three attempts are made and the third page is returned as a success. */
  lemma PersistentBadGatewayIsNotAnError(url: string, read: Reader)
    requires forall k :: 1 <= k <= MaxFetchAttempts ==>
               read(url, k).err == Nil && Contains(read(url, k).article.title, BadGatewayMarker)
    ensures FetchReadable(url, read) == Fetched(read(url, MaxFetchAttempts).article, Nil, MaxFetchAttempts)
  {
  }

  /** `fetchURL`: the article sent on the channel, empty when the fetch failed. */
  function FetchURL(url: string, read: Reader): (a: Article)
    ensures FetchReadable(url, read).err != Nil ==> a == EmptyArticle
  {
    FetchReadable(url, read).article
  }

  /** Every url's `fetchURL` article, at the url's own index. */
  function FetchAll(pageUrls: seq<string>, read: Reader): (articles: seq<Article>)
    ensures |articles| == |pageUrls|
    ensures forall i :: 0 <= i < |pageUrls| ==> articles[i] == FetchURL(pageUrls[i], read)
  {
    seq(|pageUrls|, i requires 0 <= i < |pageUrls| => FetchURL(pageUrls[i], read))
  }

  /** The goroutines' delivery order: each of the n indices arrives once. */
  predicate IsArrivalOrder(arrival: seq<nat>, n: nat)
  {
    && |arrival| == n
    && (forall k :: 0 <= k < n ==> arrival[k] < n)
    && (forall i :: 0 <= i < n ==> i in arrival)
  }

  /** `getReadableArticles`: a slice of exactly one article per url, filled in
      at each result's own index as results arrive. Whatever the arrival
      order, slot i holds url i's article; failed urls leave an empty article
      in their slot rather than being dropped. */
  method GetReadableArticles(pageUrls: seq<string>, read: Reader, arrival: seq<nat>)
    returns (articles: seq<Article>)
    requires IsArrivalOrder(arrival, |pageUrls|)
    ensures |articles| == |pageUrls|
    ensures forall i :: 0 <= i < |pageUrls| ==> articles[i] == FetchURL(pageUrls[i], read)
    ensures forall i :: 0 <= i < |pageUrls| && FetchReadable(pageUrls[i], read).err != Nil ==>
              articles[i] == EmptyArticle
  {
    articles := seq(|pageUrls|, _ => EmptyArticle);
    var k := 0;
    while k < |pageUrls|
      invariant 0 <= k <= |pageUrls|
      invariant |articles| == |pageUrls|
      invariant forall i :: 0 <= i < |pageUrls| ==>
                  articles[i] == if i in arrival[..k] then FetchURL(pageUrls[i], read) else EmptyArticle
    {
      var index := arrival[k];
      articles := articles[index := FetchURL(pageUrls[index], read)];
      assert arrival[..k + 1] == arrival[..k] + [index];
      k := k + 1;
    }
    assert arrival[..k] == arrival;
  }
}
