# kindle-send e-book pipeline, modelled in Dafny

This project models the decision logic of kindle-send's e-book generator and its request queue. The generator turns a list of web page urls into one EPUB file. It fetches readable content for each url with bounded retries and puts the results back in input order. It downloads each `<img>` source, adds it to the container, and points the `<img>` tags at the local copies. A source that has been registered is never downloaded again, but a source that fails to register is tried again by every later `<img>` that carries it. Then it assembles one section per article and names the output file. The request queue sends each classified request to the generator or passes it through.

Network, filesystem, HTML parsing and serialisation, the EPUB library, hashing and slugging are external. Each is an oracle parameter, so every property holds for every possible answer:

- `readability.FromURL`: `read(url, k)`, the answer to the k-th attempt.
- `http.Get`, `os.Create`, `io.Copy`, the `os.Remove` after a failed copy, and `AddImage`: one `Round` per retry round of each `<img>`.
- `os.Stat` on a staged file: membership in the `staged` set of file paths that exist.
- `doc.Html()`: a `Renderer`.
- `AddSection`, `slug.Make`, `util.GetHash`, `util.GenHash`, the store directory and `Epub.Write`: fields of `World`.
- The fan-in over the result channel: an arrival order, the url indices in the order their goroutines delivered.
- `epubgen.Make` and `util.ExtractLinks`, as seen by the queue: the `Maker` and `extractLinks` parameters.

Modules:

- `GoLib`: Go's nil-able `error`, `strings.Index`/`Contains`/`Join`, path joining.
- `Html`: an article's content tree as its nodes in document order.
- `Extract`: `fetchReadable`, `fetchURL`, `getReadableArticles`.
- `ImageEmbed`: `downloadImage`, `downloadImages`, `changeRefs`, `embedImages`.
- `Epub`: `prepare`, `addContent`, `Make`.
- `Handler`: `Queue`, `Mail`.

Behaviour worth knowing when reading the model:

- `getReadableArticles` does not drop failed fetches: a failed url leaves a zero-valued article (empty title and content, nil node tree) in its slot.
- `Make`'s "No readable url given" error fires only when the url list itself is empty. It does not fire when every fetch fails.
- In the model, a zero-valued article has no `<img>` and is offered to `AddSection` like any other. A run in which every fetch fails therefore goes on to `addContent`, fails only if `AddSection` rejects every article, and otherwise writes a book whose defaulted title is empty. In the program, `embedImages` first hands the article's nil node tree to goquery (epubgen/epub.go:150-153), so what such a run does depends on goquery's handling of a nil root, which is not modelled; it may well end the process there.

## Model

| member | source | states |
|---|---|---|
| GoLib.IndexOf | epubgen/epub.go:41 | the first occurrence of the marker in the title, or none if it occurs nowhere; `Contains` is defined as "found" |
| Extract.RetryRead | epubgen/epub.go:39-46 | the retry loop stops at the first accepted attempt or at attempt 3; every earlier attempt had an error or a "502" title |
| Extract.FetchReadable | epubgen/epub.go:36-53 | 1 to 3 attempts, stopping at the first with no error and no "502" in the title; the error is exactly the last attempt's; on error the article is empty, otherwise it is the last attempt's page |
| Extract.PersistentBadGatewayIsNotAnError | epubgen/epub.go:39-52 | if every attempt returns a "502" title without error, three attempts are made and the third page comes back with a nil error |
| Extract.FetchURL | epubgen/epub.go:252-260 | the article sent for a url is empty when its fetch failed |
| Extract.GetReadableArticles | epubgen/epub.go:261-272 | for every arrival order the result has one slot per url, and slot i holds url i's article; failed urls keep an empty article in their slot |
| ImageEmbed.GetAttempts | epubgen/epub.go:114-129 | the GET loop leaves at the first successful attempt, or at attempt 3 with all attempts failed |
| ImageEmbed.DownloadImage | epubgen/epub.go:106-143 | an existing target costs zero GETs and returns its path; otherwise 1 to 3 GETs; when all fail the path is empty and the error is the last GET's, which is nil exactly for a non-200 response; after a successful GET the error is `os.Create`'s, or else `io.Copy`'s; a nil error stages the file and returns its path; any other error gives an empty path and leaves the staging area unchanged, except that a failed copy whose `os.Remove` also fails leaves the partial file staged |
| ImageEmbed.PersistentBadStatusIsSilent | epubgen/epub.go:119-127 | three non-200 responses give an empty path, a nil error and an unchanged staging area |
| ImageEmbed.PartialFileIsReused | epubgen/epub.go:107-141 | a failed copy whose removal fails too leaves the partial file staged, and the next `downloadImage` of that name then returns the partial file's path with a nil error and no GET |
| ImageEmbed.RetryRounds | epubgen/epub.go:82-96 | at most 3 download-plus-AddImage rounds; round k is `downloadImage` on the staging area round k - 1 left, with round k's answers; every round before the last failed; a reference is stored iff the last round succeeded, and it is that round's; giving up happens only after round 3 |
| ImageEmbed.RoundsFollowAt | epubgen/epub.go:82-96 | any round k of a retry trace is `downloadImage` on the staging area round k - 1 left (or the initial one), with the answers of retry `retry + k` |
| ImageEmbed.DownloadImages | epubgen/epub.go:70-105 | no `src`, or an already-registered `src`, costs no download and changes nothing; otherwise the rounds are `downloadImage(src, hash(src), tmpFolder)` from retry 1 on, at most 3 of them, and `src` is added, only to the successful round's reference, exactly when the last round succeeded; every other entry is kept unchanged |
| ImageEmbed.EmptyPathReachesAddImage | epubgen/epub.go:84-95 | the empty path from a silently failed download is passed to AddImage, and an AddImage success then registers the `src` |
| ImageEmbed.ChangeRefs | epubgen/epub.go:55-68 | `loading` and `srcset` are always removed; `src` becomes the registered reference iff it exists and is registered, and is otherwise unchanged; all other attributes are kept |
| ImageEmbed.ChangeRefsIdempotent | epubgen/epub.go:56-68 | rewriting twice equals rewriting once when no registered reference is itself a registered `src` |
| ImageEmbed.RewriteAll | epubgen/epub.go:158 | every `<img>` loses `loading` and `srcset`, its `src` becomes the registered reference when registered and is kept otherwise; every other node is unchanged |
| ImageEmbed.DownloadAll | epubgen/epub.go:152-155 | node j's step is `downloadImages` of node j on the registry and staging area that nodes 0..j-1 left, with node j's own answers, and the result is what the last node left |
| ImageEmbed.StepsFollowAt | epubgen/epub.go:152-155 | any step j of a download phase is the callback applied to node j, the stage before it, and the answers for position `pos + j` |
| ImageEmbed.RunGrows | epubgen/epub.go:152-155 | along the download phase the registry only grows, never changing an entry, and so does the staging area |
| ImageEmbed.RunVisits | epubgen/epub.go:152-155 | in the download phase a node with no `src` or an already-registered one is skipped, a node that stores registers a new `src`, no node spends more than 3 rounds, and a node whose `src` is still unregistered at the end spent all 3 |
| ImageEmbed.DownloadAllDedup | epubgen/epub.go:152-155 | over a whole document the registry only grows, by this document's `src`s; an already-registered `src` is never downloaded; once one node registers a `src`, later nodes with it download nothing; each new key has the node that stored it; a node whose `src` is unregistered at the end spent all 3 rounds on it |
| ImageEmbed.EmbedImages | epubgen/epub.go:146-167 | the registry, staging area and per-node visits are exactly those the download phase over the whole tree leaves, and the tree is rewritten against that final registry, so every `<img>` whose `src` is registered afterwards points at that reference and one whose `src` is still unregistered then keeps its remote `src`; the title is unchanged; the content is the serialised tree, or the old content if serialisation fails |
| ImageEmbed.RepeatedImageRegisteredOnce | epubgen/epub.go:152-158 | of two `<img>` with the same `src` in one article at most one registers it, and once the `src` is registered both point at the same reference |
| ImageEmbed.LaterRegistrationRewritesEarlierImage | epubgen/epub.go:150-158 | when a later `<img>` with the same `src` registers it, an earlier one that did not register it is rewritten to the same reference, because the rewrite runs only after every node's downloads |
| ImageEmbed.FailedImageRetriedByEachNode | epubgen/epub.go:152-158 | an `<img>` whose `src` is still unregistered after `embedImages` went through 3 `downloadImage` plus `AddImage` rounds for it, so a `src` that fails to register costs every node carrying it 3 more rounds; a round whose file is already staged makes no GET |
| ImageEmbed.EmbedAll | epubgen/epub.go:210-218 | output i is `embedImages` of article i on the registry and staging area that articles 0..i-1 left, with article i's own answers; each title and node count is kept, and no registry entry is dropped or overwritten |
| Epub.Prepare | epubgen/epub.go:170-172 | the section body starts with the title as an `<h1>` heading and ends with the content, with nothing else in between |
| Epub.PrepareRoundTrip | epubgen/epub.go:169-172 | a section body splits back into the article's title and content when the title holds no closing heading tag |
| Epub.NoSectionIffAllRejected | epubgen/epub.go:176-188 | no section is accepted exactly when every AddSection call failed |
| Epub.AllAcceptedKeepsOrder | epubgen/epub.go:176-184 | when every AddSection succeeds there is one section per article, in article order |
| Epub.AcceptedSectionsBound | epubgen/epub.go:176-184 | at most one section per article |
| Epub.AddContent | epubgen/epub.go:174-190 | each article is offered once, in order; the sections are the accepted ones in article order; the "no article was added" error comes back exactly when none was accepted |
| Epub.StagingFolder | epubgen/epub.go:194 | the staging folder is `tmp-` followed by the hash of the urls joined with `-` |
| Epub.StagingFolderSharedByEqualJoins | epubgen/epub.go:194 | the url lists `["a-b"]` and `["a", "b"]` differ but share a staging folder, and so share the fallback file name |
| Epub.OutputFileName | epubgen/epub.go:231-237 | the file name ends in `.epub`; before it stands the slug, or `kindle-send-doc-` and the staging folder when the slug is empty |
| Epub.OutputFileNameInjective | epubgen/epub.go:231-237 | two different non-empty slugs, or two different staging folders when both slugs are empty, never give the same file name |
| Epub.Make | epubgen/epub.go:192-245 | an empty url list is an error and creates no book; otherwise every fetched article has its images embedded, one after another in url order with one shared registry, before any section is added, and the sections are exactly the embedded articles `AddSection` accepted, in url order; the title defaults to url 0's fetched title whatever the arrival order; the cover is set iff a cover url is given; no sections means the "no article was added" error; otherwise the error is the write's own, at `storeDir/slug(title).epub` or at the fallback `kindle-send-doc-<tmp folder>.epub` when the slug is empty, and the path is returned on success |
| Handler.CallFor | handler/queue.go:18-32 | a single-url request calls Make with the one-element list of its path, a url-list request calls it with all extracted links, and no other kind calls Make; title and cover are passed through |
| Handler.Serve | handler/queue.go:14-33 | one request yields an output iff it is a file or its Make call succeeded; a file passes through unchanged and a success yields a file request for Make's path |
| Handler.Queue | handler/queue.go:11-36 | Make is called exactly once per url or url-list request and never otherwise; the output is no longer than the input and keeps input order; request i produces an output iff it is a file or its Make succeeded; a file request passes through unchanged; the other outputs are file requests carrying Make's path |
| Handler.Mail | handler/queue.go:38-47 | one file path per request, in order; a timeout under 60 becomes the default and any other is passed on unchanged |

## Left out

- Concurrency: the fetch goroutines, the channel, the `sync.WaitGroup` and the `sync.Map`. Fan-in is a fold over an arbitrary arrival order. Image embedding runs the articles one after another in index order with one shared registry, which is one interleaving of the concurrent run. Cross-article races on the same `src` are not modelled.
- Sleeps between retries and all coloured logging: they have no effect on results.
- The 30-second fetch timeout: its only effect is that a slow `readability.FromURL` returns an error, and `read` may already return an error on any attempt.
- `os.Mkdir` and `os.RemoveAll` of the staging folder: the model keeps only the set of staged file paths. Cleanup after the run is not modelled.
- `getStoreDir` and the configuration singleton: the store directory is a parameter. `config.DefaultTimeout` is a parameter of `Mail`, because the config package is not part of this model.
- `mail.Send`: `Mail` returns the file paths and timeout it would pass to the transport.
- `util.ExtractLinks`, goquery parsing and serialisation, go-epub, `slug.Make`, `util.GetHash` and `util.GenHash`: oracle parameters. The container is reduced to its accepted sections and cover reference. Added images are recorded only through the registry.
- `filepath.Join` / `path.Join` are modelled as `dir + "/" + name`, without Go's lexical clean-up of the result.
- The contents of `readability.Article` beyond title, content and node tree.
- cmd/download.go: command-line wiring only.
- Extract.GetReadableArticles: oracle answers are keyed by url and attempt number, so two equal urls in one list get the same answers.
- A failed fetch's zero-valued `readability.Article` has a nil `Node`. The model gives it an empty node list, so `embedImages` finds no `<img>` in it. What goquery does with a nil root node is not modelled.
- Handler.Queue: `Make` is an oracle here. How `Make` itself behaves is stated separately by `Epub.Make`.
