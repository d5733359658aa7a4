# imagedb download orchestration in Dafny

This project models the core of imagedb, a tool that downloads images and their tags
from image boards (Gelbooru, Konachan, yande.re) and stores them in a SQLite database
and per-group directories. The modelled core has four parts:

- **Bulk fetch** (`get_image_bulk`). The loop over `(group, url)` pairs drops every URL
  it has seen before. The markers `series` and `end series` collect a run of URLs into
  a series, and each element of a flushed series carries its predecessor as parent.
  The model also covers the `url_count` total that sizes the progress bar.
- **Result consumer** (`queue_consumer`). It takes finished downloads off a FIFO queue.
  An image whose parent is not resolved yet goes back to the tail. Every other result
  goes to the callback, error tuples with `error=True`.
- **Persistence**:
  - the file-name choice and the "already exists" check of `get_image`;
  - `save` with its three attempts against transient database errors;
  - `process_tags` with its five attempts;
  - the missing-file report of `fetch_image_urls`.
- **Helpers and dispatch**:
  - `parse_filename`, `parse_extension`, `term_str.bold` and `term_str.len_special`;
  - the first-match choice of a downloader or parser by host name, and the stripped URL
    their constructors keep;
  - the rule that turns a page's image and link elements into tags and an image link.

The loops of the source are methods with loop invariants. Each is proved against a
specification function, and the properties are lemmas about those functions:

- the partition loop (`BulkFetch.PartitionUrls` against `BulkFetch.Partition`);
- the series submission (`BulkFetch.DispatchSeries` against `BulkFetch.SeriesDispatches`);
- the consumer loop (`ResultConsumer.ConsumeQueue`);
- the retry loops (`Persistence.Store.Save`, `Persistence.Store.ProcessTags`, against
  `Persistence.FreeAttempt`);
- the directory loop of `fetch_image_urls` (`FetchUrls.ListedFiles`).

The database is a `Store` object whose fields are the tables. Its methods change those
fields.

Modules:

| file | module | models |
|---|---|---|
| wrappers.dfy | `Wrappers` | `Option` and `Result` |
| strings.dfy | `Strings` | `str.strip`, `find`, `split(sep)`, `split()`, `count`, `startswith` |
| urllib.dfy | `UrlLib` | `urlparse`, `urlunparse`, and `urljoin` for `//` references |
| utilities.dfy | `Utilities` | `utilities.py` |
| records.dfy | `Records` | the input pair, `ImageInfo`, and what goes on the result queue |
| bulk_fetch.dfy | `BulkFetch` | the partition loop, `download_image_series`, `url_count` |
| result_consumer.dfy | `ResultConsumer` | `queue_consumer` |
| persistence.dfy | `Persistence` | `get_image`, `process_tags`/`insert_tags`, `save` |
| fetch_urls.dfy | `FetchUrls` | `fetch_image_urls` |
| sites.dfy | `Sites` | first-match search, page elements, the link rule of `get_image_info` |
| downloaders.dfy | `Downloaders` | `downloaders.py` |
| html_parsers.dfy | `HtmlParsers` | `html_parsers.py` |

Some behaviours of the code are easy to misread, and the model keeps them as written:

- `url_count` counts every raw entry starting with `http`. That includes repeats and
  entries that are later dropped, not only the distinct URLs.
- The elements of a series are submitted one by one to the same thread pool as every
  other URL, and results are queued in completion order. Parent-before-child delivery
  comes from the consumer's requeue rule alone.
- `save` retries the row creation 3 times. `insert_tags` separately retries the tag
  associations 5 times. When `insert_tags` gives up, it says nothing, and the file
  is still written.
- A parent image that is not in the database, or a group that is not, makes `save`
  raise `DoesNotExist`, which it does not catch. Neither case is reported per item.
  The `Image` table has no parent column, so the parent found is not stored.
- `urlparse` raises `ValueError` for a link with an unbalanced bracket in its
  authority. Neither `get_image` nor `get_image_info` catches it, so the model's
  `get_image` returns a `Failure`. In `get_image_bulk` it is not caught either (see
  "## Left out").

## Model

| member | source | states |
|---|---|---|
| BulkFetch.PartitionUrls | main_functions.py:84-105 | The loop returns exactly `Partition(urls)`. No URL is submitted twice. Each submission carries the group of its URL's first occurrence. A submission with a parent comes directly after that parent. |
| BulkFetch.DispatchSeries | main_functions.py:78-82 | Appends one submission per series element, in order, to the futures. |
| BulkFetch.SeriesDispatches | main_functions.py:78-82 | There is one submission per element. Element 0 has no parent, and element `i > 0` has `series[i-1]` as its parent. |
| BulkFetch.RunSnoc | main_functions.py:87-105 | The loop state after one more pair is one more step of the loop body. |
| BulkFetch.StepCases | main_functions.py:88-105 | Gives the five branches of the loop body `Step`: seen, `series`, `end series`, buffered, submitted. |
| BulkFetch.RunInv | main_functions.py:84-105 | The loop keeps four invariants. The seen set is the stripped non-marker URLs read so far. It is also exactly what was submitted or buffered, with no repeats. Submissions come from first occurrences. Parents are chained. |
| BulkFetch.PartitionProperties | main_functions.py:87-105 | Once dispatched or buffered, a stripped URL is skipped on every later occurrence, so submitted URLs are distinct. No marker is ever submitted. Each submission has its first occurrence's group. Parents chain backwards. |
| BulkFetch.SeriesOpenIff | main_functions.py:91-99 | Markers are never added to the seen set. The series flag is set after the input exactly when some `series` has no `end series` after it. |
| BulkFetch.MarkersTakeEffect | main_functions.py:91-99 | `series` always opens a series. `end series` always submits exactly the buffered series, which is nothing when the buffer is empty, and closes it. |
| BulkFetch.PartitionComplete | main_functions.py:84-105 | When no series is left open, the submitted URLs are exactly the stripped non-marker URLs of the input. |
| BulkFetch.OpenSeriesStaysOpen | main_functions.py:96-101 | An open series without a later `end series` stays open and submits nothing. |
| BulkFetch.UnterminatedSeriesDropped | main_functions.py:85-105 | A `series` never followed by `end series` leaves the submissions as they were before it. |
| BulkFetch.UrlCount | main_functions.py:64 | `url_count` is at most the number of entries. It equals that number exactly when every entry starts with `http`. |
| BulkFetch.PlainInput | main_functions.py:87-105 | Stripped, distinct, marker-free input is submitted pair by pair, in order, without parents. |
| BulkFetch.UrlCountOfPlainInput | main_functions.py:64 | On such input, all `http` links, `url_count` equals the number of submissions. |
| BulkFetch.UrlCountCountsRepeats | main_functions.py:64 | A link given twice counts 2 towards `url_count` but is submitted once. |
| BulkFetch.RepeatSubmittedOnce | main_functions.py:89-90 | A repeated link is submitted once, without a parent. |
| BulkFetch.Buffered | main_functions.py:89-102 | The entries an open series buffers from a stretch of input: each is stripped, not seen before and not a marker. |
| BulkFetch.BufferGrows | main_functions.py:89-102 | Inside an open series, every pair up to the next `end series` extends the buffer at its end, in input order, by exactly the entries `Buffered` picks. Nothing is submitted and the series stays open. |
| BulkFetch.OpenSeries | main_functions.py:91-93 | A `series` marker outside a series opens it with an empty buffer and changes nothing else. |
| BulkFetch.CloseSeries | main_functions.py:94-99 | An `end series` marker submits the buffered series after everything submitted before. |
| BulkFetch.SeriesBlockInOrder | main_functions.py:78-105 | A block `series`, pairs, `end series` opened outside a series submits, at its end, the buffered entries in input order. Each entry after the first names the entry before it as its parent. |
| ResultConsumer.ConsumeQueue | main_functions.py:35-60 | Each delivered result is delivered once, as its arrival's callback: the info, or the message with `error=True`. An info with a parent is delivered only after a result that resolves the parent's URL. The counter equals the number of callbacks. Nothing that arrived after the first sentinel is delivered. Without a sentinel, everything is delivered. When parents arrive first, delivery is exactly the arrivals before the first sentinel, in arrival order. |
| ResultConsumer.FirstSentinel | main_functions.py:54-56 | The position of the first arrival that is neither an info nor an error tuple, with none before it; the number of arrivals exactly when there is none. |
| ResultConsumer.SentinelStays | main_functions.py:42-56 | Taking a result that is not the sentinel off the front, to deliver it or put it back, leaves the first sentinel queued behind only earlier arrivals. |
| ResultConsumer.Requeue | main_functions.py:45-48 | Putting the waiting front item back at the tail keeps the consumer's invariant, with no callback and no count. |
| ResultConsumer.Deliver | main_functions.py:49-60 | Delivering the front item keeps the invariant. Its URL joins `resolved_urls`, and its callback and count are added. |
| ResultConsumer.DeliverResolved | main_functions.py:50-53 | `resolved_urls` stays equal to the URLs of the delivered results. |
| ResultConsumer.DeliverParentFirst | main_functions.py:45-50 | A delivered info's parent was resolved by an earlier delivery. |
| ResultConsumer.SomeItemReady | main_functions.py:41-48 | When every parent is resolved by a lower-ranked arrival, some queued item need not wait, so the requeue loop makes progress. |
| ResultConsumer.FrontReady | main_functions.py:45 | With parents arriving before children and nothing requeued yet, the front item need not wait. |
| Utilities.ParseFilename | utilities.py:7-8 | The last `/`-separated piece of the path `urlparse` reports. The `ValueError` for an unbalanced bracket passes through, exactly when `urlparse` raises it. |
| Utilities.ParseFilenameShape | utilities.py:7-8 | The file name is a suffix of the path, contains no `/`, and is preceded by `/` when shorter than the path. |
| Utilities.ParseFilenameIgnoresUnsafe | utilities.py:8 | A tab, CR or LF anywhere in the link does not change the file name. |
| Utilities.ParseFilenameOfWritten | utilities.py:7-8 | For a link written from well-formed parts, the file name is the last piece of the written path: query, fragment and params never reach it. |
| Utilities.ParseFilenameOfDirectory | utilities.py:8 | A path ending in `/` gives the empty file name. |
| Utilities.ParseFilenameIs | utilities.py:7-8 | Any suffix of the path that is free of `/` and preceded by `/` is the file name. |
| Utilities.ParseExtension | utilities.py:11-12 | The extension starts with `.`, and the rest has no `.` and is the text after the file name's last dot. |
| Utilities.ParseExtensionWithoutDot | utilities.py:12 | A file name without a dot gives `.` plus the whole file name. |
| Utilities.Bold | utilities.py:62-63 | `bold(s)` is the BOLD code, then `s`, then the END code. |
| Utilities.LenSpecial | utilities.py:65-67 | `len_special` is 0 exactly when neither code occurs. |
| Utilities.BoldKeepsVisibleLength | utilities.py:62-67 | Bolding adds exactly the two codes' lengths to `len_special`, so `len(s) - len_special(s)` does not change. |
| Utilities.BoldCountsBold | utilities.py:62-67 | `bold(s)` holds one more BOLD than `s`. |
| Utilities.BoldCountsEnd | utilities.py:62-67 | `bold(s)` holds one more END than `s`. |
| Utilities.CountAppendEsc | utilities.py:67 | Appending text that starts with ESC adds the counts of an ESC code. |
| Persistence.ChooseFilename | main_functions.py:24-27 | A non-empty custom name gives the name followed by `parse_extension(link)`: the name, then `.`, then a dot-free extension. Otherwise the result is `parse_filename(link)`. It fails exactly when `urlparse` rejects the link. |
| Persistence.GetImage | main_functions.py:19-32 | A raised downloader exception becomes `(message, canonical URL)`. A link `urlparse` rejects is an uncaught `ValueError`. A chosen file name already stored, without `redownload`, becomes the "already exists" tuple. Otherwise the info comes back with the chosen name, which is not stored unless `redownload` is set. |
| Persistence.FoundAfterSave | main_functions.py:19-32 | Once the file name `get_image` chose is stored, fetching the same image again reports it as existing, and with `redownload` gives the same info back. |
| Persistence.FreeAttempt | main_functions.py:131-169 | The first attempt within the budget that does not raise `OperationalError`, after only failed ones; `None` when all fail. |
| Persistence.RetryBound | main_functions.py:131-169 | `k` transient errors followed by a success go through on attempt `k` when `k` is below the budget, and are given up otherwise. |
| Persistence.NewTags | main_functions.py:124-126 | The new tags are exactly the listed tags that are not already stored. |
| Persistence.NewTagsComplete | main_functions.py:124-129 | After the insert every listed tag is stored. The inserted tags were not stored before. Nothing is inserted exactly when all tags are stored. |
| Persistence.Store.constructor | database/database.py:15-32 | An empty database with the given groups. |
| Persistence.Store.Filenames | database/database.py:21 | The stored file names. |
| Persistence.Store.ProcessTags | main_functions.py:122-143 | The listed tags not yet stored are inserted, and `insert_many` runs only when there are any. The associations are replaced on the first of 5 attempts without `OperationalError`, and left alone when all 5 fail. File names stay unique. |
| Persistence.Store.Attempt | main_functions.py:153-172 | An attempt without `OperationalError`: a missing group or parent raises with nothing written, each exactly when it is missing. A taken file name is an IntegrityError, exactly when the name is taken, with no row, tags or file. Otherwise the row is appended, its tags processed and its file written, and the new file name joins the stored ones. |
| Persistence.Store.Save | main_functions.py:146-172 | A falsy input does nothing. It gives up, with nothing written, exactly when all three attempts raise `OperationalError`. Otherwise the first free attempt decides: a missing group or parent, or a taken file name, each exactly when it holds, with nothing written; it saves exactly when none holds, appending the row, processing its tags, writing its file and adding its name to the stored ones. File names stay unique. |
| FetchUrls.Query | main_functions.py:178-180 | The query keeps the rows of the given group, or every row. |
| FetchUrls.Pairs | main_functions.py:182 | `(group, original link)` for each row, in order. |
| FetchUrls.Missing | main_functions.py:190 | The pairs of exactly the rows whose file name is not listed. |
| FetchUrls.MissingOfNothing | main_functions.py:187-190 | Against an empty listing, every row is reported. |
| FetchUrls.ListedFilesAsWritten | main_functions.py:187-189 | The loop over the groups as written always ends with the empty set. |
| FetchUrls.ListedFiles | main_functions.py:187-189 | The corrected loop collects exactly the file names listed in some group directory. |
| FetchUrls.Union | main_functions.py:187-189 | A file name is in the union exactly when some group lists it. |
| FetchUrls.FetchImageUrlsAsWritten | main_functions.py:177-190 | Every pair when `all_images` is set. With a group, the rows missing from its directory. Without a group, every row. |
| FetchUrls.FetchImageUrls | main_functions.py:177-190 | As written, except that without a group the result is the rows missing from every group directory. It is always a subset of the query's pairs. |
| FetchUrls.IntersectionReportsPresentFile | main_functions.py:186-190 | An image whose file is on disk is reported missing by the loop as written, and not by the corrected one. |
| Sites.FirstIndex | downloaders.py:126-137 | The first position whose element passes the test, with none before it; `None` exactly when none passes. |
| Sites.FindFirst | html_parsers.py:45-63 | The first element of the page with the property, or `None` exactly when none has it. |
| Sites.FindById | html_parsers.py:46 | The first element with the given id, with none before it; `None` exactly when no element has it. |
| Sites.FindOriginalImageLink | html_parsers.py:48-53 | The first `a` element whose text is `Original image`; `None` (the falsy `''`) exactly when there is none. |
| Sites.LinkFor | html_parsers.py:25 | An `href` not starting with `//` is kept verbatim. A `//` reference fails exactly when `urlparse` rejects the page or the reference. On a page whose scheme `urljoin` resolves against, a reference with an authority gives a link that parses to exactly what the reference parses to under the page's scheme. |
| Sites.PageInfo | html_parsers.py:17-27 | No info exactly when either element is missing. A failure exactly when `alt` or `href` is missing (a `KeyError`, `alt` first) or the link rule fails. Otherwise the tags are `alt.split()` and the link is the link rule's result. |
| Downloaders.Supports | downloaders.py:16-118 | `supports` holds exactly when the class's host occurs in the URL; never for the base class. |
| Downloaders.NewDownloader | downloaders.py:12-66 | The stored URL is the given one without surrounding whitespace, and only that removed. |
| Downloaders.DetermineDownloader | downloaders.py:126-137 | The first class in the order Gelbooru API, Konachan, yande.re whose `supports` accepts the URL. Only the API client gets credentials. The HTML Gelbooru scraper and the base class never come back. A URL no class supports gives the `NotImplementedError` message. |
| Downloaders.FirstMatchWins | downloaders.py:127-133 | A URL naming both gelbooru.com and konachan.com gets the API client. |
| Downloaders.ImageParent | downloaders.py:92-93 | The first element with id `image`, with none before it; `None` exactly when there is none. |
| Downloaders.LinkParent | downloaders.py:95-112 | On Gelbooru, the first `a` whose string is `Original image`; on Konachan and yande.re, the first element with id `highres`. No matching element comes before it, and `None` means there is none. Always an element of the page. |
| Downloaders.HtmlImageInfo | downloaders.py:68-78 | No info exactly when the page has no element with id `image`, or no element the site's link rule looks for. Otherwise the tags are `alt.split()` and the link is the link rule's result. |
| Downloaders.NoImageNoInfo | downloaders.py:71-78 | A page without the `image` element yields no info. |
| HtmlParsers.NewParser | html_parsers.py:13-15 | The stored URL is the given one without surrounding whitespace. |
| HtmlParsers.DetermineParser | html_parsers.py:74-82 | The first of gelbooru.com, konachan.com, yande.re that occurs in the URL picks the parser. Otherwise the `NotImplementedError` message. |
| HtmlParsers.ImageParent | html_parsers.py:45-46 | The first element with id `image`, with none before it; `None` exactly when there is none. |
| HtmlParsers.LinkParent | html_parsers.py:48-63 | On Gelbooru, the first `a` whose string is `Original image`; on Konachan and, inherited, yande.re, the first element with id `highres`. No matching element comes before it, and `None` means there is none. |
| HtmlParsers.GetImageInfo | html_parsers.py:17-27 | No info exactly when the page has no element with id `image`, or no element the site's link rule looks for (on gelbooru.com, no `Original image` anchor). Otherwise the tags are `alt.split()` and the link is the link rule's result. |
| HtmlParsers.YandereReusesKonachan | html_parsers.py:56-67 | The yande.re parser has its own hostname, but extracts the same info as Konachan's from the same page. |
| HtmlParsers.SameDispatchAsDownloaders | html_parsers.py:74-82 | A URL gets a parser exactly when it gets a downloader, for the same site and with the same stored URL. |
| Strings.StripSpec | main_functions.py:88 | `strip()` removes only surrounding whitespace, and what it keeps neither starts nor ends with whitespace. |
| Strings.StripIdempotent | main_functions.py:88 | Stripping twice is stripping once. |
| Strings.Find | downloaders.py:41 | `find` gives the lowest index of an occurrence, or -1 when there is none. |
| Strings.SplitJoin | utilities.py:8 | `split(sep)` pieces contain no separator and join back to the string. |
| Strings.WordsAreWords | html_parsers.py:24 | `split()` gives non-empty words without whitespace. |
| Strings.WordsCover | html_parsers.py:24 | The string is whitespace, then the words of `split()` separated by non-empty whitespace runs, then whitespace: the words are its maximal non-whitespace runs, in order. |
| Strings.LastPieceIs | utilities.py:8 | The last piece of `split(sep)` is the unique suffix without `sep` that is the whole string or preceded by `sep`. |
| Strings.CountZeroIff | utilities.py:67 | `count` is 0 exactly when the pattern does not occur. |
| UrlLib.UrlParse | utilities.py:8 | `urlparse` fails, with `Invalid IPv6 URL`, exactly when the authority has an unbalanced bracket. The authority is the one found after the cleanup; without a scheme the default scheme is reported. |
| UrlLib.CleanIgnoresUnsafe | utilities.py:8 | Removing tab, CR and LF anywhere, or controls and spaces in front, before the cleanup changes nothing. |
| UrlLib.UrlParseIgnoresUnsafe | utilities.py:8 | A tab, CR or LF anywhere, or a control or space in front, does not change what `urlparse` reports. |
| UrlLib.ParseWellFormed | utilities.py:8 | The fields `urlparse` reports for a URL with an authority hold none of the separators that end them and no removed character. |
| UrlLib.ParseUnparse | html_parsers.py:25 | Writing well-formed fields back with `urlunparse` and parsing the result gives the same fields. |
| UrlLib.JoinNetworkPath | html_parsers.py:25 | `urljoin` of a `//` reference: an empty base gives the reference; it fails, with `Invalid IPv6 URL`, exactly when the base or the reference does not parse. |
| UrlLib.JoinParsesBack | downloaders.py:76 | Resolving a reference with an authority against a base `urljoin` resolves against succeeds, and the result parses to the base's scheme with the reference's authority, path, params, query and fragment (as `urljoin` does; unlike section 5.2.2 of RFC 3986, dot segments in the reference's path are kept). |
| UrlLib.SchemeShape | utilities.py:8 | The scheme `urlparse` finds is lower-case scheme characters led by a letter. |

## Left out

- Threads are not modelled: the thread pool, `as_completed`, the consumer thread,
  `task_done`/`join`, and the sentinel push. The partition is sequential. The
  consumer runs over a given arrival order, the completion order of the downloads.
- A download that raises aborts `get_image_bulk`, and the model has no arrival for it.
  This happens with `urlparse`'s `ValueError`, or with `determine_downloader`'s
  `NotImplementedError` for an entry no downloader supports, such as a blank line.
  `future.result()` re-raises the exception, so the function exits before it queues
  the `None` sentinel. The non-daemon consumer thread then waits in `queue.get()` forever.
- ResultConsumer.ConsumeQueue: it requires every parent to be resolved by some
  lower-ranked arrival. Without that, the source's requeue loop never ends, and the
  model does not describe that livelock. The sentinel is modelled as any non-result
  arrival. An empty queue also ends the model's loop, since the source pushes the
  sentinel only after everything else is done.
- The progress bar and its updates are not modelled. `progress_bar` uses floating
  point and printing.
- `term_str.__len__` and `__getattribute__` are not modelled. `__len__` calls `len`
  on itself and never returns. `BoldKeepsVisibleLength` states the visible length
  it evidently means.
- Peewee and SQLite are replaced by the `Store` object, in two ways:
  - Transient `OperationalError`s are an input sequence saying which attempts raise
    one. Such an error is taken to hit an attempt's first database call.
  - Transactions and rollback are not modelled: a failed attempt writes nothing.
- Persistence.Store.ProcessTags: the tags that `tags_query` yields for the
  associations are a parameter, only required to come from the tag list.
- Persistence.Store.ProcessTags: an `OperationalError` from `Tag.insert_many` is not
  modelled, because the source does not catch it either.
- Persistence.Store.Save: the messages it prints are not modelled, only the outcomes
  they report.
- Network access is not modelled, and neither is HTML or JSON parsing:
  - `requests.Session`, BeautifulSoup and `parse_qs` are left out. A page is given
    as a sequence of elements in document order.
  - `GelbooruAPIParser.get_image_info` and `parse_id` are left out, because their
    JSON API path is network I/O.
  - Image bytes (`get_image`, `skip_data`) are left out.
- `ImageInfo`, `ImageDownloaderException` and `canonical_url` are not part of this
  model, because the downloader module does not define them. `ImageInfo` is a record
  of the fields the orchestration reads. `GetImage` takes the result of
  `ImageInfo.from_downloader`, the downloader's text and its canonical URL as inputs.
- The filesystem is not modelled: `save_file` adds a `(group, file name)` pair, and
  directory listings are a function from group to file names. `config.py` is not
  modelled.
- `urlparse` and `urljoin` are modelled only as far as the link helpers use them:
  `urlparse` in full over strings, and `urljoin` for `//` references. Not modelled:
  - Unicode lower-casing of the scheme and IDNA handling;
  - the NFKC check `urlsplit` applies to a non-ASCII authority;
  - the check that a bracketed host is a valid IPv6 address; only unbalanced brackets
    raise `ValueError` here;
  - the parse cache and `bytes` input;
  - cleaning the default scheme, which the callers pass as `""` or as a scheme already
    found.
- UrlLib.JoinNetworkPath: with an empty authority it follows the `urlunsplit` of recent
  Python releases, which writes `//` when the path starts with `//`, or when the scheme
  is in `uses_netloc` and the path is empty or starts with `/`. Older releases write
  `//` for a scheme in `uses_netloc` unless the path starts with `//`.
- `main.py`, `db_cmd.py`, `socketserver.py` and the GUI are not part of this model.
  They are callers and displays around the core.

## Findings

| source | as written | input that shows it | evidently intended | confidence | as-written member | corrected member |
|---|---|---|---|---|---|---|
| main_functions.py:186-189 | Without a group, `files` starts empty and is intersected with each directory listing, so it stays empty. Every stored image is then reported as missing (`FetchUrls.ListedFilesAsWritten`, `FetchUrls.IntersectionReportsPresentFile`). | One group `g` whose directory holds `a.jpg`, and one stored image `a.jpg` in `g`, with `fetch_image_urls(None, False)`: the image is reported. | Collect the union of the listings, and report only images whose file is in none of them. | high (not executed) | FetchUrls.FetchImageUrlsAsWritten | FetchUrls.FetchImageUrls |
