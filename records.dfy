/**
 * The values that travel between the stages of a bulk download: the `(group, url)`
 * pairs read from the input, the `ImageInfo` record a downloader produces, and what
 * `get_image` hands to the result queue.
 */
module Records {
  import opened Wrappers

  /** A `(group, url)` pair of the input list; a series element's `parent` is one too. */
  datatype Entry = Entry(group: string, url: string)

  /**
   * `ImageInfo` as far as the orchestration reads it. `link` is the address of the
   * image file, `originalLink` the page it was found on, `downloader` the text the
   * downloader object prints as, and `parent` the series predecessor, if any.
   */
  datatype ImageInfo = ImageInfo(
    link: string,
    originalLink: string,
    parent: Option<Entry>,
    filename: string,
    tags: seq<string>,
    group: string,
    downloader: string)

  /**
   * An element of the result queue: an `ImageInfo`, an error tuple
   * `(message, url)`, or any other value (the `None` pushed once the downloads are done).
   */
  datatype Finished = Info(info: ImageInfo) | Failed(message: string, url: string) | Other

  /** The URL a delivered result marks as resolved; `Other` is never delivered. */
  function ResolvedUrl(f: Finished): string {
    match f
    case Info(info) => info.originalLink
    case Failed(_, url) => url
    case Other => ""
  }
}
