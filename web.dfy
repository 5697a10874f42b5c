/** What the repository's web site answers to the extractor's HTML and PDF
    requests. The site is a parameter of the model: a URL missing from a
    map is one whose request raises a transport error. */
module Web {

  /** One `<a href=...>` of a handle page: its `href`, its `type` attribute
      (`""` when it has none) and its text. */
  datatype Anchor = Anchor(href: string, typ: string, text: string)

  /** The answer to a GET of a handle page: its status and, parsed, its anchors. */
  datatype PageReply = Page(status: int, anchors: seq<Anchor>)

  /** The answer to a streamed GET of a PDF: a status, or a connection that
      breaks after the file has been opened. */
  datatype FileReply = Served(status: int) | BrokenStream

  datatype Site = Site(pages: map<string, PageReply>, files: map<string, FileReply>)
}
