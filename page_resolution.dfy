/** Which journal page a hovered note previews, and under what title
    (the content-resolution half of `_prepareContext`). */
module PageResolution {
  import opened Wrappers
  import opened SeqSearch

  /** A journal page: its id, its own name (possibly empty) and its raw text
      content, absent when the page carries no text. */
  datatype Page = Page(id: string, name: string, text: Option<string>)

  /** A journal entry: a named document with its pages in their defined order. */
  datatype Entry = Entry(name: string, pages: seq<Page>)

  /** What the preview shows: a title, and the raw page text that the host's
      rich-text enricher turns into the body. */
  datatype Preview = Preview(title: string, bodySource: string)

  /** A page id counts as set only when present and non-empty (a JavaScript
      truthiness test on a string). */
  predicate IdIsSet(pageId: Option<string>)
  {
    pageId.Some? && pageId.value != ""
  }

  function HasId(id: string): Page -> bool
  {
    (p: Page) => p.id == id
  }

  predicate UniqueIds(pages: seq<Page>)
  {
    forall i, j :: 0 <= i < j < |pages| ==> pages[i].id != pages[j].id
  }

  /** Looks a page up by id in the entry's page collection. */
  function PageById(pages: seq<Page>, id: string): (r: Option<Page>)
    ensures r.Some? ==> r.value in pages && r.value.id == id
    ensures r.None? <==> forall k :: 0 <= k < |pages| ==> pages[k].id != id
  {
    match IndexOfFirst(pages, HasId(id))
    case None => None
    case Some(k) => Some(pages[k])
  }

  /** The page to preview: the one whose id the note names, if the note names
      one and the entry has it; otherwise the entry's first page; otherwise none. */
  function ResolvePage(entry: Entry, pageId: Option<string>): (r: Option<Page>)
    ensures r.None? <==> |entry.pages| == 0
    ensures r.Some? ==> r.value in entry.pages
    ensures IdIsSet(pageId) && (exists k :: 0 <= k < |entry.pages| && entry.pages[k].id == pageId.value)
            ==> r.Some? && r.value.id == pageId.value
    ensures (!IdIsSet(pageId) || forall k :: 0 <= k < |entry.pages| ==> entry.pages[k].id != pageId.value)
            ==> r == if |entry.pages| == 0 then None else Some(entry.pages[0])
  {
    var byId := if IdIsSet(pageId) then PageById(entry.pages, pageId.value) else None;
    if byId.Some? then byId
    else if |entry.pages| > 0 then Some(entry.pages[0])
    else None
  }

  /** The page's own name, or the entry's name when the page is unnamed. */
  function Title(page: Page, entry: Entry): string
  {
    if page.name != "" then page.name else entry.name
  }

  /** The title and body source of the preview for a note whose entry is
      `entry` (absent when the note has no entry) and whose page id is `pageId`;
      None means the preview shows nothing. */
  function PrepareContext(entry: Option<Entry>, pageId: Option<string>): (r: Option<Preview>)
    ensures r.None? <==> entry.None? || |entry.value.pages| == 0
    ensures r.Some? ==> ResolvePage(entry.value, pageId).Some?
    ensures r.Some? ==> var page := ResolvePage(entry.value, pageId).value;
                        r.value.bodySource == page.text.GetOr("") &&
                        (page.name != "" ==> r.value.title == page.name) &&
                        (page.name == "" ==> r.value.title == entry.value.name)
  {
    if entry.None? then None
    else
      match ResolvePage(entry.value, pageId)
      case None => None
      case Some(page) => Some(Preview(Title(page, entry.value), page.text.GetOr("")))
  }

  /** With page ids unique in the entry, naming the id of the k-th page
      previews exactly that page. */
  lemma NamedPageIsSelected(entry: Entry, k: nat)
    requires UniqueIds(entry.pages)
    requires k < |entry.pages| && entry.pages[k].id != ""
    ensures ResolvePage(entry, Some(entry.pages[k].id)) == Some(entry.pages[k])
  {
  }
}
