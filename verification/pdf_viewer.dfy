/**
 * The document viewer's page cursor.
 *
 * Rendering, textures and zoom are not modelled. Whether loading a file
 * succeeds, and how many pages the document then reports, are decided by
 * the PDF library and the disk; they arrive as a `LoadOutcome`.
 */
module PdfViewer {
  import opened Common

  /** `loaded` stands for "the document handle is non-null". */
  datatype Viewer = Viewer(loaded: bool, currentPage: int, pageCount: int, filename: string)

  /** What reading and opening a file yields: failure, or a document with some page count. */
  datatype LoadOutcome = LoadFailed | Opened(pages: int)

  predicate IsLoaded(v: Viewer)
  {
    v.loaded
  }

  predicate CanGoNext(v: Viewer)
    ensures CanGoNext(v) && PageInRange(v) ==> PageInRange(v.(currentPage := v.currentPage + 1))
  {
    v.currentPage < v.pageCount - 1
  }

  predicate CanGoPrevious(v: Viewer)
    ensures CanGoPrevious(v) && PageInRange(v) ==> PageInRange(v.(currentPage := v.currentPage - 1))
  {
    v.currentPage > 0
  }

  /** The page cursor points at an existing page. */
  predicate PageInRange(v: Viewer)
  {
    0 <= v.currentPage < v.pageCount
  }

  /** A newly constructed viewer: nothing loaded and nowhere to step. */
  function Fresh(): (v: Viewer)
    ensures !IsLoaded(v) && !CanGoNext(v) && !CanGoPrevious(v)
    ensures v.currentPage == 0 && v.pageCount == 0
  {
    Viewer(false, 0, 0, "")
  }

  /** Closing drops the document and returns the page state to its initial values. */
  function Close(v: Viewer): (r: Viewer)
    ensures !IsLoaded(r) && r.currentPage == 0 && r.pageCount == 0 && r.filename == ""
    ensures !CanGoNext(r) && !CanGoPrevious(r)
  {
    Viewer(false, 0, 0, "")
  }

  predicate IsSeparator(c: char)
  {
    c == '/' || c == '\\'
  }

  /** `find_last_of("/\\")`: the index of the last separator, or -1 for none. */
  function LastSeparator(s: string): (r: int)
    ensures -1 <= r < |s|
    ensures r >= 0 ==> IsSeparator(s[r])
    ensures forall j :: r < j < |s| ==> !IsSeparator(s[j])
  {
    if |s| == 0 then -1
    else if IsSeparator(s[|s| - 1]) then |s| - 1
    else LastSeparator(s[..|s| - 1])
  }

  /**
   * The display name of a loaded file: what follows the last '/' or '\',
   * or the whole path when it has neither.
   */
  function BaseName(path: string): (r: string)
    ensures forall j :: 0 <= j < |r| ==> !IsSeparator(r[j])
    ensures |r| <= |path| && r == path[|path| - |r|..]
    ensures |r| == |path| || IsSeparator(path[|path| - |r| - 1])
  {
    var k := LastSeparator(path);
    if k < 0 then path else path[k + 1..]
  }

  /** The file name is what follows the directory part, whatever the directory is. */
  lemma BaseNameOfJoin(dir: string, sep: char, name: string)
    requires IsSeparator(sep)
    requires forall j :: 0 <= j < |name| ==> !IsSeparator(name[j])
    ensures BaseName(dir + [sep] + name) == name
  {
    var path := dir + [sep] + name;
    var r := BaseName(path);
    assert path[|dir|] == sep;
    forall j | |dir| < j < |path|
      ensures !IsSeparator(path[j])
    {
      assert path[j] == name[j - |dir| - 1];
    }
    assert path[|path| - |name|..] == name;
  }

  /** A path without separators is its own file name. */
  lemma BaseNameOfPlain(name: string)
    requires forall j :: 0 <= j < |name| ==> !IsSeparator(name[j])
    ensures BaseName(name) == name
  {
  }

  lemma BaseNameExamples()
    ensures BaseName("set/a.pdf") == "a.pdf"
    ensures BaseName("C:\\b.PDF") == "b.PDF"
    ensures BaseName("c.pdf") == "c.pdf"
  {
    assert "set/a.pdf" == "set" + ['/'] + "a.pdf";
    BaseNameOfJoin("set", '/', "a.pdf");
    assert "C:\\b.PDF" == "C:" + ['\\'] + "b.PDF";
    BaseNameOfJoin("C:", '\\', "b.PDF");
    BaseNameOfPlain("c.pdf");
  }

  /**
   * Loading first closes whatever was open. On success the viewer shows
   * page 0 of the new document and takes its display name from the path;
   * on failure it stays closed.
   */
  function Load(v: Viewer, path: string, outcome: LoadOutcome): (r: Reply<Viewer>)
    ensures r.ok <==> outcome.Opened?
    ensures !r.ok ==> r.state == Close(v)
    ensures r.ok ==> IsLoaded(r.state) && r.state.currentPage == 0
                     && r.state.pageCount == outcome.pages
                     && r.state.filename == BaseName(path)
  {
    var closed := Close(v);
    match outcome
    case LoadFailed => Reply(closed, false)
    case Opened(pages) => Reply(Viewer(true, 0, pages, BaseName(path)), true)
  }

  /** Steps one page forward when there is a next page; otherwise nothing changes. */
  function NextPage(v: Viewer): (r: Viewer)
    ensures CanGoNext(v) ==> r.currentPage == v.currentPage + 1
    ensures !CanGoNext(v) ==> r == v
    ensures r.loaded == v.loaded && r.pageCount == v.pageCount && r.filename == v.filename
  {
    if CanGoNext(v) then v.(currentPage := v.currentPage + 1) else v
  }

  /** Steps one page back when not on the first page; otherwise nothing changes. */
  function PreviousPage(v: Viewer): (r: Viewer)
    ensures v.currentPage > 0 ==> r.currentPage == v.currentPage - 1
    ensures v.currentPage <= 0 ==> r == v
    ensures r.loaded == v.loaded && r.pageCount == v.pageCount && r.filename == v.filename
  {
    if CanGoPrevious(v) then v.(currentPage := v.currentPage - 1) else v
  }

  /** Jumps to an existing page; a page number outside the document is ignored. */
  function GoToPage(v: Viewer, page: int): (r: Viewer)
    ensures 0 <= page < v.pageCount ==> r.currentPage == page
    ensures !(0 <= page < v.pageCount) ==> r == v
    ensures r.loaded == v.loaded && r.pageCount == v.pageCount && r.filename == v.filename
  {
    if 0 <= page < v.pageCount && page != v.currentPage then v.(currentPage := page) else v
  }

  /** Every page movement keeps a cursor that was on an existing page on an existing page. */
  lemma PageMovesKeepRange(v: Viewer, page: int)
    requires PageInRange(v)
    ensures PageInRange(NextPage(v))
    ensures PageInRange(PreviousPage(v))
    ensures PageInRange(GoToPage(v, page))
  {
  }

  /** Stepping forward and then back returns to the same state, and the other way round. */
  lemma NextPreviousInverse(v: Viewer)
    requires PageInRange(v)
    ensures CanGoNext(v) ==> PreviousPage(NextPage(v)) == v
    ensures CanGoPrevious(v) ==> NextPage(PreviousPage(v)) == v
  {
  }
}
