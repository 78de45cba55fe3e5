/**
 * The folder library: the set of PDF files found in one chosen folder.
 *
 * The filesystem is not modelled. What the program asks of it (does the path
 * exist, is it a directory, what is its last path component, what entries
 * does iterating it produce) arrives as a `Folder` record.
 */
module PdfLibrary {
  import opened Common
  import Text

  /** One PDF the library found: its file name and its full path. */
  datatype PdfEntry = PdfEntry(filename: string, fullPath: string)

  /** One entry of a directory listing, in iteration order. */
  datatype DirEntry = DirEntry(isRegularFile: bool, name: string, path: string)

  /** What the filesystem reports about a folder path. */
  datatype Folder = Folder(present: bool, isDirectory: bool, leaf: string, entries: seq<DirEntry>)

  datatype Library = Library(folderPath: string, folderName: string, files: seq<PdfEntry>)

  /** The default-constructed library. */
  function Empty(): (lib: Library)
    ensures !IsLoaded(lib) && FileCount(lib) == 0
  {
    Library("", "", [])
  }

  predicate IsLoaded(lib: Library)
  {
    lib.folderPath != ""
  }

  function FileCount(lib: Library): nat
  {
    |lib.files|
  }

  /** Case-insensitive check that a file name ends in ".pdf". */
  predicate EndsWithPdf(filename: string)
  {
    |filename| >= 4 && Text.Lower(filename[|filename| - 4..]) == ".pdf"
  }

  /**
   * The extension test, stated character by character: exactly the names of
   * four or more characters whose last four are '.', then 'p' or 'P', 'd' or
   * 'D', 'f' or 'F'.
   */
  lemma EndsWithPdfIff(s: string)
    ensures EndsWithPdf(s) <==>
              && |s| >= 4
              && s[|s| - 4] == '.'
              && (s[|s| - 3] == 'p' || s[|s| - 3] == 'P')
              && (s[|s| - 2] == 'd' || s[|s| - 2] == 'D')
              && (s[|s| - 1] == 'f' || s[|s| - 1] == 'F')
  {
    if |s| >= 4 {
      var ext := s[|s| - 4..];
      var low := Text.Lower(ext);
      assert low[0] == Text.LowerAscii(s[|s| - 4]);
      assert low[1] == Text.LowerAscii(s[|s| - 3]);
      assert low[2] == Text.LowerAscii(s[|s| - 2]);
      assert low[3] == Text.LowerAscii(s[|s| - 1]);
      if low == ".pdf" {
        assert low[0] == '.' && low[1] == 'p' && low[2] == 'd' && low[3] == 'f';
      } else {
        assert |low| == 4;
        assert low[0] != '.' || low[1] != 'p' || low[2] != 'd' || low[3] != 'f';
      }
    }
  }

  lemma EndsWithPdfExamples()
    ensures EndsWithPdf("A.PDF")
    ensures EndsWithPdf("setlist.Pdf")
    ensures !EndsWithPdf("x.pdf.txt")
    ensures !EndsWithPdf("pdf")
  {
    EndsWithPdfIff("A.PDF");
    EndsWithPdfIff("setlist.Pdf");
    EndsWithPdfIff("x.pdf.txt");
  }

  predicate Kept(e: DirEntry)
  {
    e.isRegularFile && EndsWithPdf(e.name)
  }

  /** The files a directory scan appends, in iteration order. */
  function Scan(entries: seq<DirEntry>): (files: seq<PdfEntry>)
    ensures |files| <= |entries|
    ensures forall k :: 0 <= k < |files| ==> EndsWithPdf(files[k].filename)
  {
    if |entries| == 0 then []
    else
      var e := entries[0];
      (if Kept(e) then [PdfEntry(e.name, e.path)] else []) + Scan(entries[1..])
  }

  /** Scanning a listing piece by piece gives the concatenation of the pieces' results. */
  lemma {:induction false} ScanAppend(a: seq<DirEntry>, b: seq<DirEntry>)
    ensures Scan(a + b) == Scan(a) + Scan(b)
  {
    if |a| == 0 {
      assert a + b == b;
    } else {
      assert (a + b)[0] == a[0];
      assert (a + b)[1..] == a[1..] + b;
      ScanAppend(a[1..], b);
      var head := if Kept(a[0]) then [PdfEntry(a[0].name, a[0].path)] else [];
      assert Scan(a + b) == head + (Scan(a[1..]) + Scan(b));
      assert Scan(a) == head + Scan(a[1..]);
    }
  }

  /** A file is listed exactly when some regular-file entry with a ".pdf" name produced it. */
  lemma {:induction false} ScanMembership(entries: seq<DirEntry>, f: PdfEntry)
    ensures f in Scan(entries) <==>
              exists k :: 0 <= k < |entries| && Kept(entries[k])
                          && entries[k].name == f.filename && entries[k].path == f.fullPath
  {
    if |entries| > 0 {
      ScanMembership(entries[1..], f);
      forall k | 1 <= k < |entries|
        ensures entries[k] == entries[1..][k - 1]
      {
      }
      if f in Scan(entries[1..]) {
        var j :| 0 <= j < |entries[1..]| && Kept(entries[1..][j])
                 && entries[1..][j].name == f.filename && entries[1..][j].path == f.fullPath;
        assert entries[j + 1] == entries[1..][j];
      }
    }
  }

  function Clear(lib: Library): (r: Library)
    ensures !IsLoaded(r) && r.folderName == "" && FileCount(r) == 0
  {
    Library("", "", [])
  }

  /** Rescans the current folder; a library with no folder is left as it is. */
  function Refresh(lib: Library, listing: seq<DirEntry>): (r: Library)
    ensures !IsLoaded(lib) ==> r == lib
    ensures IsLoaded(lib) ==> r.folderPath == lib.folderPath && r.folderName == lib.folderName
    ensures IsLoaded(lib) ==> r.files == Scan(listing)
  {
    if lib.folderPath == "" then lib else lib.(files := Scan(listing))
  }

  /** Refreshing a folder whose listing has not changed changes nothing. */
  lemma RefreshAfterLoadFolder(lib: Library, folderPath: string, folder: Folder)
    requires LoadFolder(lib, folderPath, folder).ok
    ensures var loaded := LoadFolder(lib, folderPath, folder).state;
            Refresh(loaded, folder.entries) == loaded
  {
  }

  /**
   * Opens a folder. The old contents are discarded before the folder is
   * validated, so a failed load leaves an empty, unloaded library.
   */
  function LoadFolder(lib: Library, folderPath: string, folder: Folder): (r: Reply<Library>)
    ensures r.ok <==> folder.present && folder.isDirectory
    ensures !r.ok ==> r.state == Empty()
    ensures r.ok ==> r.state.folderPath == folderPath
    ensures r.ok && folder.leaf != "" ==> r.state.folderName == folder.leaf
    ensures r.ok && folder.leaf == "" ==> r.state.folderName == folderPath
    ensures r.ok ==> r.state.files == Scan(folder.entries)
  {
    var cleared := Clear(lib);
    if !folder.present || !folder.isDirectory then Reply(cleared, false)
    else
      var name := if folder.leaf == "" then folderPath else folder.leaf;
      Reply(Library(folderPath, name, Scan(folder.entries)), true)
  }
}
