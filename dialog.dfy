/** The plugin's dialog window (`OpdsDialog` and `SelectFormatDialog` in
    main.py): loading the root catalog, descending into sub-catalogs and
    back, offering a book's formats, and copying a book's timestamp onto
    the identical books of the library. */
module Dialog {
  import opened Wrappers
  import opened PyStrings
  import opened Timestamps
  import opened Opds
  import opened BooksModel

  // ---------------------------------------------------------------------
  // The format list of SelectFormatDialog
  // ---------------------------------------------------------------------

  /** The last path segment of a download URL (`url.split('/')[-1]`). */
  function LastSegment(url: string): (r: string)
    ensures '/' !in r
  {
    SplitPiecesAvoidSeparator(url, '/');
    Last(Split(url, "/"))
  }

  /** The format shown for a download URL: the upper-cased extension of
      its last segment, with the query string dropped. When the segment
      has no dot, the whole segment is the format. */
  function FormatName(url: string): (r: string)
    ensures '/' !in r && '?' !in r && '.' !in r
  {
    var segment := LastSegment(url);
    SplitPiecesAvoidSeparator(segment, '?');
    SplitPiecesWithin(segment, '?');
    var path := Split(segment, "?")[0];
    SplitPiecesAvoidSeparator(path, '.');
    SplitPiecesWithin(path, '.');
    var ext := Last(Split(path, "."));
    UpperKeepsNonLetters(ext, '/');
    UpperKeepsNonLetters(ext, '?');
    UpperKeepsNonLetters(ext, '.');
    Upper(ext)
  }

  /** The text of one item of the format list: format, then the segment. */
  function FormatLabel(url: string): string
  {
    FormatName(url) + " (" + LastSegment(url) + ")"
  }

  /** One item of the format list: its label and the URL it downloads. */
  type FormatItem = (string, string)

  function FormatItems(links: seq<string>): (r: seq<FormatItem>)
    ensures |r| == |links|
    ensures forall i :: 0 <= i < |r| ==> r[i] == (FormatLabel(links[i]), links[i])
  {
    seq(|links|, i requires 0 <= i < |links| => (FormatLabel(links[i]), links[i]))
  }

  /** A download URL `dir/name.ext?query` shows as `EXT (name.ext?query)`,
      whatever the directory and the query. */
  lemma FormatOfQueryUrl(dir: string, name: string, ext: string, query: string)
    requires '/' !in name && '/' !in ext && '/' !in query
    requires '?' !in name && '?' !in ext && '.' !in ext
    ensures FormatName(dir + "/" + name + "." + ext + "?" + query) == Upper(ext)
    ensures FormatLabel(dir + "/" + name + "." + ext + "?" + query) == Upper(ext) + " (" + name + "." + ext + "?" + query + ")"
  {
    var file := name + "." + ext;
    assert dir + "/" + name + "." + ext + "?" + query == dir + "/" + (file + "?" + query);
    FileSegment(dir, file + "?" + query);
    PathOfQuery(file, query);
    ExtensionOfFile(name, ext);
  }

  /** The part of `file?query` before the first question mark is `file`. */
  lemma PathOfQuery(file: string, query: string)
    requires '?' !in file
    ensures Split(file + "?" + query, "?")[0] == file
  {
    assert file + "?" + query == file + ['?'] + query;
    SplitAfter(file, '?', query);
  }

  /** A download URL `dir/name.ext` shows as `EXT (name.ext)`. */
  lemma FormatOfFileUrl(dir: string, name: string, ext: string)
    requires '/' !in name && '/' !in ext
    requires '?' !in name && '?' !in ext && '.' !in ext
    ensures FormatName(dir + "/" + name + "." + ext) == Upper(ext)
    ensures FormatLabel(dir + "/" + name + "." + ext) == Upper(ext) + " (" + name + "." + ext + ")"
  {
    var file := name + "." + ext;
    assert dir + "/" + name + "." + ext == dir + "/" + file;
    FileSegment(dir, file);
    SplitWithoutSeparator(file, '?');
    ExtensionOfFile(name, ext);
  }

  /** The last dot-separated piece of `name.ext` is `ext`. */
  lemma ExtensionOfFile(name: string, ext: string)
    requires '.' !in ext
    ensures Last(Split(name + "." + ext, ".")) == ext
  {
    assert name + "." + ext == name + ['.'] + ext;
    SplitLastAfter(name, '.', ext);
    SplitWithoutSeparator(ext, '.');
  }

  /** A last segment without a dot is shown whole, upper-cased. */
  lemma FormatWithoutExtension(dir: string, name: string)
    requires '/' !in name && '?' !in name && '.' !in name
    ensures FormatName(dir + "/" + name) == Upper(name)
  {
    FileSegment(dir, name);
    SplitWithoutSeparator(name, '?');
    SplitWithoutSeparator(name, '.');
  }

  /** The last segment of `dir/file` is `file` when `file` has no slash. */
  lemma FileSegment(dir: string, file: string)
    requires '/' !in file
    ensures LastSegment(dir + "/" + file) == file
  {
    assert dir + "/" + file == dir + ['/'] + file;
    SplitLastAfter(dir, '/', file);
    SplitWithoutSeparator(file, '/');
  }

  /** `downloadBook`: the format dialog opens, listing the row's links,
      exactly when the row has links. */
  function DownloadBook(b: Book): (r: Option<seq<FormatItem>>)
    ensures r.Some? <==> |b.links| > 0
    ensures r.Some? ==> |r.value| == |b.links| && forall i :: 0 <= i < |b.links| ==> r.value[i].1 == b.links[i]
  {
    if |b.links| > 0 then Some(FormatItems(b.links)) else None
  }

  /** Catalog rows never open the format dialog: a sub-catalog entry has
      no download links, and neither has a root-catalog row. A converted
      entry opens it exactly when it has download links. */
  lemma CatalogRowsOfferNoDownload(e: Entry, title: string, url: string)
    ensures Classify(e).Ok? && Classify(e).value.catalogUrl.Some? ==> DownloadBook(Classify(e).value).None?
    ensures Classify(e).Ok? ==> (DownloadBook(Classify(e).value).Some? <==> DownloadHrefs(e.links) != [])
    ensures DownloadBook(VirtualBook(title, url)).None?
  {
    if Classify(e).Ok? {
      ClassificationDecision(e);
    }
  }

  // ---------------------------------------------------------------------
  // Timestamps copied onto the library
  // ---------------------------------------------------------------------

  /** The library's `find_identical_books`, asked with a title and a list
      of authors; it answers with book ids. */
  type Finder = (string, seq<string>) -> set<int>

  /** The ids found by asking with each author alone. */
  function AnyAuthorMatches(find: Finder, title: string, authors: seq<string>): set<int>
  {
    if authors == [] then {}
    else AnyAuthorMatches(find, title, authors[..|authors| - 1]) + find(title, [Last(authors)])
  }

  /** The books of the library identical to `b`: a book with several
      authors matches a library book matching any one of its authors. */
  function IdenticalBooks(find: Finder, b: Book): (r: set<int>)
    ensures |b.authors| >= 2 ==> forall id :: id in r <==> exists i :: 0 <= i < |b.authors| && id in find(b.title, [b.authors[i]])
  {
    if |b.authors| < 2 then find(b.title, b.authors)
    else
      AnyAuthorMatchesAll(find, b.title, b.authors);
      AnyAuthorMatches(find, b.title, b.authors)
  }

  lemma AnyAuthorMatchesAll(find: Finder, title: string, authors: seq<string>)
    ensures forall id :: id in AnyAuthorMatches(find, title, authors) <==>
                         exists i :: 0 <= i < |authors| && id in find(title, [authors[i]])
  {
    forall id ensures id in AnyAuthorMatches(find, title, authors) <==>
                      exists i :: 0 <= i < |authors| && id in find(title, [authors[i]]) {
      AnyAuthorMatchesMeaning(find, title, authors, id);
    }
  }

  /** An id is matched one author at a time exactly when some author
      alone finds it. */
  lemma {:induction false} AnyAuthorMatchesMeaning(find: Finder, title: string, authors: seq<string>, id: int)
    ensures id in AnyAuthorMatches(find, title, authors) <==>
            exists i :: 0 <= i < |authors| && id in find(title, [authors[i]])
    decreases |authors|
  {
    if authors != [] {
      var init := authors[..|authors| - 1];
      AnyAuthorMatchesMeaning(find, title, init, id);
      if id in AnyAuthorMatches(find, title, authors) {
        if id in AnyAuthorMatches(find, title, init) {
          var i :| 0 <= i < |init| && id in find(title, [init[i]]);
          assert authors[i] == init[i];
        } else {
          assert id in find(title, [authors[|authors| - 1]]);
        }
      } else {
        forall i | 0 <= i < |authors|
          ensures id !in find(title, [authors[i]])
        {
          if i < |init| {
            assert authors[i] == init[i];
          }
        }
      }
    }
  }

  /** For a single author the two ways of asking agree, so the threshold
      of two authors changes no answer for one-author books. */
  lemma SingleAuthorAgrees(find: Finder, b: Book)
    requires |b.authors| == 1
    ensures AnyAuthorMatches(find, b.title, b.authors) == IdenticalBooks(find, b)
  {
    assert b.authors[..0] == [];
    assert [Last(b.authors)] == b.authors;
  }

  /** `findIdenticalBooksForBooksWithMultipleAuthors`. */
  method FindIdenticalBooksForBooksWithMultipleAuthors(find: Finder, b: Book) returns (ids: set<int>)
    ensures ids == IdenticalBooks(find, b)
  {
    if |b.authors| < 2 {
      return find(b.title, b.authors);
    }
    ids := {};
    for i := 0 to |b.authors|
      invariant ids == AnyAuthorMatches(find, b.title, b.authors[..i])
    {
      assert b.authors[..i + 1][..i] == b.authors[..i];
      ids := ids + find(b.title, [b.authors[i]]);
    }
    assert b.authors[..|b.authors|] == b.authors;
  }

  /** `fixBookTimestamp`: the map given to the library's `set_field`,
      which gives every identical book the row's timestamp (an empty map
      when none is found). */
  method FixBookTimestamp(find: Finder, b: Book) returns (valMap: map<int, Option<DateTime>>)
    ensures forall id :: id in valMap <==> id in IdenticalBooks(find, b)
    ensures forall id :: id in valMap ==> valMap[id] == b.timestamp
  {
    var ids := FindIdenticalBooksForBooksWithMultipleAuthors(find, b);
    var rest := ids;
    valMap := map[];
    while rest != {}
      invariant rest <= ids
      invariant forall id :: id in valMap <==> id in ids && id !in rest
      invariant forall id :: id in valMap ==> valMap[id] == b.timestamp
      decreases rest
    {
      SomeMember(rest);
      var id :| id in rest;
      valMap := valMap[id := b.timestamp];
      rest := rest - {id};
    }
  }

  /** A non-empty set has a member to pick. */
  lemma SomeMember(s: set<int>)
    requires s != {}
    ensures exists x :: x in s
  {
    if forall x :: x !in s {
      assert false;
    }
  }

  // ---------------------------------------------------------------------
  // Navigation
  // ---------------------------------------------------------------------

  /** What the calibre REST requests returned: the book ids and the
      records by id. */
  datatype RestAnswer = RestAnswer(bookIds: seq<string>, records: map<string, RestRecord>)

  /** A catalog left for a sub-catalog: its rows and its server header. */
  datatype Snapshot = Snapshot(books: seq<Book>, serverHeader: string)

  /** What activating a row did. */
  datatype Activation =
    | NoItem                                             // no current row, or none behind the index
    | OpenedCatalog(outcome: Outcome, restError: Option<Error>)
    | ChooseFormat(items: seq<FormatItem>)               // the format dialog was shown
    | NothingToDownload                                  // a book row without links

  class OpdsDialog {
    const model: OpdsBooksModel
    var catalogHistory: seq<Snapshot>
    var currentOpdsCatalogs: Catalogs

    constructor (model: OpdsBooksModel)
      ensures this.model == model && catalogHistory == [] && currentOpdsCatalogs == []
    {
      this.model := model;
      catalogHistory := [];
      currentOpdsCatalogs := [];
    }

    /** `opdsUrlEditorActivated`: load the root catalog named by the URL
      and show its sub-catalogs; the history is kept. */
    method OpdsUrlEditorActivated(feed: RootFeed)
      modifies this, model
      ensures model.Consistent()
      ensures catalogHistory == old(catalogHistory)
      ensures currentOpdsCatalogs == (if feed.Readable? then RootCatalogs(feed.entries) else [])
      ensures model.books == VirtualBooks(currentOpdsCatalogs)
      ensures model.serverHeader == (if feed.Readable? then HeaderOf(feed.server) else old(model.serverHeader))
      ensures model.filterBooksThatAreNewspapers == old(model.filterBooksThatAreNewspapers)
      ensures model.filterBooksThatAreAlreadyInLibrary == old(model.filterBooksThatAreAlreadyInLibrary)
    {
      var _, catalogs := model.DownloadOpdsRootCatalog(feed);
      currentOpdsCatalogs := catalogs;
      model.LoadSubcatalogs(currentOpdsCatalogs);
    }

    /** What `_openCatalog` of `url` leaves behind, relating the state
      before it to the state after it: the catalog is downloaded; when
      the server is calibre's and the download finished, the rows'
      timestamps are replaced from the REST answer `rest` (`None` when
      the REST requests raised). An exception while downloading ends the
      operation there. The header and the options never change. */
    twostate predicate CatalogOpened(fetch: string -> Page, url: string, fuel: nat, rest: Option<RestAnswer>,
                                     new outcome: Outcome, new restError: Option<Error>)
      reads model
    {
      model.serverHeader == old(model.serverHeader)
      && model.filterBooksThatAreNewspapers == old(model.filterBooksThatAreNewspapers)
      && model.filterBooksThatAreAlreadyInLibrary == old(model.filterBooksThatAreAlreadyInLibrary)
      && (ClassifyAll(fetch(url).entries).Err? ==>
            outcome == Failed(ClassifyAll(fetch(url).entries).error) && restError.None?
            && model.books == old(model.books) && model.filteredBooks == old(model.filteredBooks))
      && (ClassifyAll(fetch(url).entries).Ok? ==>
            var downloaded := Downloaded(fetch, url, ClassifyAll(fetch(url).entries).value, fuel);
            outcome == downloaded.1
            && |model.books| == |downloaded.0|
            && (forall j :: 0 <= j < |model.books| ==> model.books[j] == downloaded.0[j].(timestamp := model.books[j].timestamp))
            && (restError.None? ==> model.Consistent())
            && (outcome != Finished || !model.IsCalibreOpdsServer() || rest.None? ==>
                  model.books == downloaded.0 && restError.None?)
            && (restError.None? && outcome == Finished && model.IsCalibreOpdsServer() && rest.Some? ==>
                  UuidIndex(rest.value.bookIds, rest.value.records).Ok?
                  && forall j :: 0 <= j < |model.books| ==>
                       Restamp(downloaded.0[j], UuidIndex(rest.value.bookIds, rest.value.records).value) == Ok(model.books[j]))
            && (restError.Some? ==>
                  outcome == Finished && model.IsCalibreOpdsServer() && rest.Some?
                  && model.filteredBooks == Filtered(downloaded.0, model.filterBooksThatAreNewspapers,
                                                     model.filterBooksThatAreAlreadyInLibrary, model.hasBook)
                  && (UuidIndex(rest.value.bookIds, rest.value.records).Err? ==>
                        restError.value == UuidIndex(rest.value.bookIds, rest.value.records).error
                        && model.books == downloaded.0)
                  && (UuidIndex(rest.value.bookIds, rest.value.records).Ok? ==>
                        var ix := UuidIndex(rest.value.bookIds, rest.value.records).value;
                        exists k :: 0 <= k < |model.books| && Restamp(downloaded.0[k], ix) == Err(restError.value)
                                    && (forall j :: 0 <= j < k ==> Restamp(downloaded.0[j], ix) == Ok(model.books[j]))
                                    && model.books[k..] == downloaded.0[k..])))
    }

    /** `_openCatalog`. */
    method OpenCatalog(fetch: string -> Page, url: string, fuel: nat, rest: Option<RestAnswer>)
      returns (outcome: Outcome, restError: Option<Error>)
      modifies model
      ensures CatalogOpened(fetch, url, fuel, rest, outcome, restError)
    {
      restError := None;
      outcome := model.DownloadOpdsCatalog(fetch, url, fuel);
      if outcome == Finished && model.IsCalibreOpdsServer() && rest.Some? {
        restError := model.UpdateTimestampInMetadata(rest.value.bookIds, rest.value.records);
      }
    }

    /** The sub-catalog branch of `_activateCurrentItem`: the current rows
      and header are saved for going back, then the catalog is opened. */
    method OpenSubCatalog(fetch: string -> Page, url: string, fuel: nat, rest: Option<RestAnswer>)
      returns (outcome: Outcome, restError: Option<Error>)
      modifies this, model
      ensures catalogHistory == old(catalogHistory) + [Snapshot(old(model.books), old(model.serverHeader))]
      ensures currentOpdsCatalogs == old(currentOpdsCatalogs)
      ensures CatalogOpened(fetch, url, fuel, rest, outcome, restError)
    {
      catalogHistory := catalogHistory + [Snapshot(model.books, model.serverHeader)];
      outcome, restError := OpenCatalog(fetch, url, fuel, rest);
    }

    /** `_activateCurrentItem` on the row `row` of the view (`None` when
      the view has no valid current index). A sub-catalog row saves the
      current rows and header for going back, then opens the catalog;
      any other row goes to the format dialog. A row index past the rows
      counts as no item. */
    method ActivateCurrentItem(row: Option<nat>, fetch: string -> Page, fuel: nat, rest: Option<RestAnswer>)
      returns (action: Activation)
      modifies this, model
      ensures model.filterBooksThatAreNewspapers == old(model.filterBooksThatAreNewspapers)
      ensures model.filterBooksThatAreAlreadyInLibrary == old(model.filterBooksThatAreAlreadyInLibrary)
      ensures currentOpdsCatalogs == old(currentOpdsCatalogs)
      ensures row.None? || row.value >= |old(model.filteredBooks)| ==>
                action == NoItem && catalogHistory == old(catalogHistory)
                && model.books == old(model.books) && model.filteredBooks == old(model.filteredBooks)
                && model.serverHeader == old(model.serverHeader)
      ensures row.Some? && row.value < |old(model.filteredBooks)| ==>
                var meta := old(model.filteredBooks)[row.value];
                (meta.catalogUrl.Some? ==>
                   catalogHistory == old(catalogHistory) + [Snapshot(old(model.books), old(model.serverHeader))]
                   && action.OpenedCatalog?
                   && CatalogOpened(fetch, meta.catalogUrl.value, fuel, rest, action.outcome, action.restError))
                && (meta.catalogUrl.None? ==>
                      catalogHistory == old(catalogHistory)
                      && model.books == old(model.books) && model.filteredBooks == old(model.filteredBooks)
                      && model.serverHeader == old(model.serverHeader)
                      && action == (if DownloadBook(meta).Some? then ChooseFormat(DownloadBook(meta).value) else NothingToDownload))
    {
      if row.None? || row.value >= |model.filteredBooks| {
        return NoItem;
      }
      var meta := model.filteredBooks[row.value];
      if meta.catalogUrl.Some? {
        var outcome, restError := OpenSubCatalog(fetch, meta.catalogUrl.value, fuel, rest);
        action := OpenedCatalog(outcome, restError);
      } else {
        var offer := DownloadBook(meta);
        action := if offer.Some? then ChooseFormat(offer.value) else NothingToDownload;
      }
    }

    /** `_navigateBack`: with an empty history nothing happens; otherwise
      the latest saved catalog comes back, its rows filtered again with
      the current options. */
    method NavigateBack() returns (navigated: bool)
      modifies this, model
      ensures navigated <==> old(catalogHistory) != []
      ensures !navigated ==>
                catalogHistory == old(catalogHistory)
                && model.books == old(model.books) && model.filteredBooks == old(model.filteredBooks)
                && model.serverHeader == old(model.serverHeader)
      ensures navigated ==>
                catalogHistory == old(catalogHistory)[..|old(catalogHistory)| - 1]
                && model.books == Last(old(catalogHistory)).books
                && model.serverHeader == Last(old(catalogHistory)).serverHeader
                && model.Consistent()
      ensures currentOpdsCatalogs == old(currentOpdsCatalogs)
      ensures model.filterBooksThatAreNewspapers == old(model.filterBooksThatAreNewspapers)
      ensures model.filterBooksThatAreAlreadyInLibrary == old(model.filterBooksThatAreAlreadyInLibrary)
    {
      if catalogHistory == [] {
        return false;
      }
      var previous := Last(catalogHistory);
      catalogHistory := catalogHistory[..|catalogHistory| - 1];
      model.books := previous.books;
      model.serverHeader := previous.serverHeader;
      model.FilterBooks();
      navigated := true;
    }

    /** Opening a sub-catalog and going back shows the catalog as it was:
      the same rows, header and filtered rows, and the same history. */
    method OpenThenBack(row: nat, fetch: string -> Page, fuel: nat, rest: Option<RestAnswer>)
      requires model.Consistent()
      requires row < |model.filteredBooks| && model.filteredBooks[row].catalogUrl.Some?
      modifies this, model
      ensures model.Consistent()
      ensures catalogHistory == old(catalogHistory)
      ensures model.books == old(model.books) && model.filteredBooks == old(model.filteredBooks)
      ensures model.serverHeader == old(model.serverHeader)
    {
      var _ := ActivateCurrentItem(Some(row), fetch, fuel, rest);
      var navigated := NavigateBack();
      assert catalogHistory == old(catalogHistory);
    }
  }
}
