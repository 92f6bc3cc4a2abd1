/** The table model behind the catalog view (`OpdsBooksModel` of model.py):
    the rows of the current catalog, the rows the two hide options let
    through, and the loading of the root catalog, of a paged catalog and of
    the timestamps calibre's REST interface reports. */
module BooksModel {
  import opened Wrappers
  import opened PyStrings
  import opened Timestamps
  import opened Opds

  // ---------------------------------------------------------------------
  // Filtering

  /** `isFilteredNews`: hiding newspapers hides rows tagged `News`. */
  predicate IsFilteredNews(hideNews: bool, b: Book)
  {
    hideNews && "News" in b.tags
  }

  /** `isFilteredAlreadyInLibrary`; `hasBook` is the library's `has_book`,
      asked about every row, sub-catalog rows included. */
  predicate IsFilteredAlreadyInLibrary(hideOwned: bool, hasBook: Book -> bool, b: Book)
  {
    hideOwned && hasBook(b)
  }

  predicate Shown(hideNews: bool, hideOwned: bool, hasBook: Book -> bool, b: Book)
  {
    !IsFilteredNews(hideNews, b) && !IsFilteredAlreadyInLibrary(hideOwned, hasBook, b)
  }

  /** The rows `filterBooks` keeps, in their order. */
  function Filtered(books: seq<Book>, hideNews: bool, hideOwned: bool, hasBook: Book -> bool): (r: seq<Book>)
    ensures |r| <= |books|
  {
    if books == [] then []
    else
      Filtered(books[..|books| - 1], hideNews, hideOwned, hasBook)
      + (if Shown(hideNews, hideOwned, hasBook, Last(books)) then [Last(books)] else [])
  }

  /** The positions of the rows `filterBooks` keeps: increasing, and
      exactly the positions of the rows neither option hides. */
  function KeptRows(books: seq<Book>, hideNews: bool, hideOwned: bool, hasBook: Book -> bool): (r: seq<nat>)
    ensures forall k :: 0 <= k < |r| ==> r[k] < |books|
    ensures forall k, l :: 0 <= k < l < |r| ==> r[k] < r[l]
    ensures forall i :: 0 <= i < |books| ==> (i in r <==> Shown(hideNews, hideOwned, hasBook, books[i]))
  {
    if books == [] then []
    else
      var init := books[..|books| - 1];
      assert forall i :: 0 <= i < |init| ==> init[i] == books[i];
      KeptRows(init, hideNews, hideOwned, hasBook)
      + (if Shown(hideNews, hideOwned, hasBook, Last(books)) then [|books| - 1] else [])
  }

  /** The filtered rows are the rows at the kept positions: an
      order-preserving selection of `books` that drops exactly the rows
      one of the options hides. */
  lemma {:induction false} FilteredAtKeptRows(books: seq<Book>, hideNews: bool, hideOwned: bool, hasBook: Book -> bool)
    ensures |Filtered(books, hideNews, hideOwned, hasBook)| == |KeptRows(books, hideNews, hideOwned, hasBook)|
    ensures forall k :: 0 <= k < |KeptRows(books, hideNews, hideOwned, hasBook)| ==>
              Filtered(books, hideNews, hideOwned, hasBook)[k] == books[KeptRows(books, hideNews, hideOwned, hasBook)[k]]
    decreases |books|
  {
    if books != [] {
      var init := books[..|books| - 1];
      FilteredAtKeptRows(init, hideNews, hideOwned, hasBook);
      var f, rows := Filtered(init, hideNews, hideOwned, hasBook), KeptRows(init, hideNews, hideOwned, hasBook);
      var tail := if Shown(hideNews, hideOwned, hasBook, Last(books)) then [Last(books)] else [];
      var tailRows := if Shown(hideNews, hideOwned, hasBook, Last(books)) then [|books| - 1] else [];
      assert Filtered(books, hideNews, hideOwned, hasBook) == f + tail;
      assert KeptRows(books, hideNews, hideOwned, hasBook) == rows + tailRows;
      forall k | 0 <= k < |rows + tailRows|
        ensures (f + tail)[k] == books[(rows + tailRows)[k]]
      {
        if k < |rows| {
          assert init[rows[k]] == books[rows[k]];
        }
      }
    }
  }

  /** A row is shown exactly when it is one of the rows and neither option
      hides it. */
  lemma {:induction false} FilteredMembership(books: seq<Book>, hideNews: bool, hideOwned: bool, hasBook: Book -> bool, b: Book)
    ensures b in Filtered(books, hideNews, hideOwned, hasBook) <==> b in books && Shown(hideNews, hideOwned, hasBook, b)
    decreases |books|
  {
    if books != [] {
      var init := books[..|books| - 1];
      FilteredMembership(init, hideNews, hideOwned, hasBook, b);
      assert books == init + [Last(books)];
    }
  }

  /** Filtering a concatenation filters each part: rows of a later page
      never change the view of earlier ones. */
  lemma {:induction false} FilteredAppend(a: seq<Book>, b: seq<Book>, hideNews: bool, hideOwned: bool, hasBook: Book -> bool)
    ensures Filtered(a + b, hideNews, hideOwned, hasBook) == Filtered(a, hideNews, hideOwned, hasBook) + Filtered(b, hideNews, hideOwned, hasBook)
    decreases |b|
  {
    if b == [] {
      assert a + b == a;
    } else {
      var binit := b[..|b| - 1];
      FilteredAppend(a, binit, hideNews, hideOwned, hasBook);
      assert (a + b)[..|a + b| - 1] == a + binit;
      assert Last(a + b) == Last(b);
    }
  }

  /** With both options off every row is shown. */
  lemma {:induction false} FilteredWithoutOptions(books: seq<Book>, hasBook: Book -> bool)
    ensures Filtered(books, false, false, hasBook) == books
    decreases |books|
  {
    if books != [] {
      FilteredWithoutOptions(books[..|books| - 1], hasBook);
      assert books == books[..|books| - 1] + [Last(books)];
    }
  }

  /** Filtering the view again changes nothing. */
  lemma {:induction false} FilteredIdempotent(books: seq<Book>, hideNews: bool, hideOwned: bool, hasBook: Book -> bool)
    ensures Filtered(Filtered(books, hideNews, hideOwned, hasBook), hideNews, hideOwned, hasBook) == Filtered(books, hideNews, hideOwned, hasBook)
    decreases |books|
  {
    if books != [] {
      var init, b := books[..|books| - 1], Last(books);
      var head := Filtered(init, hideNews, hideOwned, hasBook);
      var tail := if Shown(hideNews, hideOwned, hasBook, b) then [b] else [];
      FilteredIdempotent(init, hideNews, hideOwned, hasBook);
      FilteredAppend(head, tail, hideNews, hideOwned, hasBook);
      if Shown(hideNews, hideOwned, hasBook, b) {
        assert Filtered(tail, hideNews, hideOwned, hasBook) == Filtered([], hideNews, hideOwned, hasBook) + [b] by {
          assert tail[..0] == [];
        }
      }
    }
  }

  // ---------------------------------------------------------------------
  // The root catalog

  /** A book whose summary is the line `TAGS: Fiction, News` is hidden by
      the newspaper option, whatever the other option says, and shown
      when both options are off. */
  lemma NewsTaggedBookHidden(books: seq<Book>, b: Book, summary: string, hideOwned: bool, hasBook: Book -> bool)
    requires summary == "TAGS: Fiction, News" && b.tags == TagsOf(Some(summary))
    ensures b !in Filtered(books, true, hideOwned, hasBook)
    ensures b in books ==> b in Filtered(books, false, false, hasBook)
  {
    TagsExample(summary);
    assert "News" in b.tags by { assert b.tags[1] == "News"; }
    FilteredMembership(books, true, hideOwned, hasBook, b);
    FilteredMembership(books, false, false, hasBook, b);
  }

  /** What the feed parser delivers for the root catalog URL: either a
      failure (`bozo_exception`) or the `Server` response header, if any,
      and the entries. */
  datatype RootFeed = Unreadable | Readable(server: Option<string>, entries: seq<Entry>)

  /** A Python `dict` from catalog titles to URLs, as its items in
      insertion order. */
  type Catalogs = seq<(string, string)>

  function Keys(d: Catalogs): (r: seq<string>)
    ensures |r| == |d| && forall i :: 0 <= i < |d| ==> r[i] == d[i].0
  {
    seq(|d|, i requires 0 <= i < |d| => d[i].0)
  }

  predicate UniqueKeys(d: Catalogs)
  {
    forall i, j :: 0 <= i < j < |d| ==> d[i].0 != d[j].0
  }

  /** `d.get(k)`. */
  function Lookup(d: Catalogs, k: string): (r: Option<string>)
    ensures r.None? <==> forall i :: 0 <= i < |d| ==> d[i].0 != k
    ensures r.Some? ==> exists i :: 0 <= i < |d| && d[i] == (k, r.value)
  {
    if d == [] then None
    else if d[0].0 == k then Some(d[0].1)
    else
      assert forall i :: 1 <= i < |d| ==> d[1..][i - 1] == d[i];
      Lookup(d[1..], k)
  }

  /** `d[k] = v`: a new key goes to the end, an existing one keeps its
      place and takes the new value. */
  function Put(d: Catalogs, k: string, v: string): (r: Catalogs)
    ensures |r| == |d| || |r| == |d| + 1
  {
    if d == [] then [(k, v)]
    else if d[0].0 == k then [(k, v)] + d[1..]
    else [d[0]] + Put(d[1..], k, v)
  }

  /** After `d[k] = v`, `k` maps to `v` and every other key as before. */
  lemma {:induction false} PutLookup(d: Catalogs, k: string, v: string, k': string)
    ensures Lookup(Put(d, k, v), k') == if k' == k then Some(v) else Lookup(d, k')
    decreases |d|
  {
    if d != [] && d[0].0 != k {
      PutLookup(d[1..], k, v, k');
      assert Put(d, k, v)[1..] == Put(d[1..], k, v);
    }
  }

  /** Overwriting keeps the order of the keys; a new key is appended. */
  lemma {:induction false} PutKeys(d: Catalogs, k: string, v: string)
    ensures k in Keys(d) ==> Keys(Put(d, k, v)) == Keys(d)
    ensures k !in Keys(d) ==> Put(d, k, v) == d + [(k, v)]
    decreases |d|
  {
    if d != [] && d[0].0 != k {
      PutKeys(d[1..], k, v);
      assert Keys(d) == [d[0].0] + Keys(d[1..]);
      assert Keys(Put(d, k, v)) == [d[0].0] + Keys(Put(d[1..], k, v));
      assert d == [d[0]] + d[1..];
    }
  }

  /** The keys stay distinct. */
  lemma PutUniqueKeys(d: Catalogs, k: string, v: string)
    requires UniqueKeys(d)
    ensures UniqueKeys(Put(d, k, v))
  {
    PutKeys(d, k, v);
    var r := Put(d, k, v);
    if k in Keys(d) {
      assert Keys(r) == Keys(d);
      forall i, j | 0 <= i < j < |r| ensures r[i].0 != r[j].0 {
        assert Keys(r)[i] == r[i].0 && Keys(r)[j] == r[j].0;
      }
    } else {
      forall i, j | 0 <= i < j < |r| ensures r[i].0 != r[j].0 {
        if j == |d| {
          assert Keys(d)[i] == d[i].0;
        }
      }
    }
  }

  /** `entry.get('title', 'No title')`. */
  function TitleOrDefault(e: Entry): string
  {
    if e.title.Some? then e.title.value else "No title"
  }

  /** An entry the root loop records under title `t`: it has a title (or the
      default) equal to `t` and at least one link. */
  predicate Catalogued(e: Entry, t: string)
  {
    |e.links| > 0 && TitleOrDefault(e) == t
  }

  /** The title of the first entry, if there is one. */
  function FirstTitle(es: seq<Entry>): Option<string>
  {
    if es == [] then None else Some(TitleOrDefault(es[0]))
  }

  /** The dictionary the root loop builds: every entry with a link maps its
      title to the href of its first link. */
  function RootCatalogs(es: seq<Entry>): (r: Catalogs)
    ensures UniqueKeys(r)
  {
    if es == [] then []
    else
      var d := RootCatalogs(es[..|es| - 1]);
      var e := Last(es);
      if |e.links| > 0 then
        PutUniqueKeys(d, TitleOrDefault(e), e.links[0].href);
        Put(d, TitleOrDefault(e), e.links[0].href)
      else d
  }

  /** The `Server` header, or `"none"` without one: a missing header never
      reads as a calibre server. */
  function HeaderOf(server: Option<string>): (r: string)
    ensures StartsWith(r, "calibre") <==> server.Some? && StartsWith(server.value, "calibre")
  {
    if server.Some? then server.value else "none"
  }

  /** The position of the last entry with links titled `t`. */
  function LastCatalogued(es: seq<Entry>, t: string): (r: Option<nat>)
    ensures r.Some? ==> r.value < |es| && Catalogued(es[r.value], t)
    ensures r.Some? ==> forall j :: r.value < j < |es| ==> !Catalogued(es[j], t)
    ensures r.None? ==> forall j :: 0 <= j < |es| ==> !Catalogued(es[j], t)
  {
    if es == [] then None
    else if Catalogued(Last(es), t) then Some(|es| - 1)
    else
      var init := es[..|es| - 1];
      assert forall j :: 0 <= j < |init| ==> init[j] == es[j];
      LastCatalogued(init, t)
  }

  /** A title is mapped exactly when some entry with links carries it, and
      then to the first link of the LAST entry carrying it. */
  lemma {:induction false} RootCatalogsLastWins(es: seq<Entry>, t: string)
    ensures Lookup(RootCatalogs(es), t) ==
            match LastCatalogued(es, t)
            case None => None
            case Some(i) => Some(es[i].links[0].href)
    decreases |es|
  {
    if es != [] {
      var init := es[..|es| - 1];
      RootCatalogsLastWins(init, t);
      RootCatalogsStep(es, t);
      if !Catalogued(Last(es), t) && LastCatalogued(init, t).Some? {
        assert es[LastCatalogued(init, t).value] == init[LastCatalogued(init, t).value];
      }
    }
  }

  /** The last entry decides a title it carries; other titles keep the
      lookup of the entries before it. */
  lemma RootCatalogsStep(es: seq<Entry>, t: string)
    requires es != []
    ensures Lookup(RootCatalogs(es), t) ==
            if Catalogued(Last(es), t) then Some(Last(es).links[0].href) else Lookup(RootCatalogs(es[..|es| - 1]), t)
  {
    var e := Last(es);
    if |e.links| > 0 {
      PutLookup(RootCatalogs(es[..|es| - 1]), TitleOrDefault(e), e.links[0].href, t);
    }
  }

  /** A root feed in which two entries share a title: the later href wins,
      the title keeps the place of the earlier entry. */
  lemma DuplicateTitleExample(a: Link, b: Link, c: Link)
    ensures RootCatalogs([Entry(Some("X"), None, None, None, None, [a]),
                          Entry(Some("Y"), None, None, None, None, [b]),
                          Entry(Some("X"), None, None, None, None, [c])])
            == [("X", c.href), ("Y", b.href)]
  {
    var e1, e2, e3 := Entry(Some("X"), None, None, None, None, [a]),
                      Entry(Some("Y"), None, None, None, None, [b]),
                      Entry(Some("X"), None, None, None, None, [c]);
    assert [e1, e2, e3][..2] == [e1, e2] && [e1, e2][..1] == [e1] && [e1][..0] == [];
    assert RootCatalogs([e1]) == [("X", a.href)];
    assert "X" != "Y" by { assert "X"[0] != "Y"[0]; }
    var d1: Catalogs := [("X", a.href)];
    assert Put(d1, "Y", b.href) == [d1[0]] + Put([], "Y", b.href);
    assert RootCatalogs([e1, e2]) == [("X", a.href), ("Y", b.href)];
    var d2: Catalogs := [("X", a.href), ("Y", b.href)];
    assert Put(d2, "X", c.href) == [("X", c.href)] + d2[1..];
  }

  // ---------------------------------------------------------------------
  // Sub-catalog rows

  /** The row `loadSubcatalogs` makes for one root-catalog item: no authors,
      tags, links or timestamp, and the item's URL as catalog URL. */
  function VirtualBook(title: string, url: string): Book
  {
    Book(title, [], "", None, [], [], Some(url))
  }

  function VirtualBooks(d: Catalogs): (r: seq<Book>)
    ensures |r| == |d|
    ensures forall i :: 0 <= i < |d| ==> r[i] == VirtualBook(d[i].0, d[i].1)
  {
    seq(|d|, i requires 0 <= i < |d| => VirtualBook(d[i].0, d[i].1))
  }

  /** Hiding newspapers never hides a sub-catalog row: only the library
      option, through `has_book`, can hide one. */
  lemma {:induction false} VirtualRowsIgnoreNewsOption(d: Catalogs, hideNews: bool, hideOwned: bool, hasBook: Book -> bool)
    ensures Filtered(VirtualBooks(d), hideNews, hideOwned, hasBook) == Filtered(VirtualBooks(d), false, hideOwned, hasBook)
    ensures hideOwned && (forall i :: 0 <= i < |d| ==> hasBook(VirtualBook(d[i].0, d[i].1))) ==>
              Filtered(VirtualBooks(d), hideNews, hideOwned, hasBook) == []
    decreases |d|
  {
    if d != [] {
      var init := d[..|d| - 1];
      VirtualRowsIgnoreNewsOption(init, hideNews, hideOwned, hasBook);
      assert VirtualBooks(d)[..|d| - 1] == VirtualBooks(init);
    }
  }

  // ---------------------------------------------------------------------
  // Paged catalogs

  /** How the download of a paged catalog ended: the chain of `next` links
      ran out, the modelling bound on the number of pages was reached, or
      converting a page or reading its `next` link raised an exception. */
  datatype Outcome = Finished | FuelExhausted | Failed(error: Error)

  /** What one page contributes: its converted entries (or the exception
      converting them raises) and its `next` link (or the exception reading
      the feed's links raises). */
  type PageReader = string -> (Result<seq<Book>, Error>, Result<Option<string>, Error>)

  /** The reader behind `downloadOpdsCatalog`; `fetch` is the feed parser. */
  function ReaderOf(fetch: string -> Page): PageReader
  {
    u => (ClassifyAll(fetch(u).entries), NextUrlOf(fetch(u)))
  }

  /** The rows after following the `next` chain from `next` with `acc`
      already loaded, and how it ended; at most `fuel` further pages are
      read. A page whose `next` link cannot be read is still appended. */
  function Follow(read: PageReader, next: Option<string>, acc: seq<Book>, fuel: nat): (r: (seq<Book>, Outcome))
    ensures acc <= r.0
    decreases fuel
  {
    if next.None? then (acc, Finished)
    else if fuel == 0 then (acc, FuelExhausted)
    else
      match read(next.value).0
      case Err(e) => (acc, Failed(e))
      case Ok(bs) =>
        match read(next.value).1
        case Err(e) => (acc + bs, Failed(e))
        case Ok(n) => Follow(read, n, acc + bs, fuel - 1)
  }

  /** Following the chain only appends: what is loaded already stays in
      front, and the rest does not depend on it. */
  lemma {:induction false} FollowAppends(read: PageReader, next: Option<string>, acc: seq<Book>, fuel: nat)
    ensures Follow(read, next, acc, fuel).0 == acc + Follow(read, next, [], fuel).0
    ensures Follow(read, next, acc, fuel).1 == Follow(read, next, [], fuel).1
    decreases fuel
  {
    if next.Some? && fuel > 0 && read(next.value).0.Ok? {
      var bs := read(next.value).0.value;
      assert [] + bs == bs;
      if read(next.value).1.Ok? {
        FollowAppends(read, read(next.value).1.value, acc + bs, fuel - 1);
        FollowAppends(read, read(next.value).1.value, bs, fuel - 1);
      }
    }
  }

  /** A catalog of three pages chained by `next` links yields the rows of
      all three in page order. */
  lemma ThreePageChain(read: PageReader, u2: string, u3: string, b1: seq<Book>, fuel: nat)
    requires fuel >= 2
    requires read(u2).1 == Ok(Some(u3)) && read(u3).1 == Ok(None)
    requires read(u2).0.Ok? && read(u3).0.Ok?
    ensures Follow(read, Some(u2), b1, fuel) == (b1 + read(u2).0.value + read(u3).0.value, Finished)
  {
    var b2, b3 := read(u2).0.value, read(u3).0.value;
    assert Follow(read, None, b1 + b2 + b3, fuel - 2) == (b1 + b2 + b3, Finished);
    assert Follow(read, Some(u3), b1 + b2, fuel - 1) == (b1 + b2 + b3, Finished);
  }

  /** A page whose `next` link points to itself is read again and again:
      the source never stops, the model stops when the bound is reached. */
  lemma {:induction false} SelfLinkedPage(read: PageReader, u: string, acc: seq<Book>, fuel: nat)
    requires read(u).1 == Ok(Some(u)) && read(u).0.Ok?
    ensures Follow(read, Some(u), acc, fuel).1 == FuelExhausted
    ensures |Follow(read, Some(u), acc, fuel).0| == |acc| + fuel * |read(u).0.value|
    decreases fuel
  {
    if fuel > 0 {
      var bs := read(u).0.value;
      SelfLinkedPage(read, u, acc + bs, fuel - 1);
      assert |acc + bs| + (fuel - 1) * |bs| == |acc| + fuel * |bs|;
    }
  }

  /** The rows and the outcome of `downloadOpdsCatalog` once the first page
      of `url` has converted to `first`: reading that page's `next` link
      may raise, and otherwise the `next` chain is followed. */
  function Downloaded(fetch: string -> Page, url: string, first: seq<Book>, fuel: nat): (seq<Book>, Outcome)
  {
    match NextUrlOf(fetch(url))
    case Err(e) => (first, Failed(e))
    case Ok(next) => Follow(ReaderOf(fetch), next, first, fuel)
  }

  /** The first page's rows stay in front whatever the later pages do. */
  lemma DownloadedKeepsFirstPage(fetch: string -> Page, url: string, first: seq<Book>, fuel: nat)
    ensures Downloaded(fetch, url, first, fuel).0 == first + Downloaded(fetch, url, [], fuel).0
    ensures Downloaded(fetch, url, first, fuel).1 == Downloaded(fetch, url, [], fuel).1
  {
    if NextUrlOf(fetch(url)).Ok? {
      FollowAppends(ReaderOf(fetch), NextUrlOf(fetch(url)).value, first, fuel);
    } else {
      assert first + [] == first;
    }
  }

  /** A catalog URL the parser cannot read yields a feed with no entries and
      no links: the rows are emptied, then reading the links raises. */
  lemma UnreadableCatalog(fetch: string -> Page, url: string, fuel: nat)
    requires fetch(url) == Page([], None)
    ensures ClassifyAll(fetch(url).entries) == Ok([])
    ensures Downloaded(fetch, url, [], fuel) == ([], Failed(MissingFeedLinks))
  {
  }

  // ---------------------------------------------------------------------
  // Timestamps from calibre's REST interface

  /** One record of the `/ajax/books` answer; `None` marks a missing key. */
  datatype RestRecord = RestRecord(uuid: Option<string>, timestamp: Option<string>)

  /** `bookMetadataById`: the records of `bookIds` keyed by their uuid, a
      later record overwriting an earlier one with the same uuid; a missing
      id or uuid raises `KeyError`. */
  function UuidIndex(bookIds: seq<string>, records: map<string, RestRecord>): (r: Result<map<string, RestRecord>, Error>)
    ensures r.Ok? <==> forall i :: 0 <= i < |bookIds| ==> bookIds[i] in records && records[bookIds[i]].uuid.Some?
    ensures r.Ok? ==> forall u :: u in r.value ==>
              exists i :: 0 <= i < |bookIds| && bookIds[i] in records && records[bookIds[i]].uuid == Some(u)
                          && r.value[u] == records[bookIds[i]]
    ensures r.Ok? ==> forall i :: 0 <= i < |bookIds| && bookIds[i] in records && records[bookIds[i]].uuid.Some?
                                  ==> records[bookIds[i]].uuid.value in r.value

  {
    if bookIds == [] then Ok(map[])
    else
      var init, id := bookIds[..|bookIds| - 1], Last(bookIds);
      assert forall i :: 0 <= i < |init| ==> init[i] == bookIds[i];
      match UuidIndex(init, records)
      case Err(e) => Err(e)
      case Ok(ix) =>
        if id !in records then Err(MissingKey(id))
        else if records[id].uuid.None? then Err(MissingKey("uuid"))
        else Ok(ix[records[id].uuid.value := records[id]])
  }

  /** A record whose uuid no later id shares is the one indexed under that
      uuid: of several records with one uuid, the last one wins. */
  lemma {:induction false} UuidIndexLastWins(bookIds: seq<string>, records: map<string, RestRecord>, i: nat)
    requires UuidIndex(bookIds, records).Ok? && i < |bookIds|
    requires forall j :: i < j < |bookIds| ==> records[bookIds[j]].uuid != records[bookIds[i]].uuid
    ensures UuidIndex(bookIds, records).value[records[bookIds[i]].uuid.value] == records[bookIds[i]]
    decreases |bookIds|
  {
    var init, id := bookIds[..|bookIds| - 1], Last(bookIds);
    if i < |init| {
      var b := bookIds[i];
      assert init[i] == b;
      UuidIndexSnoc(bookIds, records);
      assert records[id].uuid != records[b].uuid by {
        assert id == bookIds[|bookIds| - 1];
      }
      forall j | i < j < |init| ensures records[init[j]].uuid != records[init[i]].uuid {
        assert init[j] == bookIds[j];
      }
      UuidIndexLastWins(init, records, i);
    }
  }

  lemma UuidIndexSnoc(bookIds: seq<string>, records: map<string, RestRecord>)
    requires |bookIds| > 0 && UuidIndex(bookIds, records).Ok?
    ensures UuidIndex(bookIds[..|bookIds| - 1], records).Ok?
    ensures Last(bookIds) in records && records[Last(bookIds)].uuid.Some?
    ensures UuidIndex(bookIds, records).value ==
              UuidIndex(bookIds[..|bookIds| - 1], records).value[records[Last(bookIds)].uuid.value := records[Last(bookIds)]]
  {
  }

  /** The new timestamp of one row: its uuid must be indexed, the record
      must have a timestamp, and that must parse. Only the timestamp
      changes. */
  function Restamp(b: Book, ix: map<string, RestRecord>): (r: Result<Book, Error>)
    ensures r.Ok? ==> r.value.timestamp.Some? && r.value == b.(timestamp := r.value.timestamp)
    ensures r.Err? <==> b.uuid !in ix || ix[b.uuid].timestamp.None? || RestTimestamp(ix[b.uuid].timestamp.value).None?
  {
    if b.uuid !in ix then Err(MissingKey(b.uuid))
    else if ix[b.uuid].timestamp.None? then Err(MissingKey("timestamp"))
    else
      var raw := ix[b.uuid].timestamp.value;
      var t := RestTimestamp(raw);
      if t.None? then Err(UnparsableTimestamp(StripUtcOffset(raw)))
      else Ok(b.(timestamp := t))
  }

  /** A REST timestamp in calibre's `+00:00` form, with or without a
      fraction of a second, becomes the row's timestamp. */
  lemma RestampFromCalibre(b: Book, ix: map<string, RestRecord>, t: DateTime, f: string)
    requires Valid(t) && IsFraction(f)
    requires b.uuid in ix && ix[b.uuid].timestamp == Some(Format(t) + f + "+00:00")
    ensures Restamp(b, ix) == Ok(b.(timestamp := Some(t)))
  {
    StripUtcOffsetOfSuffix(t, f);
  }

  // ---------------------------------------------------------------------
  // The model object

  class OpdsBooksModel {
    var books: seq<Book>
    var filteredBooks: seq<Book>
    var filterBooksThatAreNewspapers: bool
    var filterBooksThatAreAlreadyInLibrary: bool
    var serverHeader: string
    /** The library's `has_book`. */
    const hasBook: Book -> bool

    /** The view shows the rows the current options let through. */
    ghost predicate Consistent()
      reads this
    {
      filteredBooks == Filtered(books, filterBooksThatAreNewspapers, filterBooksThatAreAlreadyInLibrary, hasBook)
    }

    /** The model over already converted rows, both options off. */
    constructor (rows: seq<Book>, hasBook: Book -> bool)
      ensures books == rows && this.hasBook == hasBook && serverHeader == ""
      ensures !filterBooksThatAreNewspapers && !filterBooksThatAreAlreadyInLibrary
      ensures Consistent()
    {
      books := rows;
      filteredBooks := [];
      filterBooksThatAreNewspapers := false;
      filterBooksThatAreAlreadyInLibrary := false;
      serverHeader := "";
      this.hasBook := hasBook;
      new;
      FilterBooks();
    }

    /** `filterBooks`. */
    method FilterBooks()
      modifies this
      ensures Consistent()
      ensures books == old(books) && serverHeader == old(serverHeader)
      ensures filterBooksThatAreNewspapers == old(filterBooksThatAreNewspapers)
      ensures filterBooksThatAreAlreadyInLibrary == old(filterBooksThatAreAlreadyInLibrary)
    {
      filteredBooks := [];
      for i := 0 to |books|
        invariant books == old(books) && serverHeader == old(serverHeader)
        invariant filterBooksThatAreNewspapers == old(filterBooksThatAreNewspapers)
        invariant filterBooksThatAreAlreadyInLibrary == old(filterBooksThatAreAlreadyInLibrary)
        invariant filteredBooks == Filtered(books[..i], filterBooksThatAreNewspapers, filterBooksThatAreAlreadyInLibrary, hasBook)
      {
        assert books[..i + 1][..i] == books[..i];
        if !IsFilteredNews(filterBooksThatAreNewspapers, books[i])
           && !IsFilteredAlreadyInLibrary(filterBooksThatAreAlreadyInLibrary, hasBook, books[i]) {
          filteredBooks := filteredBooks + [books[i]];
        }
      }
      assert books[..|books|] == books;
    }

    /** `rowCount`: one row per kept position. */
    function RowCount(): (n: nat)
      reads this
      ensures Consistent() ==> n == |KeptRows(books, filterBooksThatAreNewspapers, filterBooksThatAreAlreadyInLibrary, hasBook)|
      ensures Consistent() ==> n <= |books|
    {
      FilteredAtKeptRows(books, filterBooksThatAreNewspapers, filterBooksThatAreAlreadyInLibrary, hasBook);
      |filteredBooks|
    }

    /** `isCalibreOpdsServer`. */
    predicate IsCalibreOpdsServer()
      reads this
    {
      StartsWith(serverHeader, "calibre")
    }

    /** `setFilterBooksThatAreNewspapers`: the current value changes
      nothing; a new one is stored and the view recomputed. */
    method SetFilterBooksThatAreNewspapers(value: bool)
      modifies this
      ensures filterBooksThatAreNewspapers == value
      ensures value == old(filterBooksThatAreNewspapers) ==> filteredBooks == old(filteredBooks)
      ensures value != old(filterBooksThatAreNewspapers) ==> Consistent()
      ensures old(Consistent()) ==> Consistent()
      ensures books == old(books) && serverHeader == old(serverHeader)
      ensures filterBooksThatAreAlreadyInLibrary == old(filterBooksThatAreAlreadyInLibrary)
    {
      if value != filterBooksThatAreNewspapers {
        filterBooksThatAreNewspapers := value;
        FilterBooks();
      }
    }

    /** `setFilterBooksThatAreAlreadyInLibrary`, likewise. */
    method SetFilterBooksThatAreAlreadyInLibrary(value: bool)
      modifies this
      ensures filterBooksThatAreAlreadyInLibrary == value
      ensures value == old(filterBooksThatAreAlreadyInLibrary) ==> filteredBooks == old(filteredBooks)
      ensures value != old(filterBooksThatAreAlreadyInLibrary) ==> Consistent()
      ensures old(Consistent()) ==> Consistent()
      ensures books == old(books) && serverHeader == old(serverHeader)
      ensures filterBooksThatAreNewspapers == old(filterBooksThatAreNewspapers)
    {
      if value != filterBooksThatAreAlreadyInLibrary {
        filterBooksThatAreAlreadyInLibrary := value;
        FilterBooks();
      }
    }

    /** Setting the newspaper option twice to the same value ends in the
      state one call gives: the contract of one call fixes every field. */
    method SetNewspapersTwice(value: bool)
      modifies this
      ensures filterBooksThatAreNewspapers == value
      ensures value == old(filterBooksThatAreNewspapers) ==> filteredBooks == old(filteredBooks)
      ensures value != old(filterBooksThatAreNewspapers) ==> Consistent()
      ensures books == old(books) && serverHeader == old(serverHeader)
      ensures filterBooksThatAreAlreadyInLibrary == old(filterBooksThatAreAlreadyInLibrary)
    {
      SetFilterBooksThatAreNewspapers(value);
      SetFilterBooksThatAreNewspapers(value);
    }

    /** `downloadOpdsRootCatalog`: on a readable feed the server header is
      stored and the first title and the title-to-URL dictionary are
      returned; an unreadable feed returns nothing and changes nothing. */
    method DownloadOpdsRootCatalog(feed: RootFeed) returns (firstTitle: Option<string>, catalogs: Catalogs)
      modifies this
      ensures feed.Unreadable? ==> firstTitle == None && catalogs == [] && serverHeader == old(serverHeader)
      ensures feed.Readable? ==> serverHeader == HeaderOf(feed.server)
      ensures feed.Readable? ==> firstTitle == FirstTitle(feed.entries) && catalogs == RootCatalogs(feed.entries)
      ensures books == old(books) && filteredBooks == old(filteredBooks)
      ensures filterBooksThatAreNewspapers == old(filterBooksThatAreNewspapers)
      ensures filterBooksThatAreAlreadyInLibrary == old(filterBooksThatAreAlreadyInLibrary)
    {
      if feed.Unreadable? {
        return None, [];
      }
      serverHeader := HeaderOf(feed.server);
      var entries := feed.entries;
      catalogs, firstTitle := [], None;
      for i := 0 to |entries|
        invariant catalogs == RootCatalogs(entries[..i])
        invariant firstTitle == FirstTitle(entries[..i])
      {
        assert entries[..i + 1][..i] == entries[..i];
        var title := TitleOrDefault(entries[i]);
        if firstTitle.None? {
          firstTitle := Some(title);
        }
        var links := entries[i].links;
        if |links| > 0 {
          catalogs := Put(catalogs, title, links[0].href);
        }
      }
      assert entries[..|entries|] == entries;
    }

    /** `loadSubcatalogs`: one sub-catalog row per dictionary item, in
      dictionary order, filtered with the current options. */
    method LoadSubcatalogs(catalogs: Catalogs)
      modifies this
      ensures books == VirtualBooks(catalogs)
      ensures Consistent()
      ensures serverHeader == old(serverHeader)
      ensures filterBooksThatAreNewspapers == old(filterBooksThatAreNewspapers)
      ensures filterBooksThatAreAlreadyInLibrary == old(filterBooksThatAreAlreadyInLibrary)
    {
      var rows := [];
      for i := 0 to |catalogs|
        invariant rows == VirtualBooks(catalogs[..i])
      {
        rows := rows + [VirtualBook(catalogs[i].0, catalogs[i].1)];
      }
      assert catalogs[..|catalogs|] == catalogs;
      books := rows;
      FilterBooks();
    }

    /** `downloadOpdsCatalog`: the first page replaces the rows, every page
      reached through `next` links is appended, and the view is refreshed
      after each page. An exception converting the first page leaves the
      model as it was; a feed without links raises only after its rows
      are in place; an exception on a later page keeps the pages before
      it. */
    method DownloadOpdsCatalog(fetch: string -> Page, url: string, fuel: nat) returns (outcome: Outcome)
      modifies this
      ensures ClassifyAll(fetch(url).entries).Err? ==>
                outcome == Failed(ClassifyAll(fetch(url).entries).error)
                && books == old(books) && filteredBooks == old(filteredBooks)
      ensures ClassifyAll(fetch(url).entries).Ok? ==>
                (books, outcome) == Downloaded(fetch, url, ClassifyAll(fetch(url).entries).value, fuel)
                && Consistent()
      ensures serverHeader == old(serverHeader)
      ensures filterBooksThatAreNewspapers == old(filterBooksThatAreNewspapers)
      ensures filterBooksThatAreAlreadyInLibrary == old(filterBooksThatAreAlreadyInLibrary)
    {
      var page := fetch(url);
      var first := MakeMetadata(page.entries);
      if first.Err? {
        return Failed(first.error);
      }
      books := first.value;
      FilterBooks();
      var next := NextUrlOf(page);
      if next.Err? {
        return Failed(next.error);
      }
      outcome := FollowNextPages(ReaderOf(fetch), next.value, fuel);
    }

    /** The `while nextUrl is not None` loop of `downloadOpdsCatalog`;
      `read` fetches and converts one page and finds its `next` link. */
    method FollowNextPages(read: PageReader, start: Option<string>, fuel: nat) returns (outcome: Outcome)
      requires Consistent()
      modifies this
      ensures (books, outcome) == Follow(read, start, old(books), fuel)
      ensures Consistent()
      ensures serverHeader == old(serverHeader)
      ensures filterBooksThatAreNewspapers == old(filterBooksThatAreNewspapers)
      ensures filterBooksThatAreAlreadyInLibrary == old(filterBooksThatAreAlreadyInLibrary)
    {
      var next := start;
      var remaining := fuel;
      while next.Some?
        invariant Follow(read, next, books, remaining) == Follow(read, start, old(books), fuel)
        invariant Consistent()
        invariant serverHeader == old(serverHeader)
        invariant filterBooksThatAreNewspapers == old(filterBooksThatAreNewspapers)
        invariant filterBooksThatAreAlreadyInLibrary == old(filterBooksThatAreAlreadyInLibrary)
        decreases remaining
      {
        if remaining == 0 {
          return FuelExhausted;
        }
        var (more, nextUrl) := read(next.value);
        if more.Err? {
          return Failed(more.error);
        }
        remaining := remaining - 1;
        books := books + more.value;
        FilterBooks();
        if nextUrl.Err? {
          return Failed(nextUrl.error);
        }
        next := nextUrl.value;
      }
      outcome := Finished;
    }

    /** `updateTimestampInMetadata`: index the REST records by uuid, then
      give every row the timestamp of its record, in row order, and
      refresh the view. A `KeyError` while indexing changes nothing; an
      exception in the second loop leaves the rows before it updated. */
    method UpdateTimestampInMetadata(bookIds: seq<string>, records: map<string, RestRecord>) returns (err: Option<Error>)
      modifies this
      ensures UuidIndex(bookIds, records).Err? ==>
                err == Some(UuidIndex(bookIds, records).error) && books == old(books) && filteredBooks == old(filteredBooks)
      ensures |books| == |old(books)| && forall j :: 0 <= j < |books| ==> books[j] == old(books)[j].(timestamp := books[j].timestamp)
      ensures UuidIndex(bookIds, records).Ok? ==>
                var ix := UuidIndex(bookIds, records).value;
                |books| == |old(books)|
                && (err.None? <==> forall j :: 0 <= j < |books| ==> Restamp(old(books)[j], ix).Ok?)
                && (err.None? ==> (forall j :: 0 <= j < |books| ==> Restamp(old(books)[j], ix) == Ok(books[j])) && Consistent())
                && (err.Some? ==>
                      filteredBooks == old(filteredBooks)
                      && exists k :: 0 <= k < |books| && Restamp(old(books)[k], ix) == Err(err.value)
                                     && (forall j :: 0 <= j < k ==> Restamp(old(books)[j], ix) == Ok(books[j]))
                                     && books[k..] == old(books)[k..])
      ensures serverHeader == old(serverHeader)
      ensures filterBooksThatAreNewspapers == old(filterBooksThatAreNewspapers)
      ensures filterBooksThatAreAlreadyInLibrary == old(filterBooksThatAreAlreadyInLibrary)
    {
      var byId := IndexByUuid(bookIds, records);
      if byId.Err? {
        return Some(byId.error);
      }
      err := RestampRows(byId.value);
      if err.None? {
        FilterBooks();
      }
    }

    /** The second loop of `updateTimestampInMetadata`: each row in turn
      gets its new timestamp, until one raises. */
    method RestampRows(byId: map<string, RestRecord>) returns (err: Option<Error>)
      modifies this
      ensures |books| == |old(books)|
      ensures forall j :: 0 <= j < |books| ==> books[j] == old(books)[j].(timestamp := books[j].timestamp)
      ensures err.None? <==> forall j :: 0 <= j < |books| ==> Restamp(old(books)[j], byId).Ok?
      ensures err.None? ==> forall j :: 0 <= j < |books| ==> Restamp(old(books)[j], byId) == Ok(books[j])
      ensures err.Some? ==>
                exists k :: 0 <= k < |books| && Restamp(old(books)[k], byId) == Err(err.value)
                            && (forall j :: 0 <= j < k ==> Restamp(old(books)[j], byId) == Ok(books[j]))
                            && books[k..] == old(books)[k..]
      ensures filteredBooks == old(filteredBooks) && serverHeader == old(serverHeader)
      ensures filterBooksThatAreNewspapers == old(filterBooksThatAreNewspapers)
      ensures filterBooksThatAreAlreadyInLibrary == old(filterBooksThatAreAlreadyInLibrary)
    {
      for i := 0 to |books|
        invariant |books| == |old(books)|
        invariant forall j :: 0 <= j < i ==> Restamp(old(books)[j], byId) == Ok(books[j])
        invariant books[i..] == old(books)[i..]
        invariant forall j :: 0 <= j < |books| ==> books[j] == old(books)[j].(timestamp := books[j].timestamp)
        invariant filteredBooks == old(filteredBooks) && serverHeader == old(serverHeader)
        invariant filterBooksThatAreNewspapers == old(filterBooksThatAreNewspapers)
        invariant filterBooksThatAreAlreadyInLibrary == old(filterBooksThatAreAlreadyInLibrary)
      {
        assert books[i] == old(books)[i] by { assert books[i..][0] == old(books)[i..][0]; }
        var book := books[i];
        var failure := None;
        if book.uuid !in byId {
          failure := Some(MissingKey(book.uuid));
        } else {
          var record := byId[book.uuid];
          if record.timestamp.None? {
            failure := Some(MissingKey("timestamp"));
          } else {
            var rawTimestamp := record.timestamp.value;
            var timestamp := RestTimestamp(rawTimestamp);
            if timestamp.None? {
              failure := Some(UnparsableTimestamp(StripUtcOffset(rawTimestamp)));
            } else {
              ghost var prev := books;
              books := books[i := book.(timestamp := timestamp)];
              assert books[i + 1..] == prev[i + 1..];
            }
          }
        }
        if failure.Some? {
          assert Restamp(old(books)[i], byId) == Err(failure.value);
          return failure;
        }
      }
      err := None;
    }
  }

  /** The first loop of `updateTimestampInMetadata`. */
  method IndexByUuid(bookIds: seq<string>, records: map<string, RestRecord>) returns (r: Result<map<string, RestRecord>, Error>)
    ensures r == UuidIndex(bookIds, records)
  {
    var byId := map[];
    for i := 0 to |bookIds|
      invariant UuidIndex(bookIds[..i], records) == Ok(byId)
    {
      assert bookIds[..i + 1][..i] == bookIds[..i];
      var id := bookIds[i];
      if id !in records {
        UuidIndexPrefixErr(bookIds, records, i + 1);
        return Err(MissingKey(id));
      }
      var record := records[id];
      if record.uuid.None? {
        UuidIndexPrefixErr(bookIds, records, i + 1);
        return Err(MissingKey("uuid"));
      }
      byId := byId[record.uuid.value := record];
    }
    assert bookIds[..|bookIds|] == bookIds;
    r := Ok(byId);
  }

  /** A `KeyError` while indexing a prefix of the ids is the error of the
      whole index. */
  lemma UuidIndexPrefixErr(bookIds: seq<string>, records: map<string, RestRecord>, n: nat)
    requires n <= |bookIds| && UuidIndex(bookIds[..n], records).Err?
    ensures UuidIndex(bookIds, records) == UuidIndex(bookIds[..n], records)
    decreases |bookIds| - n
  {
    if n < |bookIds| {
      var m := n + 1;
      assert bookIds[..m][..m - 1] == bookIds[..n];
      UuidIndexPrefixErr(bookIds, records, m);
    } else {
      assert bookIds[..n] == bookIds;
    }
  }

  /** `OpdsBooksModel(parent, entries, db)`: the entries are converted and
      filtered; an exception while converting means no model is made. */
  method NewOpdsBooksModel(entries: seq<Entry>, hasBook: Book -> bool) returns (r: Result<OpdsBooksModel, Error>)
    ensures r.Err? <==> ClassifyAll(entries).Err?
    ensures r.Err? ==> r.error == ClassifyAll(entries).error
    ensures r.Ok? ==> fresh(r.value) && r.value.books == ClassifyAll(entries).value && r.value.hasBook == hasBook
                      && r.value.Consistent()
  {
    var rows := MakeMetadata(entries);
    if rows.Err? {
      return Err(rows.error);
    }
    var model := new OpdsBooksModel(rows.value, hasBook);
    r := Ok(model);
  }
}
