/** OPDS feed data as the feed parser delivers it, and the conversion of one
    entry into a book record (`opdsToMetadata` of model.py). */
module Opds {
  import opened Wrappers
  import opened PyStrings
  import opened Timestamps

  /** An `atom:link` (section 4.2.7 of RFC 4287); `rel` and `type` may be
      missing. */
  datatype Link = Link(href: string, rel: Option<string>, mediaType: Option<string>)

  /** One parsed `atom:entry`; `None` marks an element the entry lacks. */
  datatype Entry = Entry(
    title: Option<string>,
    author: Option<string>,
    id: Option<string>,
    updated: Option<string>,
    summary: Option<string>,
    links: seq<Link>)

  /** One fetched feed document: its entries and its feed-level links.
      `feedLinks` is `None` when the feed has no `links` key at all, as
      in what the parser returns for a URL it could not read. */
  datatype Page = Page(entries: seq<Entry>, feedLinks: Option<seq<Link>>)

  /** The record a row of the catalog shows (calibre's `Metadata` object).
      `catalogUrl` is present exactly when the source sets that attribute;
      `timestamp` is `None` for the virtual rows of the root catalog. */
  datatype Book = Book(
    title: string,
    authors: seq<string>,
    uuid: string,
    timestamp: Option<DateTime>,
    tags: seq<string>,
    links: seq<string>,
    catalogUrl: Option<string>)

  /** Exceptions that abort the conversion of a feed. */
  datatype Error =
    | MissingTitle                      // AttributeError on `entry.title`
    | UnparsableTimestamp(text: string) // ValueError of `strptime`
    | MissingKey(key: string)           // KeyError in a dictionary lookup
    | MissingFeedLinks                  // AttributeError on `feed.links`

  // ---------------------------------------------------------------------
  // Link dispatch

  const EpubType: string := "application/epub+zip"
  const AtomType: string := "application/atom+xml"

  /** `link.get('type', '') or ''`. */
  function TypeOf(l: Link): string
  {
    if l.mediaType.Some? then l.mediaType.value else ""
  }

  /** How the loop over an entry's links treats one link. */
  datatype LinkKind = Image | Catalog | Epub | OtherFormat

  function KindOf(l: Link): (k: LinkKind)
    ensures k == Epub ==> TypeOf(l) == EpubType
    ensures k == Catalog <==> !StartsWith(TypeOf(l), "image/") && StartsWith(TypeOf(l), AtomType)
  {
    var t := TypeOf(l);
    if StartsWith(t, "image/") then Image
    else if StartsWith(t, AtomType) then Catalog
    else if t == EpubType then Epub
    else OtherFormat
  }

  /** The hrefs of the EPUB links, in the order the entry lists them. */
  function EpubHrefs(links: seq<Link>): seq<string>
  {
    if links == [] then []
    else EpubHrefs(links[..|links| - 1]) + (if KindOf(Last(links)) == Epub then [Last(links).href] else [])
  }

  /** The hrefs of the download links that are not EPUB, in entry order. */
  function OtherHrefs(links: seq<Link>): seq<string>
  {
    if links == [] then []
    else OtherHrefs(links[..|links| - 1]) + (if KindOf(Last(links)) == OtherFormat then [Last(links).href] else [])
  }

  function Reverse<T>(s: seq<T>): (r: seq<T>)
    ensures |r| == |s|
  {
    if s == [] then [] else [Last(s)] + Reverse(s[..|s| - 1])
  }

  lemma ReverseSnoc<T>(s: seq<T>, x: T)
    ensures Reverse(s + [x]) == [x] + Reverse(s)
  {
    assert (s + [x])[..|s|] == s;
  }

  /** The download list the loop builds: each EPUB link is inserted at the
      front, each other format appended, so the EPUB links come first in
      reverse order of discovery. */
  function DownloadHrefs(links: seq<Link>): (r: seq<string>)
    ensures |r| == |EpubHrefs(links)| + |OtherHrefs(links)|
    ensures forall k :: 0 <= k < |EpubHrefs(links)| ==> r[k] == EpubHrefs(links)[|EpubHrefs(links)| - 1 - k]
    ensures forall k :: 0 <= k < |OtherHrefs(links)| ==> r[|EpubHrefs(links)| + k] == OtherHrefs(links)[k]
  {
    ReverseAll(EpubHrefs(links));
    Reverse(EpubHrefs(links)) + OtherHrefs(links)
  }

  /** The href of the first nested-catalog link, if there is one. */
  function FirstCatalogHref(links: seq<Link>): (r: Option<string>)
    ensures r.None? <==> forall i :: 0 <= i < |links| ==> KindOf(links[i]) != Catalog
    ensures r.Some? ==> exists i :: 0 <= i < |links| && KindOf(links[i]) == Catalog && links[i].href == r.value
                                     && forall j :: 0 <= j < i ==> KindOf(links[j]) != Catalog
  {
    if links == [] then None
    else
      var init := links[..|links| - 1];
      var r := FirstCatalogHref(init);
      assert forall i :: 0 <= i < |init| ==> init[i] == links[i];
      if r.Some? then r
      else if KindOf(Last(links)) == Catalog then Some(Last(links).href)
      else None
  }

  // ---------------------------------------------------------------------
  // The other fields of the record

  /** `author.replace('& ', '&').split('&')`, or `''.split('&')` without an
      author. */
  function Authors(author: Option<string>): (r: seq<string>)
    ensures |r| >= 1
    ensures forall i :: 0 <= i < |r| ==> '&' !in r[i]
    ensures Join(r, "&") == ReplaceAll(if author.Some? then author.value else "", "& ", "&")
  {
    var text := ReplaceAll(if author.Some? then author.value else "", "& ", "&");
    SplitPiecesAvoidSeparator(text, '&');
    JoinSplit(text, "&");
    Split(text, "&")
  }

  /** `id.replace('urn:uuid:', '', 1)`, or `''` without an id. */
  function Uuid(id: Option<string>): (r: string)
    ensures id.Some? && StartsWith(id.value, "urn:uuid:") ==> r == id.value[9..]
    ensures id.Some? && (forall i: nat :: !OccursAt(id.value, "urn:uuid:", i)) ==> r == id.value
    ensures id.None? ==> r == ""
  {
    if id.None? then ""
    else
      assert StartsWith(id.value, "urn:uuid:") ==> OccursAt(id.value, "urn:uuid:", 0);
      ReplaceFirst(id.value, "urn:uuid:", "")
  }

  /** The first `urn:uuid:` is removed wherever it occurs; the rest of the
      id is kept. */
  lemma UuidAt(id: string, i: nat)
    requires OccursAt(id, "urn:uuid:", i)
    requires forall j: nat :: j < i ==> !OccursAt(id, "urn:uuid:", j)
    ensures Uuid(Some(id)) == id[..i] + id[i + 9..]
  {
    ReplaceFirstAt(id, "urn:uuid:", "", i);
  }

  const TagsPrefix: string := "TAGS: "

  /** The tags a `TAGS: ` line lists: the prefix and line-break markers are
      removed, `, ` becomes `,` and the rest is split at `,`. */
  function TagsOfLine(line: string): (tags: seq<string>)
    ensures |tags| >= 1
    ensures forall i :: 0 <= i < |tags| ==> ',' !in tags[i]
    ensures Join(tags, ",") == ReplaceAll(ReplaceAll(ReplaceAll(line, TagsPrefix, ""), "<br />", ""), ", ", ",")
  {
    var text := ReplaceAll(ReplaceAll(ReplaceAll(line, TagsPrefix, ""), "<br />", ""), ", ", ",");
    SplitPiecesAvoidSeparator(text, ',');
    JoinSplit(text, ",");
    Split(text, ",")
  }

  /** The last of `lines` that starts with `TAGS: `. */
  function LastTagsLine(lines: seq<string>): (r: Option<nat>)
    ensures r.Some? ==> r.value < |lines| && StartsWith(lines[r.value], TagsPrefix)
    ensures r.Some? ==> forall j :: r.value < j < |lines| ==> !StartsWith(lines[j], TagsPrefix)
    ensures r.None? ==> forall j :: 0 <= j < |lines| ==> !StartsWith(lines[j], TagsPrefix)
  {
    if lines == [] then None
    else if StartsWith(Last(lines), TagsPrefix) then Some(|lines| - 1)
    else
      var init := lines[..|lines| - 1];
      assert forall i :: 0 <= i < |init| ==> init[i] == lines[i];
      LastTagsLine(init)
  }

  /** The tags of the summary's last `TAGS: ` line; none without such a line. */
  function TagsOf(summary: Option<string>): (r: seq<string>)
    ensures r == [] <==> forall line :: line in SplitLines(if summary.Some? then summary.value else "") ==>
                           !StartsWith(line, TagsPrefix)
    ensures forall i :: 0 <= i < |r| ==> ',' !in r[i]
  {
    var lines := SplitLines(if summary.Some? then summary.value else "");
    match LastTagsLine(lines)
    case None => []
    case Some(i) => TagsOfLine(lines[i])
  }

  /** The final decision: a non-empty download list makes a book; otherwise
      a non-empty catalog href makes a sub-catalog row; otherwise an inert
      row. */
  function CatalogUrlOf(downloads: seq<string>, catalog: Option<string>): Option<string>
  {
    if |downloads| > 0 then None
    else if catalog.Some? && catalog.value != "" then catalog
    else None
  }

  /** The record `opdsToMetadata` makes from an entry, or the exception
      that stops it. */
  function Classify(e: Entry): (r: Result<Book, Error>)
    ensures r.Err? <==> e.title.None? || EntryTimestamp(e.updated).None?
    ensures e.title.None? ==> r == Err(MissingTitle)
    ensures r.Ok? ==> r.value.title == e.title.value && r.value.timestamp.Some?
    ensures r.Ok? ==> r.value.links == [] || r.value.catalogUrl.None?
  {
    if e.title.None? then Err(MissingTitle)
    else
      var ts := EntryTimestamp(e.updated);
      if ts.None? then Err(UnparsableTimestamp(StripFeedZone(if e.updated.Some? then e.updated.value else DefaultUpdated)))
      else
        var downloads := DownloadHrefs(e.links);
        Ok(Book(e.title.value, Authors(e.author), Uuid(e.id), ts, TagsOf(e.summary),
                downloads, CatalogUrlOf(downloads, FirstCatalogHref(e.links))))
  }

  /** Every element converted in order, or the exception of the first
      element whose conversion fails: the effect of a Python loop that
      appends `f(x)` for each `x` and lets exceptions escape. */
  function ConvertAll<A, B, E>(f: A -> Result<B, E>, xs: seq<A>): (r: Result<seq<B>, E>)
    ensures r.Ok? <==> forall i :: 0 <= i < |xs| ==> f(xs[i]).Ok?
    ensures r.Ok? ==> |r.value| == |xs| && forall i :: 0 <= i < |xs| ==> r.value[i] == f(xs[i]).value
    ensures r.Err? ==> exists i :: 0 <= i < |xs| && f(xs[i]) == Err(r.error)
                                   && forall j :: 0 <= j < i ==> f(xs[j]).Ok?
  {
    if xs == [] then Ok([])
    else
      var init := xs[..|xs| - 1];
      assert forall i :: 0 <= i < |init| ==> init[i] == xs[i];
      match ConvertAll(f, init)
      case Err(e) => Err(e)
      case Ok(bs) =>
        var last := f(Last(xs));
        if last.Err? then
          assert forall j :: 0 <= j < |xs| - 1 ==> f(xs[j]).Ok?;
          Err(last.error)
        else
          Ok(bs + [last.value])
  }

  /** One more element: how `ConvertAll` of a longer prefix follows from
      the shorter one. */
  lemma ConvertAllStep<A, B, E>(f: A -> Result<B, E>, xs: seq<A>, i: nat)
    requires i < |xs|
    ensures ConvertAll(f, xs[..i + 1]) ==
      match ConvertAll(f, xs[..i])
      case Err(e) => Err(e)
      case Ok(bs) => if f(xs[i]).Err? then Err(f(xs[i]).error) else Ok(bs + [f(xs[i]).value])
  {
    var p := xs[..i + 1];
    assert p[..|p| - 1] == xs[..i] && Last(p) == xs[i];
  }

  /** An exception in a prefix is the exception of the whole list. */
  lemma ConvertAllPrefixErr<A, B, E>(f: A -> Result<B, E>, xs: seq<A>, n: nat)
    requires n <= |xs| && ConvertAll(f, xs[..n]).Err?
    ensures ConvertAll(f, xs) == ConvertAll(f, xs[..n])
  {
    var e := ConvertAll(f, xs[..n]).error;
    var k :| 0 <= k < n && f(xs[..n][k]) == Err(e) && forall j :: 0 <= j < k ==> f(xs[..n][j]).Ok?;
    forall j | 0 <= j <= k ensures xs[..n][j] == xs[j] { }
    var r := ConvertAll(f, xs);
    assert r.Err? by { assert !f(xs[k]).Ok?; }
    var m :| 0 <= m < |xs| && f(xs[m]) == Err(r.error) && forall j :: 0 <= j < m ==> f(xs[j]).Ok?;
    assert m == k;
  }

  /** `makeMetadataFromParsedOpds`: all entries converted in order, or the
      first exception. */
  function ClassifyAll(es: seq<Entry>): (r: Result<seq<Book>, Error>)
    ensures r.Ok? <==> forall i :: 0 <= i < |es| ==> Classify(es[i]).Ok?
    ensures r.Ok? ==> |r.value| == |es| && forall i :: 0 <= i < |es| ==> r.value[i] == Classify(es[i]).value
    ensures r.Err? ==> exists i :: 0 <= i < |es| && Classify(es[i]) == Err(r.error)
                                   && forall j :: 0 <= j < i ==> Classify(es[j]).Ok?
  {
    ConvertAll(Classify, es)
  }

  // ---------------------------------------------------------------------
  // The imperative code of opdsToMetadata

  /** The loop over the summary lines: every `TAGS: ` line overwrites the
      tags read so far. */
  method ReadTags(summary: Option<string>) returns (tags: seq<string>)
    ensures tags == TagsOf(summary)
  {
    tags := [];
    var lines := SplitLines(if summary.Some? then summary.value else "");
    for i := 0 to |lines|
      invariant tags == match LastTagsLine(lines[..i]) case None => [] case Some(j) => TagsOfLine(lines[j])
    {
      assert lines[..i + 1][..i] == lines[..i];
      if StartsWith(lines[i], TagsPrefix) {
        tags := TagsOfLine(lines[i]);
      }
    }
    assert lines[..|lines|] == lines;
  }

  /** The loop over an entry's links: images are skipped, the first
      nested-catalog link is remembered, EPUB links are inserted at the
      front of the download list and every other link is appended. */
  method ClassifyLinks(links: seq<Link>) returns (downloads: seq<string>, catalogUrl: Option<string>)
    ensures downloads == DownloadHrefs(links)
    ensures catalogUrl == FirstCatalogHref(links)
  {
    downloads, catalogUrl := [], None;
    for i := 0 to |links|
      invariant downloads == DownloadHrefs(links[..i])
      invariant catalogUrl == FirstCatalogHref(links[..i])
    {
      LinksStep(links, i);
      var url := links[i].href;
      var kind := KindOf(links[i]);
      if kind == Catalog {
        if catalogUrl.None? {
          catalogUrl := Some(url);
        }
      } else if kind == Epub {
        downloads := [url] + downloads;
      } else if kind == OtherFormat {
        downloads := downloads + [url];
      }
    }
    assert links[..|links|] == links;
  }

  /** One more link: how the three lists of a longer prefix follow from the
      shorter one. */
  lemma LinksStep(links: seq<Link>, i: nat)
    requires i < |links|
    ensures FirstCatalogHref(links[..i + 1]) ==
      if FirstCatalogHref(links[..i]).Some? then FirstCatalogHref(links[..i])
      else if KindOf(links[i]) == Catalog then Some(links[i].href) else None
    ensures DownloadHrefs(links[..i + 1]) ==
      match KindOf(links[i])
      case Epub => [links[i].href] + DownloadHrefs(links[..i])
      case OtherFormat => DownloadHrefs(links[..i]) + [links[i].href]
      case _ => DownloadHrefs(links[..i])
  {
    var p := links[..i + 1];
    assert p[..|p| - 1] == links[..i] && Last(p) == links[i];
    DownloadsSnoc(links[..i], links[i]);
  }

  lemma DownloadsSnoc(links: seq<Link>, l: Link)
    ensures DownloadHrefs(links + [l]) ==
      match KindOf(l)
      case Epub => [l.href] + DownloadHrefs(links)
      case OtherFormat => DownloadHrefs(links) + [l.href]
      case _ => DownloadHrefs(links)
  {
    if KindOf(l) == Epub {
      EpubSnoc(links, l);
    } else if KindOf(l) == OtherFormat {
      OtherFormatSnoc(links, l);
    } else {
      InertSnoc(links, l);
    }
  }

  lemma EpubSnoc(links: seq<Link>, l: Link)
    requires KindOf(l) == Epub
    ensures DownloadHrefs(links + [l]) == [l.href] + DownloadHrefs(links)
  {
    var p := links + [l];
    assert p[..|p| - 1] == links && Last(p) == l;
    var epubs, others := EpubHrefs(links), OtherHrefs(links);
    assert EpubHrefs(p) == epubs + [l.href];
    assert OtherHrefs(p) == others;
    calc {
      DownloadHrefs(p);
      Reverse(epubs + [l.href]) + others;
      { ReverseSnoc(epubs, l.href); }
      ([l.href] + Reverse(epubs)) + others;
      [l.href] + (Reverse(epubs) + others);
    }
  }

  lemma OtherFormatSnoc(links: seq<Link>, l: Link)
    requires KindOf(l) == OtherFormat
    ensures DownloadHrefs(links + [l]) == DownloadHrefs(links) + [l.href]
  {
    var p := links + [l];
    assert p[..|p| - 1] == links && Last(p) == l;
    var epubs, others := EpubHrefs(links), OtherHrefs(links);
    assert EpubHrefs(p) == epubs;
    assert OtherHrefs(p) == others + [l.href];
    assert Reverse(epubs) + (others + [l.href]) == (Reverse(epubs) + others) + [l.href];
  }

  lemma InertSnoc(links: seq<Link>, l: Link)
    requires KindOf(l) != Epub && KindOf(l) != OtherFormat
    ensures DownloadHrefs(links + [l]) == DownloadHrefs(links)
  {
    var p := links + [l];
    assert p[..|p| - 1] == links && Last(p) == l;
    assert EpubHrefs(p) == EpubHrefs(links);
    assert OtherHrefs(p) == OtherHrefs(links);
  }

  /** `opdsToMetadata`. */
  method OpdsToMetadata(e: Entry) returns (r: Result<Book, Error>)
    ensures r == Classify(e)
  {
    var authors := Authors(e.author);
    if e.title.None? {
      return Err(MissingTitle);
    }
    var uuid := Uuid(e.id);
    var raw := if e.updated.Some? then e.updated.value else DefaultUpdated;
    var parsable := StripFeedZone(raw);
    var timestamp := Parse(parsable);
    if timestamp.None? {
      return Err(UnparsableTimestamp(parsable));
    }
    var tags := ReadTags(e.summary);
    var downloads, catalogUrl := ClassifyLinks(e.links);
    var book := Book(e.title.value, authors, uuid, timestamp, tags, [], None);
    if |downloads| > 0 {
      book := book.(links := downloads);
    } else if catalogUrl.Some? && catalogUrl.value != "" {
      book := book.(catalogUrl := catalogUrl);
    }
    r := Ok(book);
  }

  /** `makeMetadataFromParsedOpds`. */
  method MakeMetadata(es: seq<Entry>) returns (r: Result<seq<Book>, Error>)
    ensures r == ClassifyAll(es)
  {
    var books := [];
    for i := 0 to |es|
      invariant ClassifyAll(es[..i]) == Ok(books)
    {
      ConvertAllStep(Classify, es, i);
      var b := OpdsToMetadata(es[i]);
      if b.Err? {
        assert ClassifyAll(es[..i + 1]) == Err(b.error);
        ConvertAllPrefixErr(Classify, es, i + 1);
        return Err(b.error);
      }
      books := books + [b.value];
    }
    assert es[..|es|] == es;
    r := Ok(books);
  }

  /** `findNextUrl`: the href of the first feed link whose `rel` is `next`. */
  function FindNextUrl(feedLinks: seq<Link>): (r: Option<string>)
    ensures r.None? <==> forall i :: 0 <= i < |feedLinks| ==> feedLinks[i].rel != Some("next")
    ensures r.Some? ==> exists i :: 0 <= i < |feedLinks| && feedLinks[i].rel == Some("next")
                                    && feedLinks[i].href == r.value
                                    && forall j :: 0 <= j < i ==> feedLinks[j].rel != Some("next")
  {
    if feedLinks == [] then None
    else if feedLinks[0].rel == Some("next") then Some(feedLinks[0].href)
    else
      var r := FindNextUrl(feedLinks[1..]);
      assert forall i :: 1 <= i < |feedLinks| ==> feedLinks[1..][i - 1] == feedLinks[i];
      r
  }

  /** `findNextUrl` applied to a fetched page: reading `feed.links` raises
      when the feed has no links. */
  function NextUrlOf(p: Page): (r: Result<Option<string>, Error>)
    ensures r.Err? <==> p.feedLinks.None?
    ensures r.Err? ==> r.error == MissingFeedLinks
    ensures r.Ok? ==> r.value == FindNextUrl(p.feedLinks.value)
  {
    if p.feedLinks.None? then Err(MissingFeedLinks) else Ok(FindNextUrl(p.feedLinks.value))
  }

  // ---------------------------------------------------------------------
  // Properties of the classification

  /** A link the download list takes: neither an image nor a nested catalog. */
  predicate IsDownload(l: Link)
  {
    KindOf(l) == Epub || KindOf(l) == OtherFormat
  }

  /** The hrefs of all download links in the order the entry lists them. */
  function DownloadableHrefs(links: seq<Link>): (r: seq<string>)
    ensures forall h :: h in r <==> exists i :: 0 <= i < |links| && IsDownload(links[i]) && links[i].href == h
  {
    if links == [] then []
    else
      var init := links[..|links| - 1];
      assert forall i :: 0 <= i < |init| ==> init[i] == links[i];
      DownloadableHrefs(init) + (if IsDownload(Last(links)) then [Last(links).href] else [])
  }

  lemma {:induction false} ReverseAt<T>(s: seq<T>, k: nat)
    requires k < |s|
    ensures Reverse(s)[k] == s[|s| - 1 - k]
    decreases |s|
  {
    if k > 0 {
      ReverseAt(s[..|s| - 1], k - 1);
    }
  }

  lemma ReverseAll<T>(s: seq<T>)
    ensures forall k :: 0 <= k < |s| ==> Reverse(s)[k] == s[|s| - 1 - k]
  {
    forall k | 0 <= k < |s| ensures Reverse(s)[k] == s[|s| - 1 - k] {
      ReverseAt(s, k);
    }
  }

  lemma {:induction false} ReverseMultiset<T>(s: seq<T>)
    ensures multiset(Reverse(s)) == multiset(s)
    decreases |s|
  {
    if s != [] {
      ReverseMultiset(s[..|s| - 1]);
      assert s == s[..|s| - 1] + [Last(s)];
    }
  }

  /** The download list holds exactly the hrefs of the entry's download
      links, each as often as it occurs there: nothing from an image or a
      nested-catalog link, nothing lost. */
  lemma {:induction false} DownloadsPermuteDownloadLinks(links: seq<Link>)
    ensures multiset(DownloadHrefs(links)) == multiset(DownloadableHrefs(links))
    decreases |links|
  {
    if links != [] {
      var init, l := links[..|links| - 1], Last(links);
      assert links == init + [l];
      DownloadsPermuteDownloadLinks(init);
      DownloadsSnoc(init, l);
    }
  }

  /** No href of an image or nested-catalog link that is not also the href
      of a download link ends up in the download list. */
  lemma DownloadsComeFromDownloadLinks(links: seq<Link>, h: string)
    requires h in DownloadHrefs(links)
    ensures exists i :: 0 <= i < |links| && IsDownload(links[i]) && links[i].href == h
  {
    DownloadsPermuteDownloadLinks(links);
    assert h in multiset(DownloadHrefs(links));
    assert h in DownloadableHrefs(links);
  }

  /** The record keeps a catalog URL only when the entry yields no download
      link and its first nested-catalog href is non-empty; such a record
      has no download links. A record with download links has no catalog
      URL, and an entry with neither is an inert row. */
  lemma ClassificationDecision(e: Entry)
    requires Classify(e).Ok?
    ensures Classify(e).value.links == DownloadHrefs(e.links)
    ensures Classify(e).value.catalogUrl.Some? <==>
              DownloadHrefs(e.links) == [] && FirstCatalogHref(e.links).Some? && FirstCatalogHref(e.links).value != ""
    ensures Classify(e).value.catalogUrl.Some? ==>
              Classify(e).value.links == [] && Classify(e).value.catalogUrl == FirstCatalogHref(e.links)
    ensures Classify(e).value.links != [] ==> Classify(e).value.catalogUrl.None?
  {
  }

  lemma EpubTypeIsEpub(l: Link)
    requires TypeOf(l) == EpubType
    ensures KindOf(l) == Epub
  {
    assert !StartsWith(EpubType, "image/") by { assert EpubType[0] != "image/"[0]; }
    assert !StartsWith(EpubType, AtomType) by { assert EpubType[12] != AtomType[12]; }
  }

  lemma AtomTypeIsCatalog(l: Link)
    requires TypeOf(l) == AtomType
    ensures KindOf(l) == Catalog
  {
    assert !StartsWith(AtomType, "image/") by { assert AtomType[0] != "image/"[0]; }
    assert AtomType[..|AtomType|] == AtomType;
  }

  lemma PdfTypeIsOther(l: Link)
    requires TypeOf(l) == "application/pdf"
    ensures KindOf(l) == OtherFormat
  {
    var t := TypeOf(l);
    assert !StartsWith(t, "image/") by { assert t[0] != "image/"[0]; }
    assert |t| < |AtomType| && |t| != |EpubType|;
  }

  lemma JpegTypeIsImage(l: Link)
    requires TypeOf(l) == "image/jpeg"
    ensures KindOf(l) == Image
  {
    var t := TypeOf(l);
    assert t[..6] == "image/";
  }

  /** An EPUB link followed by a PDF link: the EPUB one comes first. */
  lemma EpubBeforePdfExample(a: string, b: string)
    ensures DownloadHrefs([Link(a, None, Some(EpubType)), Link(b, None, Some("application/pdf"))]) == [a, b]
  {
    var l1, l2 := Link(a, None, Some(EpubType)), Link(b, None, Some("application/pdf"));
    EpubTypeIsEpub(l1);
    PdfTypeIsOther(l2);
    DownloadsSnoc([], l1);
    assert [l1, l2] == [l1] + [l2] && [l1] == [] + [l1];
    DownloadsSnoc([l1], l2);
  }

  /** Two EPUB links come out swapped. */
  lemma TwoEpubsSwappedExample(a: string, b: string)
    ensures DownloadHrefs([Link(a, None, Some(EpubType)), Link(b, None, Some(EpubType))]) == [b, a]
  {
    var l1, l2 := Link(a, None, Some(EpubType)), Link(b, None, Some(EpubType));
    EpubTypeIsEpub(l1);
    EpubTypeIsEpub(l2);
    DownloadsSnoc([], l1);
    assert [l1, l2] == [l1] + [l2] && [l1] == [] + [l1];
    DownloadsSnoc([l1], l2);
  }

  /** A lone nested-catalog link gives no download and that catalog. */
  lemma SingleCatalogLink(url: string)
    ensures DownloadHrefs([Link(url, None, Some(AtomType))]) == []
    ensures FirstCatalogHref([Link(url, None, Some(AtomType))]) == Some(url)
  {
    var atom := Link(url, None, Some(AtomType));
    AtomTypeIsCatalog(atom);
    assert [atom] == [] + [atom];
    DownloadsSnoc([], atom);
  }

  /** A lone image link gives neither a download nor a catalog. */
  lemma SingleImageLink(url: string)
    ensures DownloadHrefs([Link(url, None, Some("image/jpeg"))]) == []
    ensures FirstCatalogHref([Link(url, None, Some("image/jpeg"))]) == None
  {
    var image := Link(url, None, Some("image/jpeg"));
    JpegTypeIsImage(image);
    assert [image] == [] + [image];
    DownloadsSnoc([], image);
  }

  /** An entry whose only link is a nested catalog becomes a sub-catalog row;
      one whose only link is an image becomes an inert row. */
  lemma SubCatalogAndInertExamples(e: Entry, url: string)
    requires url != "" && Classify(e).Ok?
    ensures e.links == [Link(url, None, Some(AtomType))] ==>
              Classify(e).value.catalogUrl == Some(url) && Classify(e).value.links == []
    ensures e.links == [Link(url, None, Some("image/jpeg"))] ==>
              Classify(e).value.catalogUrl == None && Classify(e).value.links == []
  {
    ClassificationDecision(e);
    SingleCatalogLink(url);
    SingleImageLink(url);
  }

  /** A `TAGS: ` line listing two tags separated by `, ` yields the two tags. */
  lemma TagsOfLineOfTwo(a: string, b: string)
    requires forall c :: c in a + b ==> c != 'T' && c != '<' && c != ','
    ensures TagsOfLine(TagsPrefix + a + ", " + b) == [a, b]
  {
    var rest := a + ", " + b;
    assert forall c :: c in rest ==> c != 'T' && c != '<' by {
      assert forall c :: c in rest ==> c in a + b || c == ',' || c == ' ';
    }
    var t1 := ReplaceAll(TagsPrefix + a + ", " + b, TagsPrefix, "");
    assert t1 == rest by {
      assert TagsPrefix + a + ", " + b == "" + TagsPrefix + rest;
      ReplaceAfter("", TagsPrefix, "", rest);
      ReplaceWithoutFirstChar(rest, TagsPrefix, "");
    }
    var t2 := ReplaceAll(t1, "<br />", "");
    assert t2 == rest by {
      ReplaceWithoutFirstChar(rest, "<br />", "");
    }
    var t3 := ReplaceAll(t2, ", ", ",");
    assert t3 == a + [','] + b by {
      assert forall c :: c in a ==> c in a + b;
      assert forall c :: c in b ==> c in a + b;
      ReplaceAfter(a, ", ", ",", b);
      ReplaceWithoutFirstChar(b, ", ", ",");
    }
    assert Split(t3, ",") == [a, b] by {
      assert forall c :: c in a ==> c in a + b;
      assert forall c :: c in b ==> c in a + b;
      SplitAfter(a, ',', b);
      SplitWithoutSeparator(b, ',');
    }
  }

  /** A summary that is a single line starting with `TAGS: ` gives the tags
      of that line. */
  lemma TagsOfSingleLine(line: string)
    requires StartsWith(line, TagsPrefix) && forall c :: c in line ==> !IsLineBreak(c)
    ensures TagsOf(Some(line)) == TagsOfLine(line)
  {
    SplitLinesOfOneLine(line);
    assert LastTagsLine([line]) == Some(0);
  }

  /** A summary whose first line is followed by more lines: a `TAGS: ` line
      among the later lines wins over the first line, which counts only
      when no later line starts with `TAGS: `. */
  lemma TagsOfLineThenRest(a: string, c: char, b: string)
    requires forall x :: x in a ==> !IsLineBreak(x)
    requires IsLineBreak(c) && (c == '\r' ==> b == [] || b[0] != '\n')
    ensures TagsOf(Some(a + [c] + b)) ==
              if LastTagsLine(SplitLines(b)).Some? then TagsOf(Some(b))
              else if StartsWith(a, TagsPrefix) then TagsOfLine(a)
              else []
  {
    SplitLinesAfterBreak(a, c, b);
    var rest := SplitLines(b);
    LastTagsLineAfterFirst(a, rest);
  }

  /** Where the last `TAGS: ` line is once a line is put in front. */
  lemma {:induction false} LastTagsLineAfterFirst(a: string, rest: seq<string>)
    ensures LastTagsLine([a] + rest) ==
              if LastTagsLine(rest).Some? then Some(LastTagsLine(rest).value + 1)
              else if StartsWith(a, TagsPrefix) then Some(0)
              else None
    decreases |rest|
  {
    var lines := [a] + rest;
    if rest == [] {
      assert lines == [a];
    } else {
      assert Last(lines) == Last(rest);
      if !StartsWith(Last(rest), TagsPrefix) {
        var init := rest[..|rest| - 1];
        assert lines[..|lines| - 1] == [a] + init;
        LastTagsLineAfterFirst(a, init);
      }
    }
  }

  /** `TAGS: Fiction, News` gives the tags `Fiction` and `News`. */
  lemma TagsExample(summary: string)
    requires summary == "TAGS: Fiction, News"
    ensures TagsOf(Some(summary)) == ["Fiction", "News"]
  {
    var a, b := "Fiction", "News";
    var line := TagsPrefix + a + ", " + b;
    assert summary == line;
    assert forall c :: c in a + b ==> 'a' <= c <= 'z' || c == 'F' || c == 'N';
    assert TagsOf(Some(line)) == TagsOfLine(line) by {
      TagsLineIsOneLine(a, b);
      TagsOfSingleLine(line);
    }
    assert TagsOfLine(line) == [a, b] by {
      TagsOfLineOfTwo(a, b);
    }
  }

  lemma TagsLineIsOneLine(a: string, b: string)
    requires forall c :: c in a + b ==> !IsLineBreak(c)
    ensures StartsWith(TagsPrefix + a + ", " + b, TagsPrefix)
    ensures forall c :: c in TagsPrefix + a + ", " + b ==> !IsLineBreak(c)
  {
    var line := TagsPrefix + a + ", " + b;
    assert line[..6] == TagsPrefix;
    forall c | c in line ensures !IsLineBreak(c) {
      assert c in TagsPrefix || c in a || c in ", " || c in b;
      assert c in a ==> c in a + b;
      assert c in b ==> c in a + b;
    }
  }

  /** `A & B` is split into `A ` and `B`: the space before `&` stays. */
  lemma AuthorsExample(author: string)
    requires author == "A & B"
    ensures Authors(Some(author)) == ["A ", "B"]
  {
    ReplaceAfter("A ", "& ", "&", "B");
    assert author == "A " + "& " + "B";
    ReplaceWithoutFirstChar("B", "& ", "&");
    assert "A " + "&" + "B" == "A " + ['&'] + "B";
    SplitAfter("A ", '&', "B");
    SplitWithoutSeparator("B", '&');
  }
}
