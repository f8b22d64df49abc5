/** The Internet Archive client: the cursor-paginated search walk, the query of one
    search request, and the choice of the file to download with its URL. The HTTP
    round trip of one search request is a parameter, `Searcher`. */
module Archive {
  import opened Common
  import Decimal

  datatype File = File(
    crc32: Option<string>,
    format: string,
    height: Option<string>,
    length: Option<string>,
    md5: string,
    mtime: Option<string>,
    name: string,
    sha1: Option<string>,
    size: Option<string>,
    source: string,
    width: Option<string>,
    original: Option<string>,
    btih: Option<string>,
    summation: Option<string>)

  datatype ExtendedMetadata = ExtendedMetadata(
    created: int,
    files: seq<File>,
    filesCount: int,
    itemLastUpdated: int,
    itemSize: int,
    server: string,
    uniq: int,
    directory: string)

  datatype MetadataItem = MetadataItem(
    collections: Option<seq<string>>,
    creator: Option<string>,
    date: Option<string>,
    description: Option<string>,
    externalIdentifier: Option<string>,
    identifier: string,
    itemSize: Option<u64>,
    title: string)

  datatype MetadataResponse = MetadataResponse(
    count: u64,
    cursor: Option<string>,
    items: seq<MetadataItem>,
    total: u64)

  /** The arguments of one call of `search`. */
  datatype Request = Request(query: string, count: u64, cursor: Option<string>)

  /** One search round trip: the response, or the fetch or decode error. */
  type Searcher = Request -> Result<MetadataResponse>

  /** The page size `search_all` asks for. */
  const PageSize: u64 := 10_000

  // ---------------------------------------------------------------------------
  // The query of one search request

  /** The query pairs `search` appends to the archive's scrape endpoint, in order, before percent-encoding. */
  function SearchPairs(query: string, count: u64, cursor: Option<string>): seq<(string, string)> {
    [("q", query), ("fields", "*"), ("count", Decimal.ToDecimal(count as nat))]
      + (if cursor.Some? then [("cursor", cursor.value)] else [])
  }

  /** The count a canonical decimal text stands for, if it is one and fits in `usize`. */
  function ParseCount(text: string): Option<u64> {
    if |text| > 0 && (forall i :: 0 <= i < |text| ==> Decimal.IsDigit(text[i]))
       && Decimal.ParseDecimal(text) < 0x1_0000_0000_0000_0000
       && Decimal.ToDecimal(Decimal.ParseDecimal(text)) == text
    then Some(Decimal.ParseDecimal(text) as u64)
    else None
  }

  /** Reads a query back into the request it was built from; `None` for any list of
      pairs `search` does not build. */
  function ParseSearchPairs(pairs: seq<(string, string)>): Option<Request> {
    if (|pairs| == 3 || |pairs| == 4)
       && pairs[0].0 == "q" && pairs[1] == ("fields", "*") && pairs[2].0 == "count"
       && ParseCount(pairs[2].1).Some?
       && (|pairs| == 4 ==> pairs[3].0 == "cursor")
    then Some(Request(pairs[0].1, ParseCount(pairs[2].1).value,
                      if |pairs| == 4 then Some(pairs[3].1) else None))
    else None
  }

  /** The query carries the query text, every field, the count and the cursor, and
      nothing else: parsing it gives back the request. */
  lemma SearchPairsRoundTrip(query: string, count: u64, cursor: Option<string>)
    ensures ParseSearchPairs(SearchPairs(query, count, cursor)) == Some(Request(query, count, cursor))
  {
    Decimal.ParseToDecimal(count as nat);
    Decimal.ToDecimalWellFormed(count as nat);
  }

  /** Conversely every query the parser accepts is the one `search` builds for it. */
  lemma ParsedSearchPairs(pairs: seq<(string, string)>)
    requires ParseSearchPairs(pairs).Some?
    ensures var r := ParseSearchPairs(pairs).value;
      SearchPairs(r.query, r.count, r.cursor) == pairs
  {
    var r := ParseSearchPairs(pairs).value;
    var s := SearchPairs(r.query, r.count, r.cursor);
    assert s[2] == pairs[2];
    assert |s| == |pairs|;
    forall i | 0 <= i < |pairs| ensures s[i] == pairs[i] {
      if i == 0 {
        assert s[0] == ("q", pairs[0].1);
      }
    }
  }

  // ---------------------------------------------------------------------------
  // The pagination walk of `search_all`

  /** What the stream of `search_all` delivers: the requests it made, in order, the items
      it yielded, in order, and the error that ended it, if any. */
  datatype Walk = Walk(requests: seq<Request>, items: seq<MetadataItem>, failure: Option<Error>)

  /** The page chain that starts at `cursor` ends (an error or a response without a
      cursor) within `fuel` requests. */
  ghost predicate EndsWithin(search: Searcher, query: string, cursor: Option<string>, fuel: nat)
    decreases fuel
  {
    fuel > 0 &&
    var response := search(Request(query, PageSize, cursor));
    response.Err? || response.value.cursor.None?
    || EndsWithin(search, query, response.value.cursor, fuel - 1)
  }

  /** The walk from `cursor` on, one request after the other. */
  ghost function WalkFrom(search: Searcher, query: string, cursor: Option<string>, fuel: nat): Walk
    requires EndsWithin(search, query, cursor, fuel)
    decreases fuel
  {
    var request := Request(query, PageSize, cursor);
    match search(request)
    case Err(e) => Walk([request], [], Some(e))
    case Ok(response) =>
      if response.cursor.None? then Walk([request], response.items, None)
      else
        var rest := WalkFrom(search, query, response.cursor, fuel - 1);
        Walk([request] + rest.requests, response.items + rest.items, rest.failure)
  }

  /** The items a list of requests got back, page after page; a failed request gives none. */
  function PageItems(search: Searcher, requests: seq<Request>): seq<MetadataItem>
    decreases |requests|
  {
    if requests == [] then []
    else
      var page := search(requests[0]);
      (if page.Ok? then page.value.items else []) + PageItems(search, requests[1..])
  }

  lemma {:induction false} PageItemsAppend(search: Searcher, a: seq<Request>, b: seq<Request>)
    ensures PageItems(search, a + b) == PageItems(search, a) + PageItems(search, b)
    decreases |a|
  {
    if a == [] {
      assert a + b == b;
    } else {
      assert (a + b)[0] == a[0];
      assert (a + b)[1..] == a[1..] + b;
      PageItemsAppend(search, a[1..], b);
    }
  }

  /** The walk's shape: at least one request; the first carries the starting cursor; every
      request asks for the same query and `PageSize` items; request k+1 carries exactly
      the cursor response k returned; the last response is an error or has no cursor,
      and that error, if any, is the walk's failure. */
  lemma {:induction false} WalkRequests(search: Searcher, query: string, cursor: Option<string>, fuel: nat)
    requires EndsWithin(search, query, cursor, fuel)
    ensures var w := WalkFrom(search, query, cursor, fuel);
      && |w.requests| >= 1
      && w.requests[0].cursor == cursor
      && (forall k :: 0 <= k < |w.requests| ==>
            w.requests[k].query == query && w.requests[k].count == PageSize)
      && (forall k :: 0 <= k < |w.requests| - 1 ==>
            search(w.requests[k]).Ok? && search(w.requests[k]).value.cursor.Some?
            && w.requests[k + 1].cursor == search(w.requests[k]).value.cursor)
      && var last := search(w.requests[|w.requests| - 1]);
      && (last.Err? || last.value.cursor.None?)
      && w.failure == (if last.Err? then Some(last.error) else None)
    decreases fuel
  {
    var request := Request(query, PageSize, cursor);
    var w := WalkFrom(search, query, cursor, fuel);
    if search(request).Ok? && search(request).value.cursor.Some? {
      var next := search(request).value.cursor;
      WalkRequests(search, query, next, fuel - 1);
      var rest := WalkFrom(search, query, next, fuel - 1);
      assert w.requests == [request] + rest.requests;
      assert w.requests[1..] == rest.requests;
      assert forall k :: 1 <= k < |w.requests| ==> w.requests[k] == rest.requests[k - 1];
    }
  }

  /** The walk yields every item of every fetched page exactly once, pages in request
      order and items in page order; a failed page contributes none. */
  lemma {:induction false} WalkItems(search: Searcher, query: string, cursor: Option<string>, fuel: nat)
    requires EndsWithin(search, query, cursor, fuel)
    ensures var w := WalkFrom(search, query, cursor, fuel);
      w.items == PageItems(search, w.requests)
    decreases fuel
  {
    var request := Request(query, PageSize, cursor);
    if search(request).Ok? && search(request).value.cursor.Some? {
      var next := search(request).value.cursor;
      WalkItems(search, query, next, fuel - 1);
      var rest := WalkFrom(search, query, next, fuel - 1);
      PageItemsAppend(search, [request], rest.requests);
    }
  }

  /** The walk does not depend on the bound used to show that it ends. */
  lemma {:induction false} WalkFuelIrrelevant(search: Searcher, query: string, cursor: Option<string>,
                                              fuel: nat, fuel': nat)
    requires EndsWithin(search, query, cursor, fuel)
    requires EndsWithin(search, query, cursor, fuel')
    ensures WalkFrom(search, query, cursor, fuel) == WalkFrom(search, query, cursor, fuel')
    decreases fuel
  {
    var response := search(Request(query, PageSize, cursor));
    if response.Ok? && response.value.cursor.Some? {
      WalkFuelIrrelevant(search, query, response.value.cursor, fuel - 1, fuel' - 1);
    }
  }

  /** The walk followed by the rest of it. */
  function Then(a: Walk, b: Walk): Walk {
    Walk(a.requests + b.requests, a.items + b.items, b.failure)
  }

  lemma ThenAssociative(a: Walk, b: Walk, c: Walk)
    ensures Then(Then(a, b), c) == Then(a, Then(b, c))
  {
    assert (a.requests + b.requests) + c.requests == a.requests + (b.requests + c.requests);
    assert (a.items + b.items) + c.items == a.items + (b.items + c.items);
  }

  /** One step of the walk: a page that carries a cursor is followed by the walk from it. */
  lemma WalkStep(search: Searcher, query: string, cursor: Option<string>, fuel: nat)
    requires EndsWithin(search, query, cursor, fuel)
    requires search(Request(query, PageSize, cursor)).Ok?
    ensures var request := Request(query, PageSize, cursor);
      var response := search(request).value;
      var page := Walk([request], response.items, None);
      if response.cursor.None? then WalkFrom(search, query, cursor, fuel) == page
      else
        && fuel > 0 && EndsWithin(search, query, response.cursor, fuel - 1)
        && WalkFrom(search, query, cursor, fuel) == Then(page, WalkFrom(search, query, response.cursor, fuel - 1))
  {
  }

  /** The items of one page, yielded one by one after those already yielded. */
  method YieldPage(yielded: seq<MetadataItem>, items: seq<MetadataItem>) returns (out: seq<MetadataItem>)
    ensures out == yielded + items
  {
    out := yielded;
    var j := 0;
    while j < |items|
      invariant 0 <= j <= |items|
      invariant out == yielded + items[..j]
    {
      out := out + [items[j]];
      assert items[..j + 1] == items[..j] + [items[j]];
      j := j + 1;
    }
    assert items[..j] == items;
  }

  /** `search_all`: requests pages from no cursor on, yielding each page's items in order
      until a response without a cursor or the first error. `fuel` bounds the number of
      pages and exists only for the proof that the loop ends. */
  method SearchAll(search: Searcher, query: string, ghost fuel: nat) returns (w: Walk)
    requires EndsWithin(search, query, None, fuel)
    ensures w == WalkFrom(search, query, None, fuel)
  {
    var cursor: Option<string> := None;
    ghost var left := fuel;
    var requests: seq<Request> := [];
    var yielded: seq<MetadataItem> := [];
    while true
      invariant EndsWithin(search, query, cursor, left)
      invariant WalkFrom(search, query, None, fuel) == Then(Walk(requests, yielded, None), WalkFrom(search, query, cursor, left))
      decreases left
    {
      var request := Request(query, PageSize, cursor);
      var response := search(request);
      if response.Err? {
        return Walk(requests + [request], yielded, Some(response.error));
      }
      ghost var done := Walk(requests, yielded, None);
      ghost var page := Walk([request], response.value.items, None);
      WalkStep(search, query, cursor, left);
      yielded := YieldPage(yielded, response.value.items);
      requests := requests + [request];
      assert Then(done, page) == Walk(requests, yielded, None);
      cursor := response.value.cursor;
      if cursor.None? {
        return Walk(requests, yielded, None);
      }
      ThenAssociative(done, page, WalkFrom(search, query, cursor, left - 1));
      left := left - 1;
    }
  }

  // ---------------------------------------------------------------------------
  // Choosing the file to download

  const VideoFormat: string := "MPEG4"

  /** The index of the first file at or after `from` whose format is exactly "MPEG4". */
  function FindVideoFrom(files: seq<File>, from: nat): (r: Option<nat>)
    requires from <= |files|
    ensures r.Some? ==> from <= r.value < |files| && files[r.value].format == VideoFormat
    ensures forall j :: from <= j < (if r.Some? then r.value else |files|) ==> files[j].format != VideoFormat
    decreases |files| - from
  {
    if from == |files| then None
    else if files[from].format == VideoFormat then Some(from)
    else FindVideoFrom(files, from + 1)
  }

  /** `files.iter().find(|f| f.format == "MPEG4")`, with the error `ok_or_eyre` gives. */
  function VideoFile(files: seq<File>): (r: Result<File>)
    ensures r.Ok? ==> exists i :: 0 <= i < |files| && files[i] == r.value
                              && r.value.format == VideoFormat
                              && forall j :: 0 <= j < i ==> files[j].format != VideoFormat
    ensures r.Err? <==> forall j :: 0 <= j < |files| ==> files[j].format != VideoFormat
    ensures r.Err? ==> r.error == Error("no video file found")
  {
    match FindVideoFrom(files, 0)
    case None => Err(Error("no video file found"))
    case Some(i) => Ok(files[i])
  }

  /** The URL `download_video` composes for the chosen file. */
  function VideoUrl(details: ExtendedMetadata, file: File): string {
    "https://" + details.server + details.directory + "/" + file.name
  }

  /** `download_video` after `get_item_details` returned `details`: the URL of the first
      MPEG4 file, which is `https://`, the item's server and directory, '/' and the file's
      name; or the lookup's error, or the selection's when no file is MPEG4. Nothing is
      downloaded and the target folder is not used. */
  function DownloadVideo(details: Result<ExtendedMetadata>): (r: Result<string>)
    ensures r.Err? <==> details.Err? || forall j :: 0 <= j < |details.value.files| ==>
                                          details.value.files[j].format != VideoFormat
    ensures details.Err? ==> r == Err(details.error)
    ensures details.Ok? && r.Err? ==> r.error == Error("no video file found")
    ensures r.Ok? ==>
              && var d := details.value;
              && var file := VideoFile(d.files).value;
              && var n := 8 + |d.server|;
              && file.format == VideoFormat
              && |r.value| == n + |d.directory| + 1 + |file.name|
              && r.value[..n] == "https://" + d.server
              && r.value[n..n + |d.directory|] == d.directory
              && r.value[n + |d.directory|..] == "/" + file.name
  {
    if details.Err? then Err(details.error)
    else match VideoFile(details.value.files)
      case Err(e) => Err(e)
      case Ok(file) => Ok(VideoUrl(details.value, file))
  }
}
