/**
 * What the scoped queries of BoardApi/ImageStorageFunction.cs compute
 * (`GetUserImages`, `GetUserTypeImages`): the metadata records of one owner (and
 * category) joined with the blobs of the owner's container by image name.
 *
 * Responses of the two stores are values here. The document store answers with
 * pages, each of which is either a batch of records or the exception its read
 * raised. The blob listing yields items or an exception, and each listed blob
 * carries the outcome of reading its payload.
 *
 * `List.Find` hands back a reference to a record of the query list, which the
 * loop then mutates and appends. A reference is modelled as an index into the
 * query list: the join keeps the (mutated) query list and the sequence of indices
 * appended, and the catalogue reads the records at those indices at the end.
 */
module Reconciler {
  import opened Wrappers
  import opened Models
  import opened Helpers

  /** A blob as the listing yields it, with the outcome of reading its payload. */
  datatype BlobItem = BlobItem(name: string, createdOn: Option<Timestamp>, content: Result<seq<byte>, Error>)

  /** One `ReadNextAsync` of the document feed. */
  type Page = Result<seq<ImageData>, Error>

  /** One step of `GetBlobsAsync`. */
  type Listing = seq<Result<BlobItem, Error>>

  /** The owner scope of `GetUserImages` and the owner-and-category scope of `GetUserTypeImages`. */
  datatype Scope = User(userName: string) | UserType(userName: string, category: string)

  /** The `Where` filter of the document query (C# `==` on strings: null equals no name). */
  predicate InScope(r: ImageData, scope: Scope)
  {
    && r.userName == Some(scope.userName)
    && (scope.UserType? ==> r.category == Some(scope.category))
  }

  function Where(records: seq<ImageData>, scope: Scope): (r: seq<ImageData>)
    ensures forall i :: 0 <= i < |r| ==> InScope(r[i], scope) && r[i] in records
    ensures forall x :: x in records && InScope(x, scope) ==> x in r
  {
    if records == [] then []
    else
      var n := |records| - 1;
      assert forall x :: x in records ==> x in records[..n] || x == records[n];
      Where(records[..n], scope) + (if InScope(records[n], scope) then [records[n]] else [])
  }

  /** `imageQuery` after the `while (imageIterator.HasMoreResults)` loop, or the first read that threw. */
  function Gather(pages: seq<Page>, scope: Scope): Result<seq<ImageData>, Error>
  {
    if pages == [] then Success([])
    else
      match Gather(pages[..|pages| - 1], scope)
      case Failure(e) => Failure(e)
      case Success(q) =>
        match pages[|pages| - 1]
        case Failure(e) => Failure(e)
        case Success(page) => Success(q + Where(page, scope))
  }

  /** The records of all the pages that were read, in feed order. */
  function Documents(pages: seq<Page>): seq<ImageData>
  {
    if pages == [] then []
    else
      var n := |pages| - 1;
      Documents(pages[..n]) + (match pages[n] case Success(page) => page case Failure(_) => [])
  }

  /** `List.Find` on the image name: the first record named `name`, as its index. */
  function FirstIndex(q: seq<ImageData>, name: string): (k: Option<nat>)
    ensures k.Some? ==> k.value < |q| && q[k.value].imageName == Some(name)
    ensures k.Some? ==> forall i :: 0 <= i < k.value ==> q[i].imageName != Some(name)
    ensures k.None? ==> forall i :: 0 <= i < |q| ==> q[i].imageName != Some(name)
  {
    if q == [] then None
    else if q[0].imageName == Some(name) then Some(0)
    else
      match FirstIndex(q[1..], name)
      case None => None
      case Some(k) => Some(k + 1)
  }

  /**
   * `imageQuery.Find(x => x.ImageName == blobName.NoFileExt())`: the predicate, and
   * with it `NoFileExt`, runs on the first record visited, so a name without a '.'
   * throws unless the query list is empty.
   */
  function FindByBlob(q: seq<ImageData>, blobName: string): (r: Result<Option<nat>, Error>)
    ensures q == [] ==> r == Success(None)
    ensures q != [] ==> (r.Failure? <==> '.' !in blobName)
    ensures r.Success? && r.value.Some? ==> r.value.value < |q|
  {
    if q == [] then Success(None)
    else
      match NoFileExt(blobName)
      case Failure(e) => Failure(e)
      case Success(stem) => Success(FirstIndex(q, stem))
  }

  /** The record a blob selects: the first one named after the blob without its extension. */
  function StemIndex(q: seq<ImageData>, blobName: string): (k: Option<nat>)
    ensures k.Some? ==> k.value < |q|
  {
    match NoFileExt(blobName)
    case Failure(_) => None
    case Success(stem) => FirstIndex(q, stem)
  }

  /** The two assignments to the matched record: `CreatedOnDate` and `ImageBytes` from the blob. */
  function Refresh(r: ImageData, createdOn: Option<Timestamp>, bytes: seq<byte>): ImageData
  {
    r.(createdOnDate := createdOn, imageBytes := Some(bytes))
  }

  /** The record fields the join never touches. */
  predicate SameMetadata(a: ImageData, b: ImageData)
  {
    && a.id == b.id && a.userName == b.userName && a.category == b.category
    && a.imageName == b.imageName && a.description == b.description
  }

  /** The query list, with the records mutated so far, and the indices appended to `Images`. */
  datatype JoinState = JoinState(query: seq<ImageData>, picked: seq<nat>)

  predicate WellFormed(s: JoinState)
  {
    forall j :: 0 <= j < |s.picked| ==> s.picked[j] < |s.query|
  }

  /** One iteration of the `await foreach` over the blobs. */
  function Step(s: JoinState, item: Result<BlobItem, Error>): Result<JoinState, Error>
  {
    match item
    case Failure(e) => Failure(e)
    case Success(blob) =>
      match FindByBlob(s.query, blob.name)
      case Failure(e) => Failure(e)
      case Success(None) => Success(s)
      case Success(Some(k)) =>
        match blob.content
        case Failure(e) => Failure(e)
        case Success(bytes) =>
          Success(JoinState(s.query[k := Refresh(s.query[k], blob.createdOn, bytes)], s.picked + [k]))
  }

  /** The join over the listing, starting from the query list `q`; the first exception ends it. */
  function Join(q: seq<ImageData>, listing: Listing): (r: Result<JoinState, Error>)
    ensures r.Success? ==> WellFormed(r.value) && |r.value.query| == |q|
    ensures r.Success? ==> forall k :: 0 <= k < |q| ==> SameMetadata(r.value.query[k], q[k])
  {
    if listing == [] then Success(JoinState(q, []))
    else
      match Join(q, listing[..|listing| - 1])
      case Failure(e) => Failure(e)
      case Success(s) => Step(s, listing[|listing| - 1])
  }

  /** `imageList.Images`: the records at the appended indices, as they are once the loop is over. */
  function Images(s: JoinState): (images: seq<ImageData>)
    requires WellFormed(s)
    ensures |images| == |s.picked|
  {
    seq(|s.picked|, j requires 0 <= j < |s.picked| => s.query[s.picked[j]])
  }

  /** `imageList.Images` after the blob loop over the query list `q`, or the exception that ended it. */
  function JoinImages(q: seq<ImageData>, listing: Listing): Result<seq<ImageData>, Error>
  {
    match Join(q, listing)
    case Failure(e) => Failure(e)
    case Success(s) => Success(Images(s))
  }

  /** The images of a scoped query, or the exception that ended it. */
  function Reconcile(pages: seq<Page>, listing: Listing, scope: Scope): Result<seq<ImageData>, Error>
  {
    match Gather(pages, scope)
    case Failure(e) => Failure(e)
    case Success(q) => JoinImages(q, listing)
  }

  // ---------------------------------------------------------------------------
  // The metadata read

  lemma {:induction false} WhereConcat(a: seq<ImageData>, b: seq<ImageData>, scope: Scope)
    ensures Where(a + b, scope) == Where(a, scope) + Where(b, scope)
    decreases |b|
  {
    if b == [] {
      assert a + b == a;
    } else {
      var n := |b| - 1;
      assert (a + b)[..|a + b| - 1] == a + b[..n];
      WhereConcat(a, b[..n], scope);
    }
  }

  /**
   * One record is kept exactly when it is in scope. With `WhereConcat` this pins
   * the filter down: it keeps the in-scope records, in input order, each once.
   */
  lemma WhereOne(x: ImageData, scope: Scope)
    ensures Where([x], scope) == if InScope(x, scope) then [x] else []
  {
    assert [x][..0] == [];
  }

  /** No record is kept exactly when none is in scope. */
  lemma {:induction false} WhereEmpty(records: seq<ImageData>, scope: Scope)
    ensures Where(records, scope) == [] <==> forall i :: 0 <= i < |records| ==> !InScope(records[i], scope)
  {
    if records != [] {
      var n := |records| - 1;
      WhereEmpty(records[..n], scope);
      assert forall i :: 0 <= i < n ==> records[..n][i] == records[i];
    }
  }

  /**
   * The metadata read succeeds exactly when every page is read, and then yields
   * the in-scope records of all pages, in feed order, however the feed is paged.
   */
  lemma {:induction false} GatherSpec(pages: seq<Page>, scope: Scope)
    ensures Gather(pages, scope).Success? <==> forall i :: 0 <= i < |pages| ==> pages[i].Success?
    ensures Gather(pages, scope).Success? ==> Gather(pages, scope).value == Where(Documents(pages), scope)
  {
    if pages != [] {
      var n := |pages| - 1;
      GatherSpec(pages[..n], scope);
      assert forall i :: 0 <= i < n ==> pages[..n][i] == pages[i];
      if pages[n].Success? {
        WhereConcat(Documents(pages[..n]), pages[n].value, scope);
      }
    }
  }

  /** Once a read of the feed throws, later pages change nothing: the first exception is reported. */
  lemma {:induction false} GatherFailureFirst(pages: seq<Page>, scope: Scope, m: nat)
    requires m <= |pages|
    requires Gather(pages[..m], scope).Failure?
    ensures Gather(pages, scope) == Gather(pages[..m], scope)
  {
    if m < |pages| {
      var n := |pages| - 1;
      assert pages[..n][..m] == pages[..m];
      GatherFailureFirst(pages[..n], scope, m);
    } else {
      assert pages[..m] == pages;
    }
  }

  // ---------------------------------------------------------------------------
  // The blob loop

  /** Once the blob loop throws, later blobs change nothing: the first exception is reported. */
  lemma {:induction false} JoinFailureFirst(q: seq<ImageData>, listing: Listing, m: nat)
    requires m <= |listing|
    requires Join(q, listing[..m]).Failure?
    ensures Join(q, listing) == Join(q, listing[..m])
  {
    if m < |listing| {
      var n := |listing| - 1;
      assert listing[..n][..m] == listing[..m];
      JoinFailureFirst(q, listing[..n], m);
    } else {
      assert listing[..m] == listing;
    }
  }

  /** `List.Find` on the image name sees only the names, which the join does not change. */
  lemma {:induction false} FirstIndexByNames(q: seq<ImageData>, q': seq<ImageData>, name: string)
    requires |q'| == |q|
    requires forall k :: 0 <= k < |q| ==> q'[k].imageName == q[k].imageName
    ensures FirstIndex(q', name) == FirstIndex(q, name)
  {
    if q != [] && q[0].imageName != Some(name) {
      FirstIndexByNames(q[1..], q'[1..], name);
    }
  }

  /** A blob is handled without an exception. */
  predicate ItemOk(q: seq<ImageData>, item: Result<BlobItem, Error>)
  {
    && item.Success?
    && (q != [] ==> '.' in item.value.name)
    && (StemIndex(q, item.value.name).Some? ==> item.value.content.Success?)
  }

  predicate AllOk(q: seq<ImageData>, listing: Listing)
  {
    forall i :: 0 <= i < |listing| ==> ItemOk(q, listing[i])
  }

  /** The record a blob selects in the mutated query list is the one it selects in the original list. */
  lemma FindByBlobStemIndex(q: seq<ImageData>, s: JoinState, blobName: string)
    requires |s.query| == |q|
    requires forall k :: 0 <= k < |q| ==> SameMetadata(s.query[k], q[k])
    requires q != [] ==> '.' in blobName
    ensures FindByBlob(s.query, blobName) == Success(StemIndex(q, blobName))
  {
    if q != [] {
      FirstIndexByNames(q, s.query, NoFileExt(blobName).value);
    }
  }

  /**
   * The blob loop runs to the end exactly when no blob raises an exception: no
   * listing step throws, no blob name lacks a '.' (unless the query list is
   * empty), and every blob that selects a record can be read.
   */
  lemma {:induction false} JoinSucceedsIff(q: seq<ImageData>, listing: Listing)
    ensures Join(q, listing).Success? <==> AllOk(q, listing)
  {
    if listing != [] {
      var n := |listing| - 1;
      var p := listing[..n];
      JoinSucceedsIff(q, p);
      assert forall i :: 0 <= i < n ==> p[i] == listing[i];
      var r := Join(q, p);
      if r.Success? && listing[n].Success? {
        var name := listing[n].value.name;
        if q != [] && '.' !in name {
          assert FindByBlob(r.value.query, name).Failure?;
        } else {
          FindByBlobStemIndex(q, r.value, name);
        }
      }
    }
  }

  // ---------------------------------------------------------------------------
  // A reference definition of the catalogue, without the mutable query list

  /** A blob that selects a record, with the index of that record. */
  datatype Match = Match(record: nat, blob: BlobItem)

  /** The blobs that select a record, in listing order. */
  function Matches(q: seq<ImageData>, listing: Listing): (m: seq<Match>)
    ensures forall j :: 0 <= j < |m| ==> m[j].record < |q|
    ensures forall j :: 0 <= j < |m| ==>
      Success(m[j].blob) in listing && StemIndex(q, m[j].blob.name) == Some(m[j].record)
  {
    if listing == [] then []
    else
      var n := |listing| - 1;
      Matches(q, listing[..n]) +
        match listing[n]
        case Failure(_) => []
        case Success(b) =>
          match StemIndex(q, b.name)
          case None => []
          case Some(k) => [Match(k, b)]
  }

  function Records(m: seq<Match>): (r: seq<nat>)
    ensures |r| == |m|
    ensures forall j :: 0 <= j < |m| ==> r[j] == m[j].record
  {
    seq(|m|, j requires 0 <= j < |m| => m[j].record)
  }

  /** With no records in scope no blob selects anything. */
  lemma {:induction false} MatchesOfEmpty(listing: Listing)
    ensures Matches([], listing) == []
  {
    if listing != [] {
      MatchesOfEmpty(listing[..|listing| - 1]);
    }
  }

  /** The last blob in the listing that selects record `k`. */
  function LastFetch(q: seq<ImageData>, listing: Listing, k: nat): Option<BlobItem>
  {
    if listing == [] then None
    else
      var n := |listing| - 1;
      if listing[n].Success? && StemIndex(q, listing[n].value.name) == Some(k) then Some(listing[n].value)
      else LastFetch(q, listing[..n], k)
  }

  /** Each record as the join leaves it: refreshed from the last blob that selects it, if any. */
  function Refreshed(q: seq<ImageData>, listing: Listing): (r: seq<ImageData>)
    ensures |r| == |q|
  {
    seq(|q|, k requires 0 <= k < |q| =>
      match LastFetch(q, listing, k)
      case None => q[k]
      case Some(b) =>
        match b.content
        case Failure(_) => q[k]
        case Success(bytes) => Refresh(q[k], b.createdOn, bytes))
  }

  /** The catalogue a scoped query returns for the query list `q`: one entry per blob that selects a record. */
  function Catalogue(q: seq<ImageData>, listing: Listing): (c: seq<ImageData>)
    ensures |c| == |Matches(q, listing)|
  {
    var m := Matches(q, listing);
    var r := Refreshed(q, listing);
    seq(|m|, j requires 0 <= j < |m| => r[m[j].record])
  }

  /** Every blob the reference definition records was fetched without an exception. */
  lemma {:induction false} LastFetchOk(q: seq<ImageData>, listing: Listing, k: nat)
    requires AllOk(q, listing)
    ensures LastFetch(q, listing, k).Some? ==>
      var b := LastFetch(q, listing, k).value;
      b.content.Success? && StemIndex(q, b.name) == Some(k)
  {
    if listing != [] {
      var n := |listing| - 1;
      assert ItemOk(q, listing[n]);
      assert forall i :: 0 <= i < n ==> listing[..n][i] == listing[i];
      LastFetchOk(q, listing[..n], k);
    }
  }

  /** A last blob that selects no record changes neither the refreshed records nor the matches. */
  lemma ReferenceStepNone(q: seq<ImageData>, listing: Listing)
    requires listing != [] && listing[|listing| - 1].Success?
    requires StemIndex(q, listing[|listing| - 1].value.name).None?
    ensures var p := listing[..|listing| - 1];
      Refreshed(q, listing) == Refreshed(q, p) && Matches(q, listing) == Matches(q, p)
  {
    var p := listing[..|listing| - 1];
    forall k | 0 <= k < |q| ensures Refreshed(q, listing)[k] == Refreshed(q, p)[k] {
      assert LastFetch(q, listing, k) == LastFetch(q, p, k);
    }
  }

  /** A last blob that selects record `k` refreshes `k` from itself and appends one match for `k`. */
  lemma ReferenceStepSome(q: seq<ImageData>, listing: Listing)
    requires listing != [] && AllOk(q, listing)
    requires StemIndex(q, listing[|listing| - 1].value.name).Some?
    ensures var p := listing[..|listing| - 1];
      var b := listing[|listing| - 1].value;
      var k := StemIndex(q, b.name).value;
      && b.content.Success?
      && Refreshed(q, listing) == Refreshed(q, p)[k := Refresh(Refreshed(q, p)[k], b.createdOn, b.content.value)]
      && Records(Matches(q, listing)) == Records(Matches(q, p)) + [k]
  {
    var n := |listing| - 1;
    var p := listing[..n];
    var b := listing[n].value;
    var k := StemIndex(q, b.name).value;
    assert ItemOk(q, listing[n]);
    var r := Refreshed(q, p);
    var r' := r[k := Refresh(r[k], b.createdOn, b.content.value)];
    forall k' | 0 <= k' < |q| ensures Refreshed(q, listing)[k'] == r'[k'] {
      if k' == k {
        assert LastFetch(q, listing, k) == Some(b);
      } else {
        assert LastFetch(q, listing, k') == LastFetch(q, p, k');
      }
    }
  }

  /**
   * The imperative join computes the reference definition: the query list ends
   * up with each record refreshed from the last blob that selects it, and the
   * indices appended are those of the selecting blobs, in listing order.
   */
  lemma {:induction false} JoinIsReference(q: seq<ImageData>, listing: Listing)
    requires AllOk(q, listing)
    ensures Join(q, listing) == Success(JoinState(Refreshed(q, listing), Records(Matches(q, listing))))
  {
    if listing == [] {
      assert Refreshed(q, listing) == q;
      assert Records(Matches(q, listing)) == [];
    } else {
      var n := |listing| - 1;
      var p := listing[..n];
      assert forall i :: 0 <= i < n ==> p[i] == listing[i];
      JoinIsReference(q, p);
      var s := JoinState(Refreshed(q, p), Records(Matches(q, p)));
      var b := listing[n].value;
      assert ItemOk(q, listing[n]);
      forall k | 0 <= k < |q| ensures SameMetadata(s.query[k], q[k]) {
        LastFetchOk(q, p, k);
      }
      FindByBlobStemIndex(q, s, b.name);
      if StemIndex(q, b.name).None? {
        ReferenceStepNone(q, listing);
      } else {
        ReferenceStepSome(q, listing);
      }
    }
  }

  /**
   * End to end: when every page is read and no blob raises an exception, the
   * query yields the reference catalogue over the in-scope records; otherwise it
   * yields no catalogue at all.
   */
  lemma ReconcileSpec(pages: seq<Page>, listing: Listing, scope: Scope)
    ensures Reconcile(pages, listing, scope).Success? <==>
      (forall i :: 0 <= i < |pages| ==> pages[i].Success?) && AllOk(Where(Documents(pages), scope), listing)
    ensures Reconcile(pages, listing, scope).Success? ==>
      Reconcile(pages, listing, scope).value == Catalogue(Where(Documents(pages), scope), listing)
  {
    GatherSpec(pages, scope);
    if Gather(pages, scope).Success? {
      var q := Where(Documents(pages), scope);
      JoinSucceedsIff(q, listing);
      if AllOk(q, listing) {
        JoinIsReference(q, listing);
      }
    }
  }

  // ---------------------------------------------------------------------------
  // Properties of the catalogue

  /**
   * Entry `j` of the catalogue belongs to the `j`-th blob that selects a record:
   * it is the FIRST record named after that blob without its extension, with
   * every field but `CreatedOnDate` and `ImageBytes` as in the query list, and
   * those two taken from the LAST blob that selects the same record.
   */
  lemma CatalogueEntries(q: seq<ImageData>, listing: Listing)
    requires AllOk(q, listing)
    ensures var m := Matches(q, listing); var c := Catalogue(q, listing);
      forall j :: 0 <= j < |c| ==>
        var k := m[j].record;
        && NoFileExt(m[j].blob.name).Success?
        && c[j].imageName == Some(NoFileExt(m[j].blob.name).value)
        && (forall i :: 0 <= i < k ==> q[i].imageName != c[j].imageName)
        && SameMetadata(c[j], q[k])
        && LastFetch(q, listing, k).Some?
        && var b := LastFetch(q, listing, k).value;
           b.content.Success? && c[j] == Refresh(q[k], b.createdOn, b.content.value)
  {
    var m := Matches(q, listing);
    forall j | 0 <= j < |m|
      ensures LastFetch(q, listing, m[j].record).Some?
    {
      LastFetchOfMatch(q, listing, j);
    }
    forall k | 0 <= k < |q| {
      LastFetchOk(q, listing, k);
    }
  }

  /** A blob that is matched has a last fetch for its record. */
  lemma {:induction false} LastFetchOfMatch(q: seq<ImageData>, listing: Listing, j: nat)
    requires j < |Matches(q, listing)|
    ensures LastFetch(q, listing, Matches(q, listing)[j].record).Some?
  {
    var n := |listing| - 1;
    var p := listing[..n];
    var k := Matches(q, listing)[j].record;
    if j < |Matches(q, p)| {
      if LastFetch(q, listing, k) != LastFetch(q, p, k) {
      } else {
        LastFetchOfMatch(q, p, j);
      }
    }
  }

  /**
   * Every record of a scoped catalogue is in scope (owner, and category for the
   * typed query), and is named after some listed blob without its extension: a
   * record that no blob names never appears.
   */
  lemma CatalogueInScope(records: seq<ImageData>, listing: Listing, scope: Scope)
    requires AllOk(Where(records, scope), listing)
    ensures var c := Catalogue(Where(records, scope), listing);
      forall j :: 0 <= j < |c| ==>
        && InScope(c[j], scope)
        && exists b :: Success(b) in listing && NoFileExt(b.name) == Success(c[j].imageName.value)
  {
    var q := Where(records, scope);
    var m := Matches(q, listing);
    var c := Catalogue(q, listing);
    CatalogueEntries(q, listing);
    forall j | 0 <= j < |c|
      ensures InScope(c[j], scope)
      ensures exists b :: Success(b) in listing && NoFileExt(b.name) == Success(c[j].imageName.value)
    {
      assert InScope(q[m[j].record], scope);
      assert Success(m[j].blob) in listing;
    }
  }

  lemma {:induction false} MatchesConcat(q: seq<ImageData>, a: Listing, b: Listing)
    ensures Matches(q, a + b) == Matches(q, a) + Matches(q, b)
    decreases |b|
  {
    if b == [] {
      assert a + b == a;
    } else {
      var n := |b| - 1;
      assert (a + b)[..|a + b| - 1] == a + b[..n];
      MatchesConcat(q, a, b[..n]);
    }
  }

  lemma {:induction false} LastFetchConcat(q: seq<ImageData>, a: Listing, b: Listing, k: nat)
    ensures LastFetch(q, a + b, k) ==
            if LastFetch(q, b, k).Some? then LastFetch(q, b, k) else LastFetch(q, a, k)
    decreases |b|
  {
    if b == [] {
      assert a + b == a;
    } else {
      var n := |b| - 1;
      assert (a + b)[..|a + b| - 1] == a + b[..n];
      LastFetchConcat(q, a, b[..n], k);
    }
  }

  /** The records as the join leaves them depend only on which blob last selects each of them. */
  lemma RefreshedByLastFetch(q: seq<ImageData>, l1: Listing, l2: Listing)
    requires forall k :: LastFetch(q, l1, k) == LastFetch(q, l2, k)
    ensures Refreshed(q, l1) == Refreshed(q, l2)
  {
  }

  /** A single blob that selects record `k` is one match for `k`. */
  lemma MatchesOne(q: seq<ImageData>, x: Listing)
    requires |x| == 1 && x[0].Success? && StemIndex(q, x[0].value.name).Some?
    ensures Matches(q, x) == [Match(StemIndex(q, x[0].value.name).value, x[0].value)]
  {
    assert x[..0] == [];
  }

  /** Every listed blob that selects a record is matched: no selecting blob is skipped. */
  lemma {:induction false} MatchesComplete(q: seq<ImageData>, listing: Listing, i: nat)
    requires i < |listing| && listing[i].Success? && StemIndex(q, listing[i].value.name).Some?
    ensures Match(StemIndex(q, listing[i].value.name).value, listing[i].value) in Matches(q, listing)
  {
    var n := |listing| - 1;
    if i < n {
      assert listing[..n][i] == listing[i];
      MatchesComplete(q, listing[..n], i);
    }
  }

  lemma OrphanAlone(q: seq<ImageData>, x: Listing)
    requires |x| == 1 && x[0].Success? && StemIndex(q, x[0].value.name).None?
    ensures Matches(q, x) == [] && forall k :: LastFetch(q, x, k) == None
  {
    assert x[..0] == [];
  }

  lemma DropOrphanMatches(q: seq<ImageData>, a: Listing, x: Listing, b: Listing)
    requires |x| == 1 && x[0].Success? && StemIndex(q, x[0].value.name).None?
    ensures Matches(q, a + x + b) == Matches(q, a + b)
  {
    OrphanAlone(q, x);
    MatchesConcat(q, a, x);
    MatchesConcat(q, a + x, b);
    MatchesConcat(q, a, b);
  }

  lemma DropOrphanRefreshed(q: seq<ImageData>, a: Listing, x: Listing, b: Listing)
    requires |x| == 1 && x[0].Success? && StemIndex(q, x[0].value.name).None?
    ensures Refreshed(q, a + x + b) == Refreshed(q, a + b)
  {
    OrphanAlone(q, x);
    forall k ensures LastFetch(q, a + x + b, k) == LastFetch(q, a + b, k) {
      LastFetchConcat(q, a, x, k);
      LastFetchConcat(q, a + x, b, k);
      LastFetchConcat(q, a, b, k);
    }
    RefreshedByLastFetch(q, a + x + b, a + b);
  }

  lemma DropOrphan(q: seq<ImageData>, a: Listing, x: Listing, b: Listing)
    requires |x| == 1 && x[0].Success? && StemIndex(q, x[0].value.name).None?
    ensures Catalogue(q, a + b) == Catalogue(q, a + x + b)
  {
    DropOrphanMatches(q, a, x, b);
    DropOrphanRefreshed(q, a, x, b);
  }

  /** A listed blob that selects no record can be dropped from the listing: the catalogue is the same. */
  lemma OrphanBlobIgnored(q: seq<ImageData>, listing: Listing, i: nat)
    requires i < |listing| && listing[i].Success?
    requires StemIndex(q, listing[i].value.name).None?
    ensures Catalogue(q, listing[..i] + listing[i + 1..]) == Catalogue(q, listing)
  {
    var x: Listing := [listing[i]];
    assert listing == listing[..i] + x + listing[i + 1..];
    DropOrphan(q, listing[..i], x, listing[i + 1..]);
  }

  /** The blob that last selects record `k` is the last match for `k`. */
  lemma {:induction false} LastFetchIsLastMatch(q: seq<ImageData>, listing: Listing, j: nat)
    requires j < |Matches(q, listing)|
    requires var m := Matches(q, listing);
      forall j' :: j < j' < |m| ==> m[j'].record != m[j].record
    ensures LastFetch(q, listing, Matches(q, listing)[j].record) == Some(Matches(q, listing)[j].blob)
  {
    var n := |listing| - 1;
    var p := listing[..n];
    var m := Matches(q, listing);
    var k := m[j].record;
    if j < |Matches(q, p)| {
      if listing[n].Success? && StemIndex(q, listing[n].value.name).Some? {
        assert m[|Matches(q, p)|] == Match(StemIndex(q, listing[n].value.name).value, listing[n].value);
      }
      assert LastFetch(q, listing, k) == LastFetch(q, p, k);
      assert forall j' :: j < j' < |Matches(q, p)| ==> Matches(q, p)[j'] == m[j'];
      LastFetchIsLastMatch(q, p, j);
    }
  }

  /**
   * When no two listed blobs select the same record (no `town.png` beside a
   * `town.jpg`), entry `j` carries exactly the timestamp and bytes of the `j`-th
   * selecting blob.
   */
  lemma CatalogueDistinctRecords(q: seq<ImageData>, listing: Listing)
    requires AllOk(q, listing)
    requires var m := Matches(q, listing);
      forall j, j' :: 0 <= j < j' < |m| ==> m[j].record != m[j'].record
    ensures var m := Matches(q, listing); var c := Catalogue(q, listing);
      forall j :: 0 <= j < |c| ==>
        m[j].blob.content.Success? &&
        c[j] == Refresh(q[m[j].record], m[j].blob.createdOn, m[j].blob.content.value)
  {
    var m := Matches(q, listing);
    CatalogueEntries(q, listing);
    forall j | 0 <= j < |m| ensures LastFetch(q, listing, m[j].record) == Some(m[j].blob) {
      LastFetchIsLastMatch(q, listing, j);
    }
  }

  /**
   * Aliasing: `town.png` and `town.jpg` both select the one record named `town`,
   * so the catalogue holds that record twice, both times with the bytes and the
   * timestamp of the blob listed last.
   */
  lemma TwoBlobsOneRecord(r: ImageData, t1: Timestamp, t2: Timestamp, b1: seq<byte>, b2: seq<byte>)
    requires r.imageName == Some("town")
    ensures var listing: Listing := [Success(BlobItem("town.png", Some(t1), Success(b1))),
                            Success(BlobItem("town.jpg", Some(t2), Success(b2)))];
      Join([r], listing).Success? &&
      Images(Join([r], listing).value) == [Refresh(r, Some(t2), b2), Refresh(r, Some(t2), b2)]
  {
    var x1 := BlobItem("town.png", Some(t1), Success(b1));
    var x2 := BlobItem("town.jpg", Some(t2), Success(b2));
    var listing: Listing := [Success(x1), Success(x2)];
    var first: Listing := [Success(x1)];
    NoFileExtPng("town");
    NoFileExtRoundTrip("town", "jpg");
    assert "town" + "." + "jpg" == "town.jpg";
    assert "town" + ".png" == "town.png";
    assert listing[..1] == first;
    assert first[..0] == [];
    assert FirstIndex([r], "town") == Some(0);
    assert FindByBlob([r], "town.png") == Success(Some(0));
    assert [r][0 := Refresh(r, Some(t1), b1)] == [Refresh(r, Some(t1), b1)];
    assert Join([r], first[..0]) == Success(JoinState([r], []));
    var none: seq<nat> := [];
    assert none + [0] == [0];
    assert JoinState([r], none).query == [r];
    assert FindByBlob(JoinState([r], none).query, x1.name) == Success(Some(0));
    assert Step(JoinState([r], none), Success(x1)) == Success(JoinState([Refresh(r, Some(t1), b1)], [0]));
    assert Join([r], first) == Success(JoinState([Refresh(r, Some(t1), b1)], [0]));
  }

  // ---------------------------------------------------------------------------
  // The unscoped listing of `GetAppImages`

  /** An entry of the app listing: the raw blob name, its bytes and creation time, nothing else. */
  function AppImage(name: string, createdOn: Option<Timestamp>, bytes: seq<byte>): ImageData
  {
    ImageData(None, None, None, Some(name), Some(bytes), None, createdOn)
  }

  /**
   * The images of `GetAppImages`: one per listed blob, in listing order, with no
   * metadata lookup; any failing listing step or payload read ends the listing.
   */
  function AppCatalogue(listing: Listing): (r: Result<seq<ImageData>, Error>)
    ensures r.Success? <==>
      forall i :: 0 <= i < |listing| ==> listing[i].Success? && listing[i].value.content.Success?
    ensures r.Success? ==> |r.value| == |listing|
    ensures r.Success? ==> forall i :: 0 <= i < |listing| ==>
      r.value[i] == AppImage(listing[i].value.name, listing[i].value.createdOn, listing[i].value.content.value)
  {
    if listing == [] then Success([])
    else
      var n := |listing| - 1;
      assert forall i :: 0 <= i < n ==> listing[..n][i] == listing[i];
      match AppCatalogue(listing[..n])
      case Failure(e) => Failure(e)
      case Success(images) =>
        match listing[n]
        case Failure(e) => Failure(e)
        case Success(blob) =>
          match blob.content
          case Failure(e) => Failure(e)
          case Success(bytes) => Success(images + [AppImage(blob.name, blob.createdOn, bytes)])
  }

  /** Once the app listing throws, later blobs change nothing: the first exception is reported. */
  lemma {:induction false} AppFailureFirst(listing: Listing, m: nat)
    requires m <= |listing|
    requires AppCatalogue(listing[..m]).Failure?
    ensures AppCatalogue(listing) == AppCatalogue(listing[..m])
  {
    if m < |listing| {
      var n := |listing| - 1;
      assert listing[..n][..m] == listing[..m];
      AppFailureFirst(listing[..n], m);
    } else {
      assert listing[..m] == listing;
    }
  }
}
