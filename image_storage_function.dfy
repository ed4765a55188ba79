/**
 * The request handlers of BoardApi/ImageStorageFunction.cs, as sequential
 * methods. The document store and the blob store are the fields of `Storage`
 * where the handlers write to them; where the handlers read, the stores'
 * responses are parameters (pages of the document feed, and one listing per
 * container), so that every failure the stores can report is an input.
 */
module ImageStorageFunction {
  import opened Wrappers
  import opened Models
  import opened Helpers
  import opened Reconciler
  import opened Ingestion

  /** The container `GetContainer()` opens when given no name. */
  const DefaultContainer: string := "appimages"

  /** `GetContainer`: `CreateIfNotExists` makes an absent container an empty one. */
  function GetContainer(containers: map<string, Listing>, containerName: string := DefaultContainer): (listing: Listing)
    ensures containerName in containers ==> listing == containers[containerName]
    ensures containerName !in containers ==> listing == []
  {
    if containerName in containers then containers[containerName] else []
  }

  /**
   * A listing shows the stored container `c`: each stored blob exactly once, with
   * the creation time and the bytes the store holds, and nothing else.
   */
  predicate Reflects(listing: Listing, c: Container)
  {
    && (forall i :: 0 <= i < |listing| ==>
          && listing[i].Success? && listing[i].value.name in c
          && listing[i].value.createdOn == Some(c[listing[i].value.name].createdOn)
          && listing[i].value.content == Success(c[listing[i].value.name].bytes))
    && (forall i, j :: 0 <= i < j < |listing| && listing[i].Success? && listing[j].Success? ==>
          listing[i].value.name != listing[j].value.name)
    && (forall f :: f in c ==> exists i :: 0 <= i < |listing| && listing[i].Success? && listing[i].value.name == f)
  }

  /** The listings the queries see are those of the blob store the ingestion writes. */
  predicate Mirrors(containers: map<string, Listing>, store: BlobStore)
  {
    containers.Keys == store.Keys && forall c :: c in store ==> Reflects(containers[c], store[c])
  }

  /**
   * The container a query opens lists what the blob store holds under that name,
   * and an absent container, which `CreateIfNotExists` creates, lists nothing.
   */
  lemma GetContainerReflects(containers: map<string, Listing>, store: BlobStore, containerName: string)
    requires Mirrors(containers, store)
    ensures Reflects(GetContainer(containers, containerName),
                     if containerName in store then store[containerName] else map[])
  {
  }

  /**
   * After `PostImage` succeeds, the owner's container as the queries list it holds
   * the posted blob under `{ImageName}.png`, with its creation time and payload.
   */
  lemma PostedImageListed(store: BlobStore, containers: map<string, Listing>, userName: string,
                          data: Option<ImageData>, t: Timestamp)
    requires Mirrors(containers, Put(store, ContainerName(userName), BlobFileName(data), StoredBlob(t, Payload(data))))
    ensures Success(BlobItem(BlobFileName(data), Some(t), Success(Payload(data))))
              in GetContainer(containers, ContainerName(userName))
  {
    var c := ContainerName(userName);
    var after := Put(store, c, BlobFileName(data), StoredBlob(t, Payload(data)));
    var listing := containers[c];
    assert Reflects(listing, after[c]);
    var i :| 0 <= i < |listing| && listing[i].Success? && listing[i].value.name == BlobFileName(data);
    assert listing[i].value == BlobItem(BlobFileName(data), Some(t), Success(Payload(data)));
  }

  /** The `while (imageIterator.HasMoreResults)` loop: the in-scope records of every page, in feed order. */
  method ReadImageQuery(pages: seq<Page>, scope: Scope) returns (r: Result<seq<ImageData>, Error>)
    ensures r == Gather(pages, scope)
  {
    var imageQuery: seq<ImageData> := [];
    var i := 0;
    while i < |pages|
      invariant 0 <= i <= |pages|
      invariant Gather(pages[..i], scope) == Success(imageQuery)
    {
      assert pages[..i + 1][..i] == pages[..i];
      match pages[i] {
        case Failure(e) =>
          GatherFailureFirst(pages, scope, i + 1);
          return Failure(e);
        case Success(resultSet) =>
          imageQuery := imageQuery + Where(resultSet, scope);
      }
      i := i + 1;
    }
    assert pages[..|pages|] == pages;
    r := Success(imageQuery);
  }

  /**
   * The `await foreach` over the blobs: find the record each blob names, refresh
   * it from the blob and append it. `query` is the list of records the loop
   * mutates and `picked` the references appended to `imageList.Images`.
   */
  method JoinBlobs(imageQuery: seq<ImageData>, listing: Listing) returns (r: Result<seq<ImageData>, Error>)
    ensures r == JoinImages(imageQuery, listing)
  {
    var query := imageQuery;
    var picked: seq<nat> := [];
    for j := 0 to |listing|
      invariant Join(imageQuery, listing[..j]) == Success(JoinState(query, picked))
    {
      assert listing[..j + 1][..j] == listing[..j];
      match listing[j] {
        case Failure(e) =>
          JoinFailureFirst(imageQuery, listing, j + 1);
          return Failure(e);
        case Success(blob) =>
          var found := FindByBlob(query, blob.name);
          if found.Failure? {
            JoinFailureFirst(imageQuery, listing, j + 1);
            return Failure(found.error);
          }
          if found.value.Some? {
            var k := found.value.value;
            match blob.content {
              case Failure(e) =>
                JoinFailureFirst(imageQuery, listing, j + 1);
                return Failure(e);
              case Success(bytes) =>
                query := query[k := Refresh(query[k], blob.createdOn, bytes)];
                picked := picked + [k];
            }
          }
      }
    }
    assert listing[..|listing|] == listing;
    r := Success(Images(JoinState(query, picked)));
  }

  /** The shared body of `GetUserImages` and `GetUserTypeImages`: the metadata read, then the blob loop. */
  method QueryScope(pages: seq<Page>, containers: map<string, Listing>, scope: Scope)
    returns (r: Result<seq<ImageData>, Error>)
    ensures r == Reconcile(pages, GetContainer(containers, ContainerName(scope.userName)), scope)
  {
    var imageQuery := ReadImageQuery(pages, scope);
    if imageQuery.Failure? {
      return Failure(imageQuery.error);
    }
    var containerName := ToValidContainerName(scope.userName);
    r := JoinBlobs(imageQuery.value, GetContainer(containers, containerName));
  }

  /** The body `GetUserImages` writes: the catalogue as JSON, or the exception as text. */
  datatype Reply = Json(catalogue: ImageList) | Text(error: Error)

  /** `GetUserImages`: the owner's images under the label "general"; an exception becomes the reply text. */
  method GetUserImages(pages: seq<Page>, containers: map<string, Listing>, userName: string)
    returns (reply: Reply)
    ensures var expected := Reconcile(pages, GetContainer(containers, ContainerName(userName)), User(userName));
      && (reply.Json? <==> expected.Success?)
      && (reply.Json? ==> reply.catalogue == ImageList("general", expected.value))
      && (reply.Text? ==> reply.error == expected.error)
  {
    var r := QueryScope(pages, containers, User(userName));
    match r {
      case Success(images) => reply := Json(ImageList("general", images));
      case Failure(e) => reply := Text(e);
    }
  }

  /** `GetUserTypeImages`: the owner's images of one category, labelled with it; exceptions propagate. */
  method GetUserTypeImages(pages: seq<Page>, containers: map<string, Listing>, userName: string, category: string)
    returns (r: Result<ImageList, Error>)
    ensures var expected := Reconcile(pages, GetContainer(containers, ContainerName(userName)), UserType(userName, category));
      && (r.Success? <==> expected.Success?)
      && (r.Success? ==> r.value == ImageList(category, expected.value))
      && (r.Failure? ==> r.error == expected.error)
  {
    var images := QueryScope(pages, containers, UserType(userName, category));
    match images {
      case Success(list) => r := Success(ImageList(category, list));
      case Failure(e) => r := Failure(e);
    }
  }

  /** `GetAppImages`: every blob of "appimages" under the label "image"; exceptions propagate. */
  method GetAppImages(containers: map<string, Listing>) returns (r: Result<ImageList, Error>)
    ensures r.Success? <==> AppCatalogue(GetContainer(containers)).Success?
    ensures r.Success? ==> r.value == ImageList("image", AppCatalogue(GetContainer(containers)).value)
    ensures r.Failure? ==> r.error == AppCatalogue(GetContainer(containers)).error
  {
    var listing := GetContainer(containers);
    var images: seq<ImageData> := [];
    for j := 0 to |listing|
      invariant AppCatalogue(listing[..j]) == Success(images)
    {
      assert listing[..j + 1][..j] == listing[..j];
      match listing[j] {
        case Failure(e) =>
          AppFailureFirst(listing, j + 1);
          return Failure(e);
        case Success(blob) =>
          match blob.content {
            case Failure(e) =>
              AppFailureFirst(listing, j + 1);
              return Failure(e);
            case Success(bytes) =>
              images := images + [AppImage(blob.name, blob.createdOn, bytes)];
          }
      }
    }
    assert listing[..|listing|] == listing;
    r := Success(ImageList("image", images));
  }

  /** The two remote stores, as the ingestion handlers change them. */
  class Storage {
    /** The "Images" container of the "WhiteboardDb" document database. */
    var documents: seq<ImageData>
    /** The blob containers, by name. */
    var containers: BlobStore

    /** Every stored record has an id, ids are unique, and no payload is ever kept. */
    ghost predicate Valid()
      reads this
    {
      && UniqueIds(documents)
      && forall i :: 0 <= i < |documents| ==> documents[i].id.Some? && documents[i].imageBytes == Some([])
    }

    constructor ()
      ensures Valid() && documents == [] && containers == map[]
    {
      documents := [];
      containers := map[];
    }

    /**
     * `PostImage`: write the bytes to `{ImageName}.png` in the owner's sanitised
     * container, overwriting; `fault` is the exception the blob store raises, if any.
     */
    method PostImage(userName: string, data: Option<ImageData>, createdOn: Timestamp, fault: Option<Error>)
      returns (r: Result<string, Error>)
      modifies this
      ensures documents == old(documents)
      ensures fault.Some? ==> r == Failure(fault.value) && containers == old(containers)
      ensures fault.None? ==> r == Success(BlobFileName(data))
      ensures fault.None? ==>
        containers == Put(old(containers), ContainerName(userName), BlobFileName(data), StoredBlob(createdOn, Payload(data)))
    {
      var bytes := match data case Some(d) => d.imageBytes.GetOr([]) case None => [];
      var containerName := ToValidContainerName(userName);
      var fileName := (match data case Some(d) => Render(d.imageName) case None => "") + ".png";
      if fault.Some? {
        return Failure(fault.value);
      }
      var existing := if containerName in containers then containers[containerName] else map[];
      containers := containers[containerName := existing[fileName := StoredBlob(createdOn, bytes)]];
      r := Success(fileName);
    }

    /**
     * `SaveImage`: fill in the id and the owner, clear the bytes and upsert by id;
     * `fault` is the exception the document store raises, if any.
     */
    method SaveImage(userName: string, data: Option<ImageData>, fault: Option<Error>)
      returns (r: Result<ImageData, Error>)
      requires Valid()
      modifies this
      ensures Valid() && containers == old(containers)
      ensures data.None? ==> r == Failure(NullReference)
      ensures data.Some? && data.value.imageBytes.None? ==> r == Failure(ArgumentNull)
      ensures data.Some? && data.value.imageBytes.Some? && fault.Some? ==> r == Failure(fault.value)
      ensures data.Some? && data.value.imageBytes.Some? && fault.None? ==>
        r == Success(PrepareRecord(data.value, userName))
      ensures data.Some? && data.value.imageBytes.Some? && fault.None? ==>
        documents == Upsert(old(documents), PrepareRecord(data.value, userName))
      ensures r.Failure? ==> documents == old(documents)
    {
      if data.None? {
        return Failure(NullReference);
      }
      var imageData := data.value;
      if imageData.imageBytes.None? {
        return Failure(ArgumentNull);
      }
      if imageData.id.None? {
        imageData := imageData.(id := Some(DefaultId(imageData)));
      }
      imageData := imageData.(imageBytes := Some([]));
      if imageData.userName.None? {
        imageData := imageData.(userName := Some(userName));
      }
      if fault.Some? {
        return Failure(fault.value);
      }
      UpsertSpec(documents, imageData);
      documents := Upsert(documents, imageData);
      r := Success(imageData);
    }
  }

  /**
   * Posting then querying: once `PostImage` has stored the image's blob and a
   * record of that name is in scope, a scoped query that succeeds returns an
   * entry of that name.
   */
  lemma PostedImageReturned(pages: seq<Page>, containers: map<string, Listing>, store: BlobStore,
                            scope: Scope, data: ImageData, t: Timestamp)
    requires Mirrors(containers, Put(store, ContainerName(scope.userName), BlobFileName(Some(data)),
                                     StoredBlob(t, Payload(Some(data)))))
    requires exists x :: x in Where(Documents(pages), scope) && x.imageName == Some(Render(data.imageName))
    requires Reconcile(pages, GetContainer(containers, ContainerName(scope.userName)), scope).Success?
    ensures var images := Reconcile(pages, GetContainer(containers, ContainerName(scope.userName)), scope).value;
      exists j :: 0 <= j < |images| && images[j].imageName == Some(Render(data.imageName))
  {
    var listing := GetContainer(containers, ContainerName(scope.userName));
    var q := Where(Documents(pages), scope);
    var item := BlobItem(BlobFileName(Some(data)), Some(t), Success(Payload(Some(data))));
    PostedImageListed(store, containers, scope.userName, Some(data), t);
    var i :| 0 <= i < |listing| && listing[i] == Success(item);
    PostedNameStrips(data);
    var k := StemIndex(q, item.name);
    assert k.Some?;
    MatchesComplete(q, listing, i);
    var m := Matches(q, listing);
    var j :| 0 <= j < |m| && m[j] == Match(k.value, item);
    ReconcileSpec(pages, listing, scope);
    CatalogueEntries(q, listing);
    assert Catalogue(q, listing)[j].imageName == q[k.value].imageName;
  }

  /** The owner "Alice_1" stores blobs in the container "alice1". */
  lemma AliceContainer()
    ensures ContainerName("Alice_1") == "alice1"
  {
    AliceAllowed();
    assert ToLower("Alice1") == "alice1";
  }

  /** The underscore is the one character of "Alice_1" the sanitiser drops. */
  lemma AliceAllowed()
    ensures KeepAllowed("Alice_1") == "Alice1"
  {
    KeepAllowedSnoc("", 'A');
    KeepAllowedSnoc("A", 'l');
    KeepAllowedSnoc("Al", 'i');
    KeepAllowedSnoc("Ali", 'c');
    KeepAllowedSnoc("Alic", 'e');
    KeepAllowedSnoc("Alice", '_');
    KeepAllowedSnoc("Alice_", '1');
    assert "" + ['A'] == "A";
    assert "A" + ['l'] == "Al";
    assert "Al" + ['i'] == "Ali";
    assert "Ali" + ['c'] == "Alic";
    assert "Alic" + ['e'] == "Alice";
    assert "Alice" + ['_'] == "Alice_";
    assert "Alice_" + ['1'] == "Alice_1";
  }

  /** The record, once stored, is found again by the typed query, once, with the blob's bytes and time. */
  lemma StoredRecordFound(stored: ImageData, t: Timestamp, bytes: seq<byte>)
    requires stored.userName == Some("Alice_1") && stored.category == Some("map")
    requires stored.imageName == Some("town") && stored.id.Some?
    ensures var listing: Listing := [Success(BlobItem("town.png", Some(t), Success(bytes)))];
      Reconcile([Success(Upsert([], stored))], listing, UserType("Alice_1", "map"))
        == Success([Refresh(stored, Some(t), bytes)])
  {
    var listing: Listing := [Success(BlobItem("town.png", Some(t), Success(bytes)))];
    var scope := UserType("Alice_1", "map");
    var pages: seq<Page> := [Success(Upsert([], stored))];
    NoFileExtPng("town");
    assert "town" + ".png" == "town.png";
    assert Upsert([], stored) == [stored];
    assert pages[..0] == [];
    assert Documents(pages) == [stored];
    assert [stored][..0] == [];
    assert Where([stored], scope) == [stored];
    assert FirstIndex([stored], "town") == Some(0);
    assert StemIndex([stored], "town.png") == Some(0);
    assert listing[..0] == [];
    assert AllOk([stored], listing);
    ReconcileSpec(pages, listing, scope);
    assert Matches([stored], listing) == [Match(0, listing[0].value)];
    assert LastFetch([stored], listing, 0) == Some(listing[0].value);
    assert Refreshed([stored], listing)[0] == Refresh(stored, Some(t), bytes);
    assert Catalogue([stored], listing) == [Refresh(stored, Some(t), bytes)];
  }

  /**
   * Ingest owner "Alice_1", category "map", image "town", bytes [1, 2, 3]: the
   * blob goes to `alice1/town.png` and the record, with id "Alice_1-map-town",
   * is stored without bytes. The typed query for "Alice_1" and "map" then yields
   * that record once, with the blob's bytes and creation time.
   */
  lemma AliceScenario(t: Timestamp)
    ensures var data := ImageData(None, Some("Alice_1"), Some("map"), Some("town"), Some([1, 2, 3]), None, None);
      var stored := PrepareRecord(data, "Alice_1");
      var listing: Listing := [Success(BlobItem("town.png", Some(t), Success([1, 2, 3])))];
      && ContainerName("Alice_1") == "alice1"
      && BlobFileName(Some(data)) == "town.png"
      && stored.id == Some("Alice_1-map-town") && stored.imageBytes == Some([])
      && Reconcile([Success(Upsert([], stored))], listing, UserType("Alice_1", "map"))
         == Success([Refresh(stored, Some(t), [1, 2, 3])])
  {
    var data := ImageData(None, Some("Alice_1"), Some("map"), Some("town"), Some([1, 2, 3]), None, None);
    AliceContainer();
    assert "town" + ".png" == "town.png";
    assert "Alice_1" + "-" + "map" + "-" + "town" == "Alice_1-map-town";
    StoredRecordFound(PrepareRecord(data, "Alice_1"), t, [1, 2, 3]);
  }

  /** With a null user name in the body, the default id starts with "-": the path user name is filled in later. */
  lemma NullUserNameId(category: string, imageName: string)
    ensures var data := ImageData(None, None, Some(category), Some(imageName), Some([]), None, None);
      var stored := PrepareRecord(data, "Alice_1");
      stored.id == Some("-" + category + "-" + imageName) && stored.userName == Some("Alice_1")
  {
    assert "" + "-" + category + "-" + imageName == "-" + category + "-" + imageName;
  }

  /**
   * A scope without records, here a category nobody used, yields an empty
   * catalogue rather than an error, as long as the stores answer.
   */
  lemma EmptyScope(pages: seq<Page>, listing: Listing, scope: Scope)
    requires forall i :: 0 <= i < |pages| ==> pages[i].Success?
    requires forall i :: 0 <= i < |Documents(pages)| ==> !InScope(Documents(pages)[i], scope)
    requires forall i :: 0 <= i < |listing| ==> listing[i].Success?
    ensures Reconcile(pages, listing, scope) == Success([])
  {
    GatherSpec(pages, scope);
    var q := Where(Documents(pages), scope);
    WhereEmpty(Documents(pages), scope);
    assert q == [];
    assert AllOk(q, listing);
    ReconcileSpec(pages, listing, scope);
    MatchesOfEmpty(listing);
  }
}
