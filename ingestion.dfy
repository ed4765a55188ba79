/**
 * What the ingestion functions of BoardApi/ImageStorageFunction.cs write:
 * `SaveImage` prepares a record and upserts it into the document store by id,
 * `PostImage` puts the bytes into the owner's container under `{ImageName}.png`.
 */
module Ingestion {
  import opened Wrappers
  import opened Models
  import opened Helpers

  /** A stored blob: the creation time the store assigned and the bytes. */
  datatype StoredBlob = StoredBlob(createdOn: Timestamp, bytes: seq<byte>)

  /** Blob name to blob, within one container. */
  type Container = map<string, StoredBlob>

  /** Container name to container. */
  type BlobStore = map<string, Container>

  /** `$"{UserName}-{Category}-{ImageName}"`, null parts rendering as "". */
  function DefaultId(data: ImageData): string
  {
    Render(data.userName) + "-" + Render(data.category) + "-" + Render(data.imageName)
  }

  /**
   * The record `SaveImage` upserts: `Id ??= DefaultId`, then `ImageBytes = []`,
   * then `UserName ??= userName`, so the default id sees the user name of the body.
   */
  function PrepareRecord(data: ImageData, userName: string): (r: ImageData)
    ensures r.imageBytes == Some([])
    ensures r.id == (if data.id.Some? then data.id else Some(DefaultId(data)))
    ensures r.userName == (if data.userName.Some? then data.userName else Some(userName))
    ensures r.category == data.category && r.imageName == data.imageName
    ensures r.description == data.description && r.createdOnDate == data.createdOnDate
  {
    var withId := data.(id := Some(data.id.GetOr(DefaultId(data))));
    var cleared := withId.(imageBytes := Some([]));
    cleared.(userName := Some(cleared.userName.GetOr(userName)))
  }

  /** Saving a record read back from the store, under any path user name, writes it unchanged. */
  lemma PrepareRecordStable(data: ImageData, userName: string, again: string)
    ensures PrepareRecord(PrepareRecord(data, userName), again) == PrepareRecord(data, userName)
  {
  }

  /** The position of the first document with the given id. */
  function IndexOfId(docs: seq<ImageData>, id: string): (k: Option<nat>)
    ensures k.Some? ==> k.value < |docs| && docs[k.value].id == Some(id)
    ensures k.Some? ==> forall i :: 0 <= i < k.value ==> docs[i].id != Some(id)
    ensures k.None? ==> forall i :: 0 <= i < |docs| ==> docs[i].id != Some(id)
  {
    if docs == [] then None
    else if docs[0].id == Some(id) then Some(0)
    else
      match IndexOfId(docs[1..], id)
      case None => None
      case Some(k) => Some(k + 1)
  }

  /** `UpsertItemAsync`: replace the document with the record's id, or add the record. */
  function Upsert(docs: seq<ImageData>, r: ImageData): (d: seq<ImageData>)
    requires r.id.Some?
    ensures r in d
    ensures (exists i :: 0 <= i < |docs| && docs[i].id == r.id) ==> |d| == |docs|
    ensures (forall i :: 0 <= i < |docs| ==> docs[i].id != r.id) ==> d == docs + [r]
  {
    match IndexOfId(docs, r.id.value)
    case Some(k) =>
      assert docs[k := r][k] == r;
      docs[k := r]
    case None => docs + [r]
  }

  predicate UniqueIds(docs: seq<ImageData>)
  {
    forall i, j :: 0 <= i < j < |docs| && docs[i].id.Some? ==> docs[i].id != docs[j].id
  }

  /**
   * After an upsert the record is stored, every document with another id is kept
   * in place, nothing else is added, and ids stay unique.
   */
  lemma UpsertSpec(docs: seq<ImageData>, r: ImageData)
    requires r.id.Some?
    ensures var d := Upsert(docs, r);
      && r in d
      && (forall x :: x in d ==> x == r || x in docs)
      && (forall i :: 0 <= i < |docs| && docs[i].id != r.id ==> i < |d| && d[i] == docs[i])
      && (UniqueIds(docs) ==> UniqueIds(d))
      && (UniqueIds(docs) ==> forall x :: x in d && x.id == r.id ==> x == r)
  {
    var d := Upsert(docs, r);
    match IndexOfId(docs, r.id.value)
    case Some(k) =>
      assert d[k] == r;
      forall x | x in d ensures x == r || x in docs {
        var i :| 0 <= i < |d| && d[i] == x;
        if i != k { assert docs[i] == x; }
      }
    case None =>
      assert d[|docs|] == r;
  }

  /** Saving two records with the same id leaves the second: the last write wins. */
  lemma UpsertLastWriteWins(docs: seq<ImageData>, r1: ImageData, r2: ImageData)
    requires r1.id.Some? && r2.id == r1.id
    ensures Upsert(Upsert(docs, r1), r2) == Upsert(docs, r2)
  {
    var d := Upsert(docs, r1);
    var id := r1.id.value;
    match IndexOfId(docs, id)
    case Some(k) =>
      assert d[k].id == Some(id);
      assert forall i :: 0 <= i < k ==> d[i].id == docs[i].id;
      assert IndexOfId(d, id) == Some(k);
    case None =>
      assert d[|docs|].id == Some(id);
      assert forall i :: 0 <= i < |docs| ==> d[i].id == docs[i].id;
      assert IndexOfId(d, id) == Some(|docs|);
  }

  /** `{ImageName}.png`, where a missing body or name renders as "". */
  function BlobFileName(data: Option<ImageData>): string
  {
    var name := match data case Some(d) => Render(d.imageName) case None => "";
    name + ".png"
  }

  /** `imageData?.ImageBytes ?? Array.Empty<byte>()`. */
  function Payload(data: Option<ImageData>): seq<byte>
  {
    match data
    case Some(d) => d.imageBytes.GetOr([])
    case None => []
  }

  /** `UploadAsync(stream, overwrite: true)` into a container created if absent. */
  function Put(store: BlobStore, container: string, fileName: string, blob: StoredBlob): (r: BlobStore)
    ensures r.Keys == store.Keys + {container}
    ensures fileName in r[container] && r[container][fileName] == blob
    ensures container !in store ==> r[container] == map[fileName := blob]
    ensures forall c :: c in store && c != container ==> r[c] == store[c]
    ensures container in store ==>
      r[container].Keys == store[container].Keys + {fileName} &&
      forall f :: f in store[container] && f != fileName ==> r[container][f] == store[container][f]
  {
    var existing := if container in store then store[container] else map[];
    store[container := existing[fileName := blob]]
  }

  /** Uploading twice to the same key keeps only the second upload. */
  lemma PutLastWriteWins(store: BlobStore, container: string, fileName: string, b1: StoredBlob, b2: StoredBlob)
    ensures Put(Put(store, container, fileName, b1), container, fileName, b2) == Put(store, container, fileName, b2)
  {
    var once := Put(store, container, fileName, b2);
    var twice := Put(Put(store, container, fileName, b1), container, fileName, b2);
    assert twice[container] == once[container];
  }

  /** The name a posted image is stored under strips back to the image name that the join looks up. */
  lemma PostedNameStrips(data: ImageData)
    ensures NoFileExt(BlobFileName(Some(data))) == Success(Render(data.imageName))
  {
    NoFileExtPng(Render(data.imageName));
  }
}
