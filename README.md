# BoardApi image catalogue

A model of the image-catalogue core of the BoardApi functions, with proofs. The core has four parts.

- **Sanitiser.** `ToValidContainerName` turns an owner name into a blob container name.
- **Extension stripper.** `NoFileExt` is the file-name helper behind the join key.
- **Ingestion.** `SaveImage` upserts an image's metadata record into the document store. `PostImage` writes its bytes to the owner's container as `{ImageName}.png`.
- **Queries.**
  - `GetUserImages` and `GetUserTypeImages` join the owner's records, optionally filtered by category, with the blobs of the owner's container.
  - `GetAppImages` lists every blob of the shared container `"appimages"`.

Modules:

- `Wrappers`: `Option` and `Result`.
- `Models`: the `ImageData` and `ImageList` records, and the exceptions that end a request. Every nullable field is an `Option`.
- `Helpers`: the two string helpers.
  - `ToValidContainerName` is a method with the source's loop, proved against the function `ContainerName`.
  - `NoFileExt` is a function, as in the source.
- `Reconciler`: what the scoped queries compute.
  - `Join` steps through the blob loop, keeping the query list and the records appended.
  - `Catalogue` is an independent reference definition without mutation.
  - `JoinIsReference` and `ReconcileSpec` prove that the two agree.
  - `AppCatalogue` specifies the app listing.
- `Ingestion`: what the write paths do.
  - the record `SaveImage` prepares;
  - upsert by id;
  - the blob name and payload of `PostImage`;
  - overwriting put.
- `ImageStorageFunction`: the request handlers as methods with the source's loops.
  - The class `Storage` holds the two stores that `PostImage` and `SaveImage` update in place.
  - The query handlers take the stores' responses as inputs:
    - pages of the document feed;
    - one listing per container;
    - each listed blob carrying the outcome of reading its payload.
  - Every exception a store can raise is therefore an input.

`List.Find` returns a reference to a record of the query list. The loop mutates that record and appends it to the result. The model represents such a reference as an index into the query list and reads the records at the end. This reproduces the aliasing of the source: two blobs `town.png` and `town.jpg` put the same record into the catalogue twice, both times with the bytes of the blob listed last (`Reconciler.TwoBlobsOneRecord`).

Two consequences of the join code:

- **Duplicate image names.** `List.Find` returns the first match, so among records sharing an `ImageName` the first in query order wins (`Reconciler.FirstIndex`, `Reconciler.CatalogueEntries`).
- **Blob names without a '.'.** `NoFileExt` runs inside the `Find` predicate (BoardApi/ImageStorageFunction.cs:127). A blob name without a '.' therefore throws only when at least one record is in scope. With an empty query list it is skipped (`Reconciler.FindByBlob`).

## Model

| member | source | states |
|---|---|---|
| Helpers.ToValidContainerName | BoardApi/Helpers.cs:20-28 | the builder loop returns `ContainerName(str)`, the lowercased allowed characters of the input in input order |
| Helpers.ContainerNameAlphabet | BoardApi/Helpers.cs:23-27 | the sanitised name contains only `[0-9a-z-]` |
| Helpers.ContainerNameConcat | BoardApi/Helpers.cs:22-27 | sanitising distributes over concatenation (the characters are processed one by one, in order) |
| Helpers.ContainerNameOfChar | BoardApi/Helpers.cs:23-27 | one character is kept, lowercased, exactly when it is in `[0-9A-Za-z-]` |
| Helpers.ContainerNameLength | BoardApi/Helpers.cs:22-27 | the output length is the number of allowed characters of the input |
| Helpers.ContainerNameFixedPoint | BoardApi/Helpers.cs:23-27 | a name is returned unchanged exactly when it is already made of `[0-9a-z-]` |
| Helpers.ContainerNameIdempotent | BoardApi/Helpers.cs:23-27 | sanitising twice equals sanitising once |
| Helpers.ContainerNameEmpty | BoardApi/Helpers.cs:21-27 | the result is empty exactly when no input character is allowed |
| Helpers.LastIndexOf | BoardApi/Helpers.cs:18 | -1 when the character is absent, otherwise the position of its last occurrence |
| Helpers.NoFileExt | BoardApi/Helpers.cs:16-19 | fails with ArgumentOutOfRange exactly when the name has no '.'; otherwise the result is the prefix before a '.' after which no '.' follows |
| Helpers.NoFileExtRoundTrip | BoardApi/Helpers.cs:18 | stripping `name + "." + ext`, where `ext` has no '.', gives back `name` |
| Helpers.NoFileExtPng | BoardApi/Helpers.cs:18 | `NoFileExt(n + ".png") == n` for every `n` |
| Ingestion.PrepareRecord | BoardApi/ImageStorageFunction.cs:66-68 | bytes cleared. A present Id is kept; otherwise the Id is `{UserName}-{Category}-{ImageName}` from the body's own user name, with null rendered as "". UserName is defaulted to the path user name. All other fields are unchanged |
| Ingestion.PrepareRecordStable | BoardApi/ImageStorageFunction.cs:66-68 | preparing an already prepared record changes nothing |
| Ingestion.IndexOfId | BoardApi/ImageStorageFunction.cs:70 | the first document with the given id, or none when no document has it |
| Ingestion.Upsert | BoardApi/ImageStorageFunction.cs:70 | the record is stored afterwards. When a document with its id exists, the count stays the same (replace); otherwise the record is appended |
| Ingestion.UpsertSpec | BoardApi/ImageStorageFunction.cs:70 | after an upsert the record is stored, documents with other ids keep their place, nothing else is added, and unique ids stay unique |
| Ingestion.UpsertLastWriteWins | BoardApi/ImageStorageFunction.cs:70 | upserting two records with the same id leaves the second |
| Ingestion.Put | BoardApi/ImageStorageFunction.cs:37-40 | the container exists afterwards and holds the blob under the file name. A container that was absent holds only that blob. Every other container and every other blob is unchanged |
| Ingestion.PutLastWriteWins | BoardApi/ImageStorageFunction.cs:40 | an upload with overwrite to the same name keeps only the second blob |
| Ingestion.PostedNameStrips | BoardApi/ImageStorageFunction.cs:38 | the name `PostImage` stores a blob under strips back to the image name that the join looks up |
| ImageStorageFunction.Storage.PostImage | BoardApi/ImageStorageFunction.cs:33-47 | on success the payload is put into the sanitised owner container under `{ImageName}.png`, overwriting; on an exception the blob store is unchanged; the document store is never touched |
| ImageStorageFunction.Storage.SaveImage | BoardApi/ImageStorageFunction.cs:60-78 | a null body or null bytes fails before any write. Otherwise the prepared record is upserted, unless the document store fails. Ids stay unique and no stored record keeps bytes |
| Reconciler.Where | BoardApi/ImageStorageFunction.cs:119 | every kept record is in scope and comes from the input; every in-scope input record is kept |
| Reconciler.WhereOne | BoardApi/ImageStorageFunction.cs:119 | one record is kept exactly when it is in scope. With `Reconciler.WhereConcat` this makes the filter keep the in-scope records in input order, each once |
| Reconciler.WhereConcat | BoardApi/ImageStorageFunction.cs:119 | filtering distributes over concatenation, so the order of the input is kept |
| ImageStorageFunction.GetContainer | BoardApi/ImageStorageFunction.cs:184-190 | when called without a name it opens "appimages". An existing container gives its listing; an absent one is created and lists nothing |
| ImageStorageFunction.GetContainerReflects | BoardApi/ImageStorageFunction.cs:184-190 | when the listings mirror the blob store, the container opened lists exactly what the store holds under that name, or nothing if it is absent |
| ImageStorageFunction.PostedImageListed | BoardApi/ImageStorageFunction.cs:37-40 | after `PostImage`'s put, the owner's container as a query lists it holds `{ImageName}.png` with the posted time and payload |
| ImageStorageFunction.PostedImageReturned | BoardApi/ImageStorageFunction.cs:112-134 | once the blob is posted and a record of that image name is in scope, a successful scoped query returns an entry of that name |
| Reconciler.WhereEmpty | BoardApi/ImageStorageFunction.cs:119 | the filter keeps nothing exactly when no record is in scope |
| Reconciler.GatherSpec | BoardApi/ImageStorageFunction.cs:113-121 | the metadata read succeeds exactly when every page is read, and then yields the in-scope records of all pages in feed order |
| ImageStorageFunction.ReadImageQuery | BoardApi/ImageStorageFunction.cs:113-121 | the `while` loop over the feed computes `Gather`, including the first exception |
| Reconciler.FirstIndex | BoardApi/ImageStorageFunction.cs:127 | `List.Find`: the first record with the name, and no earlier record has it; or none when no record has it |
| Reconciler.FindByBlob | BoardApi/ImageStorageFunction.cs:127 | an empty query list finds nothing; otherwise the lookup throws exactly when the blob name has no '.' |
| Reconciler.FirstIndexByNames | BoardApi/ImageStorageFunction.cs:127-132 | the lookup sees only names, which the join's mutations leave untouched |
| Reconciler.Join | BoardApi/ImageStorageFunction.cs:124-134 | the blob loop keeps every appended reference inside the query list and changes no record field except `CreatedOnDate` and `ImageBytes` |
| Reconciler.JoinSucceedsIff | BoardApi/ImageStorageFunction.cs:124-134 | the blob loop completes exactly when no listing step fails, no blob name lacks a '.' while records are in scope, and every selecting blob can be read |
| Reconciler.JoinFailureFirst | BoardApi/ImageStorageFunction.cs:124-134 | the first exception in the blob loop is the one reported |
| ImageStorageFunction.JoinBlobs | BoardApi/ImageStorageFunction.cs:122-134 | the `await foreach` with in-place updates computes `JoinImages` |
| Reconciler.Matches | BoardApi/ImageStorageFunction.cs:127-128 | every match is a listed blob together with the record it selects |
| Reconciler.MatchesComplete | BoardApi/ImageStorageFunction.cs:124-133 | every listed blob that selects a record is matched: no selecting blob is skipped |
| Reconciler.MatchesOne | BoardApi/ImageStorageFunction.cs:127-133 | a single blob that selects record k yields exactly one match for k |
| Reconciler.MatchesConcat | BoardApi/ImageStorageFunction.cs:124-133 | the matches of a concatenated listing are the matches of each part, in listing order |
| Reconciler.JoinIsReference | BoardApi/ImageStorageFunction.cs:124-134 | the imperative join equals the reference definition: each record refreshed from the last blob selecting it, appended once per selecting blob, in listing order |
| Reconciler.ReconcileSpec | BoardApi/ImageStorageFunction.cs:112-134 | a scoped query succeeds exactly when every page is read and no blob raises an exception; it then returns the reference catalogue over the in-scope records |
| ImageStorageFunction.QueryScope | BoardApi/ImageStorageFunction.cs:112-134 | metadata read, container-name sanitising and blob loop together compute `Reconcile` over the owner's container |
| Reconciler.CatalogueEntries | BoardApi/ImageStorageFunction.cs:127-133 | entry j is the FIRST record named after the j-th selecting blob without its extension. All its fields are unchanged except timestamp and bytes, which come from the last blob that selects the same record |
| Reconciler.CatalogueInScope | BoardApi/ImageStorageFunction.cs:119-128 | every returned record is in scope and named after some listed blob without its extension |
| Reconciler.OrphanBlobIgnored | BoardApi/ImageStorageFunction.cs:127-128 | a blob that selects no record can be removed from the listing without changing the catalogue |
| Reconciler.LastFetchIsLastMatch | BoardApi/ImageStorageFunction.cs:131-133 | the blob that last refreshes a record is the last match for it |
| Reconciler.CatalogueDistinctRecords | BoardApi/ImageStorageFunction.cs:127-133 | when no two blobs select the same record, entry j carries exactly the j-th selecting blob's timestamp and bytes |
| Reconciler.TwoBlobsOneRecord | BoardApi/ImageStorageFunction.cs:127-133 | `town.png` then `town.jpg` yield the one record twice, both times with the second blob's timestamp and bytes |
| Reconciler.AppCatalogue | BoardApi/ImageStorageFunction.cs:89-97 | the app listing succeeds exactly when every listing step and payload read succeeds. It then has one entry per blob, in order, holding the full blob name, the bytes, the timestamp and nothing else |
| Reconciler.AppFailureFirst | BoardApi/ImageStorageFunction.cs:91-97 | the first exception in the app listing is the one reported |
| ImageStorageFunction.GetUserImages | BoardApi/ImageStorageFunction.cs:110-142 | the catalogue labelled "general" when the scoped query succeeds; otherwise the reply is the exception text |
| ImageStorageFunction.GetUserTypeImages | BoardApi/ImageStorageFunction.cs:154-179 | the catalogue labelled with the category when the typed query succeeds; otherwise the exception propagates |
| ImageStorageFunction.GetAppImages | BoardApi/ImageStorageFunction.cs:89-99 | the loop over "appimages" returns `AppCatalogue` under the label "image", or its first exception |
| ImageStorageFunction.AliceContainer | BoardApi/Helpers.cs:22-27 | "Alice_1" is sanitised to "alice1" |
| ImageStorageFunction.StoredRecordFound | BoardApi/ImageStorageFunction.cs:154-177 | a stored record is found once by the typed query, carrying its blob's timestamp and bytes |
| ImageStorageFunction.AliceScenario | BoardApi/ImageStorageFunction.cs:154-177 | ingesting then querying: the blob lands in `alice1/town.png`; the record is stored with Id "Alice_1-map-town" and no bytes; the typed query returns it once with the blob's bytes |
| ImageStorageFunction.NullUserNameId | BoardApi/ImageStorageFunction.cs:66-68 | with a null body user name the default Id begins with "-", because the Id is computed before the user name is defaulted |
| ImageStorageFunction.EmptyScope | BoardApi/ImageStorageFunction.cs:112-134 | when no record is in scope and the stores answer, the query returns an empty catalogue rather than an error |

## Left out

- HTTP plumbing is not modelled: triggers, routes, response headers, status codes, the response texts and logging. It is transport. A reply is modelled only as the catalogue or the exception.
- JSON deserialisation of request bodies is not modelled: it is a foreign library. The parsed body is an input, and `None` stands for a body that deserialises to null.
- The Azure Blob and Cosmos SDKs are replaced by values.
  - The feed iterator's pages are a sequence of read outcomes.
  - A container listing is a sequence of items, each with the outcome of reading its payload.
  - The blob store's creation timestamp is a parameter of `PostImage`.
  - Store exceptions are parameters (`fault`).
- `ReadFully` is not modelled: it is a stream copy (I/O). Its result is the payload in the listing.
- `ToLower()` is modelled as invariant-culture lowercasing. It only ever sees ASCII letters, because the filter drops every other character, but it lowercases them under the current culture. Under the Turkish culture `'I'` becomes the dotless `'ı'`. `Helpers.ContainerNameAlphabet` and `Helpers.ContainerNameFixedPoint` would then not hold. The model does not capture that case.
- Async execution and concurrent requests are not modelled: the model is sequential.
- The Cosmos partition key and the database and container names ("WhiteboardDb", "Images") are not modelled. The document store is one sequence.
- ImageStorageFunction.GetContainer: the query handlers read an absent container as empty but do not record that `CreateIfNotExists` creates it in the store.
- ImageStorageFunction.Storage.PostImage: when the upload fails, the blob store is left as it was, so a container that `CreateIfNotExists` already created before the failure is not recorded.
- ImageStorageFunction.Storage.SaveImage: the bytes are not copied into a stream, since that stream is never read. Only the exception `new MemoryStream(null)` raises is kept.
- Parts of the WhiteBoard project are not modelled beyond the record shape of `ImageData` and `ImageList`:
  - the UI handlers;
  - the JavaScript;
  - `CanvasModel`;
  - the `ToImageUrl` data-URL helper.
