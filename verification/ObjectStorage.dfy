/**
 Document bytes: two object stores, one of which is picked per request, behind
 a digest check.  The digest is an arbitrary function of the bytes.
 */
module ObjectStorage {
  import opened Options
  import opened Utf8
  import ContentDisposition

  type Bytes = seq<Byte>
  type Digest = Bytes -> string

  datatype Object = Object(data: Bytes, contentType: string)
  type Objects = map<string, Object>

  // -- Keys -----------------------------------------------------------------

  function StorageKey(tenant: string, documentId: string): string {
    tenant + "/" + documentId
  }

  // The text after the last slash.
  function DocumentPart(key: string): string {
    if key == [] || key[|key| - 1] == '/' then []
    else DocumentPart(key[..|key| - 1]) + [key[|key| - 1]]
  }

  lemma {:induction false} DocumentPartOfKey(tenant: string, documentId: string)
    requires '/' !in documentId
    ensures DocumentPart(StorageKey(tenant, documentId)) == documentId
  {
    if documentId != [] {
      var n := |documentId| - 1;
      var key := StorageKey(tenant, documentId);
      DocumentPartOfKey(tenant, documentId[..n]);
      assert key[..|key| - 1] == StorageKey(tenant, documentId[..n]);
    }
  }

  // A UUID's text has no slash, so the last slash of a key ends the tenant,
  // whatever the tenant's own text is.
  lemma {:induction false} StorageKeyIsInjective(t1: string, d1: string, t2: string, d2: string)
    requires '/' !in d1 && '/' !in d2
    ensures StorageKey(t1, d1) == StorageKey(t2, d2) <==> t1 == t2 && d1 == d2
  {
    DocumentPartOfKey(t1, d1);
    DocumentPartOfKey(t2, d2);
    var k1, k2 := StorageKey(t1, d1), StorageKey(t2, d2);
    assert k1[..|t1|] == t1 && k2[..|t2|] == t2;
  }

  // -- The in-memory backend ------------------------------------------------

  class InMemoryObjectStorage {
    var store: Objects

    constructor ()
      ensures store == map[]
    {
      store := map[];
    }

    method Put(key: string, data: Bytes, contentType: string)
      modifies this
      ensures store == old(store)[key := Object(data, contentType)]
    {
      store := store[key := Object(data, contentType)];
    }

    // None stands for ObjectNotFoundError.
    method Get(key: string) returns (data: Option<Bytes>)
      ensures data == None <==> key !in store
      ensures data.Some? ==> data.value == store[key].data
    {
      if key !in store {
        return None;
      }
      return Some(store[key].data);
    }

    method Exists(key: string) returns (exists_: bool)
      ensures exists_ <==> key in store
    {
      exists_ := key in store;
    }
  }

  // -- Requests -------------------------------------------------------------

  datatype Record = Record(id: string, tenant: string, filename: string, contentType: string, sha256: string)

  // Which store answered the connectivity probe of a request.
  datatype Backend = Minio | Fallback

  datatype Stores = Stores(records: map<string, Record>, minio: Objects, fallback: Objects)

  datatype Response =
    | Uploaded(bytes: nat, sha256: string)
    | Downloaded(data: Bytes, contentType: string, disposition: string)
    | HttpError(status: int, detail: string)

  const MaxUploadBytes := 100 * 1024 * 1024

  function ObjectsOf(s: Stores, b: Backend): Objects {
    if b.Minio? then s.minio else s.fallback
  }

  function WithObjects(s: Stores, b: Backend, objects: Objects): Stores {
    if b.Minio? then s.(minio := objects) else s.(fallback := objects)
  }

  function KeyOf(r: Record): string { StorageKey(r.tenant, r.id) }

  // denied is the reason of a refused access decision.
  function Upload(sha: Digest, s: Stores, b: Backend, id: string, denied: Option<string>, body: Bytes)
      : (Stores, Response) {
    if id !in s.records then (s, HttpError(404, "document_not_found"))
    else if denied.Some? then (s, HttpError(403, denied.value))
    else if body == [] then (s, HttpError(422, "empty_upload_body"))
    else if |body| > MaxUploadBytes then (s, HttpError(413, "upload_too_large"))
    else if sha(body) != s.records[id].sha256 then (s, HttpError(422, "sha256_mismatch"))
    else
      var r := s.records[id];
      (WithObjects(s, b, ObjectsOf(s, b)[KeyOf(r) := Object(body, r.contentType)]), Uploaded(|body|, sha(body)))
  }

  function Download(s: Stores, b: Backend, id: string, denied: Option<string>): Response {
    if id !in s.records then HttpError(404, "document_not_found")
    else if denied.Some? then HttpError(403, denied.value)
    else if KeyOf(s.records[id]) !in ObjectsOf(s, b) then HttpError(404, "document_content_not_uploaded")
    else Delivered(s.records[id], ObjectsOf(s, b)[KeyOf(s.records[id])].data)
  }

  // The document's bytes under its own content type and filename.
  function Delivered(r: Record, data: Bytes): Response {
    Downloaded(data, r.contentType, ContentDisposition.Header(r.filename))
  }

  // Who asks, and the event a handler appends to the audit log when it serves
  // the request; a refused request appends none.
  datatype Context = Context(actor: string, purpose: string, traceId: string)

  datatype AuditEntry = AuditEntry(
    tenant: string,
    actor: string,
    action: string,
    resourceType: string,
    resourceId: string,
    purpose: string,
    traceId: string,
    bytes: nat)

  class AuditTrail {
    var entries: seq<AuditEntry>

    constructor ()
      ensures entries == []
    {
      entries := [];
    }

    method Append(record: Record, context: Context, action: string, bytes: nat)
      modifies this
      ensures entries == old(entries) + [EntryOf(record, context, action, bytes)]
    {
      entries := entries + [EntryOf(record, context, action, bytes)];
    }
  }

  function EntryOf(r: Record, c: Context, action: string, bytes: nat): AuditEntry {
    AuditEntry(r.tenant, c.actor, action, "document", r.id, c.purpose, c.traceId, bytes)
  }

  // When an upload is accepted, on either backend, and how each refusal reads.
  lemma {:induction false} UploadAcceptedExactly(sha: Digest, s: Stores, b: Backend, id: string,
      denied: Option<string>, body: Bytes)
    ensures var (s', r) := Upload(sha, s, b, id, denied, body);
      && (r.Uploaded? <==>
            id in s.records && denied == None && 0 < |body| <= 104857600 && sha(body) == s.records[id].sha256)
      && (r.Uploaded? ==> r.bytes == |body| && r.sha256 == sha(body) && s'.records == s.records)
      && (r.Uploaded? ==>
            var key, content := s.records[id].tenant + "/" + s.records[id].id, Object(body, s.records[id].contentType);
            && s'.minio == (if b == Minio then s.minio[key := content] else s.minio)
            && s'.fallback == (if b == Minio then s.fallback else s.fallback[key := content]))
      && (!r.Uploaded? ==> s' == s)
      && (id !in s.records ==> r == HttpError(404, "document_not_found"))
      && (id in s.records && denied.Some? ==> r == HttpError(403, denied.value))
      && (id in s.records && denied == None && |body| == 0 ==> r == HttpError(422, "empty_upload_body"))
      && (id in s.records && denied == None && |body| > 104857600 ==> r == HttpError(413, "upload_too_large"))
      && (id in s.records && denied == None && 0 < |body| <= 104857600 && sha(body) != s.records[id].sha256 ==>
            r == HttpError(422, "sha256_mismatch"))
  {
  }

  // When a download is served, on either backend, and how each refusal reads.
  lemma {:induction false} DownloadServedExactly(s: Stores, b: Backend, id: string, denied: Option<string>)
    ensures var r, objects := Download(s, b, id, denied), if b == Minio then s.minio else s.fallback;
      && (r.Downloaded? <==>
            id in s.records && denied == None && s.records[id].tenant + "/" + s.records[id].id in objects)
      && (r.Downloaded? ==>
            && r.data == objects[s.records[id].tenant + "/" + s.records[id].id].data
            && r.contentType == s.records[id].contentType
            && r.disposition == ContentDisposition.Header(s.records[id].filename))
      && (id !in s.records ==> r == HttpError(404, "document_not_found"))
      && (id in s.records && denied.Some? ==> r == HttpError(403, denied.value))
      && (id in s.records && denied == None && !r.Downloaded? ==> r == HttpError(404, "document_content_not_uploaded"))
  {
  }

  // The two handlers against the backend their request was given.
  method UploadDocumentContent(sha: Digest, records: map<string, Record>, storage: InMemoryObjectStorage,
      trail: AuditTrail, id: string, context: Context, denied: Option<string>, body: Bytes)
      returns (response: Response)
    modifies storage, trail
    ensures var before := Stores(records, map[], old(storage.store));
      var (after, expected) := Upload(sha, before, Fallback, id, denied, body);
      storage.store == after.fallback && response == expected
    ensures response.Uploaded? <==>
      id in records && denied == None && 0 < |body| <= 104857600 && sha(body) == records[id].sha256
    ensures response.Uploaded? ==>
      && response.bytes == |body| && response.sha256 == sha(body)
      && storage.store == old(storage.store)[
           records[id].tenant + "/" + records[id].id := Object(body, records[id].contentType)]
    ensures !response.Uploaded? ==> storage.store == old(storage.store)
    ensures id !in records ==> response == HttpError(404, "document_not_found")
    ensures id in records && denied.Some? ==> response == HttpError(403, denied.value)
    ensures id in records && denied == None && |body| == 0 ==> response == HttpError(422, "empty_upload_body")
    ensures id in records && denied == None && |body| > 104857600 ==> response == HttpError(413, "upload_too_large")
    ensures id in records && denied == None && 0 < |body| <= 104857600 && sha(body) != records[id].sha256 ==>
      response == HttpError(422, "sha256_mismatch")
    ensures response.HttpError? ==> trail.entries == old(trail.entries)
    ensures response.Uploaded? ==>
      && id in records
      && trail.entries == old(trail.entries) + [AuditEntry(records[id].tenant, context.actor,
           "document.content_uploaded", "document", records[id].id, context.purpose, context.traceId, |body|)]
  {
    if id !in records {
      return HttpError(404, "document_not_found");
    }
    var record := records[id];
    if denied.Some? {
      return HttpError(403, denied.value);
    }
    if |body| == 0 {
      return HttpError(422, "empty_upload_body");
    }
    if |body| > MaxUploadBytes {
      return HttpError(413, "upload_too_large");
    }
    var digest := sha(body);
    if digest != record.sha256 {
      return HttpError(422, "sha256_mismatch");
    }
    storage.Put(StorageKey(record.tenant, record.id), body, record.contentType);
    trail.Append(record, context, "document.content_uploaded", |body|);
    response := Uploaded(|body|, digest);
  }

  method DownloadDocument(records: map<string, Record>, storage: InMemoryObjectStorage, trail: AuditTrail,
      id: string, context: Context, denied: Option<string>) returns (response: Response)
    modifies trail
    ensures response == Download(Stores(records, map[], storage.store), Fallback, id, denied)
    ensures response.Downloaded? <==>
      id in records && denied == None && records[id].tenant + "/" + records[id].id in storage.store
    ensures response.Downloaded? ==>
      && response.data == storage.store[records[id].tenant + "/" + records[id].id].data
      && response.contentType == records[id].contentType
      && response.disposition == ContentDisposition.Header(records[id].filename)
    ensures id !in records ==> response == HttpError(404, "document_not_found")
    ensures id in records && denied.Some? ==> response == HttpError(403, denied.value)
    ensures id in records && denied == None && !response.Downloaded? ==>
      response == HttpError(404, "document_content_not_uploaded")
    ensures response.HttpError? ==> trail.entries == old(trail.entries)
    ensures response.Downloaded? ==>
      && id in records
      && trail.entries == old(trail.entries) + [AuditEntry(records[id].tenant, context.actor,
           "document.downloaded", "document", records[id].id, context.purpose, context.traceId, |response.data|)]
  {
    if id !in records {
      return HttpError(404, "document_not_found");
    }
    var record := records[id];
    if denied.Some? {
      return HttpError(403, denied.value);
    }
    var data := storage.Get(StorageKey(record.tenant, record.id));
    if data == None {
      return HttpError(404, "document_content_not_uploaded");
    }
    trail.Append(record, context, "document.downloaded", |data.value|);
    response := Delivered(record, data.value);
  }

  datatype Request =
    | Ingest(record: Record)
    | Put(backend: Backend, id: string, denied: Option<string>, body: Bytes)
    | Get(backend: Backend, id: string, denied: Option<string>)

  // Ids are fresh UUIDs: a new record never replaces another.
  predicate Possible(s: Stores, q: Request) {
    q.Ingest? ==> q.record.id !in s.records && '/' !in q.record.id
  }

  function Step(sha: Digest, s: Stores, q: Request): Stores {
    match q
    case Ingest(r) => s.(records := s.records[r.id := r])
    case Put(b, id, denied, body) => Upload(sha, s, b, id, denied, body).0
    case Get(_, _, _) => s
  }

  function Run(sha: Digest, s: Stores, requests: seq<Request>): Option<Stores> {
    if requests == [] then Some(s)
    else
      match Run(sha, s, requests[..|requests| - 1])
      case None => None
      case Some(mid) =>
        var q := requests[|requests| - 1];
        if Possible(mid, q) then Some(Step(sha, mid, q)) else None
  }

  const Empty := Stores(map[], map[], map[])

  ghost predicate RecordsOk(s: Stores) {
    forall id :: id in s.records ==> s.records[id].id == id && '/' !in id
  }

  // Every stored object is the content of the one record its key belongs to.
  ghost predicate ObjectOk(sha: Digest, s: Stores, key: string, data: Bytes) {
    exists id :: id in s.records && KeyOf(s.records[id]) == key && sha(data) == s.records[id].sha256
  }

  ghost predicate ObjectsOk(sha: Digest, s: Stores, objects: Objects) {
    forall key :: key in objects ==> ObjectOk(sha, s, key, objects[key].data)
  }

  ghost predicate Inv(sha: Digest, s: Stores) {
    RecordsOk(s) && ObjectsOk(sha, s, s.minio) && ObjectsOk(sha, s, s.fallback)
  }

  lemma {:induction false} IngestKeepsObjects(sha: Digest, s: Stores, r: Record, objects: Objects)
    requires r.id !in s.records && ObjectsOk(sha, s, objects)
    ensures ObjectsOk(sha, s.(records := s.records[r.id := r]), objects)
  {
    var s' := s.(records := s.records[r.id := r]);
    forall key | key in objects ensures ObjectOk(sha, s', key, objects[key].data) {
      var id :| id in s.records && KeyOf(s.records[id]) == key && sha(objects[key].data) == s.records[id].sha256;
      assert id in s'.records && s'.records[id] == s.records[id];
    }
  }

  lemma {:induction false} UploadKeepsObjects(sha: Digest, s: Stores, objects: Objects, id: string, body: Bytes,
      contentType: string)
    requires id in s.records && ObjectsOk(sha, s, objects) && sha(body) == s.records[id].sha256
    ensures ObjectsOk(sha, s, objects[KeyOf(s.records[id]) := Object(body, contentType)])
  {
  }

  lemma {:induction false} InvStep(sha: Digest, s: Stores, q: Request)
    requires Inv(sha, s) && Possible(s, q)
    ensures Inv(sha, Step(sha, s, q))
  {
    match q
    case Ingest(r) =>
      IngestKeepsObjects(sha, s, r, s.minio);
      IngestKeepsObjects(sha, s, r, s.fallback);
    case Put(b, id, denied, body) =>
      var s' := Step(sha, s, q);
      if s' != s {
        UploadKeepsObjects(sha, s, ObjectsOf(s, b), id, body, s.records[id].contentType);
        assert s'.records == s.records;
        assert forall key, data :: ObjectOk(sha, s, key, data) ==> ObjectOk(sha, s', key, data);
      }
    case Get(_, _, _) =>
  }

  lemma {:induction false} RunInv(sha: Digest, requests: seq<Request>)
    requires Run(sha, Empty, requests).Some?
    ensures Inv(sha, Run(sha, Empty, requests).value)
  {
    if requests != [] {
      var n := |requests| - 1;
      RunInv(sha, requests[..n]);
      InvStep(sha, Run(sha, Empty, requests[..n]).value, requests[n]);
    }
  }

  lemma {:induction false} KeyNamesRecord(s: Stores, a: string, b: string)
    requires RecordsOk(s) && a in s.records && b in s.records
    ensures KeyOf(s.records[a]) == KeyOf(s.records[b]) <==> a == b
  {
    StorageKeyIsInjective(s.records[a].tenant, a, s.records[b].tenant, b);
  }

  // Whatever was uploaded and however the backend switched, the bytes a
  // download returns hash to that record's digest.
  lemma {:induction false} DownloadsMatchDigest(sha: Digest, requests: seq<Request>, b: Backend, id: string,
      denied: Option<string>)
    requires Run(sha, Empty, requests).Some?
    ensures var s := Run(sha, Empty, requests).value;
      Download(s, b, id, denied).Downloaded? ==>
        id in s.records && sha(Download(s, b, id, denied).data) == s.records[id].sha256
  {
    RunInv(sha, requests);
    var s := Run(sha, Empty, requests).value;
    if Download(s, b, id, denied).Downloaded? {
      var key := KeyOf(s.records[id]);
      assert ObjectOk(sha, s, key, ObjectsOf(s, b)[key].data);
      var owner :| owner in s.records && KeyOf(s.records[owner]) == key &&
        sha(ObjectsOf(s, b)[key].data) == s.records[owner].sha256;
      KeyNamesRecord(s, owner, id);
    }
  }

  // An upload changes no download of any other document, on either backend,
  // and makes its own body the download of this one on the backend it used.
  lemma {:induction false} UploadTouchesOneDocument(sha: Digest, requests: seq<Request>, b: Backend, id: string,
      body: Bytes, other: string, on: Backend)
    requires Run(sha, Empty, requests).Some?
    ensures var s := Run(sha, Empty, requests).value;
      var (s', response) := Upload(sha, s, b, id, None, body);
      && s'.records == s.records
      && (other != id || on != b ==> Download(s', on, other, None) == Download(s, on, other, None))
      && (if response.Uploaded? then id in s.records && Download(s', b, id, None) == Delivered(s.records[id], body)
          else s' == s)
  {
    RunInv(sha, requests);
    var s := Run(sha, Empty, requests).value;
    if id in s.records && other in s.records { KeyNamesRecord(s, id, other); }
  }

  predicate Accepted(sha: Digest, s: Stores, q: Request, b: Backend, id: string) {
    q.Put? && q.backend == b && q.id == id && Upload(sha, s, b, id, q.denied, q.body).1.Uploaded?
  }

  // The body of the last accepted upload of a document to one backend.
  function LastBody(sha: Digest, requests: seq<Request>, b: Backend, id: string): Option<Bytes> {
    if requests == [] then None
    else
      var n := |requests| - 1;
      match Run(sha, Empty, requests[..n])
      case None => None
      case Some(mid) =>
        if Accepted(sha, mid, requests[n], b, id) then Some(requests[n].body) else LastBody(sha, requests[..n], b, id)
  }

  lemma {:induction false} NewRecordHasNoContent(sha: Digest, s: Stores, r: Record, b: Backend)
    requires Inv(sha, s) && r.id !in s.records && '/' !in r.id
    ensures KeyOf(r) !in ObjectsOf(s, b)
  {
    if KeyOf(r) in ObjectsOf(s, b) {
      assert ObjectOk(sha, s, KeyOf(r), ObjectsOf(s, b)[KeyOf(r)].data);
      var id :| id in s.records && KeyOf(s.records[id]) == KeyOf(r);
      StorageKeyIsInjective(s.records[id].tenant, id, r.tenant, r.id);
    }
  }

  lemma {:induction false} LastBodyBeforeIngest(sha: Digest, requests: seq<Request>, b: Backend, id: string)
    requires Run(sha, Empty, requests).Some? && id !in Run(sha, Empty, requests).value.records
    ensures LastBody(sha, requests, b, id) == None
  {
    if requests != [] {
      LastBodyBeforeIngest(sha, requests[..|requests| - 1], b, id);
    }
  }

  // A request changes a stored document's download only by an accepted upload.
  lemma {:induction false} DownloadAfterStep(sha: Digest, requests: seq<Request>, q: Request, b: Backend, id: string)
    requires Run(sha, Empty, requests).Some? && id in Run(sha, Empty, requests).value.records
    requires Possible(Run(sha, Empty, requests).value, q)
    ensures var s := Run(sha, Empty, requests).value;
      var s' := Step(sha, s, q);
      && id in s'.records && s'.records[id] == s.records[id]
      && Download(s', b, id, None) ==
           if Accepted(sha, s, q, b, id) then Delivered(s.records[id], q.body) else Download(s, b, id, None)
  {
    if q.Put? && q.denied == None { UploadTouchesOneDocument(sha, requests, q.backend, q.id, q.body, id, b); }
  }

  // A download on a backend is exactly the last upload accepted there for the
  // document, whatever else happened on either backend since.
  lemma {:induction false} DownloadIsLastAcceptedUpload(sha: Digest, requests: seq<Request>, b: Backend, id: string)
    requires Run(sha, Empty, requests).Some? && id in Run(sha, Empty, requests).value.records
    ensures Download(Run(sha, Empty, requests).value, b, id, None) ==
      match LastBody(sha, requests, b, id)
      case Some(body) => Delivered(Run(sha, Empty, requests).value.records[id], body)
      case None => HttpError(404, "document_content_not_uploaded")
  {
    var n := |requests| - 1;
    var mid := Run(sha, Empty, requests[..n]).value;
    var q := requests[n];
    RunInv(sha, requests[..n]);
    if id in mid.records {
      DownloadIsLastAcceptedUpload(sha, requests[..n], b, id);
      DownloadAfterStep(sha, requests[..n], q, b, id);
    } else {
      LastBodyBeforeIngest(sha, requests[..n], b, id);
      NewRecordHasNoContent(sha, mid, q.record, b);
    }
  }
}
