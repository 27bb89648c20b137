/**
 * `routes/core.py`: the HEAD, PATCH and OPTIONS handlers of the core
 * protocol. Each handler is a method over the shared `Disk`, proved equal to
 * a function of the directory, and the properties are lemmas about that
 * function.
 */
module CoreRoutes {
  import opened Basics
  import opened TusParams
  import opened TusStorage
  import opened TusInfo
  import opened TusFile
  import opened TusOptions
  import opened TusRequest
  import UploadMetadata
  import Text

  /* ---------------------------------------------------------------- HEAD */

  /** What HEAD answers. */
  datatype HeadReply =
    | HeadNotFound           // 404 without a detail
    | HeadMissingFilename    // 400 "Upload-file.metadata missing required field: filename"
    | HeadMissingFiletype    // 400 "Upload-Metadata missing required field: filetype"
    | HeadOk(uploadMetadata: string, uploadLength: Option<int>, uploadOffset: int)
  {
    function Status(): int
    {
      match this
      case HeadNotFound => 404
      case HeadMissingFilename => 400
      case HeadMissingFiletype => 400
      case HeadOk(_, _, _) => 200
    }
  }

  /** `md.get(primary) or md.get(fallback)`: an empty value falls through to the fallback. */
  function FirstUsable(md: map<string, Bytes>, primary: string, fallback: string): (r: Option<Bytes>)
    ensures r.None? <==> (primary !in md || md[primary] == []) && fallback !in md
    ensures r.Some? && primary in md && md[primary] != [] ==> r.value == md[primary]
    ensures r.Some? && (primary !in md || md[primary] == []) ==> r.value == md[fallback]
  {
    if primary in md && md[primary] != [] then Some(md[primary]) else Lookup(md, fallback)
  }

  /** HEAD's decision given whether the blob exists and what the record reads as. */
  function HeadDecision(present: bool, record: Option<Params>): HeadReply
  {
    if !present || record.None? then HeadNotFound
    else
      var md := record.value.metadata;
      match FirstUsable(md, "filename", "name")
      case None => HeadMissingFilename
      case Some(filename) =>
        match FirstUsable(md, "filetype", "type")
        case None => HeadMissingFiletype
        case Some(filetype) =>
          HeadOk(UploadMetadata.EchoHeader(filename, filetype), record.value.size, record.value.offset)
  }

  /** HEAD on the directory `d`. */
  function HeadOf(d: Dir, uid: string): HeadReply
  {
    HeadDecision(uid in d.blobs, Record(d, uid))
  }

  /** `core_head_route`: reads the blob's presence and the record; writes nothing. */
  method HeadRoute(disk: Disk, opts: Options, uid: string) returns (r: HeadReply)
    ensures r == HeadOf(disk.State(), uid)
  {
    var file := new UploadFile.Open(disk, opts.filesDir, uid);
    var present := file.Exists();
    var record := file.GetInfo();
    if !present || record.None? {
      return HeadNotFound;
    }
    var md := record.value.metadata;
    var filename := FirstUsable(md, "filename", "name");
    if filename.None? {
      return HeadMissingFilename;
    }
    var filetype := FirstUsable(md, "filetype", "type");
    if filetype.None? {
      return HeadMissingFiletype;
    }
    r := HeadOk(UploadMetadata.EchoHeader(filename.value, filetype.value), record.value.size, record.value.offset);
  }

  /** HEAD is 404 exactly when the blob is missing or the record does not read. */
  lemma HeadNotFoundIff(d: Dir, uid: string)
    ensures HeadOf(d, uid) == HeadNotFound <==> uid !in d.blobs || Record(d, uid).None?
    ensures HeadOf(d, uid).Status() == 404 <==> HeadOf(d, uid) == HeadNotFound
  {
  }

  /**
   * For an upload that is found, HEAD is 400 exactly when neither name
   * field is usable, the file name being looked at first; otherwise it
   * reports the record's size and offset.
   */
  lemma HeadRequiredFields(d: Dir, uid: string)
    requires uid in d.blobs && Record(d, uid).Some?
    ensures var md := Record(d, uid).value.metadata;
            var noName := ("filename" !in md || md["filename"] == []) && "name" !in md;
            var noType := ("filetype" !in md || md["filetype"] == []) && "type" !in md;
            && (HeadOf(d, uid) == HeadMissingFilename <==> noName)
            && (HeadOf(d, uid) == HeadMissingFiletype <==> !noName && noType)
            && (HeadOf(d, uid).HeadOk? <==> !noName && !noType)
            && (HeadOf(d, uid).Status() == 400 <==> noName || noType)
            && (HeadOf(d, uid).HeadOk? ==>
                  HeadOf(d, uid).uploadLength == Record(d, uid).value.size
                  && HeadOf(d, uid).uploadOffset == Record(d, uid).value.offset)
  {
  }

  /**
   * The `Upload-Metadata` HEAD sends is what creation reads back as exactly
   * `filename` and `filetype`, with the values HEAD chose.
   */
  lemma HeadEchoParses(d: Dir, uid: string)
    requires HeadOf(d, uid).HeadOk?
    ensures var md := Record(d, uid).value.metadata;
            UploadMetadata.ParseUploadMetadata(Some(HeadOf(d, uid).uploadMetadata))
              == Ok(map["filename" := FirstUsable(md, "filename", "name").value,
                        "filetype" := FirstUsable(md, "filetype", "type").value])
  {
    var md := Record(d, uid).value.metadata;
    UploadMetadata.EchoRoundTrip(FirstUsable(md, "filename", "name").value, FirstUsable(md, "filetype", "type").value);
  }

  /* --------------------------------------------------------------- PATCH */

  /** What PATCH answers. */
  datatype PatchReply =
    | PatchNotFound(detail: string)                     // 404
    | PatchConflict                                     // 409
    | PatchDone(uploadOffset: int, uploadExpires: Expiry) // 204
  {
    function Status(): int
    {
      match this
      case PatchNotFound(_) => 404
      case PatchConflict => 409
      case PatchDone(_, _) => 204
    }
  }

  /** The request's own inputs besides the body: the two headers and the `post_request` query flag. */
  datatype PatchHeaders = PatchHeaders(contentLength: int, uploadOffset: int, postRequest: bool)

  /** `new_params` after the defer-length overwrite and the set-once expiry; no other field changes. */
  function Amend(p: Params, h: PatchHeaders, opts: Options, now: int): (q: Params)
    ensures q == p.(size := q.size, expires := q.expires)
    ensures q.size == if p.deferLength then Some(h.uploadOffset) else p.size
    ensures p.expires.IsSet() ==> q.expires == p.expires
    ensures !p.expires.IsSet() ==> q.expires == IsoText(ExpiryAfter(now, opts.daysToKeep))
    ensures q.expires.IsSet()
  {
    var sized := if p.deferLength then p.(size := Some(h.uploadOffset)) else p;
    if !sized.expires.IsSet() then sized.(expires := IsoText(ExpiryAfter(now, opts.daysToKeep))) else sized
  }

  /** The one completion call, to the configured callback when there is one. */
  function CompletionHook(opts: Options, uid: string, p: Params): HookCall
  {
    HookCall(if opts.onUploadComplete then ConfiguredHook else InjectedHook, JoinPath(opts.filesDir, uid), p.metadata)
  }

  /** The route body after the ingester returned, on the directory it left behind. */
  function PatchDecision(d: Dir, opts: Options, uid: string, h: PatchHeaders, now: int): (Dir, PatchReply, seq<HookCall>)
  {
    if uid !in d.blobs || Record(d, uid).None? then (d, PatchNotFound("Not Found"), [])
    else
      var p := Record(d, uid).value;
      if p.offset != h.uploadOffset + h.contentLength then (d, PatchConflict, [])
      else
        var q := Amend(p, h, opts, now);
        var d' := d.(sidecars := d.sidecars[uid := Stored(q)]);
        if q.IsComplete() then
          (d', PatchDone(if q.offset > 0 then q.offset else h.contentLength, q.expires), [CompletionHook(opts, uid, q)])
        else
          (d', PatchDone(q.offset, q.expires), [])
  }

  /** PATCH: the ingester first (its 404 ends the request), then the route body. */
  function PatchSpec(d: Dir, opts: Options, uid: string, body: Stream, h: PatchHeaders, now: int): (Dir, PatchReply, seq<HookCall>)
  {
    var (d1, ingested) := IngestSpec(d, uid, body, h.postRequest, opts.maxSize);
    if ingested == UploadNotFound then (d1, PatchNotFound("Upload not found"), [])
    else PatchDecision(d1, opts, uid, h, now)
  }

  /** `core_patch_route` with `request_chunks_dep` run before it. */
  method PatchRoute(disk: Disk, opts: Options, uid: string, body: Stream, h: PatchHeaders, now: int)
    returns (reply: PatchReply, hooks: seq<HookCall>)
    modifies disk
    ensures (disk.State(), reply, hooks) == PatchSpec(old(disk.State()), opts, uid, body, h, now)
  {
    var ingested := RequestChunks(disk, opts, uid, body, h.postRequest);
    if ingested == UploadNotFound {
      return PatchNotFound("Upload not found"), [];
    }
    ghost var d1 := disk.State();
    assert PatchSpec(old(disk.State()), opts, uid, body, h, now) == PatchDecision(d1, opts, uid, h, now);
    var file := new UploadFile.Open(disk, opts.filesDir, uid);
    var present := file.Exists();
    var record := file.GetInfo();
    if !present || record.None? {
      return PatchNotFound("Not Found"), [];
    }
    assert Record(d1, uid) == record;
    var newParams := record.value;
    if newParams.offset != h.uploadOffset + h.contentLength {
      return PatchConflict, [];
    }
    if newParams.deferLength {
      newParams := newParams.(size := Some(h.uploadOffset));
    }
    if !newParams.expires.IsSet() {
      newParams := newParams.(expires := IsoText(ExpiryAfter(now, opts.daysToKeep)));
    }
    assert newParams == Amend(record.value, h, opts, now);
    file.SetInfo(newParams);
    assert disk.State() == d1.(sidecars := d1.sidecars[uid := Stored(newParams)]);
    var saved := file.GetInfo();
    var current := saved.value;
    assert current == newParams;
    hooks := [];
    if current.IsComplete() {
      reply := PatchDone(if current.offset > 0 then current.offset else h.contentLength, current.expires);
      if opts.onUploadComplete {
        hooks := hooks + [HookCall(ConfiguredHook, file.Path(), current.metadata)];
      }
    } else {
      reply := PatchDone(current.offset, current.expires);
    }
    if current.IsComplete() && !opts.onUploadComplete {
      hooks := hooks + [HookCall(InjectedHook, file.Path(), current.metadata)];
    }
    assert hooks == if current.IsComplete() then [CompletionHook(opts, uid, current)] else [];
  }

  /** PATCH is 404 exactly when the ingester finds no blob or no record, and then nothing is written or called. */
  lemma PatchNotFoundIff(d: Dir, opts: Options, uid: string, body: Stream, h: PatchHeaders, now: int)
    ensures var (d', reply, hooks) := PatchSpec(d, opts, uid, body, h, now);
            && (reply.PatchNotFound? <==> uid !in d.blobs || Record(d, uid).None?)
            && (reply.Status() == 404 <==> reply.PatchNotFound?)
            && (reply.PatchNotFound? ==> d' == d && hooks == [] && reply.detail == "Upload not found")
  {
    IngestNotFound(d, uid, body, h.postRequest, opts.maxSize);
  }

  /**
   * 409 exactly when the offset stored after ingesting differs from
   * `Upload-Offset + Content-Length`; the ingested bytes and record stay.
   */
  lemma PatchConflictIff(d: Dir, opts: Options, uid: string, body: Stream, h: PatchHeaders, now: int)
    requires uid in d.blobs && Record(d, uid).Some?
    ensures var ingested := IngestSpec(d, uid, body, h.postRequest, opts.maxSize).0;
            var (d', reply, hooks) := PatchSpec(d, opts, uid, body, h, now);
            && Record(ingested, uid).Some?
            && (reply == PatchConflict <==> Record(ingested, uid).value.offset != h.uploadOffset + h.contentLength)
            && (reply.Status() == 409 <==> reply == PatchConflict)
            && (reply == PatchConflict ==> d' == ingested && hooks == [])
  {
  }

  /**
   * A PATCH that gets past the offset check persists the amended record:
   * `size` becomes `Upload-Offset` under deferred length, `expires` is set
   * only when it was unset, and nothing else of the record changes.
   */
  lemma PatchAmendsRecord(d: Dir, opts: Options, uid: string, body: Stream, h: PatchHeaders, now: int)
    requires PatchSpec(d, opts, uid, body, h, now).1.PatchDone?
    ensures var p := Record(IngestSpec(d, uid, body, h.postRequest, opts.maxSize).0, uid).value;
            var d' := PatchSpec(d, opts, uid, body, h, now).0;
            && Record(d', uid) == Some(Amend(p, h, opts, now))
            && (Record(d, uid).value.expires.IsSet() ==> Record(d', uid).value.expires == Record(d, uid).value.expires)
  {
    ConsumeKeepsGap(d.blobs[uid], Record(d, uid).value, body.fragments, opts.maxSize);
  }

  /**
   * Exactly one hook is called when the amended record is complete and none
   * otherwise; it gets the blob's path and the metadata. The reported
   * offset is the stored one, or `Content-Length` when that is 0.
   */
  lemma PatchHookIffComplete(d: Dir, opts: Options, uid: string, body: Stream, h: PatchHeaders, now: int)
    ensures var (d', reply, hooks) := PatchSpec(d, opts, uid, body, h, now);
            && |hooks| <= 1
            && (|hooks| == 1 <==> reply.PatchDone? && Record(d', uid).Some? && Record(d', uid).value.IsComplete())
            && (|hooks| == 1 ==>
                  && hooks[0].hook == (if opts.onUploadComplete then ConfiguredHook else InjectedHook)
                  && hooks[0].path == JoinPath(opts.filesDir, uid)
                  && hooks[0].metadata == Record(d', uid).value.metadata
                  && reply.uploadOffset == (if Record(d', uid).value.offset > 0 then Record(d', uid).value.offset else h.contentLength))
            && (reply.PatchDone? && |hooks| == 0 ==> Record(d', uid).Some? && reply.uploadOffset == Record(d', uid).value.offset)
  {
  }

  /**
   * Nothing remembers that the hook fired: replaying an empty PATCH at the
   * final offset on a completed upload changes nothing in the directory and
   * fires the hook again.
   */
  lemma CompletionRefires(d: Dir, opts: Options, uid: string, body: Stream, h: PatchHeaders, now: int, later: int)
    requires |PatchSpec(d, opts, uid, body, h, now).2| == 1
    ensures var d' := PatchSpec(d, opts, uid, body, h, now).0;
            var replay := PatchHeaders(0, Record(d', uid).value.offset, false);
            var (d'', reply, hooks) := PatchSpec(d', opts, uid, Stream([], Finished), replay, later);
            && d'' == d' && reply.PatchDone? && |hooks| == 1
  {
    var d' := PatchSpec(d, opts, uid, body, h, now).0;
    PatchHookIffComplete(d, opts, uid, body, h, now);
    var q := Record(d', uid).value;
    var replay := PatchHeaders(0, q.offset, false);
    var d1 := IngestSpec(d', uid, Stream([], Finished), false, opts.maxSize).0;
    assert d1.blobs == d'.blobs[uid := d'.blobs[uid]] == d'.blobs;
    assert d1.sidecars == d'.sidecars[uid := Stored(q)] == d'.sidecars;
    assert Amend(q, replay, opts, later) == q;
  }

  /**
   * An honest PATCH (the offset the server holds, a body that fits, no
   * disconnect) appends the whole body and moves the offset by its length,
   * without a conflict.
   */
  lemma HonestPatchAppends(d: Dir, opts: Options, uid: string, frags: seq<Bytes>, h: PatchHeaders, now: int)
    requires uid in d.blobs && Record(d, uid).Some?
    requires var p := Record(d, uid).value;
             && h.uploadOffset == p.offset && h.contentLength == |Concat(frags)|
             && p.offset + h.contentLength <= opts.maxSize
             && (p.size.Some? ==> p.offset + h.contentLength <= p.size.value)
    requires !(h.postRequest && frags == [])
    ensures var p := Record(d, uid).value;
            var (d', reply, hooks) := PatchSpec(d, opts, uid, Stream(frags, Finished), h, now);
            && reply.PatchDone?
            && d'.blobs == d.blobs[uid := d.blobs[uid] + Concat(frags)]
            && Record(d', uid).Some?
            && Record(d', uid).value.offset == p.offset + |Concat(frags)|
  {
    ConsumeAllFits(d.blobs[uid], Record(d, uid).value, frags, opts.maxSize);
  }

  /** PATCH writes only the addressed upload's blob and sidecar. */
  lemma PatchTouchesOnlyItsUpload(d: Dir, opts: Options, uid: string, body: Stream, h: PatchHeaders, now: int, other: string)
    requires other != uid
    ensures var d' := PatchSpec(d, opts, uid, body, h, now).0;
            Lookup(d'.blobs, other) == Lookup(d.blobs, other) && Lookup(d'.sidecars, other) == Lookup(d.sidecars, other)
  {
  }

  /* ------------------------------------------------------------- OPTIONS */

  /** The headers OPTIONS answers with, status 204. */
  datatype OptionsReply = OptionsReply(tusVersion: string, tusResumable: string, tusExtension: string, tusMaxSize: int, contentLength: int)

  /** `core_options_route`: the server's capabilities; the extension list reads back as the five names. */
  function OptionsOf(opts: Options): (r: OptionsReply)
    ensures r.tusVersion == "1.0.0" && r.tusResumable == r.tusVersion
    ensures Text.Split(r.tusExtension, ',') == ExtensionNames
    ensures r.tusMaxSize == opts.maxSize && r.contentLength == 0
  {
    assert forall k :: 0 <= k < |ExtensionNames| ==> ',' !in ExtensionNames[k];
    Text.SplitJoin(ExtensionNames, ',');
    OptionsReply(TusVersion, TusVersion, TusExtension, opts.maxSize, 0)
  }
}
