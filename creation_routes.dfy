/** `routes/creation.py`: the POST handler that creates an upload. */
module CreationRoutes {
  import opened Basics
  import opened TusParams
  import opened TusStorage
  import opened TusInfo
  import opened TusFile
  import opened TusOptions
  import opened TusRequest
  import opened UploadMetadata
  import Text

  /** The request headers POST reads; a header the client did not send is `None`. */
  datatype CreateHeaders = CreateHeaders(uploadMetadata: Option<string>, uploadLength: Option<int>, uploadDeferLength: Option<int>)

  /** What POST answers. */
  datatype CreateReply =
    | CreateBadDefer                     // 400 "Invalid Upload-Defer-Length"
    | CreateFailed(error: MetadataError) // the metadata parse raises: 500
    | Created(location: string)          // 201, `Content-Length: 0`
  {
    function Status(): int
    {
      match this
      case CreateBadDefer => 400
      case CreateFailed(_) => 500
      case Created(_) => 201
    }
  }

  /** The record the route builds before creating the upload; `now` is `datetime.now()`. */
  function InitialParams(metadata: map<string, Bytes>, h: CreateHeaders, opts: Options, now: int): Params
  {
    WithDefaults(metadata, h.uploadLength, now, IsoText(ExpiryAfter(now, opts.daysToKeep)))
      .(deferLength := h.uploadDeferLength.Some?)
  }

  /**
   * POST under the freshly generated `uid`: validate the deferral, parse
   * the metadata, create the blob (kept if present) and the sidecar (kept if
   * present), and call the injected hook when the record reads back with
   * size 0.
   */
  function CreateSpec(d: Dir, opts: Options, req: RequestHeaders, uid: string, h: CreateHeaders, now: int)
    : (Dir, CreateReply, seq<HookCall>)
  {
    if h.uploadDeferLength.Some? && h.uploadDeferLength.value != 1 then (d, CreateBadDefer, [])
    else
      match ParseUploadMetadata(h.uploadMetadata)
      case Err(e) => (d, CreateFailed(e), [])
      case Ok(metadata) =>
        var p := InitialParams(metadata, h, opts, now);
        var d' := Dir(if uid in d.blobs then d.blobs else d.blobs[uid := []],
                      if uid in d.sidecars then d.sidecars else d.sidecars[uid := Stored(p)]);
        var readBack := Reload(Lookup(d'.sidecars, uid), Some(p));
        var hooks :=
          if readBack.Some? && readBack.value.size == Some(0)
          then [HookCall(InjectedHook, JoinPath(opts.filesDir, uid), readBack.value.metadata)]
          else [];
        (d', Created(RequestLocation(req, uid, opts.prefix).location), hooks)
  }

  /** `extension_creation_route`; `uid` is the `uuid4().hex` the handle generates. */
  method CreateRoute(disk: Disk, opts: Options, req: RequestHeaders, uid: string, h: CreateHeaders, now: int)
    returns (reply: CreateReply, hooks: seq<HookCall>)
    requires IsUuid4Hex(uid)
    modifies disk
    ensures (disk.State(), reply, hooks) == CreateSpec(old(disk.State()), opts, req, uid, h, now)
  {
    if h.uploadDeferLength.Some? && h.uploadDeferLength.value != 1 {
      return CreateBadDefer, [];
    }
    var parsed := ParseUploadMetadata(h.uploadMetadata);
    if parsed.Err? {
      return CreateFailed(parsed.error), [];
    }
    var params := InitialParams(parsed.value, h, opts, now);
    var file := new UploadFile.New(disk, opts.filesDir, uid, params);
    reply := Created(RequestLocation(req, file.uid, opts.prefix).location);
    hooks := [];
    var readBack := file.GetInfo();
    if readBack.Some? && readBack.value.size == Some(0) {
      var again := file.GetInfo();
      hooks := [HookCall(InjectedHook, file.Path(), again.value.metadata)];
    }
  }

  /** An `Upload-Defer-Length` other than 1 is 400, and nothing is created. */
  lemma CreateBadDeferIff(d: Dir, opts: Options, req: RequestHeaders, uid: string, h: CreateHeaders, now: int)
    ensures var (d', reply, hooks) := CreateSpec(d, opts, req, uid, h, now);
            && (reply == CreateBadDefer <==> h.uploadDeferLength.Some? && h.uploadDeferLength.value != 1)
            && (reply == CreateBadDefer ==> d' == d && hooks == [])
  {
  }

  /** Metadata that does not parse fails the request before anything is created. */
  lemma CreateBadMetadataCreatesNothing(d: Dir, opts: Options, req: RequestHeaders, uid: string, h: CreateHeaders, now: int)
    requires h.uploadDeferLength.None? || h.uploadDeferLength == Some(1)
    requires ParseUploadMetadata(h.uploadMetadata).Err?
    ensures CreateSpec(d, opts, req, uid, h, now) == (d, CreateFailed(ParseUploadMetadata(h.uploadMetadata).error), [])
  {
  }

  /**
   * Under a uid that is new to the directory, POST leaves an empty blob and
   * a record with offset and part 0, the declared size, the deferral flag
   * iff the header was sent, the parsed metadata and an expiry
   * `days_to_keep` days ahead; no other upload changes.
   */
  lemma CreateFreshUpload(d: Dir, opts: Options, req: RequestHeaders, uid: string, h: CreateHeaders, now: int)
    requires uid !in d.blobs && uid !in d.sidecars
    requires h.uploadDeferLength.None? || h.uploadDeferLength == Some(1)
    requires ParseUploadMetadata(h.uploadMetadata).Ok?
    ensures var (d', reply, hooks) := CreateSpec(d, opts, req, uid, h, now);
            && reply.Created? && reply.Status() == 201
            && d'.blobs == d.blobs[uid := []]
            && Record(d', uid).Some?
            && var p := Record(d', uid).value;
            && p.metadata == ParseUploadMetadata(h.uploadMetadata).value
            && p.size == h.uploadLength && p.offset == 0 && p.uploadPart == 0
            && p.deferLength == h.uploadDeferLength.Some?
            && p.expires == IsoText(ExpiryAfter(now, opts.daysToKeep))
            && p.error == None
            && |d'.blobs[uid]| - p.offset == 0
            && (forall other :: other != uid ==> Lookup(d'.sidecars, other) == Lookup(d.sidecars, other))
  {
  }

  /**
   * For a new uid the hook runs exactly when `Upload-Length` is 0, and it is
   * always the injected one; an unknown length never triggers it.
   */
  lemma CreateHookIffEmpty(d: Dir, opts: Options, req: RequestHeaders, uid: string, h: CreateHeaders, now: int)
    requires uid !in d.sidecars
    requires h.uploadDeferLength.None? || h.uploadDeferLength == Some(1)
    requires ParseUploadMetadata(h.uploadMetadata).Ok?
    ensures var hooks := CreateSpec(d, opts, req, uid, h, now).2;
            && (|hooks| == 1 <==> h.uploadLength == Some(0))
            && (|hooks| != 1 ==> hooks == [])
            && (|hooks| == 1 ==> hooks[0] == HookCall(InjectedHook, JoinPath(opts.filesDir, uid), ParseUploadMetadata(h.uploadMetadata).value))
  {
  }

  /** The `Location` of a created upload ends in its uid, under the cleaned prefix. */
  lemma CreateLocationNamesUpload(d: Dir, opts: Options, req: RequestHeaders, uid: string, h: CreateHeaders, now: int)
    requires IsUuid4Hex(uid)
    requires CreateSpec(d, opts, req, uid, h, now).1.Created?
    ensures var loc := CreateSpec(d, opts, req, uid, h, now).1.location;
            Text.RSplitOnce(loc, '/').Some? && Text.RSplitOnce(loc, '/').value.1 == uid
  {
    assert '/' !in uid by {
      forall i | 0 <= i < |uid| ensures uid[i] != '/' {
        assert IsLowerHex(uid[i]);
      }
    }
    LocationNamesUpload(req, uid, opts.prefix);
  }
}
