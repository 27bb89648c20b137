/**
 * `request.py`: the chunk-ingesting dependency that PATCH runs before its
 * own body, and the `Location` builder used by creation.
 */
module TusRequest {
  import opened Basics
  import opened TusParams
  import opened TusStorage
  import opened TusInfo
  import opened TusFile
  import opened TusOptions
  import Text

  /** How the body stream ends after its fragments: normally, or with `ClientDisconnect`. */
  datatype StreamEnd = Finished | Disconnected

  /** `request.stream()`: the fragments as the network delivered them, then the end. */
  datatype Stream = Stream(fragments: seq<Bytes>, end: StreamEnd)

  /** What the dependency does: raise 404, or return a boolean. */
  datatype Ingested = UploadNotFound | Returned(ok: bool)

  /** `str(HTTPException(...))` for the two rejections, as stored in `error`. */
  const DeclaredLengthError: string := "400: Upload would exceed declared Upload-Length"
  const MaxSizeError: string := "413: Upload exceeds maximum allowed size"

  /** Whether a non-empty fragment of `n` bytes is refused, and why; the declared length is checked first. */
  function Rejection(p: Params, n: int, maxSize: int): (r: Option<string>)
    ensures r == Some(DeclaredLengthError) <==> p.size.Some? && p.offset + n > p.size.value
    ensures r == Some(MaxSizeError) <==> !(p.size.Some? && p.offset + n > p.size.value) && p.offset + n > maxSize
    ensures r.None? <==> (p.size.None? || p.offset + n <= p.size.value) && p.offset + n <= maxSize
  {
    if p.size.Some? && p.offset + n > p.size.value then Some(DeclaredLengthError)
    else if p.offset + n > maxSize then Some(MaxSizeError)
    else None
  }

  /** The record after a fragment of `n` bytes is written. */
  function Accept(p: Params, n: int): Params
  {
    p.(offset := p.offset + n, uploadChunkSize := n, uploadPart := p.uploadPart + 1)
  }

  /** The blob and the record after the fragments, and whether one was refused. */
  datatype Consumed = Consumed(blob: Bytes, params: Params, rejected: bool)

  /**
   * The loop over the fragments: skip empty ones, stop at the first refused
   * one (recording the error), otherwise append and advance.
   */
  function Consume(blob: Bytes, p: Params, frags: seq<Bytes>, maxSize: int): (c: Consumed)
    ensures blob <= c.blob
    ensures !c.rejected ==> c.params.error == p.error
    ensures c.rejected ==> c.params.error in {Some(DeclaredLengthError), Some(MaxSizeError)}
    decreases |frags|
  {
    if frags == [] then Consumed(blob, p, false)
    else if |frags[0]| == 0 then Consume(blob, p, frags[1..], maxSize)
    else
      match Rejection(p, |frags[0]|, maxSize)
      case Some(e) => Consumed(blob, p.(error := Some(e)), true)
      case None => Consume(blob + frags[0], Accept(p, |frags[0]|), frags[1..], maxSize)
  }

  /**
   * Every accepted fragment grows the blob and the offset by the same amount,
   * so blob length minus offset is what it was; the old blob stays a prefix,
   * the offset never decreases, and the declared size and the metadata are
   * never touched.
   */
  lemma {:induction false} ConsumeKeepsGap(blob: Bytes, p: Params, frags: seq<Bytes>, maxSize: int)
    ensures var c := Consume(blob, p, frags, maxSize);
            && |c.blob| - c.params.offset == |blob| - p.offset
            && blob <= c.blob
            && c.params.offset >= p.offset
            && c.params.size == p.size && c.params.metadata == p.metadata
            && c.params.expires == p.expires && c.params.deferLength == p.deferLength
    decreases |frags|
  {
    if frags != [] {
      if |frags[0]| == 0 {
        ConsumeKeepsGap(blob, p, frags[1..], maxSize);
      } else if Rejection(p, |frags[0]|, maxSize).None? {
        ConsumeKeepsGap(blob + frags[0], Accept(p, |frags[0]|), frags[1..], maxSize);
      }
    }
  }

  /** An offset within the declared size and within `max_size` stays within both. */
  lemma {:induction false} ConsumeStaysWithinLimits(blob: Bytes, p: Params, frags: seq<Bytes>, maxSize: int)
    requires p.offset <= maxSize
    requires p.size.Some? ==> p.offset <= p.size.value
    ensures var c := Consume(blob, p, frags, maxSize);
            && c.params.offset <= maxSize
            && (p.size.Some? ==> c.params.offset <= p.size.value)
    decreases |frags|
  {
    if frags != [] {
      if |frags[0]| == 0 {
        ConsumeStaysWithinLimits(blob, p, frags[1..], maxSize);
      } else if Rejection(p, |frags[0]|, maxSize).None? {
        ConsumeStaysWithinLimits(blob + frags[0], Accept(p, |frags[0]|), frags[1..], maxSize);
      }
    }
  }

  /** Once a fragment is refused, no later fragment is looked at. */
  lemma {:induction false} RejectionIsFinal(blob: Bytes, p: Params, frags: seq<Bytes>, later: seq<Bytes>, maxSize: int)
    requires Consume(blob, p, frags, maxSize).rejected
    ensures Consume(blob, p, frags + later, maxSize) == Consume(blob, p, frags, maxSize)
    decreases |frags|
  {
    assert frags != [];
    assert (frags + later)[0] == frags[0];
    assert (frags + later)[1..] == frags[1..] + later;
    if |frags[0]| == 0 {
      RejectionIsFinal(blob, p, frags[1..], later, maxSize);
    } else if Rejection(p, |frags[0]|, maxSize).None? {
      RejectionIsFinal(blob + frags[0], Accept(p, |frags[0]|), frags[1..], later, maxSize);
    }
  }

  /** All the bytes of the fragments, in order. */
  function Concat(frags: seq<Bytes>): (b: Bytes)
    decreases |frags|
  {
    if frags == [] then [] else frags[0] + Concat(frags[1..])
  }

  /** The number of non-empty fragments. */
  function CountNonEmpty(frags: seq<Bytes>): nat
    decreases |frags|
  {
    if frags == [] then 0 else (if |frags[0]| == 0 then 0 else 1) + CountNonEmpty(frags[1..])
  }

  /** The length of the last non-empty fragment, or `otherwise` when every fragment is empty. */
  function LastChunk(frags: seq<Bytes>, otherwise: int): int
    decreases |frags|
  {
    if frags == [] then otherwise
    else if |frags[|frags| - 1]| > 0 then |frags[|frags| - 1]|
    else LastChunk(frags[..|frags| - 1], otherwise)
  }

  /** `LastChunk` read from the front: the first fragment, when non-empty, becomes the fallback for the rest. */
  lemma {:induction false} LastChunkCons(frags: seq<Bytes>, otherwise: int)
    requires frags != []
    ensures LastChunk(frags, otherwise) == LastChunk(frags[1..], if |frags[0]| == 0 then otherwise else |frags[0]|)
    decreases |frags|
  {
    var n := |frags|;
    if n > 1 && |frags[n - 1]| == 0 {
      assert frags[1..][..n - 2] == frags[..n - 1][1..];
      LastChunkCons(frags[..n - 1], otherwise);
    }
  }

  /**
   * When all the bytes fit under the declared size and `max_size`, every
   * fragment is taken: the blob grows by all of them, in order, the offset
   * by their total, and `upload_part` by the number of non-empty ones.
   */
  lemma {:induction false} ConsumeAllFits(blob: Bytes, p: Params, frags: seq<Bytes>, maxSize: int)
    requires p.offset + |Concat(frags)| <= maxSize
    requires p.size.Some? ==> p.offset + |Concat(frags)| <= p.size.value
    ensures var c := Consume(blob, p, frags, maxSize);
            && !c.rejected
            && c.blob == blob + Concat(frags)
            && c.params.offset == p.offset + |Concat(frags)|
            && c.params.uploadPart == p.uploadPart + CountNonEmpty(frags)
            && c.params.uploadChunkSize == LastChunk(frags, p.uploadChunkSize)
            && c.params.error == p.error
    decreases |frags|
  {
    if frags == [] {
      assert blob + [] == blob;
    } else {
      var rest := frags[1..];
      assert Concat(frags) == frags[0] + Concat(rest);
      LastChunkCons(frags, p.uploadChunkSize);
      if |frags[0]| == 0 {
        assert frags[0] + Concat(rest) == Concat(rest);
        ConsumeAllFits(blob, p, rest, maxSize);
      } else {
        assert Rejection(p, |frags[0]|, maxSize).None?;
        ConsumeAllFits(blob + frags[0], Accept(p, |frags[0]|), rest, maxSize);
        assert blob + frags[0] + Concat(rest) == blob + Concat(frags);
      }
    }
  }

  /** Consuming a prefix that is not refused, then the rest, is consuming the whole. */
  lemma {:induction false} ConsumeAppend(blob: Bytes, p: Params, ok: seq<Bytes>, tail: seq<Bytes>, maxSize: int)
    requires !Consume(blob, p, ok, maxSize).rejected
    ensures var c := Consume(blob, p, ok, maxSize);
            Consume(blob, p, ok + tail, maxSize) == Consume(c.blob, c.params, tail, maxSize)
    decreases |ok|
  {
    if ok == [] {
      assert ok + tail == tail;
    } else {
      assert (ok + tail)[0] == ok[0];
      assert (ok + tail)[1..] == ok[1..] + tail;
      if |ok[0]| == 0 {
        ConsumeAppend(blob, p, ok[1..], tail, maxSize);
      } else {
        ConsumeAppend(blob + ok[0], Accept(p, |ok[0]|), ok[1..], tail, maxSize);
      }
    }
  }

  /**
   * The first refused fragment is not written: the blob and the offset stay
   * as the accepted fragments before it left them, only `error` records the
   * reason, and the fragments after it are never looked at.
   */
  lemma RefusedFragmentNotWritten(blob: Bytes, p: Params, ok: seq<Bytes>, f: Bytes, rest: seq<Bytes>, maxSize: int)
    requires !Consume(blob, p, ok, maxSize).rejected
    requires |f| > 0 && Rejection(Consume(blob, p, ok, maxSize).params, |f|, maxSize).Some?
    ensures var c := Consume(blob, p, ok, maxSize);
            Consume(blob, p, ok + [f] + rest, maxSize)
              == Consumed(c.blob, c.params.(error := Rejection(c.params, |f|, maxSize)), true)
  {
    assert ok + [f] + rest == ok + ([f] + rest);
    ConsumeAppend(blob, p, ok, [f] + rest, maxSize);
  }

  /** An empty fragment at the end, as a completed request body has, changes nothing. */
  lemma ConsumeTrailingEmpty(blob: Bytes, p: Params, frags: seq<Bytes>, maxSize: int)
    ensures Consume(blob, p, frags + [[]], maxSize) == Consume(blob, p, frags, maxSize)
  {
    if !Consume(blob, p, frags, maxSize).rejected {
      ConsumeAppend(blob, p, frags, [[]], maxSize);
    } else {
      RejectionIsFinal(blob, p, frags, [[]], maxSize);
    }
  }

  /**
   * `request_chunks_dep` as a function of the directory: 404 when the blob
   * or the record is missing; otherwise the fragments are consumed and the
   * record persisted, and with `post_request` and no fragment at all the
   * record is reset to offset 0 with one more part.
   */
  function IngestSpec(d: Dir, uid: string, s: Stream, postRequest: bool, maxSize: int): (r: (Dir, Ingested))
    ensures r.1 != UploadNotFound ==>
              && uid in d.blobs && uid in r.0.blobs && d.blobs[uid] <= r.0.blobs[uid]
              && Record(r.0, uid).Some?
  {
    if uid !in d.blobs || Record(d, uid).None? then (d, UploadNotFound)
    else
      var p := Record(d, uid).value;
      var c := Consume(d.blobs[uid], p, s.fragments, maxSize);
      var consumed := Dir(d.blobs[uid := c.blob], d.sidecars[uid := Stored(c.params)]);
      if c.rejected || s.end == Disconnected then (consumed, Returned(false))
      else if postRequest && |s.fragments| == 0 then
        (consumed.(sidecars := d.sidecars[uid := Stored(p.(offset := 0, uploadChunkSize := 0, uploadPart := p.uploadPart + 1))]),
         Returned(true))
      else (consumed, Returned(true))
  }

  /** A missing blob or an unreadable record is 404, and then nothing is written. */
  lemma IngestNotFound(d: Dir, uid: string, s: Stream, postRequest: bool, maxSize: int)
    ensures var (d', r) := IngestSpec(d, uid, s, postRequest, maxSize);
            && (r == UploadNotFound <==> uid !in d.blobs || Record(d, uid).None?)
            && (r == UploadNotFound ==> d' == d)
  {
  }

  /**
   * Outside the `post_request` reset, ingesting keeps blob length minus
   * offset, touches no other upload, and keeps the record readable.
   */
  lemma IngestKeepsGap(d: Dir, uid: string, s: Stream, postRequest: bool, maxSize: int)
    requires uid in d.blobs && Record(d, uid).Some?
    requires !(postRequest && s.fragments == [] && s.end == Finished)
    ensures var (d', r) := IngestSpec(d, uid, s, postRequest, maxSize);
            var p, p' := Record(d, uid).value, Record(d', uid);
            && uid in d'.blobs && p'.Some?
            && |d'.blobs[uid]| - p'.value.offset == |d.blobs[uid]| - p.offset
            && p'.value.offset >= p.offset
            && (r == Returned(true) <==> !Consume(d.blobs[uid], p, s.fragments, maxSize).rejected && s.end == Finished)
            && (forall other :: other != uid ==> Lookup(d'.blobs, other) == Lookup(d.blobs, other))
            && (forall other :: other != uid ==> Lookup(d'.sidecars, other) == Lookup(d.sidecars, other))
  {
    ConsumeKeepsGap(d.blobs[uid], Record(d, uid).value, s.fragments, maxSize);
  }

  /**
   * With `post_request` and a stream that yields no fragment at all the
   * offset is reset to 0 whatever it was, while the blob keeps its bytes:
   * blob length and offset then disagree as soon as the upload had received
   * any.
   */
  lemma PostRequestResetsOffset(d: Dir, uid: string, maxSize: int)
    requires uid in d.blobs && Record(d, uid).Some?
    ensures var p := Record(d, uid).value;
            var (d', r) := IngestSpec(d, uid, Stream([], Finished), true, maxSize);
            && r == Returned(true)
            && d'.blobs == d.blobs
            && Record(d', uid) == Some(p.(offset := 0, uploadChunkSize := 0, uploadPart := p.uploadPart + 1))
  {
  }

  /**
   * A stream that ends in an empty fragment never gets the `post_request`
   * reset: it ingests as the same stream without it and without the flag,
   * and a body that is only that empty fragment writes nothing.
   */
  lemma TrailingEmptyFragmentSkipsReset(d: Dir, uid: string, frags: seq<Bytes>, postRequest: bool, maxSize: int)
    ensures IngestSpec(d, uid, Stream(frags + [[]], Finished), postRequest, maxSize)
              == IngestSpec(d, uid, Stream(frags, Finished), false, maxSize)
    ensures uid in d.blobs && Record(d, uid).Some? ==>
              IngestSpec(d, uid, Stream([[]], Finished), postRequest, maxSize) == (d, Returned(true))
  {
    if uid in d.blobs && Record(d, uid).Some? {
      var p := Record(d, uid).value;
      ConsumeTrailingEmpty(d.blobs[uid], p, frags, maxSize);
      var none: seq<Bytes> := [];
      assert none + [[]] == [[]];
      ConsumeTrailingEmpty(d.blobs[uid], p, none, maxSize);
      assert d.blobs[uid := d.blobs[uid]] == d.blobs;
      assert d.sidecars[uid := Stored(p)] == d.sidecars;
    }
  }

  /**
   * A disconnect ends the loop with `False` and records no error, but what
   * was appended and persisted before it stays: the directory is as after a
   * normal end without the `post_request` reset.
   */
  lemma DisconnectKeepsAppended(d: Dir, uid: string, frags: seq<Bytes>, postRequest: bool, maxSize: int)
    requires uid in d.blobs && Record(d, uid).Some?
    ensures var (d', r) := IngestSpec(d, uid, Stream(frags, Disconnected), postRequest, maxSize);
            && r == Returned(false)
            && d' == IngestSpec(d, uid, Stream(frags, Finished), false, maxSize).0
  {
  }

  /** A refused fragment makes the dependency return `False` with the reason stored in `error`. */
  lemma RejectionRecorded(d: Dir, uid: string, s: Stream, postRequest: bool, maxSize: int)
    requires uid in d.blobs && Record(d, uid).Some?
    requires Consume(d.blobs[uid], Record(d, uid).value, s.fragments, maxSize).rejected
    ensures var (d', r) := IngestSpec(d, uid, s, postRequest, maxSize);
            && r == Returned(false)
            && Record(d', uid).Some?
            && Record(d', uid).value.error in {Some(DeclaredLengthError), Some(MaxSizeError)}
  {
  }

  /**
   * `request_chunks_dep`: append each non-empty fragment to the blob and
   * persist the record after every one; a refused fragment records the
   * error and ends with `False`, a disconnect ends with `False`.
   */
  method RequestChunks(disk: Disk, opts: Options, uid: string, stream: Stream, postRequest: bool)
    returns (r: Ingested)
    modifies disk
    ensures (disk.State(), r) == IngestSpec(old(disk.State()), uid, stream, postRequest, opts.maxSize)
  {
    var file := new UploadFile.Open(disk, opts.filesDir, uid);
    if !file.Exists() {
      return UploadNotFound;
    }
    var found := file.GetInfo();
    if found.None? {
      return UploadNotFound;
    }
    ghost var d0 := disk.State();
    ghost var blob0 := disk.blobs[uid];
    var hasChunks := false;
    var params := found.value;
    assert d0.sidecars[uid] == Stored(params);
    assert d0.sidecars[uid := Stored(params)] == d0.sidecars;
    assert d0.blobs[uid := blob0] == d0.blobs;
    var frags := stream.fragments;
    var i := 0;
    while i < |frags|
      invariant 0 <= i <= |frags|
      invariant hasChunks == (i > 0)
      invariant uid in disk.blobs
      invariant disk.blobs == d0.blobs[uid := disk.blobs[uid]]
      invariant disk.sidecars == d0.sidecars[uid := Stored(params)]
      invariant Consume(disk.blobs[uid], params, frags[i..], opts.maxSize) == Consume(blob0, found.value, frags, opts.maxSize)
    {
      var chunk := frags[i];
      hasChunks := true;
      assert frags[i..][0] == chunk && frags[i..][1..] == frags[i + 1..];
      if |chunk| == 0 {
        i := i + 1;
        continue;
      }
      if params.size.Some? && params.offset + |chunk| > params.size.value {
        assert Rejection(params, |chunk|, opts.maxSize) == Some(DeclaredLengthError);
        ghost var blob := disk.blobs[uid];
        params := params.(error := Some(DeclaredLengthError));
        assert Consume(blob0, found.value, frags, opts.maxSize) == Consumed(blob, params, true);
        file.SetInfo(params);
        assert disk.State() == Dir(d0.blobs[uid := blob], d0.sidecars[uid := Stored(params)]);
        return Returned(false);
      }
      if params.offset + |chunk| > opts.maxSize {
        assert Rejection(params, |chunk|, opts.maxSize) == Some(MaxSizeError);
        ghost var blob := disk.blobs[uid];
        params := params.(error := Some(MaxSizeError));
        assert Consume(blob0, found.value, frags, opts.maxSize) == Consumed(blob, params, true);
        file.SetInfo(params);
        assert disk.State() == Dir(d0.blobs[uid := blob], d0.sidecars[uid := Stored(params)]);
        return Returned(false);
      }
      assert Rejection(params, |chunk|, opts.maxSize).None?;
      disk.blobs := disk.blobs[uid := disk.blobs[uid] + chunk];
      params := params.(offset := params.offset + |chunk|, uploadChunkSize := |chunk|, uploadPart := params.uploadPart + 1);
      file.SetInfo(params);
      i := i + 1;
    }
    if stream.end == Disconnected {
      return Returned(false);
    }
    if postRequest && !hasChunks {
      params := params.(offset := 0, uploadChunkSize := 0, uploadPart := params.uploadPart + 1);
      file.SetInfo(params);
    }
    return Returned(true);
  }

  /** The request headers `get_request_headers` looks at. */
  datatype RequestHeaders = RequestHeaders(host: Option<string>, forwardedProto: Option<string>, forwardedHost: Option<string>)

  /** Its result: the location and the scheme and host it used. */
  datatype LocationHeaders = LocationHeaders(location: string, proto: string, host: Option<string>)

  /** How an f-string renders an optional header: `None` becomes the text "None". */
  function Shown(h: Option<string>): string
  {
    match h
    case None => "None"
    case Some(v) => v
  }

  /**
   * `get_request_headers`: the forwarded scheme and host win over the
   * defaults, and the location is `proto://host/prefix/uid` with the
   * prefix's surrounding slashes removed.
   */
  function RequestLocation(req: RequestHeaders, uid: string, prefix: string): (r: LocationHeaders)
    ensures r.proto == if req.forwardedProto.Some? then req.forwardedProto.value else "http"
    ensures r.host == if req.forwardedHost.Some? then req.forwardedHost else req.host
  {
    var proto := if req.forwardedProto.Some? then req.forwardedProto.value else "http";
    var host := if req.forwardedHost.Some? then req.forwardedHost else req.host;
    var cleanPrefix := Text.Trim(prefix, Text.IsSlash);
    LocationHeaders(proto + "://" + Shown(host) + "/" + cleanPrefix + "/" + uid, proto, host)
  }

  /**
   * The location's last path segment is the uid, so the client's next
   * requests name the upload just created; what precedes it starts with the
   * scheme and ends with the cleaned prefix.
   */
  lemma LocationNamesUpload(req: RequestHeaders, uid: string, prefix: string)
    requires '/' !in uid
    ensures var r := RequestLocation(req, uid, prefix);
            var clean := Text.Trim(prefix, Text.IsSlash);
            Text.RSplitOnce(r.location, '/') == Some((r.proto + "://" + Shown(r.host) + "/" + clean, uid))
  {
    var r := RequestLocation(req, uid, prefix);
    var clean := Text.Trim(prefix, Text.IsSlash);
    Text.RSplitAt(r.proto + "://" + Shown(r.host) + "/" + clean, '/', uid);
  }
}
