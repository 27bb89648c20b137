/** How the routes compose over one upload's life: create, upload, complete, terminate. */
module UploadLifecycle {
  import opened Basics
  import opened TusParams
  import opened TusStorage
  import opened TusInfo
  import opened TusOptions
  import opened TusRequest
  import opened UploadMetadata
  import opened CoreRoutes
  import opened CreationRoutes
  import opened TerminationRoutes

  /**
   * One full PATCH at offset 0 on an upload that has an empty blob and a
   * fresh record of `n` bytes: the blob becomes the body, offset `n` is
   * reported with the stored expiry, and one hook fires with the metadata.
   */
  lemma FullPatchCompletes(d1: Dir, opts: Options, uid: string, frags: seq<Bytes>, patched: int)
    requires uid in d1.blobs && d1.blobs[uid] == [] && Record(d1, uid).Some?
    requires var p := Record(d1, uid).value;
             && p.offset == 0 && p.size == Some(|Concat(frags)|) && !p.deferLength && p.expires.IsSet()
    requires 0 < |Concat(frags)| <= opts.maxSize
    ensures var n := |Concat(frags)|;
            var p := Record(d1, uid).value;
            var (d2, reply, hooks) := PatchSpec(d1, opts, uid, Stream(frags, Finished), PatchHeaders(n, 0, false), patched);
            && uid in d2.blobs && d2.blobs[uid] == Concat(frags)
            && reply == PatchDone(n, p.expires)
            && |hooks| == 1 && hooks[0].metadata == p.metadata
  {
    var n := |Concat(frags)|;
    var p := Record(d1, uid).value;
    var patch := PatchHeaders(n, 0, false);
    var body := Stream(frags, Finished);
    var (d2, reply, hooks) := PatchSpec(d1, opts, uid, body, patch, patched);
    assert reply.PatchDone? && d2.blobs[uid] == Concat(frags) && Record(d2, uid).value.offset == n by {
      HonestPatchAppends(d1, opts, uid, frags, patch, patched);
      assert [] + Concat(frags) == Concat(frags);
    }
    assert Record(d2, uid).value.size == Some(n) && Record(d2, uid).value.expires == p.expires
        && Record(d2, uid).value.metadata == p.metadata by {
      ConsumeKeepsGap(d1.blobs[uid], p, frags, opts.maxSize);
      PatchAmendsRecord(d1, opts, uid, body, patch, patched);
    }
    PatchHookIffComplete(d1, opts, uid, body, patch, patched);
  }

  /**
   * A POST declaring `n > 0` bytes, then one PATCH at offset 0 carrying all
   * `n` within `max_size`: the blob holds exactly the body, the reply reports
   * offset `n` with the expiry set at creation, exactly one completion hook
   * fires, and a DELETE afterwards makes HEAD answer 404.
   */
  lemma CreateUploadTerminate(d: Dir, opts: Options, req: RequestHeaders, uid: string, metadata: Option<string>,
                              frags: seq<Bytes>, created: int, patched: int)
    requires uid !in d.blobs && uid !in d.sidecars
    requires ParseUploadMetadata(metadata).Ok?
    requires 0 < |Concat(frags)| <= opts.maxSize
    ensures var n := |Concat(frags)|;
            var d1 := CreateSpec(d, opts, req, uid, CreateHeaders(metadata, Some(n), None), created).0;
            var (d2, reply, hooks) := PatchSpec(d1, opts, uid, Stream(frags, Finished), PatchHeaders(n, 0, false), patched);
            && Lookup(d2.blobs, uid) == Some(Concat(frags))
            && reply == PatchDone(n, IsoText(ExpiryAfter(created, opts.daysToKeep)))
            && |hooks| == 1 && hooks[0].metadata == ParseUploadMetadata(metadata).value
            && HeadOf(TerminateSpec(d2, uid).0, uid) == HeadNotFound
  {
    var n := |Concat(frags)|;
    var h := CreateHeaders(metadata, Some(n), None);
    var d1 := CreateSpec(d, opts, req, uid, h, created).0;
    assert uid in d1.blobs && d1.blobs[uid] == [] && Record(d1, uid).Some?
        && Record(d1, uid).value.offset == 0 && Record(d1, uid).value.size == Some(n)
        && !Record(d1, uid).value.deferLength
        && Record(d1, uid).value.expires == IsoText(ExpiryAfter(created, opts.daysToKeep))
        && Record(d1, uid).value.metadata == ParseUploadMetadata(metadata).value by {
      CreateFreshUpload(d, opts, req, uid, h, created);
    }
    FullPatchCompletes(d1, opts, uid, frags, patched);
    var (d2, reply, hooks) := PatchSpec(d1, opts, uid, Stream(frags, Finished), PatchHeaders(n, 0, false), patched);
    GoneAfterDelete(d2, opts, uid, Stream(frags, Finished), PatchHeaders(n, 0, false), patched);
  }
}
