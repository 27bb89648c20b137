/** `routes/termination.py`: the DELETE handler. */
module TerminationRoutes {
  import opened Basics
  import opened TusParams
  import opened TusStorage
  import opened TusInfo
  import opened TusFile
  import opened TusOptions
  import opened TusRequest
  import opened CoreRoutes

  /** What DELETE answers. */
  datatype DeleteReply =
    | DeleteNotFound  // 404 "Upload not found"
    | Deleted         // 204 with `Tus-Resumable`
  {
    function Status(): int
    {
      match this
      case DeleteNotFound => 404
      case Deleted => 204
    }
  }

  /** DELETE: 404 without a blob, otherwise `delete` through a fresh handle. */
  function TerminateSpec(d: Dir, uid: string): (Dir, DeleteReply)
  {
    if uid !in d.blobs then (d, DeleteNotFound) else (DeleteSpec(d, uid, None), Deleted)
  }

  /** `extension_termination_route`. */
  method TerminateRoute(disk: Disk, opts: Options, uid: string) returns (r: DeleteReply)
    modifies disk
    ensures (disk.State(), r) == TerminateSpec(old(disk.State()), uid)
  {
    var file := new UploadFile.Open(disk, opts.filesDir, uid);
    if !file.Exists() {
      return DeleteNotFound;
    }
    file.Delete();
    r := Deleted;
  }

  /** DELETE is 404 exactly when there is no blob, even when a sidecar is left; nothing is removed then. */
  lemma TerminateNotFoundIff(d: Dir, uid: string)
    ensures var (d', r) := TerminateSpec(d, uid);
            && (r == DeleteNotFound <==> uid !in d.blobs)
            && (r == DeleteNotFound ==> d' == d)
  {
  }

  /**
   * A successful DELETE removes the blob, removes the sidecar exactly when
   * the record reads, and leaves every other upload as it was.
   */
  lemma TerminateRemoves(d: Dir, uid: string, other: string)
    requires uid in d.blobs && other != uid
    ensures var (d', r) := TerminateSpec(d, uid);
            && r == Deleted && r.Status() == 204
            && uid !in d'.blobs
            && (uid in d'.sidecars <==> uid in d.sidecars && Record(d, uid).None?)
            && Lookup(d'.blobs, other) == Lookup(d.blobs, other)
            && Lookup(d'.sidecars, other) == Lookup(d.sidecars, other)
  {
  }

  /**
   * After a successful DELETE the upload is gone for every route: HEAD and
   * PATCH answer 404 and a second DELETE does too, without writing.
   */
  lemma GoneAfterDelete(d: Dir, opts: Options, uid: string, body: Stream, h: PatchHeaders, now: int)
    requires uid in d.blobs
    ensures var d' := TerminateSpec(d, uid).0;
            && HeadOf(d', uid) == HeadNotFound
            && PatchSpec(d', opts, uid, body, h, now) == (d', PatchNotFound("Upload not found"), [])
            && TerminateSpec(d', uid) == (d', DeleteNotFound)
  {
  }
}
