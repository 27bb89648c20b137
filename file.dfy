/**
 * The upload handle `TusUploadFile` (blob plus sidecar), the directory
 * listing and the expiry sweep.
 */
module TusFile {
  import opened Basics
  import opened TusParams
  import opened TusStorage
  import opened TusInfo
  import TusOptions

  predicate IsLowerHex(c: char)
  {
    '0' <= c <= '9' || 'a' <= c <= 'f'
  }

  /**
   * `uuid4().hex`: 32 lower-case hex digits, with the version digit `4` and
   * the variant digit one of `8`, `9`, `a`, `b`.
   */
  predicate IsUuid4Hex(uid: string)
  {
    && |uid| == 32
    && (forall i :: 0 <= i < |uid| ==> IsLowerHex(uid[i]))
    && uid[12] == '4'
    && uid[16] in "89ab"
  }

  /** What `delete` does to the directory, given what the handle has cached. */
  function DeleteSpec(d: Dir, uid: string, cached: Option<Params>): (r: Dir)
    ensures r.blobs == d.blobs - {uid}
    ensures uid !in d.sidecars ==> r.sidecars == d.sidecars
    ensures uid in d.sidecars ==>
              r.sidecars == if Reload(Some(d.sidecars[uid]), cached).Some? then d.sidecars - {uid} else d.sidecars
  {
    var blobs := if uid in d.blobs then d.blobs - {uid} else d.blobs;
    var sidecars :=
      if Reload(Lookup(d.sidecars, uid), cached).Some? && uid in d.sidecars then d.sidecars - {uid} else d.sidecars;
    Dir(blobs, sidecars)
  }

  /**
   * A second `delete` changes nothing: the blob is gone, and a sidecar that
   * survived the first call still does not parse.
   */
  lemma DeleteIdempotent(d: Dir, uid: string, cached: Option<Params>)
    ensures var once := DeleteSpec(d, uid, cached);
            DeleteSpec(once, uid, Reload(Lookup(d.sidecars, uid), cached)) == once
  {
    var once := DeleteSpec(d, uid, cached);
    if uid in once.sidecars {
      assert once.sidecars == d.sidecars;
      assert Reload(Lookup(d.sidecars, uid), cached).None?;
    }
  }

  /** A fresh handle leaves a blank, unparsable or falsy sidecar behind. */
  lemma DeleteKeepsBrokenSidecar(d: Dir, uid: string)
    requires uid in d.sidecars && !d.sidecars[uid].Stored?
    ensures DeleteSpec(d, uid, None).sidecars == d.sidecars
  {
  }

  class UploadFile {
    const disk: Disk
    const filesDir: string
    const uid: string
    const info: UploadInfo

    /** The handle and its sidecar handle agree on the directory and the uid. */
    ghost predicate Valid()
    {
      info.disk == disk && info.filesDir == filesDir && info.uid == uid
    }

    /** `TusUploadFile(options, uid=uid)`: a handle on an existing upload; nothing is written. */
    constructor Open(disk: Disk, filesDir: string, uid: string)
      ensures Valid() && fresh(info)
      ensures this.disk == disk && this.filesDir == filesDir && this.uid == uid
      ensures info.cached == None
    {
      this.disk := disk;
      this.filesDir := filesDir;
      this.uid := uid;
      info := new UploadInfo.Attach(disk, filesDir, uid);
    }

    /**
     * `TusUploadFile(options, params=params)`: a new upload under the
     * generated uid. The blob is opened for append (so an existing one is
     * kept) and the sidecar is written only if there is none.
     */
    constructor New(disk: Disk, filesDir: string, generated: string, params: Params)
      requires IsUuid4Hex(generated)
      modifies disk
      ensures Valid() && fresh(info)
      ensures this.disk == disk && this.filesDir == filesDir && uid == generated
      ensures info.cached == Some(params)
      ensures disk.blobs == if generated in old(disk.blobs) then old(disk.blobs) else old(disk.blobs)[generated := []]
      ensures disk.sidecars ==
                if generated in old(disk.sidecars) then old(disk.sidecars) else old(disk.sidecars)[generated := Stored(params)]
    {
      this.disk := disk;
      this.filesDir := filesDir;
      this.uid := generated;
      if generated !in disk.blobs {
        disk.blobs := disk.blobs[generated := []];
      }
      info := new UploadInfo(disk, filesDir, generated, params);
    }

    /** `path`: the blob sits in the files directory under its uid. */
    function Path(): (r: string)
      ensures r == TusOptions.JoinPath(filesDir, uid)
      ensures IsUuid4Hex(uid) && filesDir != [] && filesDir[|filesDir| - 1] != '/' ==> r == filesDir + "/" + uid
    {
      assert IsUuid4Hex(uid) ==> IsLowerHex(uid[0]);
      TusOptions.JoinPath(filesDir, uid)
    }

    /** `exists` looks at the blob only: a sidecar without its blob does not make the upload exist. */
    function Exists(): (r: bool)
      reads disk
      ensures r <==> uid in disk.blobs
    {
      uid in disk.blobs
    }

    /** `__len__`: the blob's length, 0 when there is no blob. */
    function Len(): (n: nat)
      reads disk
      ensures !Exists() ==> n == 0
    {
      if Exists() then |disk.blobs[uid]| else 0
    }

    /** `read`: the blob's bytes, `None` exactly when there is no blob. */
    method Read() returns (r: Option<Bytes>)
      ensures r.Some? <==> Exists()
      ensures r.Some? ==> r.value == disk.blobs[uid] && |r.value| == Len()
    {
      if Exists() {
        r := Some(disk.blobs[uid]);
      } else {
        r := None;
      }
    }

    /** The `info` getter. */
    method GetInfo() returns (r: Option<Params>)
      requires Valid()
      modifies info
      ensures r == info.cached == Reload(Lookup(disk.sidecars, uid), old(info.cached))
    {
      r := info.Get();
    }

    /** The `info` setter. */
    method SetInfo(value: Params)
      requires Valid()
      modifies info, disk
      ensures info.cached == Some(value)
      ensures disk.State() == old(disk.State()).(sidecars := old(disk.sidecars)[uid := Stored(value)])
    {
      info.Set(value);
    }

    /** `delete`: remove the blob if present, then the sidecar if the record reads as present. */
    method Delete()
      requires Valid()
      modifies disk, info
      ensures disk.State() == DeleteSpec(old(disk.State()), uid, old(info.cached))
      ensures info.cached == Reload(Lookup(old(disk.sidecars), uid), old(info.cached))
    {
      if Exists() {
        disk.blobs := disk.blobs - {uid};
      }
      var current := info.Get();
      if current.Some? && info.Exists() {
        disk.sidecars := disk.sidecars - {uid};
      }
    }
  }

  /** `list_files`: the directory names of exactly 32 characters. */
  function ListFiles(d: Dir): (r: set<string>)
    ensures forall n :: n in r <==> n in Names(d) && |n| == 32
  {
    set n | n in Names(d) && |n| == 32
  }

  /** A sidecar's name is five characters longer than its uid, so a generated uid's sidecar is never listed. */
  lemma SidecarsNotListed(d: Dir, uid: string)
    requires IsUuid4Hex(uid)
    ensures uid + InfoSuffix !in ListFiles(d)
  {
  }

  /** The condition under which `gc_files` deletes an upload: its record parses and expires at an ISO instant before `now`. */
  predicate ExpiredAt(p: Params, now: int)
  {
    p.expires.IsSet() && p.expires.IsoText? && p.expires.at < now
  }

  /**
   * The uids that the sweep deletes. `clock(uid)` is what `datetime.now()`
   * reads when `uid` is examined: the clock is read afresh for every upload.
   */
  function Doomed(d: Dir, clock: string -> int, among: set<string>): set<string>
  {
    set uid | uid in among && Record(d, uid).Some? && ExpiredAt(Record(d, uid).value, clock(uid))
  }

  /** The directory after `gc_files`: the blob and the sidecar of every listed upload expired when examined are gone. */
  function SweepSpec(d: Dir, clock: string -> int): Dir
  {
    var doomed := Doomed(d, clock, ListFiles(d));
    Dir(d.blobs - doomed, d.sidecars - doomed)
  }

  /**
   * The sweep removes exactly the listed uploads whose record had expired
   * when they were examined: every other blob and sidecar is kept, unchanged.
   */
  lemma SweepRemovesExactlyExpired(d: Dir, clock: string -> int, uid: string)
    ensures var swept := SweepSpec(d, clock);
            var expired := uid in ListFiles(d) && Record(d, uid).Some? && ExpiredAt(Record(d, uid).value, clock(uid));
            && (uid in swept.blobs <==> uid in d.blobs && !expired)
            && (uid in swept.sidecars <==> uid in d.sidecars && !expired)
            && (uid in swept.blobs ==> swept.blobs[uid] == d.blobs[uid])
            && (uid in swept.sidecars ==> swept.sidecars[uid] == d.sidecars[uid])
  {
  }

  /** Uploads without a record or without an ISO expiry are never swept. */
  lemma SweepSparesUnexpiring(d: Dir, clock: string -> int, uid: string)
    requires Record(d, uid).None? || !Record(d, uid).value.expires.IsoText?
    ensures Lookup(SweepSpec(d, clock).blobs, uid) == Lookup(d.blobs, uid)
    ensures Lookup(SweepSpec(d, clock).sidecars, uid) == Lookup(d.sidecars, uid)
  {
  }

  /** A sidecar whose blob is gone is not listed under a generated uid, so the sweep never reaches it. */
  lemma SweepSparesOrphanSidecar(d: Dir, clock: string -> int, uid: string)
    requires IsUuid4Hex(uid) && uid !in d.blobs && uid in d.sidecars
    ensures uid in SweepSpec(d, clock).sidecars
  {
    forall k | k in d.sidecars
      ensures k + InfoSuffix != uid
    {
      assert (k + InfoSuffix)[|k|] == '.';
    }
  }

  /** Sweeping again with clock readings no later than the first sweep's removes nothing more. */
  lemma SweepIdempotent(d: Dir, clock: string -> int, again: string -> int)
    requires forall uid :: again(uid) <= clock(uid)
    ensures SweepSpec(SweepSpec(d, clock), again) == SweepSpec(d, clock)
  {
    var s := SweepSpec(d, clock);
    assert Doomed(s, again, ListFiles(s)) == {} by {
      forall uid | uid in ListFiles(s) && Record(s, uid).Some?
        ensures !ExpiredAt(Record(s, uid).value, again(uid))
      {
        assert uid in s.sidecars && s.sidecars[uid] == d.sidecars[uid];
        assert uid in Names(d) by {
          if uid !in s.blobs {
            var k :| k in s.sidecars && uid == k + InfoSuffix;
          }
        }
      }
    }
    assert s.blobs - {} == s.blobs;
    assert s.sidecars - {} == s.sidecars;
  }

  /**
   * `gc_files`: visit each listed uid (in directory order, here any order),
   * read the clock, and delete the upload if it had expired by then.
   */
  method CollectGarbage(disk: Disk, filesDir: string, clock: string -> int)
    modifies disk
    ensures disk.State() == SweepSpec(old(disk.State()), clock)
  {
    ghost var d0 := disk.State();
    var listed := ListFiles(disk.State());
    var pending := listed;
    while pending != {}
      invariant pending <= listed
      invariant disk.State() == Dir(d0.blobs - Doomed(d0, clock, listed - pending), d0.sidecars - Doomed(d0, clock, listed - pending))
      decreases pending
    {
      var uid :| uid in pending;
      ghost var done := Doomed(d0, clock, listed - pending);
      assert uid !in done;
      assert Lookup(disk.sidecars, uid) == Lookup(d0.sidecars, uid);
      var file := new UploadFile.Open(disk, filesDir, uid);
      var record := file.GetInfo();
      if record.Some? && record.value.expires.IsSet() && record.value.expires.IsoText? && record.value.expires.at < clock(uid) {
        file.Delete();
        assert Doomed(d0, clock, listed - (pending - {uid})) == done + {uid};
      } else {
        assert Doomed(d0, clock, listed - (pending - {uid})) == done;
      }
      pending := pending - {uid};
    }
    assert listed - pending == listed;
  }
}
