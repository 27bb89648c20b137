/** The sidecar handle `TusUploadInfo`: a cached record, serialised on set and re-read on get. */
module TusInfo {
  import opened Basics
  import opened TusParams
  import opened TusStorage
  import TusOptions

  /**
   * The cached record after `deserialize`: a missing, unparsable or falsy
   * sidecar clears it, a blank one leaves it as it was, a stored one
   * replaces it.
   */
  function Reload(entry: Option<Sidecar>, cached: Option<Params>): (r: Option<Params>)
    ensures entry.None? ==> r.None?
    ensures entry == Some(Blank) ==> r == cached
    ensures entry != Some(Blank) ==> (r.Some? <==> entry.Some? && entry.value.Stored?)
    ensures entry != Some(Blank) && r.Some? ==> entry == Some(Stored(r.value))
  {
    match entry
    case None => None
    case Some(Blank) => cached
    case Some(Unparsable) => None
    case Some(Falsy) => None
    case Some(Stored(p)) => Some(p)
  }

  /** What a fresh handle (nothing cached) reads for `uid`: `file.info` in every route. */
  function Record(d: Dir, uid: string): Option<Params>
  {
    Reload(Lookup(d.sidecars, uid), None)
  }

  /** A fresh handle reads exactly the records that parse, and nothing else. */
  lemma RecordIsStored(d: Dir, uid: string, p: Params)
    ensures Record(d, uid) == Some(p) <==> uid in d.sidecars && d.sidecars[uid] == Stored(p)
  {
  }

  /** What `serialize` leaves in the file: `json.dumps(None)` is `null`, which reads back as falsy. */
  function Image(cached: Option<Params>): (s: Sidecar)
    ensures Reload(Some(s), None) == cached
  {
    match cached
    case None => Falsy
    case Some(p) => Stored(p)
  }

  class UploadInfo {
    const disk: Disk
    const filesDir: string
    const uid: string
    var cached: Option<Params>

    /** `TusUploadInfo(file)`: attach to an upload without a record in hand; nothing is written. */
    constructor Attach(disk: Disk, filesDir: string, uid: string)
      ensures this.disk == disk && this.filesDir == filesDir && this.uid == uid
      ensures cached == None
    {
      this.disk := disk;
      this.filesDir := filesDir;
      this.uid := uid;
      cached := None;
    }

    /** `TusUploadInfo(file, params)`: write the sidecar only if there is none yet. */
    constructor(disk: Disk, filesDir: string, uid: string, params: Params)
      modifies disk
      ensures this.disk == disk && this.filesDir == filesDir && this.uid == uid
      ensures cached == Some(params)
      ensures disk.blobs == old(disk.blobs)
      ensures disk.sidecars == if uid in old(disk.sidecars) then old(disk.sidecars) else old(disk.sidecars)[uid := Stored(params)]
    {
      this.disk := disk;
      this.filesDir := filesDir;
      this.uid := uid;
      cached := Some(params);
      new;
      if !Exists() {
        Serialize();
      }
    }

    /** `path`: the sidecar sits next to the blob, with `.info` appended. */
    function Path(): (r: string)
      ensures r == TusOptions.JoinPath(filesDir, uid) + InfoSuffix
    {
      TusOptions.JoinPath(filesDir, uid + InfoSuffix)
    }

    /** `exists` looks at the sidecar only, whatever it holds. */
    function Exists(): (r: bool)
      reads disk
      ensures r <==> uid in disk.sidecars
    {
      uid in disk.sidecars
    }

    /** Overwrite the sidecar with the cached record. */
    method Serialize()
      modifies disk
      ensures disk.blobs == old(disk.blobs)
      ensures disk.sidecars == old(disk.sidecars)[uid := Image(cached)]
    {
      disk.sidecars := disk.sidecars[uid := Image(cached)];
    }

    /** Re-read the sidecar into the cache; a blank sidecar answers `None` but keeps the cache. */
    method Deserialize() returns (r: Option<Params>)
      modifies this
      ensures cached == Reload(Lookup(disk.sidecars, uid), old(cached))
      ensures r == if Lookup(disk.sidecars, uid) == Some(Blank) then None else cached
    {
      if Exists() {
        match disk.sidecars[uid]
        case Blank =>
          return None;
        case Unparsable =>
          cached := None;
        case Falsy =>
          cached := None;
        case Stored(p) =>
          cached := Some(p);
      } else {
        cached := None;
      }
      r := cached;
    }

    /** The `params` getter: always re-reads, then answers the cache. */
    method Get() returns (r: Option<Params>)
      modifies this
      ensures r == cached == Reload(Lookup(disk.sidecars, uid), old(cached))
    {
      var _ := Deserialize();
      r := cached;
    }

    /** The `params` setter: cache and serialise at once, so the next `Get` reads the value back. */
    method Set(value: Params)
      modifies this, disk
      ensures cached == Some(value)
      ensures disk.blobs == old(disk.blobs)
      ensures disk.sidecars == old(disk.sidecars)[uid := Stored(value)]
      ensures Reload(Lookup(disk.sidecars, uid), cached) == Some(value)
    {
      cached := Some(value);
      Serialize();
    }
  }
}
