/**
 * The files directory: one blob per upload, named by its uid, and one
 * sidecar per upload, named `uid + ".info"`. JSON text is not modelled: a
 * sidecar is held as what parsing it yields.
 */
module TusStorage {
  import opened Basics
  import opened TusParams

  /** What `deserialize` finds in an existing sidecar file. */
  datatype Sidecar =
    | Blank               // empty or only whitespace
    | Unparsable          // a JSON syntax error, or JSON that is not an object
    | Falsy               // JSON that Python reads as false: `{}`, `null`, `[]`, `0`, ...
    | Stored(params: Params)

  /** A snapshot of the directory. */
  datatype Dir = Dir(blobs: map<string, Bytes>, sidecars: map<string, Sidecar>)

  const InfoSuffix: string := ".info"

  /** Every file name in the directory (`os.listdir`). */
  function Names(d: Dir): set<string>
  {
    d.blobs.Keys + set uid | uid in d.sidecars :: uid + InfoSuffix
  }

  /** The shared directory that every request reads and writes. */
  class Disk {
    var blobs: map<string, Bytes>
    var sidecars: map<string, Sidecar>

    constructor(d: Dir)
      ensures State() == d
    {
      blobs := d.blobs;
      sidecars := d.sidecars;
    }

    function State(): Dir
      reads this
    {
      Dir(blobs, sidecars)
    }
  }
}
