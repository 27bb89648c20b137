/** The upload record that the sidecar file holds (`TusUploadParams`). */
module TusParams {
  import opened Basics

  /**
   * `expires: Optional[Union[float, str]]`. The server only writes ISO-8601
   * text; a number can only come from a sidecar written by someone else.
   */
  datatype Expiry =
    | NoExpiry              // None
    | Seconds(value: real)  // a float
    | IsoText(at: int)      // a non-empty ISO-8601 string, read as the instant it names
    | EmptyText             // ""
  {
    /** Python truthiness of the field. */
    predicate IsSet()
    {
      match this
      case NoExpiry => false
      case Seconds(v) => v != 0.0
      case IsoText(_) => true
      case EmptyText => false
    }
  }

  /** The record. Metadata values are the UTF-8 bytes of the decoded strings. */
  datatype Params = Params(
    metadata: map<string, Bytes>,
    size: Option<int>,
    offset: int,
    uploadPart: int,
    createdAt: int,
    deferLength: bool,
    uploadChunkSize: int,
    expires: Expiry,
    error: Option<string>)
  {
    /** `size == offset` as Python compares them: an absent size never equals an offset. */
    predicate IsComplete()
    {
      size == Some(offset)
    }
  }

  /**
   * A record built from the required fields, every other field at its
   * declared default.
   */
  function WithDefaults(metadata: map<string, Bytes>, size: Option<int>, createdAt: int, expires: Expiry): (p: Params)
    ensures p.metadata == metadata && p.size == size && p.createdAt == createdAt && p.expires == expires
    ensures p.offset == 0 && p.uploadPart == 0 && p.uploadChunkSize == 0
    ensures !p.deferLength && p.error == None
  {
    Params(metadata, size, 0, 0, createdAt, false, 0, expires, None)
  }
}
