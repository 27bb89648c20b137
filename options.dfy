/**
 * The router configuration every route closes over, the protocol constants
 * it advertises, and the completion hooks as recorded calls.
 */
module TusOptions {
  import opened Basics
  import Text

  /**
   * `TusRouterOptions`. The auth dependency, the tags and the hook callables
   * themselves are not modelled; `onUploadComplete` says whether the
   * `on_upload_complete` callback was configured.
   */
  datatype Options = Options(
    prefix: string,
    filesDir: string,
    maxSize: int,
    daysToKeep: int,
    onUploadComplete: bool)

  const TusVersion: string := "1.0.0"

  const ExtensionNames: seq<string> :=
    ["creation", "creation-defer-length", "creation-with-upload", "expiration", "termination"]

  /** `",".join([...])`, the `Tus-Extension` value. */
  const TusExtension: string := Text.Join(ExtensionNames, ',')

  const SecondsPerDay: int := 86400

  /** `datetime.now() + timedelta(days=days_to_keep)`, with timestamps in whole seconds. */
  function ExpiryAfter(now: int, daysToKeep: int): int
  {
    now + daysToKeep * SecondsPerDay
  }

  /** Which callable a completion notification went to. */
  datatype HookKind =
    | ConfiguredHook   // `options.on_upload_complete`
    | InjectedHook     // the `on_complete` the `upload_complete_dep` dependency resolved to

  /** One call of a completion hook with the blob's path and the upload's metadata. */
  datatype HookCall = HookCall(hook: HookKind, path: string, metadata: map<string, Bytes>)

  /**
   * `os.path.join(a, b)` on POSIX: an absolute `b` replaces `a`; otherwise
   * `b` follows `a`, with a slash inserted exactly when `a` is non-empty and
   * does not already end in one.
   */
  function JoinPath(a: string, b: string): (r: string)
    ensures |b| > 0 && b[0] == '/' ==> r == b
    ensures !(|b| > 0 && b[0] == '/') && (a == [] || a[|a| - 1] == '/') ==> r == a + b
    ensures !(|b| > 0 && b[0] == '/') && !(a == [] || a[|a| - 1] == '/') ==> r == a + "/" + b
  {
    if |b| > 0 && b[0] == '/' then b
    else if a == [] || a[|a| - 1] == '/' then a + b
    else a + "/" + b
  }
}
