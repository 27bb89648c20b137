# tuspyserver in Dafny

A model of the server side of tuspyserver, an implementation of the tus
resumable upload protocol 1.0.0. It covers the core protocol (HEAD, PATCH and
OPTIONS) and the creation, termination and expiration extensions.

An upload is a **blob** of bytes named by a 32-character hex uid, plus a
**sidecar** `uid.info` that holds its JSON record (`TusUploadParams`). Both
live in a files directory that every request shares.

- **Store.** The directory is the class `TusStorage.Disk`, with one map for the
  blobs and one for the sidecars. A sidecar is held as what parsing it yields:
  `Blank`, `Unparsable`, `Falsy` or `Stored(params)`. A missing sidecar is an
  absent key. `Dir` is a value snapshot of the directory.
- **Handles.**
  - `TusInfo.UploadInfo` is the sidecar handle. It keeps the cached record
    `_params`: its getter re-reads the file and its setter writes it.
  - `TusFile.UploadFile` is the upload handle: blob presence, read, length,
    delete.
- **Sweep.** `list_files` and the expiry sweep `gc_files` are modelled too.
- **Routes.** Each route and the chunk ingester is an imperative method over
  `Disk`. Its `ensures` ties the new directory, the reply and the hook calls
  to a pure function of the old directory: `IngestSpec`, `HeadOf`,
  `PatchSpec`, `CreateSpec`, `TerminateSpec`, `SweepSpec`. The protocol's
  properties are lemmas about those functions.
- **Text and base64.**
  - `Upload-Metadata` parsing and echoing (`UploadMetadata`) is built on
    `str.split`, `str.rsplit` and `str.strip` (`Text`).
  - Base64 is written out (`Base64`). Encoding is standard padded base64,
    section 4 of RFC 4648. Decoding follows CPython's non-strict
    `binascii.a2b_base64`: it skips characters outside the alphabet, stops
    after a complete pad sequence, rejects a dangling sextet or short padding,
    and accepts ASCII input only.
- **Inputs.**
  - The clock (`now`) is a parameter, in whole seconds. The sweep takes one
    reading per upload (`clock(uid)`).
  - The generated uid is a parameter, constrained to the `uuid4().hex` format.
  - A request body is a `Stream`: its sequence of fragments, then a normal end
    or a client disconnect.
- **Hooks.** Completion hooks are recorded as `HookCall` values: which callable
  was called, with the blob path and the metadata.

## Behaviour of the code that the model keeps

The model follows the code, including where it departs from the tus
protocol's intent:

- **PATCH checks the offset after ingesting the body, not before.**
  - The ingester is a dependency of the route, so it runs first
    (`src/tuspyserver/routes/core.py:69`). The route then compares the new
    offset with `Upload-Offset + Content-Length`.
  - A mismatched PATCH therefore appends its bytes and only then answers 409.
    The bytes stay (`CoreRoutes.PatchConflictIff`).
- **The ingester's 400 and 413 never reach the client.**
  - The ingester raises them inside its own `try` and catches them with
    `except Exception`. It stores `str(exc)` in `error` and returns `False`.
  - PATCH then carries on, usually to a 409.
- **`expires` is set at creation** (`creation.py:50`), so PATCH's set-once
  branch only fires for records written by someone else.
- **The completion hook is not once-only.** Every PATCH that leaves
  `size == offset` fires it again (`CoreRoutes.CompletionRefires`).
- **Under deferred length, every PATCH overwrites `size` with the
  `Upload-Offset` header.**
- **`post_request` resets `offset` to 0 whatever it was, but only for a body
  stream that yields no fragment at all.**
  - After such a reset, blob length minus offset is no longer what it was
    (`TusRequest.PostRequestResetsOffset`); in every other case it is kept
    (`TusRequest.IngestKeepsGap`).
  - Starlette's `Request.stream()` ends a completed body with an empty
    fragment, so an empty body arrives as one empty fragment. That sets
    `has_chunks` and skips the reset
    (`TusRequest.TrailingEmptyFragmentSkipsReset`).
- **Blob and sidecar are not always removed together.**
  - DELETE is 404 when only a sidecar is left.
  - `delete` leaves a sidecar that does not parse
    (`TusFile.DeleteKeepsBrokenSidecar`).
- **The sweep only removes records whose expiry is ISO text.** A numeric
  `expires` is never swept.
- **The sweep reads the clock once per upload.** `gc_files` calls
  `datetime.now()` again for each listed upload. The model therefore takes
  one clock reading per uid, not one instant for the whole sweep.

## Model

| member | source | states |
|---|---|---|
| Text.Trim | src/tuspyserver/request.py:103 | `lstrip().rstrip()` / `strip()`: the result neither starts nor ends with a dropped character, and the input is the result framed by runs of dropped characters |
| Text.TrimStart | src/tuspyserver/request.py:103 | `lstrip`: the longest suffix not starting with a dropped character; everything before it is dropped |
| Text.TrimEnd | src/tuspyserver/request.py:103 | `rstrip`: the longest prefix not ending with a dropped character; everything after it is dropped |
| Text.Split | src/tuspyserver/routes/creation.py:38 | `split(",")`: at least one piece, no piece holds the separator, and joining the pieces with it gives the input back |
| Text.SplitJoin | src/tuspyserver/router.py:54-62 | splitting a `",".join` of separator-free parts gives the parts back |
| Text.RSplitOnce | src/tuspyserver/routes/creation.py:39 | `rsplit(" ", 1)`: no split exactly when there is no space; otherwise before + space + after is the input and `after` holds no space (the last one was used) |
| Base64.Encode | src/tuspyserver/routes/core.py:46-47 | `b64encode`: length is 4 * ceil(n / 3), and only alphabet characters and `=` are written |
| Base64.Decode | src/tuspyserver/routes/creation.py:40 | `b64decode` of a str (non-strict `a2b_base64`): a decoded text is all ASCII, and yields at most three bytes per four characters |
| Base64.RoundTrip | src/tuspyserver/routes/creation.py:40 | `b64decode` (non-strict) reads back every `b64encode` output as the original bytes |
| TusParams.WithDefaults | src/tuspyserver/params.py:6-15 | a record built from its required fields has `offset`, `upload_part` and `upload_chunk_size` 0, `defer_length` false and `error` None |
| TusInfo.Reload | src/tuspyserver/info.py:50-68 | `deserialize`: a missing, unparsable or falsy sidecar clears the cache; a blank one keeps it; a parsed one replaces it and is what is read |
| TusInfo.RecordIsStored | src/tuspyserver/info.py:50-68 | a fresh handle reads a record exactly when the sidecar parses to that record |
| TusInfo.Image | src/tuspyserver/info.py:43-48 | what `serialize` writes reads back as the cached value (`null` reads as None) |
| TusInfo.UploadInfo.constructor | src/tuspyserver/info.py:18-23 | constructing with params caches them and writes the sidecar only when none exists; an existing sidecar is kept |
| TusInfo.UploadInfo.Attach | src/tuspyserver/info.py:18-23 | constructing without params caches nothing and writes nothing |
| TusInfo.UploadInfo.Path | src/tuspyserver/info.py:35-37 | the sidecar path is the blob path with `.info` appended |
| TusInfo.UploadInfo.Exists | src/tuspyserver/info.py:39-41 | `exists` is whether the sidecar file is there, whatever it holds |
| TusInfo.UploadInfo.Serialize | src/tuspyserver/info.py:43-48 | overwrites only this upload's sidecar, with the cache |
| TusInfo.UploadInfo.Deserialize | src/tuspyserver/info.py:50-68 | updates the cache as `Reload` says; a blank sidecar answers None but keeps the cache |
| TusInfo.UploadInfo.Get | src/tuspyserver/info.py:25-28 | the getter re-reads the sidecar and answers the updated cache |
| TusInfo.UploadInfo.Set | src/tuspyserver/info.py:30-33 | the setter writes the sidecar at once: read-your-writes, and the blobs are untouched |
| TusFile.DeleteSpec | src/tuspyserver/file.py:71-78 | `delete` removes the blob, and removes the sidecar exactly when it reads as a record |
| TusFile.DeleteIdempotent | src/tuspyserver/file.py:71-78 | a second `delete` changes nothing |
| TusFile.DeleteKeepsBrokenSidecar | src/tuspyserver/file.py:76-78 | a blank, unparsable or falsy sidecar survives `delete` |
| TusFile.UploadFile.Open | src/tuspyserver/file.py:21-40 | a handle on a given uid writes nothing and starts with nothing cached |
| TusFile.UploadFile.New | src/tuspyserver/file.py:21-40 | a handle on a generated uid creates an empty blob unless one exists, and writes the sidecar unless one exists |
| TusOptions.JoinPath | src/tuspyserver/info.py:37 | `os.path.join(a, b)`: an absolute `b` replaces `a`; otherwise `b` follows `a`, with a `/` inserted exactly when `a` is non-empty and does not end in `/` |
| TusFile.UploadFile.Path | src/tuspyserver/file.py:42-44 | the blob path is `os.path.join(files_dir, uid)`; for a generated uid under a directory not ending in `/` it is `files_dir + "/" + uid` |
| TusFile.UploadFile.Exists | src/tuspyserver/file.py:58-60 | `exists` is whether the blob is there; a sidecar alone does not count |
| TusFile.UploadFile.Len | src/tuspyserver/file.py:80-83 | `__len__` is 0 without a blob |
| TusFile.UploadFile.Read | src/tuspyserver/file.py:65-69 | `read` is None exactly without a blob, otherwise the blob, whose length is `__len__` |
| TusFile.UploadFile.GetInfo | src/tuspyserver/file.py:50-52 | the `info` getter reads the sidecar through the handle's cache |
| TusFile.UploadFile.SetInfo | src/tuspyserver/file.py:54-56 | the `info` setter stores the record in this upload's sidecar and nowhere else |
| TusFile.UploadFile.Delete | src/tuspyserver/file.py:71-78 | `delete` leaves the directory `DeleteSpec` describes |
| TusFile.ListFiles | src/tuspyserver/file.py:86-87 | `list_files` is exactly the directory names of 32 characters |
| TusFile.SidecarsNotListed | src/tuspyserver/file.py:86-87 | a generated uid's sidecar (37 characters) is never listed |
| TusFile.SweepRemovesExactlyExpired | src/tuspyserver/file.py:90-100 | the sweep removes an upload's blob and sidecar exactly when it is listed and its record has an ISO expiry before the clock reading taken for it; everything else is kept unchanged |
| TusFile.SweepSparesUnexpiring | src/tuspyserver/file.py:93-97 | an upload without a record or without an ISO expiry is never swept |
| TusFile.SweepSparesOrphanSidecar | src/tuspyserver/file.py:91 | a sidecar whose blob is gone is never swept |
| TusFile.SweepIdempotent | src/tuspyserver/file.py:90-100 | a second sweep whose clock readings are no later than the first's removes nothing more |
| TusFile.CollectGarbage | src/tuspyserver/file.py:90-100 | `gc_files`, visiting the listed uids one by one and reading the clock for each, leaves exactly the swept directory |
| TusRequest.Rejection | src/tuspyserver/request.py:45-58 | a fragment is refused for the declared length first, then for `max_size`, and accepted exactly when it fits both |
| TusRequest.Consume | src/tuspyserver/request.py:39-75 | the loop only appends to the blob; `error` is untouched unless a fragment is refused, and is then the 400 or 413 text |
| TusRequest.ConsumeKeepsGap | src/tuspyserver/request.py:39-66 | consuming fragments keeps blob length minus offset and keeps the old blob as a prefix; offset never decreases; size and metadata are untouched |
| TusRequest.ConsumeStaysWithinLimits | src/tuspyserver/request.py:45-58 | an offset within the declared size and `max_size` stays within both |
| TusRequest.RejectionIsFinal | src/tuspyserver/request.py:69-75 | after a refused fragment no later fragment is looked at |
| TusRequest.ConsumeAllFits | src/tuspyserver/request.py:59-66 | fragments that fit are all appended in order; offset grows by their total, `upload_part` by the number of non-empty ones, and `upload_chunk_size` is the last non-empty one's length |
| TusRequest.ConsumeAppend | src/tuspyserver/request.py:39-66 | the loop resumes where an unrefused prefix of the fragments left it |
| TusRequest.RefusedFragmentNotWritten | src/tuspyserver/request.py:45-58 | the first refused fragment is not written: blob and offset stay as the accepted fragments before it left them, `error` gets the reason, and later fragments are ignored |
| TusRequest.ConsumeTrailingEmpty | src/tuspyserver/request.py:42-43 | an empty fragment at the end changes nothing |
| TusRequest.IngestSpec | src/tuspyserver/request.py:19-89 | when the upload is found, its blob is only appended to and its record still reads |
| TusRequest.IngestNotFound | src/tuspyserver/request.py:29-30 | 404 exactly when the blob is missing or the record does not read, and then nothing is written |
| TusRequest.IngestKeepsGap | src/tuspyserver/request.py:37-89 | outside the `post_request` reset, ingesting keeps blob length minus offset and touches no other upload; it returns True exactly when no fragment was refused and the client did not disconnect |
| TusRequest.PostRequestResetsOffset | src/tuspyserver/request.py:81-87 | with `post_request` and a stream yielding no fragment, offset and chunk size become 0, `upload_part` grows by one, and the blob is kept |
| TusRequest.TrailingEmptyFragmentSkipsReset | src/tuspyserver/request.py:39-43 | a stream ending in an empty fragment ingests like the same stream without it and without `post_request`; a body of only that fragment writes nothing |
| TusRequest.DisconnectKeepsAppended | src/tuspyserver/request.py:67-68 | a disconnect returns False and keeps what was appended and persisted, without the reset |
| TusRequest.RejectionRecorded | src/tuspyserver/request.py:69-75 | a refused fragment returns False with the 400 or 413 text stored in `error` |
| TusRequest.RequestChunks | src/tuspyserver/request.py:19-89 | the ingest loop leaves the directory and returns the result `IngestSpec` describes |
| TusRequest.RequestLocation | src/tuspyserver/request.py:94-109 | the forwarded scheme and host win over `http` and `Host` |
| TusRequest.LocationNamesUpload | src/tuspyserver/request.py:106 | the location's last path segment is the uid, after `proto://host/` and the slash-stripped prefix |
| UploadMetadata.ParseUploadMetadata | src/tuspyserver/routes/creation.py:35-36 | an absent or empty header is an empty map |
| UploadMetadata.ParseItem | src/tuspyserver/routes/creation.py:39-41 | a parsed item's key is the trimmed text before its last space, and its value is what the trimmed text after that space decodes to |
| UploadMetadata.ParseItems | src/tuspyserver/routes/creation.py:38-41 | keys already stored are never dropped by later items |
| UploadMetadata.MissingValueIffNoSpace | src/tuspyserver/routes/creation.py:39 | an item fails to unpack exactly when it holds no space; other failures are base64 errors |
| UploadMetadata.ItemWithoutValueFails | src/tuspyserver/routes/creation.py:39 | one item without a space fails the whole header |
| UploadMetadata.ParseItemsSnoc | src/tuspyserver/routes/creation.py:38-41 | the items are processed left to right, each one stored over the earlier ones |
| UploadMetadata.LaterItemWins | src/tuspyserver/routes/creation.py:41 | a later duplicate key overwrites an earlier one |
| UploadMetadata.EchoRoundTrip | src/tuspyserver/routes/core.py:51-53 | the `filename <b64>, filetype <b64>` header parses back to exactly those two fields |
| CoreRoutes.FirstUsable | src/tuspyserver/routes/core.py:32 | `get(a) or get(b)`: None exactly when `a` is absent or empty and `b` is absent; otherwise the usable one |
| CoreRoutes.HeadRoute | src/tuspyserver/routes/core.py:20-61 | HEAD writes nothing and answers `HeadOf` of the directory |
| CoreRoutes.HeadNotFoundIff | src/tuspyserver/routes/core.py:28-29 | 404 exactly when the blob is missing or the record does not read, and no other reply is 404 |
| CoreRoutes.HeadRequiredFields | src/tuspyserver/routes/core.py:32-55 | 400 for the name exactly when neither `filename` nor `name` is usable; then 400 for the type likewise, and no other reply is 400; otherwise 200 with the record's size and offset |
| CoreRoutes.HeadEchoParses | src/tuspyserver/routes/core.py:51-53 | HEAD's `Upload-Metadata` parses back to the file name and type it chose |
| CoreRoutes.Amend | src/tuspyserver/routes/core.py:84-94 | deferred length sets size to `Upload-Offset`; an unset expiry becomes now plus `days_to_keep`, a set one is kept; every other field is as it was |
| CoreRoutes.PatchRoute | src/tuspyserver/routes/core.py:63-122 | PATCH (ingester, then route) leaves the directory, reply and hook calls that `PatchSpec` describes |
| CoreRoutes.PatchNotFoundIff | src/tuspyserver/routes/core.py:69-77 | 404 "Upload not found" exactly when there is no blob or no record; nothing written, no hook |
| CoreRoutes.PatchConflictIff | src/tuspyserver/routes/core.py:80-81 | 409 exactly when the offset after ingesting is not `Upload-Offset + Content-Length`; the ingested bytes stay |
| CoreRoutes.PatchAmendsRecord | src/tuspyserver/routes/core.py:86-94 | past the offset check the amended record is persisted; a set expiry is never replaced |
| CoreRoutes.PatchHookIffComplete | src/tuspyserver/routes/core.py:96-120 | exactly one hook (the configured one, else the injected one) when size equals offset, none otherwise; the reported offset is the offset, or `Content-Length` when it is 0 |
| CoreRoutes.CompletionRefires | src/tuspyserver/routes/core.py:114-120 | replaying an empty PATCH on a completed upload changes nothing and fires the hook again |
| CoreRoutes.HonestPatchAppends | src/tuspyserver/routes/core.py:69-81 | a PATCH at the stored offset whose body fits appends the whole body and advances the offset by its length, with or without `post_request` unless the stream yields no fragment |
| CoreRoutes.PatchTouchesOnlyItsUpload | src/tuspyserver/routes/core.py:63-122 | PATCH leaves every other upload's blob and sidecar alone |
| CoreRoutes.OptionsOf | src/tuspyserver/routes/core.py:124-134 | version and resumable are 1.0.0, the extension list splits into the five names, max size is `max_size`, content length 0 |
| CreationRoutes.CreateRoute | src/tuspyserver/routes/creation.py:18-70 | POST leaves the directory, reply and hook calls that `CreateSpec` describes |
| CreationRoutes.CreateBadDeferIff | src/tuspyserver/routes/creation.py:30-31 | 400 exactly when `Upload-Defer-Length` is sent and is not 1; nothing is created |
| CreationRoutes.CreateBadMetadataCreatesNothing | src/tuspyserver/routes/creation.py:35-41 | metadata that fails to parse fails the request before anything is created |
| CreationRoutes.CreateFreshUpload | src/tuspyserver/routes/creation.py:43-53 | a new upload gets an empty blob and a record with offset and part 0, the declared size, the deferral flag iff the header was sent, the parsed metadata and an expiry `days_to_keep` days ahead |
| CreationRoutes.CreateHookIffEmpty | src/tuspyserver/routes/creation.py:63-68 | the injected hook runs exactly when the declared length is 0; an unknown length never triggers it |
| CreationRoutes.CreateLocationNamesUpload | src/tuspyserver/routes/creation.py:55-57 | the `Location` of the new upload ends in its uid |
| TerminationRoutes.TerminateRoute | src/tuspyserver/routes/termination.py:11-28 | DELETE leaves the directory and answers as `TerminateSpec` describes |
| TerminationRoutes.TerminateNotFoundIff | src/tuspyserver/routes/termination.py:18-19 | 404 exactly when there is no blob, even with a sidecar left; nothing removed |
| TerminationRoutes.TerminateRemoves | src/tuspyserver/routes/termination.py:22-26 | 204; the blob is gone, the sidecar goes exactly when it reads; other uploads are untouched |
| TerminationRoutes.GoneAfterDelete | src/tuspyserver/routes/termination.py:22 | after DELETE, HEAD, PATCH and DELETE all answer 404 and write nothing |
| UploadLifecycle.FullPatchCompletes | src/tuspyserver/routes/core.py:63-122 | one full PATCH at offset 0 on a fresh upload of `n` bytes makes the blob the body, reports offset `n` with the stored expiry, and fires one hook with the metadata |
| UploadLifecycle.CreateUploadTerminate | src/tuspyserver/routes/core.py:96-107 | POST of n bytes then one full PATCH: the blob is the body, offset n is reported with the creation expiry, one hook fires, and after DELETE HEAD is 404 |

## Left out

- The auth dependency is not modelled; every route is modelled as authorised.
  - On PATCH the ingester runs before auth, so an unauthorised PATCH would
    still append its body. The model does not show this.
- FastAPI plumbing is not modelled: routing, header parsing into `int` (a
  non-numeric header gives 422), and the constant headers.
  - The constant headers are `Tus-Resumable`, `Cache-Control` and HEAD's
    `Content-Length`, which repeats `Upload-Length`.
  - `router.py`'s single leading-slash strip of the prefix is subsumed by
    the slash stripping in `get_request_headers`.
- CoreRoutes.PatchRoute: `Content-Length` and `Upload-Offset` are integers in
  the model. A missing header makes `upload_offset + content_length` raise a
  TypeError, and that is not modelled.
- CoreRoutes.PatchRoute: the `uuid != file.uid` test is not modelled, because
  the handle is opened with that very uid and the test is never true.
- UploadMetadata.ParseUploadMetadata: decoded values are kept as bytes. The
  `.decode("utf-8")` step and its UnicodeDecodeError on invalid UTF-8 are not
  modelled, and neither is HEAD's re-encoding.
- The JSON text of the sidecar is not modelled; only the outcome of parsing it
  is.
  - A JSON object whose fields fail validation makes pydantic raise a
    `ValidationError`, which `deserialize` does not catch. That crash is not
    modelled.
- Files are not modelled as files.
  - `os.makedirs` and file handles are left out.
  - Writes buffered inside the `with open(...)` block are modelled as
    immediately visible.
  - A blob literally named `x.info` would share the file of `x`'s sidecar;
    the model keeps the two maps apart.
- In the ingest loop, only the two rejections are modelled as exceptions.
  I/O errors, which the same handler would record in `error`, are not.
- Time is integers.
  - `datetime.now()` is a parameter in whole seconds.
  - `created_at` is that integer, not its string form.
  - An ISO `expires` is the instant it names. `fromisoformat` failing on a
    malformed string is not modelled.
  - `str(expires)` in the reply is the `Expiry` value itself.
- The uid from `uuid4().hex` is a parameter, constrained to that format.
- TusFile.CollectGarbage: it visits the listed uids in an unspecified order
  rather than `os.listdir` order. Each upload is judged by its own clock
  reading, `clock(uid)`, which may be any value.
  - The code reads the clock in visit order, so later uploads see later
    instants. The model does not tie the readings to that order.
  - With a moving clock, whether an upload that expires mid-sweep is removed
    depends on when it is visited. The model states the result for any given
    readings and does not predict them.
- Awaiting a coroutine returned by a hook, and hook failures, are not
  modelled; a hook call is recorded and nothing more.
- TusRequest.Stream: the model lets a stream be any sequence of fragments.
  That includes a stream yielding no fragment at all, which Starlette's
  `Request.stream()` never produces for a completed request because it ends
  every body with an empty fragment. Starlette is not part of this model.
- Concurrency is not modelled. The code has no per-upload lock, and races
  between requests are out of scope.
- `example/backend/server.py` (app bootstrap, CORS, uvicorn) is not part of
  this model.
