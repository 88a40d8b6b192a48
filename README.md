# ustreamer, modelled in Dafny

This project models the sequential core of ustreamer, a capture daemon and an
MJPEG relay, and proves properties of that model.

The capture daemon side covers:

- the singleton lock file;
- the ordered JPEG encode scheduler (`cpu_pool`);
- the integer pixel transforms: the YUYV to RGB pixel function, the NV12 U/V
  de-interleave, the NV24 to NV12 chroma downsampler, and the 16-row-aligned
  NV12 buffer size of the Rockchip MPP encoder.

The relay side covers:

- the client registry;
- the two frame transport readers. The one in `src/server/img/mod.rs` reads
  an 8-byte big-endian length, the payload and a 512-byte metadata block; the
  library crate's reader in `server/src/lib.rs` reads only the length and the
  payload;
- the two revisions of the shared-cache update: seven `x`-separated metadata
  parts with a skip flag, and six parts without one;
- the per-viewer MJPEG stream loops of the Unix-socket server, of the axum
  page and of the earlier server;
- request routing;
- the byte-exact HTTP/1.1 responses and multipart body parts.

The model is laid out as follows:

- One module per source file. Shared pieces have their own modules:
  - `Bytes`: decimal numerals, Rust's unsigned `parse`, big-endian lengths;
  - `Text`: `split`, `split_whitespace`, `lines`;
  - `Utf8`: UTF-8 encoding and decoding;
  - `Socket`: `read_exact` on a byte stream;
  - `Http`: a reader of CRLF-terminated heads, used to state what a response
    means, and the responses and parts themselves;
  - `Viewer`: the stream loop shared by the Unix and axum variants.
- State that the source updates in place is a class with `modifies` clauses:
  - the registry `Clients`;
  - the encode `Pool`;
  - the shared image (`SharedImage`, `OldImage`);
  - the stream state behind `get_stream`;
  - the `Host` holding files and processes.
- Every loop of the source is a method with loop invariants, proved against a
  function of its inputs. The properties are lemmas about those functions.
- Sockets, clocks and lock timeouts are inputs:
  - the bytes still to arrive on a socket;
  - whether a second has elapsed before a pass;
  - whether the read lock was granted within its timeout;
  - whether a write or flush succeeded.
- Calls into code outside the core are inputs:
  - turbojpeg workers, given as the completions drained on a call;
  - the yuv library;
  - the RGA;
  - the client lookups that the registry file does not define.

## Model

| member | source | states |
|---|---|---|
| Bytes.ParseDecimal | src/lock/mod.rs:13-18 | A pid written with `format!("{}")` parses back as the same number whenever it is below the bound of the target type. |
| Bytes.ParseUnsigned | src/lock/mod.rs:18 | Rust's `parse::<u32>` or `parse::<usize>`. A parsed value is below the type's bound, and the text starts with a digit or `+`. |
| Bytes.ParseRejectsEmpty | src/lock/mod.rs:18 | The empty string and a lone `+` do not parse. |
| Bytes.BeValueOfBe | src/server/img/mod.rs:34 | Decoding an 8-byte big-endian encoding of `n` gives back `n`. |
| Bytes.BeOfBeValue | src/server/img/mod.rs:34 | Encoding the decoded value of a prefix gives back the prefix. |
| Bytes.BeValueZeros | src/server/img/mod.rs:32-34 | An all-zero prefix, which is what a failed length read leaves, decodes to length 0. |
| Bytes.BeValueAboveIsizeMax | src/server/img/mod.rs:34-36 | An 8-byte big-endian length is above `isize::MAX`, so that `vec![0u8; len]` panics, exactly when its first byte has the top bit set. |
| Socket.ReadExact | src/server/img/mod.rs:32-47 | `read_exact` into a zeroed buffer of `n` bytes succeeds exactly when `n` bytes are there, and then leaves the rest. A short read leaves the bytes that arrived followed by zeros, and nothing unread. |
| Socket.Socket.Read | src/server/img/mod.rs:32-33 | Reading from the socket changes its pending bytes exactly as `ReadExact` says. |
| Text.JoinSplit | server/src/main.rs:373 | Joining the parts of `split` with the separator gives back the text. |
| Text.SplitJoin | server/src/main.rs:373 | Splitting a join of separator-free parts gives back exactly those parts. This is how a record with a given number of parts is built. |
| Text.SecondPiece | server/src/client/mod.rs:149 | `split(pat).nth(1)` exists exactly when the pattern occurs. It is the text between the first occurrence and the next one, or the end. |
| Text.SplitWhitespace | server/src/client/mod.rs:146 | Every token of `split_whitespace` is non-empty and free of whitespace. |
| Text.SplitWhitespaceKeepsText | server/src/client/mod.rs:146 | The tokens, put back together, are the text with its whitespace removed. |
| Text.FirstLine | src/lock/mod.rs:16-18 | The first item of `lines()` is a prefix of the text with no line feed in it. |
| Text.FirstLineOf | src/lock/mod.rs:13-18 | A line written with a trailing `\n` is read back as the first line. |
| Utf8.DecodeEncode | src/server/img/mod.rs:52 | `from_utf8` accepts the UTF-8 encoding of any string and gives back that string. |
| Utf8.DecodeAscii | src/server/img/mod.rs:52 | ASCII bytes decode one character per byte. |
| Client.ParseKeyFromHeader | server/src/client/mod.rs:144-156 | A parsed key contains no whitespace and no `?key=`. |
| Client.ParseKeyFromHeaderSpec | server/src/client/mod.rs:144-156 | The key is found exactly when the request line has a second token and that token contains `?key=`. The key is then the text between the first `?key=` and the next one, or the end of the token. |
| Client.NewClient | server/src/client/mod.rs:20-33 | A new session has fps 0 and all four flags off. Its key is the given one, or `"0"` when there is none. |
| Client.FromHeader | server/src/client/mod.rs:35-49 | A session made from a request line has fps 30 and all flags off. Its key is `"0"` when none is found, and it never contains whitespace. |
| Client.AdmitBound | server/src/client/mod.rs:91-103 | Admitting a client to a registry of at most `max` entries keeps it at 1 to `max` entries with the new client last. Below `max` nothing is dropped; at `max` exactly the oldest entry is dropped, and the survivors keep their order. |
| Client.EvictsOldest | server/src/client/mod.rs:92-99 | With room for two, a third client pushes out the first. |
| Client.DuplicateKeysKept | server/src/client/mod.rs:86-99 | Two sessions with the same key both stay registered, and removal by that key takes out only the older one. |
| Client.RemoveFirstAt | server/src/client/mod.rs:105-130 | Removal by key deletes exactly the lowest-index entry with that key and keeps the others in order. |
| Client.RemoveFirstAbsent | server/src/client/mod.rs:110-128 | With no matching key the sessions are unchanged. |
| Client.RemoveFirstLength | server/src/client/mod.rs:105-130 | Removal shortens the list by one exactly when the key is present. |
| Client.RemoveUndoesAdd | server/src/client/mod.rs:86-130 | Removing a session just added, under a fresh key, restores the registry. |
| Client.Admit | server/src/client/mod.rs:91-103 | The sessions after `add_client_from_header`: when full the oldest is dropped, then the new one is appended. `AdmitBound` states its bound and order. |
| Client.RemoveFirst | server/src/client/mod.rs:105-130 | The sessions after removal by key: the first session with the key is dropped. `RemoveFirstAt`, `RemoveFirstAbsent` and `RemoveFirstLength` state it. |
| Client.Clients.constructor | server/src/client/mod.rs:77-84 | A new registry has no sessions, counter 0 and room for 5, and it satisfies the invariant and the bound. |
| Client.Clients.AddClient | server/src/client/mod.rs:86-89 | Appends a new session and increments the counter, with no eviction check. It keeps `clients == \|stats\|`. |
| Client.Clients.AddClientFromHeader | server/src/client/mod.rs:91-103 | Files the session parsed from the request line, evicting the oldest entry when full, and returns its id, which is then the last entry. It keeps `clients == \|stats\|` and `\|stats\| <= max_clients`. |
| Client.Clients.RemoveClient | server/src/client/mod.rs:105-116 | The loop removes the first session with the key, or with `"0"` for none. It decrements the counter exactly when one matched and keeps the invariant. |
| Client.Clients.RemoveClientFromHeader | server/src/client/mod.rs:118-130 | The same, for the key parsed from a request line. |
| CpuPool.InsertAll | src/cpu_pool/mod.rs:84-93 | After the drained completions are filed, an index is ready exactly when it was ready before or some completion carried it. |
| CpuPool.InsertAllAt | src/cpu_pool/mod.rs:87-92 | Each completion's bytes are filed under its own index. |
| CpuPool.InsertAllOther | src/cpu_pool/mod.rs:87-92 | Entries no completion names keep their bytes. |
| CpuPool.Pool.constructor | src/cpu_pool/mod.rs:17-54 | A fresh pool has both counters, the busy count and the reorder map empty, and satisfies the ordering invariant. |
| CpuPool.Pool.Submit | src/cpu_pool/mod.rs:75-82 | A submitted job takes index `NEXT`, and `NEXT` and `busy` each rise by one. The ordering invariant holds, so `busy <= max_workers`. |
| CpuPool.Pool.DrainOne | src/cpu_pool/mod.rs:84-93 | One completion decrements `busy` and is stored under its own index. |
| CpuPool.Pool.DrainAll | src/cpu_pool/mod.rs:84-93 | The drain loop files every completion and lowers `busy` by their number. Nothing else changes. |
| CpuPool.Pool.Release | src/cpu_pool/mod.rs:95-103 | When `CURRENT` is ready, its bytes are removed and returned and `CURRENT` advances by exactly one. Otherwise an empty vector is returned and nothing changes. At most one result leaves per call. |
| CpuPool.Pool.EncodeJpegPool | src/cpu_pool/mod.rs:57-104 | Submits only non-empty data while a worker is free, drains, then releases at most one result. The ordering invariant holds, so every result is handed back in index order 0, 1, 2, … with no gaps, `CURRENT <= NEXT`, and ready keys lie in `[CURRENT, NEXT)`. |
| CpuPool.Pool.WorkersFull | src/cpu_pool/mod.rs:106-109 | When full, no data can be submitted; otherwise any non-empty data is. |
| CpuPool.Pool.FullMeansAllBusy | src/cpu_pool/mod.rs:106-109 | Full exactly when `busy == max_workers`, with that many jobs in flight. |
| ServerImg.TakeUntilNul | src/server/img/mod.rs:51 | `take_while(b != 0)` gives the longest NUL-free prefix. |
| ServerImg.Metadata | src/server/img/mod.rs:48-55 | Metadata is absent exactly when the block's first byte is 0. A decoded text is no longer than the block and contains no NUL. |
| ServerImg.InvalidMetadataIsEmpty | src/server/img/mod.rs:52 | A block starting with a byte no UTF-8 sequence starts with gives `Some("")`. |
| ServerImg.MetadataRoundTrip | src/server/img/mod.rs:48-55 | A non-empty, NUL-free text, encoded and NUL-padded to 512 bytes, is read back unchanged. |
| ServerImg.DecodeFrame | src/server/img/mod.rs:32-47 | The step panics (`Overflow`) exactly when the length taken from the prefix buffer is above `isize::MAX`, as `vec![0u8; len]` does. Otherwise a yielded payload is non-empty, and the step consumes exactly `8 + L + 512` bytes for it. |
| ServerImg.DecodeFrameBytes | src/server/img/mod.rs:32-47 | For `BE8(L) ++ P ++ M` with `\|P\| = L > 0` and `\|M\| = 512`, the step yields `P` with the metadata of `M` and leaves what follows on the socket. A length above `isize::MAX` panics instead. |
| ServerImg.ZeroLengthEnds | src/server/img/mod.rs:36-41 | A zero length ends the stream and leaves what follows; it is not an empty frame. |
| ServerImg.ShortPrefixEnds | src/server/img/mod.rs:32-36 | A failed length read leaves the bytes that arrived, then zeros, in the prefix. When the first of them has its top bit set the length is above `isize::MAX` and the step panics; otherwise the stream ends. |
| ServerImg.HugeLengthPanics | src/server/img/mod.rs:34-36 | Any prefix announcing more than `isize::MAX` bytes panics in the allocation, whatever follows it. |
| ServerImg.ShortPayloadEnds | src/server/img/mod.rs:34-41 | A payload cut short ends the stream, or panics when its length is above `isize::MAX`. |
| ServerImg.ShortMetadataEnds | src/server/img/mod.rs:34-47 | A metadata block cut short ends the stream, or the step panics when the announced length is above `isize::MAX`. |
| ServerImg.Poll | src/server/img/mod.rs:27-60 | The fused stream yields nothing once ended, ends when a step yields nothing, and consumes bytes for every item. A poll panics exactly when its step overflows, and then yields nothing. |
| ServerImg.NoEarlierPanic | src/server/img/mod.rs:27-60 | A panic is final: a stream still reading after `n` polls was still reading after every earlier poll. |
| ServerImg.NewImageData | src/server/img/mod.rs:84-97 | `ImageData::new`: no frame, 1920x1080, all four counters 0, empty encoder and format. |
| ServerImg.ImgStream.GetStream | src/server/img/mod.rs:20-26 | Each call starts a fresh stream on the same socket and bumps the counter. |
| ServerImg.StreamState.Next | src/server/img/mod.rs:27-55 | One poll reads from the socket exactly as `Poll` says, including the capacity-overflow panic, and counts the step unless the stream had ended. |
| ServerLib.DecodeFrame | server/src/lib.rs:18-34 | The step panics (`Overflow`) exactly when the length taken from the prefix buffer is above `isize::MAX`. Otherwise a yielded payload is non-empty, and what is left is a suffix of the input. |
| ServerLib.DecodeFrameBytes | server/src/lib.rs:22-31 | `BE8(L) ++ P` with `\|P\| = L > 0` yields exactly `P` and leaves what follows on the socket. A length above `isize::MAX` panics instead. |
| ServerLib.DecodeAfterPrefix | server/src/lib.rs:22-31 | Any 8-byte prefix announcing the payload's length yields that payload, or panics when that length is above `isize::MAX`. |
| ServerLib.ZeroLengthEnds | server/src/lib.rs:27-33 | A zero length yields no item. |
| ServerLib.ShortPrefixEnds | server/src/lib.rs:23-27 | A failed length read is swallowed. When the first byte that arrived has its top bit set the length is above `isize::MAX` and the step panics; otherwise the stream ends. |
| ServerLib.HugeLengthPanics | server/src/lib.rs:25-27 | Any prefix announcing more than `isize::MAX` bytes panics in the allocation, whatever follows it. |
| ServerLib.ShortPayloadEnds | server/src/lib.rs:25-33 | A payload cut short ends the stream, or panics when its announced length is above `isize::MAX`. |
| ServerLib.DecodeFrames | server/src/lib.rs:18-34 | Reading back any sequence of concatenated frames, each at most `isize::MAX` bytes, gives their payloads in order and leaves what follows on the socket. |
| ServerLib.NewImageData | server/src/lib.rs:50-60 | No frame, 1920x1080, fps and total 0, empty format. |
| ServerLib.ImgStream.GetStream | server/src/lib.rs:18-20 | Each call gives a fresh stream over the same socket. |
| ServerLib.LibStream.Next | server/src/lib.rs:20-33 | One poll is one `DecodeFrame` step on the socket's bytes, and it panics exactly when that step overflows. The stream stays ended after it yields nothing. |
| ServerMain.ApplyMetadata | server/src/main.rs:372-383 | Only a seven-part record is applied. A part that does not parse keeps its field. Format and encoder are taken verbatim. Skip is set exactly when part 6 is `"1"`. Any other record leaves the cache unchanged. |
| ServerMain.ApplyRecord | server/src/main.rs:372-383 | A record built from representable figures sets exactly those figures. |
| ServerMain.RecordText | server/src/main.rs:372-373 | Such a record is a non-empty, NUL-free text, so it survives the metadata block. |
| ServerMain.ApplyItem | server/src/main.rs:364-383 | A non-empty payload replaces the frame and an empty one keeps it. Every item adds one to the received count. An item without metadata changes nothing else. |
| ServerMain.ReceiveRecord | server/src/main.rs:364-383 | A frame carrying a record, with a length of at most `isize::MAX`, read off the socket and applied, sets the frame, the figures and the count together. |
| ServerMain.FrameStaysSet | server/src/main.rs:365-367 | Once a frame is cached it is never cleared. |
| ServerMain.SnapshotServesLatest | server/src/main.rs:478-494 | After a non-empty payload the snapshot is 200 with that payload. After an empty one the snapshot is unchanged. |
| ServerMain.Tick | server/src/main.rs:356-390 | A miss adds one to `missed` and any item resets it. Each item adds one received frame. After a second the client rate becomes `(old + fps) / 2` and `fps` restarts. |
| ServerMain.Clock | server/src/main.rs:358-363 | The once-a-second update: the client rate becomes the mean of the old rate and this second's count. `Tick` states its effect on a pass. |
| ServerMain.TotalCountsItems | server/src/main.rs:368 | Over any run the received count rises by the number of items. |
| ServerMain.MissedIsTrailingNones | server/src/main.rs:370-390 | `missed` is the number of misses since the last item. |
| ServerMain.PollsAfterEnd | server/src/main.rs:364-390 | Once the stream has ended every poll is a miss, so the loop runs out its misses. |
| ServerMain.SharedImage.constructor | src/server/img/mod.rs:84-97 | The shared cache starts with the fields of `ImageData::new()` and the given skip flag. |
| ServerMain.SharedImage.AttachFailed | server/src/main.rs:106-109 | A failed socket connect sets `skip` and nothing else. |
| ServerMain.SharedImage.Apply | server/src/main.rs:364-383 | The cache changes exactly as `ApplyItem` says. |
| ServerMain.SharedImage.ApplyRecordText | server/src/main.rs:372-383 | The fields change exactly as `ApplyMetadata` says. |
| ServerMain.SharedImage.ClockCheck | server/src/main.rs:358-363 | The once-a-second rate update on the cache. |
| ServerMain.SharedImage.Receive | server/src/main.rs:364-390 | An item is applied with `fps + 1` and `missed = 0`; a miss only adds to `missed`. |
| ServerMain.SharedImage.Pass | server/src/main.rs:355-390 | One loop pass polls the stream once and moves the cache and counters by one `Tick`. |
| ServerMain.SharedImage.MjpegStream | server/src/main.rs:349-396 | The loop ends with the cache equal to the `Ticks` of the items polled. It ends at the first pass where `missed` reaches 101, or at the first poll that panics, after that pass's clock check. No earlier pass panicked or had more than 100 misses. |
| ServerOld.ApplyMetadata | src/server/mod.rs:189-198 | Only a six-part record is applied. A part that does not parse keeps its field, and format and encoder are verbatim. Any other record changes nothing. This revision has no skip. |
| ServerOld.ApplyRecord | src/server/mod.rs:189-198 | A six-part record built from figures sets exactly those figures. |
| ServerOld.SevenPartRecordIgnored | src/server/mod.rs:190-191 | A record of the later seven-part format is ignored by this revision. |
| ServerOld.ApplyItem | src/server/mod.rs:182-198 | A non-empty payload replaces the frame, and each item adds one to the count. |
| ServerOld.Tick | src/server/mod.rs:172-206 | A miss only adds to `missed`. An item resets it, counts one frame and updates the rate once a second. |
| ServerOld.Clock | src/server/mod.rs:176-180 | The same once-a-second update in this revision, applied only when an item arrives. `Tick` states it. |
| ServerOld.TotalCountsItems | src/server/mod.rs:187 | Over any run the received count rises by the number of items. |
| ServerOld.MissedIsTrailingNones | src/server/mod.rs:183-205 | `missed` is the number of misses since the last item. |
| ServerOld.OldImage.constructor | src/server/img/mod.rs:84-97 | The cache starts as `ImageData::new()`. |
| ServerOld.OldImage.Apply | src/server/mod.rs:184-198 | The cache changes exactly as `ApplyItem` says. |
| ServerOld.OldImage.ApplyRecordText | src/server/mod.rs:189-198 | The fields change exactly as `ApplyMetadata` says. |
| ServerOld.OldImage.ClockCheck | src/server/mod.rs:176-180 | The once-a-second rate update. |
| ServerOld.OldImage.Pass | src/server/mod.rs:174-206 | One pass polls once and moves the cache and counters by one `Tick`. |
| ServerOld.OldImage.MjpegStream | src/server/mod.rs:166-210 | The loop ends with the cache equal to the `Ticks` of the items polled: at the first pass with more than 100 misses, or at the first poll that panics. No earlier pass panicked. |
| ServerOld.OldTrace | src/server/mod.rs:332-422 | The stream loop yields at most one effect per pass. |
| ServerOld.OldSession | src/server/mod.rs:332-422 | The loop's effects are exactly `OldTrace` of the passes. |
| ServerOld.OldRunPass | src/server/mod.rs:333-421 | One pass of the loop is one `OldStep`. |
| ServerOld.OldStep | src/server/mod.rs:333-421 | One pass of the loop: a first pass or a granted lock writes a timed part of the cached frame, panicking on an empty cache; a lock timeout resends the previous chunk. `FirstPassNeedsFrame` and `TimeoutReusesChunk` state its cases. |
| ServerOld.Deliver | src/server/mod.rs:403-421 | The write and flush of a pass: a failed write or flush breaks the loop, and after the first chunk the viewer must still be registered. `FailureEnds` states it. |
| ServerOld.FirstPassNeedsFrame | src/server/mod.rs:343-347 | The first pass panics on an empty cache. Otherwise it writes a timed part of the cached frame. |
| ServerOld.TimeoutReusesChunk | src/server/mod.rs:370-397 | When the 100 ms lock times out, the previous chunk is written again verbatim and kept. |
| ServerOld.FailureEnds | src/server/mod.rs:403-421 | A failed write or flush ends the loop. Success on a later pass continues it. |
| ServerOld.EveryChunkTimed | src/server/mod.rs:351-393 | Every chunk written carries `X-Timestamp`, and a loop still running wrote one chunk per pass. There is no skip and no dual frame. |
| ServerOld.ServeOldStream | src/server/mod.rs:305-423 | The stream route writes the header and then the loop's chunks. The session is filed on entry and removed once the loop breaks. A failed header write panics before the removal. |
| ServerOld.OldConnectionHandler | src/server/mod.rs:273-559 | Routing by prefix: an unreadable line writes nothing; snapshot gives the JPEG or 503, unknown paths a bare 404; `/stream` is as above. |
| ServerOld.PageChunk | src/server/mod.rs:131-154 | `mjpeg_page` yields a `--frame` part whose head is the delimiter and the JPEG type, followed by the image and CRLF. With no frame it yields an empty chunk. |
| Http.ReadHeadMessage | server/src/unix/mod.rs:22-29 | A message built from proper header lines and a body reads back as those lines and that body. |
| Http.ReadHeadAfterLines | server/src/unix/mod.rs:48-57 | Lines written ahead of a stream are read back ahead of whatever follows them. |
| Http.ContentLengthAt | server/src/unix/mod.rs:26 | The first `Content-Length` line of a head gives the body length. |
| Http.SnapshotResponseReads | server/src/unix/mod.rs:18-29 | The snapshot response is the 200 line, the JPEG type, the date and a Content-Length equal to the frame's length, then a blank line and exactly the frame. |
| Http.SnapshotResponse | server/src/unix/mod.rs:18-29 | The snapshot response bytes; `SnapshotResponseReads` states how they read back. |
| Http.JsonResponseReads | server/src/unix/mod.rs:275-283 | The state responses announce a Content-Length equal to the byte length of the JSON body that follows the blank line, and that body decodes to the JSON text. |
| Http.JsonResponse | server/src/unix/mod.rs:275-283 | The state response bytes; `JsonResponseReads` states how they read back. |
| Http.StatusOnlyReads | server/src/unix/mod.rs:39-41 | The 503 and 404 responses are a status line and a blank line, with no body. |
| Http.StatusOnly | server/src/unix/mod.rs:39-41 | A response with a status line only; `StatusOnlyReads` states how it reads back. |
| Http.StreamHeaderReads | server/src/unix/mod.rs:48-57 | The stream header reads as its seven lines: the cookie `stream_client=<c_id.1>/<c_id.0>` and the type with `boundary=boundarydonotcross`. A blank line ends it, and the parts follow untouched. |
| Http.StreamHeader | server/src/unix/mod.rs:48-57 | The stream response head; `StreamHeaderReads` states how it reads back. |
| Http.TimedPartReads | server/src/axum_pages/mod.rs:65-74 | A part is the delimiter, the JPEG type, a Content-Length equal to the payload length and the timestamp, then a blank line, the payload and CRLF. |
| Http.TimedPart | server/src/axum_pages/mod.rs:65-74 | A multipart part with `X-Timestamp`; `TimedPartReads` states how it reads back. |
| Http.PlainPartReads | server/src/axum_pages/mod.rs:76-81 | With advance headers the first part drops `X-Timestamp` but keeps the blank line. |
| Http.PlainPart | server/src/axum_pages/mod.rs:76-81 | The first advance-headers part; `PlainPartReads` states how it reads back. |
| Http.OpenPartHasNoBody | server/src/axum_pages/mod.rs:115-120 | A later part with advance headers ends its header after Content-Length with a single CRLF. So it never reads as a head followed by the image. |
| Http.OpenPart | server/src/axum_pages/mod.rs:115-120 | A later advance-headers part; `OpenPartHasNoBody` states how it reads. |
| Http.FramePartReads | src/server/mod.rs:131-137 | The earlier `--frame` part is the delimiter and type lines, a blank line, the image and CRLF. |
| Http.FramePart | src/server/mod.rs:131-137 | The `--frame` part of the earlier page; `FramePartReads` states how it reads back. |
| Http.SnapshotReply | server/src/axum_pages/mod.rs:270-287 | The axum snapshot is 200 with the JPEG when a frame is cached. Otherwise it is 404 with type `none` and an empty body. |
| Viewer.SettingsOrDefault | server/src/axum_pages/mod.rs:36-42 | A failed client lookup leaves all four settings off. |
| Viewer.Send | server/src/unix/mod.rs:179-217 | Sending never touches the previous chunk, `skip` or the fps count, and it never panics. |
| Viewer.Trace | server/src/unix/mod.rs:81-218 | The loop yields at most one effect per pass, and at least one when there are passes. |
| Viewer.Session | server/src/unix/mod.rs:81-218 | The Unix and axum loops produce exactly the `Trace` of their passes. |
| Viewer.RunPass | server/src/unix/mod.rs:82-217 | One loop iteration over `prev_frame`, `first`, `skip`, `df_frame_sent` and `fps` is exactly one `Step`. |
| Viewer.Step | server/src/unix/mod.rs:82-217 | One pass of the Unix or axum loop: the state it leaves and its effect (fps report, chunk written, and whether the loop continues, breaks or panics). `FirstPass`, `FreshRead`, `SendingPass`, `SkipPass` and `TimeoutReusesPrevious` state its cases. |
| Viewer.SendFrame | server/src/axum_pages/mod.rs:141-171 | Writing a chunk, or the dual final frame, is exactly `Send`. |
| Viewer.FirstPass | server/src/axum_pages/mod.rs:56-91 | The first pass reads the cache without a timeout, with an empty payload for a missing frame. Its chunk becomes `prev_frame`. The loop continues only if the write (and, on Unix, the flush) succeeds and the client is found. |
| Viewer.TimeoutReusesPrevious | server/src/axum_pages/mod.rs:93-135 | On a lock timeout the frame is `prev_frame` and `skip` keeps its value. Outside a skip run that frame is what is written. |
| Viewer.CacheSkipKeepsPrevious | server/src/axum_pages/mod.rs:130-132 | A set cache skip flag sets `skip` and keeps `prev_frame`. |
| Viewer.FreshRead | server/src/unix/mod.rs:134-167 | A fresh read of a cached frame builds the later chunk, stores it and clears `skip` and `df_frame_sent`. Reading an empty cache panics, as the `unwrap` does. |
| Viewer.SendingPass | server/src/axum_pages/mod.rs:141-157 | A non-skip pass clears `df_frame_sent`. A failed write ends the loop, as does a failed flush on Unix. A client lookup that fails after the first send ends it too. |
| Viewer.DualFinalFrame | server/src/unix/mod.rs:205-214 | A send in a skip pass happens only with `dual_final_frame` on and `df_frame_sent` off, and then sets the flag. Unix writes `prev_frame`. Axum writes this pass's `frame`: the empty vector after a fresh read, or `prev_frame` after a timeout (server/src/axum_pages/mod.rs lines 55 and 163-168). |
| Viewer.SkipPass | server/src/unix/mod.rs:205-217 | In a skip pass, a write implies the flag was off and is now on, and a set flag stays set. |
| Viewer.AtMostOneSendPerSkipRun | server/src/axum_pages/mod.rs:163-171 | Over any run of skip passes at most one chunk is sent. None is sent if the dual frame was already sent or is disabled. |
| Viewer.FpsReport | server/src/axum_pages/mod.rs:48-54 | The fps count is reported exactly when a second has passed, and the count then restarts from this pass. |
| Viewer.TraceStopsAtEnd | server/src/unix/mod.rs:81-218 | Every effect but the last continues the loop; a trace shorter than its passes ended on a break or a panic. |
| Viewer.SessionDeregisters | server/src/unix/mod.rs:47-219 | When the loop breaks, the session filed on entry is removed again and the registry is as it was. Otherwise the session stays filed. |
| UnixServer.RouteOf | server/src/unix/mod.rs:15-347 | Routes are tested by prefix in the order `GET /snapshot HTTP/1.1`, `GET /stream`, `GET /state`, `GET /ustate`. Each route holds exactly when its prefix matches and no earlier one does. |
| UnixServer.RoutesByPrefix | server/src/unix/mod.rs:17-292 | A line starting with a route's prefix takes that route. |
| UnixServer.SnapshotBytes | server/src/unix/mod.rs:17-42 | The snapshot route gives the JPEG response for a cached frame and exactly `HTTP/1.1 503 Service Unavailable\r\n\r\n` otherwise. |
| UnixServer.SnapshotRouteReads | server/src/unix/mod.rs:18-41 | Read back, a snapshot response announces the frame's length and carries exactly the frame; the 503 head has no body. |
| UnixServer.UnknownRouteReads | server/src/unix/mod.rs:347-350 | Any other line gets exactly `HTTP/1.1 404 Not Found\r\n\r\n`. |
| UnixServer.StreamBytesRead | server/src/unix/mod.rs:48-60 | On the wire the stream header is followed by exactly the concatenated chunks. |
| UnixServer.ServeStream | server/src/unix/mod.rs:43-219 | The stream route files the session, writes the header and then the loop's chunks. The session is removed once the loop breaks; a failed header write panics first. The registry keeps its invariant. |
| UnixServer.ConnectionHandler | server/src/unix/mod.rs:11-352 | If reading the line fails, nothing is written. An empty line at end of input matches no prefix and gets the 404. Otherwise the route decides: one fixed response for snapshot, state, ustate and unknown, with the registry untouched; the stream session for `/stream`. |
| AxumPages.RequestLine | server/src/axum_pages/mod.rs:17 | The line handed to the registry is the path and query, or `/stream` when there is none. |
| AxumPages.MjpegPage | server/src/axum_pages/mod.rs:16-189 | The reply is 200 with the no-cache headers and the multipart type, and its body is the loop's chunks. The session is filed and then removed after a break. |
| AxumPages.PathHasNoKey | server/src/axum_pages/mod.rs:17-24 | A path and query holds no whitespace, so the key parser never finds a second token. Every viewer of this page is filed under key `"0"`. |
| Lock.LockText | src/lock/mod.rs:13 | The lock text's first line is the pid in decimal. |
| Lock.LockTextRecordsPid | src/lock/mod.rs:13-31 | The lock file a process writes parses back to its pid. |
| Lock.Host.Kill | src/lock/mod.rs:25 | A killed process leaves the process table and nothing else changes. |
| Lock.Host.KillOthers | src/lock/mod.rs:22-27 | The loop over the process table kills exactly the processes named `ustreamer` other than the caller. |
| Lock.Host.AcquireLock | src/lock/mod.rs:9-41 | Kills the other instances only when a lock file exists and its first line parses as `u32`, then writes the pid unless the write fails. |
| Lock.Host.Release | src/lock/mod.rs:43-48 | Dropping the lock removes the file unless removal fails, and kills no one. |
| Lock.NoFileKillsNothing | src/lock/mod.rs:14 | With no lock file nothing is killed. |
| Lock.UnreadableLineKillsNothing | src/lock/mod.rs:18 | A first line that does not parse kills nothing. |
| Lock.EmptyLineKillsNothing | src/lock/mod.rs:16-18 | An empty file, whose first line defaults to `""`, kills nothing. |
| Lock.KillsOnlyOthers | src/lock/mod.rs:23 | The caller never kills itself, and only kills processes named `ustreamer`. |
| Lock.Victims | src/lock/mod.rs:22-27 | The processes named `ustreamer` other than the caller. `KillsOnlyOthers` states it. |
| Lock.Kills | src/lock/mod.rs:13-27 | The victims when the lock file's first line parses as a `u32`, and nobody otherwise. `NoFileKillsNothing`, `UnreadableLineKillsNothing` and `RecordedPidIgnored` state it. |
| Lock.RecordedPidIgnored | src/lock/mod.rs:18-27 | The recorded pid does not choose the victims: any parseable pid kills every other `ustreamer`. |
| Lock.SecondInstanceKillsFirst | src/lock/mod.rs:9-31 | Once one instance has written its lock, a second instance acquiring it kills the first. |
| Lock.AcquireReleaseLeavesNoFile | src/lock/mod.rs:30-48 | Acquiring then dropping the lock leaves no lock file and no other file changed. |
| Converters.Wrap | src/converters/mod.rs:5-11 | `i32` wrap-around gives an `i32` and leaves `i32` values alone. |
| Converters.YuyvToRgb | src/converters/mod.rs:4-13 | `yuyv_to_rgb` with every `i32` operation wrapping and each channel clamped to a byte. `ExactForBytes` ties it to the exact-integer reference, and the lemmas below state its colour properties. |
| Converters.ExactForBytes | src/converters/mod.rs:4-13 | For byte inputs nothing wraps: the pixel function equals the exact-integer reference. |
| Converters.GrayIsNeutral | src/converters/mod.rs:9-12 | Neutral chroma gives a grey pixel. |
| Converters.BlackAndWhite | src/converters/mod.rs:4-13 | Video black (16) maps to 0. Video white (235) maps to 254, one below full white, because of the `>> 9` scale. |
| Converters.GreyClips | src/converters/mod.rs:9-12 | Luma at or below 16 clips to black, and at or above 236 to white. |
| Converters.LumaMonotone | src/converters/mod.rs:9-12 | Raising luma never lowers a channel. |
| Converters.ChromaDirections | src/converters/mod.rs:9-12 | Raising U and V never lowers red or blue and never raises green. |
| Converters.ChromaSeparation | src/converters/mod.rs:9-11 | Red does not depend on U, and blue does not depend on V. |
| Converters.SplitUv | src/converters/mod.rs:49-55 | The de-interleave loop puts byte `area + 2i` in `u_plane[i]` and `area + 2i + 1` in `v_plane[i]`. Interleaving the planes gives back the UV bytes. |
| Converters.InterleaveRestores | src/converters/mod.rs:52-55 | Any pair of planes with those bytes interleaves back to the UV bytes. |
| Converters.Nv12ToPlanar | src/converters/mod.rs:44-72 | The `vec![0u8; width * height * 3]` allocation panics exactly when that `usize` length exceeds `isize::MAX`. Otherwise the Y slice or the UV loop panics exactly when the frame is shorter than the bytes they read, and the `assert_eq` fails exactly when the frame is not `width * height * 15 / 10` bytes. On success the Y plane is the first `width * height` bytes, the U and V planes are the de-interleaved chroma, and the RGB length is the allocated one. |
| Converters.SizesDisagree | src/converters/mod.rs:45-48 | A frame whose `u32` area wraps to 0 still panics in the allocation, and a release-build `usize` product can wrap the RGB length back below the bound. |
| Converters.NominalLengthFits | src/converters/mod.rs:45-68 | Without overflow, the Y plane and both chroma planes fit in the nominal length, and the RGB buffer is allocated without a capacity overflow. |
| Downsampler.Mean4Between | src/converters/downsampler/mod.rs:55-56 | The averaged chroma is the floor of the mean, so it lies between the smallest and the largest of the four samples. |
| Downsampler.Mean4 | src/converters/downsampler/mod.rs:55-56 | The floor mean of four samples; `Mean4Between` states its bounds. |
| Downsampler.RowByte | src/converters/downsampler/mod.rs:43-81 | Output byte `j` of a row pair: the mean of the 2x2 block's component in quality mode, one sample in fast mode. `DownsampleRow` and `FastestDownsampleRow` write it. |
| Downsampler.DownsampleRow | src/converters/downsampler/mod.rs:43-64 | The row loop writes exactly the averaged row into the output and nothing else. |
| Downsampler.FastestDownsampleRow | src/converters/downsampler/mod.rs:66-81 | The row loop writes exactly the picked row into the output and nothing else. |
| Downsampler.UniformRow | src/converters/downsampler/mod.rs:43-81 | A flat chroma patch downsamples to its value in either mode. |
| Downsampler.Nv24FrameIs | src/converters/downsampler/mod.rs:3-9 | The frame the entry accepts has even sizes, a non-zero height and `width * height * 3` bytes. |
| Downsampler.PlaneSizes | src/converters/downsampler/mod.rs:11-13 | The UV plane is `2 * width` bytes a row, and the output chroma is half a Y plane. |
| Downsampler.DownsamplePlane | src/converters/downsampler/mod.rs:15-33 | The frame loop, two UV rows at a time, produces exactly the chroma of every row pair in the selected mode. |
| Downsampler.Downsampled | src/converters/downsampler/mod.rs:1-41 | The NV12 frame: the Y plane, then the chroma of every row pair. `DownsamplePlane`, `Nv24ToNv12` and `OutputShape` state it. |
| Downsampler.Nv24ToNv12 | src/converters/downsampler/mod.rs:1-41 | The output is the input's Y plane followed by the downsampled chroma. |
| Downsampler.OutputShape | src/converters/downsampler/mod.rs:13-40 | The output is `width * height * 3 / 2` bytes and starts with the Y plane. |
| Downsampler.UvRowAt | src/converters/downsampler/mod.rs:17-31 | Byte `k` of UV row `i` is input byte `width * height + i * 2 * width + k`. |
| Downsampler.UniformFrame | src/converters/downsampler/mod.rs:1-41 | A frame with one chroma value keeps its Y plane and sets every output chroma byte to that value. |
| RkMpp.ConvertWithRga | src/rk_mpp/mod.rs:120-138 | Every format gets the same aligned buffer size, and NV12 frames pass through as they are. |
| RkMpp.ConvertWithoutRga | src/rk_mpp/mod.rs:140-158 | The same, with BGR3 going through the CPU converter. |
| RkMpp.AlignedHeightRoundsUp | src/rk_mpp/mod.rs:127 | Without wrap-around, `(height + 15) & !15` is the least multiple of 16 not below `height`. |
| RkMpp.AlignedHeightKeepsMultiples | src/rk_mpp/mod.rs:127 | A multiple of 16 is kept. |
| RkMpp.AlignedHeightWraps | src/rk_mpp/mod.rs:127 | In the last 15 values of `u32` the sum wraps and the aligned height becomes 0, and so does the buffer size. |
| RkMpp.AlignedHeight | src/rk_mpp/mod.rs:127 | `(height + 15) & !15` on `u32`. `AlignedHeightRoundsUp`, `AlignedHeightKeepsMultiples` and `AlignedHeightWraps` state it. |
| RkMpp.FrameSizeExact | src/rk_mpp/mod.rs:127 | Without overflow the size is one and a half bytes per pixel of the aligned frame. |
| RkMpp.FrameSizeCoversFrame | src/rk_mpp/mod.rs:127 | The size covers the NV12 frame. It exceeds it exactly when the width is non-zero and the height is not a multiple of 16. |
| RkMpp.FrameSize | src/rk_mpp/mod.rs:127 | `width * aligned * 3 / 2` on `u32`. `FrameSizeExact` and `FrameSizeCoversFrame` state it. |
| RkMpp.SameSizeEveryFormat | src/rk_mpp/mod.rs:123-135 | The size does not depend on the pixel format. |
| RkMpp.VariantsAgree | src/rk_mpp/mod.rs:120-158 | Both build variants give the same size. They give the same frame unless the RGA and CPU converters differ on BGR3. |

## Left out

- Sockets, accept loops, reconnects, sleeps and intervals: the bytes still to arrive, and whether each write or flush succeeds, are inputs.
- Partial writes: a write either writes everything or fails.
- The readers' read-ahead: each poll wraps the socket in a fresh 8 KiB tokio `BufReader` and drops it at the end of the step (`src/server/img/mod.rs` line 31, `server/src/lib.rs` line 22). Bytes of later frames that arrived together with this one are lost with it, and the reader then loses its place in the frame stream. The model reads straight from the socket, so it keeps them.
- ServerImg.DecodeFrameBytes: "leaves what follows" holds of the modelled socket only; when later frames arrived together with this one, the source's per-poll `BufReader` discards the part of them it had buffered.
- ServerLib.DecodeFrameBytes: "leaves what follows" likewise holds of the modelled socket only, because of the per-poll `BufReader`.
- ServerLib.DecodeFrames: the source reads back concatenated frames in order only when each frame arrives after the previous poll has ended; frames that arrive together are partly discarded by the per-poll `BufReader`.
- ServerImg.DecodeFrame: a length of at most `isize::MAX` that the allocator cannot satisfy aborts the process. Memory is not modelled, so the model goes on to read such a payload.
- ServerLib.DecodeFrame: the same allocation failure aborts the process and is not modelled.
- Clocks are inputs: `Instant`s, whether a second has elapsed, whether a read lock came within its timeout, and the `Date` and `X-Timestamp` strings.
- Concurrency: tasks, channels and `RwLock`s. Each pass sees one cache snapshot.
- `get_client_settings`, `get_client_from_header`, `update_fps_from_header` and `ClientDetails::update_fps` are not defined in the registry file. The results of the lookups are inputs to the stream loops: the settings found, and whether the viewer is found. The writes of `update_fps_from_header(line, fps)` (once a second, under the registry lock) and of `update_fps(30)` (on a fresh frame) are not modelled; the registry clauses below take them to leave the sessions unchanged.
- Viewer.AfterSession: the filed session keeps the fps of 30 it was admitted with; in the source the two fps writes above rewrite it while the session runs.
- Viewer.SessionDeregisters: "otherwise the session stays filed" states the session as admitted, with fps 30; the source's fps writes may have changed that field. A session that broke is removed whole, so that case is exact.
- UnixServer.ServeStream: its `registry.stats` clause does not model the fps writes, so for a session still running or one that panicked the filed fps may differ in the source.
- UnixServer.ConnectionHandler: the `/stream` registry clause inherits ServeStream's gap.
- AxumPages.MjpegPage: its registry clause does not model the fps writes (`server/src/axum_pages/mod.rs` lines 51 and 153).
- ServerOld.ServeOldStream: its registry clause does not model the fps writes (`src/server/mod.rs` lines 338 and 417).
- ServerOld.OldConnectionHandler: the `/stream` registry clause inherits ServeOldStream's gap.
- The `.0/.1` pair the stream routes take from `add_client_from_header` is an input, since that function returns a `String`.
- `generate_id` draws a random id; the id is a parameter.
- `ClientDetails::to_json`, `Clients::to_json`, `streamer_details`, `ustreamer_state` and the `/state` JSON are not modelled. Their text is an opaque input, of which only the framing (Content-Length and body) is modelled.
- `mjpeg_html` reads a file and is left out. So is the duplicate `mjpeg_page` of `server/src/main.rs`.
- The `extra_headers` and `zero_data` settings are read but never used by the loops.
- The turbojpeg worker threads are not modelled. Their results are the completions drained on each call, each submitted index returned once.
- `init_pool` reads the CPU count; it is the constructor's parameter.
- `NEXT` and `CURRENT` are `u32` counters, and their wrap-around after 2^32 jobs is not modelled (the source marks that overflow as a TODO).
- The yuv library calls (`yuyv422_to_rgb`, `yuv_nv12_to_rgb`, `yuv420_to_rgb`), `rk_rga::bgr_to_nv12` and `bgr3_888_to_nv12` are outside this model. Their results are inputs where needed.
- `src/converters/rk_rga/mod.rs` is not part of this model.
- The MPP encoder calls around `convert_to_nv12` are outside this model.
- `unsafe_downsample` and `unsafe_fastest_downsample` are dead code and are not modelled.
- The `conv_factor` test in `src/converters/mod.rs` fails by construction and is not modelled.
- Process enumeration through `sysinfo` is a process-table map, and `kill` is modelled as the process leaving the table at once.
- `read_to_string(...).unwrap()` on an unreadable lock file panics, and that panic is not modelled.
- Logging (`println!`, `eprintln!`) is left out.
- Client.Clients.RemoveClient requires `Valid()` (`clients == |stats|`), which the constructor and every method keep. Without it the `usize` counter could underflow.
- Client.Clients.RemoveClientFromHeader requires `Valid()` for the same reason.
- Downsampler.FastestDownsampleRow requires an even width and both rows to hold `2 * width` bytes. The function has no assert of its own, and a shorter row or odd width panics on an index; the frame loop always passes full rows of an even width.
- Downsampler.DownsampleRow requires an even width. With an odd width the last pass reads past the stride and panics; the frame's asserts make the width even. The row-length requirement is the function's own `assert!`.
- Converters.Nv12ToPlanar models release-build `usize` wrap-around of `width * height * 3`. A debug build panics on that overflow instead. A length at or below `isize::MAX` that the allocator cannot satisfy aborts the process; memory is not modelled.
- Converters.YuyvToRgb models release-build `i32` wrap-around. A debug build would panic on overflow instead, which cannot happen for byte inputs (see `ExactForBytes`).
- Converters.Area and Converters.NominalLength model release-build `u32` wrap-around of `width * height` and `* 15`. A debug build panics on that overflow instead.
- RkMpp.AlignedHeight models release-build `u32` wrap-around of `height + 15`. A debug build panics for the last 15 heights instead of giving 0.
- RkMpp.FrameSize models release-build `u32` wrap-around of `width * aligned * 3`. A debug build panics on that overflow instead.
- The header-write `unwrap` in the Unix and earlier stream routes is modelled as ending the session without its teardown (`Panicked`).
- The metadata block is 512 bytes, as `src/server/img/mod.rs` reads it.
- The relay's `ImageData` with its `skip` field (used by `server/src/main.rs`) is not part of this model. Its fields are taken to be those of `src/server/img/mod.rs` plus `skip`.
