# A verified model of the GUD host driver and the codec bench

The driver sends framebuffers to a USB display as `SET_BUFFER` requests and bulk payloads; the bench
measures reversible pixel transforms, quantisers and temporal codecs for the same frames. This Dafny
project models the parts of both that carry guarantees, one module per component:

| module | models |
|---|---|
| `FrameTransfer` | the transfer loop of the driver: splitting, optional compression, retries, and the device that applies what arrives |
| `TornTransfer` | the same transfers from memory that changes between rectangles |
| `FrameLayout` | framebuffer sizes and ranges, framebuffer creation, transfer capacity, in the widths of the C types |
| `AsyncFlush` | the one-slot mailbox with shadow copy and framebuffer references, and all interleavings of submit, worker and cancel |
| `Reconnect` | the polled reconnect monitor, and all interleavings of arm, poll, cancel and exit |
| `ProbePayload` | the LZ4 probe-payload builder and the block decoder of the quality script |
| `RowCrc` | the bitwise CRC-32 of rows |
| `UpdateMonitor` | what the USB monitor records of the driver's transfers, and its reassembly of split frames |
| `TemporalPolicy`, `TemporalChannel` | the keyframe/delta transport, and its guarantees over whole runs and any channel |
| `Temporal` | the older temporal codecs without sequence numbers |
| `Predictors`, `Transforms`, `TransformBytes` | the nine reversible transforms, their loops, the bytes each writes, and their composition with LZ4 |
| `Quantise` | masking, RGB444 and RGB332 packings, RGB888 |
| `PackBits` | the run-length coder |
| `DamageStream`, `Streams` | the tile-diff damage stream |
| `Fbcb`, `CaptureFile` | its file format, and the whole path from frames through the file back to frames |
| `Bytes`, `Pixels`, `Lz4`, `Arith`, `Sequences` | integer widths, pixels, the LZ4 contract, arithmetic and sequence facts |

Objects whose methods update fields are classes, loops are methods with invariants, and both are proved
against functions; the theorems are about those functions. Concurrency is a transition function over the
critical sections of the code (`Next`) and theorems over every sequence of enabled actions (`Execute`).

## Assumptions

- LZ4 is any pair of deterministic functions with the contract `Lz4.Faithful`: output fits the buffer and
  decodes to the source, and compression succeeds when the buffer holds the bound.
- The LZ4 wrappers of the bench cast `size_t` to `int` (benchmark/tools/fbcodec-bench/src/lz4_util.c:20-21
  and 37-38); inputs and capacities of 2 GiB and more are outside the contract.
- `size_t` has 64 bits; on the wire, `u32` fields are typed, so every field is proved to fit.
- The USB host is any function of everything sent before (`FrameTransfer.Host`). A bulk transfer that
  completes with its full length has reached the device; one that failed may or may not have, in full.
- The frame in memory does not change during a transfer in `FrameTransfer`. The asynchronous worker reads
  a shadow buffer that submissions overwrite meanwhile (backport-4.9/gud_pipe.c:958 and 1055): for memory
  that changes between rectangles the theorems carry over in `TornTransfer`, and `AsyncFlush` says what
  such transfers carry. Within the reading of one rectangle memory stands still.
- A worker whose shadow buffer was freed reads on, if at all, from the buffer allocated next.
- Replaying drops an event that has another number of pixels than its rectangle.
- The monitor sees every attempt of the driver and takes a request as accepted exactly when the driver does.
- The packet channel may lose, repeat and reorder packets, and deliver ones whose payload does not
  decompress to a frame. Sequence numbers are distinct and never the reserved one.
- Work items do not run concurrently with themselves, and the waiting cancellation returns only when
  the work is idle. Nothing is assumed about how the callers overlap.

## Where the code does less than it promises

- The probe builder's payload breaks the rule that the last match starts at least 12 bytes before the end
  (LZ4 Block Format Description, "End of block conditions") for some short payloads: `LastMatchRuleExactly`
  gives the condition, `LastMatchRuleCanFail` an input.
- `tiles_across` adds in 32 bits: frames are covered if and only if neither dimension plus the tile size
  exceeds 2^32 (`StreamAgrees`; `HugeTileMisses` is an input where they are not).
- The FBCB writer counts payload bytes in 32 bits: a stream comes back if and only if every event has
  fewer than 2^32 bytes of pixels (`Fbcb.RoundTrip`; `Fbcb.HugeEventIsCut` is one that does not).
- `temporal_reset` is documented to make the next decode expect a keyframe; the decoder does not look at the
  flag: it goes on as without the reset (`ResetIsIgnored`) and applies a difference to the reference it
  still has, which is right if and only if that is the encoder's (`CorrectIffAgreed`;
  `ResetDecoderShowsWrongFrame` is an input where it is not).
- A cancellation of the flush queue is to leave no transfer with a freed shadow buffer
  (backport-4.9/gud_pipe.c:985-993): it does so unless a submission overlaps the end of its wait
  (`OnlyOverlapsFreeInUse`); `LateSubmissionMatters` and `LateQueueingMatters` are runs where it does not.
- An armed reconnect monitor has a poll coming if and only if no cancellation has ended its wait since it
  was armed (backport-4.9/gud_reconnect.c:199-210; `ArmedIsWatchedIff`), which cannot happen when none was
  waiting at that moment (`ArmedIsWatching`); `OverlapStrandsTheMonitor` is the input.
- A stream survives its file if and only if, besides the conditions on the tiles, there are at most
  2^32 - 1 events and the largest tile has fewer than 2^32 bytes of pixels (`CaptureFile.FileAgrees`).
- The monitor takes the lowest row it saw for the frame height: without a single whole frame it reports
  the longest prefix as one (`ReassemblyInvertsSplit`; `CutOffFrameIsReported` is an input).
- The monitor records a rectangle at its first bulk transfer without looking at the result, so a transfer
  that fails on its last rectangle counts as a frame (`FailedFrameIsReported` is an input). The frames
  reported are those transferred if and only if that does not happen and some transfer succeeded or
  nothing was recorded (`SessionReported`).

## Model

| member | source | states |
|---|---|---|
| FrameTransfer.SuccessIsCopy | backport-4.9/gud_pipe.c:593-871 | a transfer that returns 0 refines a plain copy: against any host, the completed requests tile rows 0..height top down in exactly ceil(height / max_rows) rectangles, and a device that decompresses and draws what reached it holds exactly the frame |
| FrameTransfer.ZeroMeansCopied | backport-4.9/gud_pipe.c:593-871 | in terms of the call: after a return of 0 the device holds exactly the framebuffer's bytes in memory |
| FrameTransfer.FailureIsPrefix | backport-4.9/gud_pipe.c:664-671 | after an error the completed requests tile a proper row prefix of full rectangles, and the device holds exactly that prefix of the frame over its old picture, with the next rectangle as well exactly when its bulk failed and one of the attempts arrived all the same |
| TornTransfer.TornIsComposite | backport-4.9/gud_pipe.c:641-745 | a transfer from changing memory, each rectangle a snapshot of its own, sends exactly what a transfer of the composite frame would |
| TornTransfer.CompositeRectangle | backport-4.9/gud_pipe.c:641-745 | rectangle k of the composite is that of snapshot k |
| TornTransfer.CompositeGrows | backport-4.9/gud_pipe.c:946-958 | the composite grows by one read of the memory of the moment per rectangle, as in the asynchronous worker |
| TornTransfer.TornPicture | backport-4.9/gud_pipe.c:638-841 | in every reachable state of such a transfer: tiling, retry bounds, and a device showing the rows done as each snapshot had them |
| TornTransfer.TornSuccess | backport-4.9/gud_pipe.c:593-871 | after the last row the device holds the composite, in the least number of rectangles |
| FrameTransfer.WireDiscipline | backport-4.9/gud_pipe.c:752-791 | over every run: a payload is that of the rectangle named by the accepted request right before it, or repeats itself after its own -EAGAIN; a request is repeated only after -EBUSY and otherwise follows a completed payload; at most 101 attempts in a row of either kind (one SET_BUFFER attempt in the plain transfer) |
| FrameTransfer.BusyIsRetried | backport-4.9/gud_transfer_retry.h:8-12 | on every run: after a request answered -EBUSY the transfer has stopped if and only if it was one more than its limit of retries in a row (100 by PlanIsExact, none in the plain transfer) |
| FrameTransfer.AgainIsRetried | backport-4.9/gud_pipe.c:780-790 | on every run: after a bulk answered -EAGAIN the transfer has stopped if and only if it was the 101st in a row |
| FrameTransfer.OtherAnswersAreFinal | backport-4.9/gud_pipe.c:752-831 | any other answer but success stops it at once, with that error or -EIO after a short bulk; success never does |
| FrameTransfer.OutcomeIsExplained | backport-4.9/gud_pipe.c:593-871 | a returned error is -ENODEV on a disconnected device, or the answer of the last event, with the number of attempts that answer takes |
| FrameTransfer.PlanIsExact | backport-4.9/gud_pipe.c:620-633 | which error refuses a transfer, in the order of the source, and otherwise the rows per rectangle, the byte budget and the limit of 100 retries as numbers |
| FrameTransfer.PlainPlanIsExact | backport-4.9/gud_pipe.c:1111-1139 | the same for the transfer of the other build, with its 64 KiB and no retry |
| FrameTransfer.PayloadIsShortest | backport-4.9/gud_pipe.c:672-745 | a payload is never longer than the rows or their compression, and the request says which of the two it is, with both lengths |
| FrameTransfer.GudDevice.TransferBuffer | backport-4.9/gud_pipe.c:593-871 | refusals of the plan return their error with no traffic; otherwise the traffic is a word of the automaton, 0 is returned exactly at the last row, and an error is -ENODEV where a rectangle found the device gone, or the last answer on the wire: -EBUSY only after 101 requests answered so, -EAGAIN only after 101 bulks, -EIO for a short bulk, anything else at once; every rectangle sent began with the device present |
| FrameTransfer.GudDevice.SendFrame | backport-4.9/gud_pipe.c:638-841 | the loop over the frame produces only words of the automaton, however the host answers, and begins no rectangle on a disconnected device |
| FrameTransfer.GudDevice.SendRows | backport-4.9/gud_pipe.c:641-643 | each turn sends as many complete rows as the budget and the frame allow and moves the byte offset to the row after them |
| FrameTransfer.GudDevice.SendRectangle | backport-4.9/gud_pipe.c:672-831 | one rectangle: compressed only when that is smaller, raw otherwise; the -EOVERFLOW guard is never taken; a short transfer stops with -EIO |
| FrameTransfer.GudDevice.Ask | backport-4.9/gud_pipe.c:752-768 | the SET_BUFFER loop ends accepted or stopped with the last answer; every attempt but the last was answered -EBUSY, and it gives up on -EBUSY only after its limit of retries |
| FrameTransfer.GudDevice.Push | backport-4.9/gud_pipe.c:780-790 | the bulk loop ends with the whole payload sent, or stopped with the last error or -EIO; every attempt but the last was answered -EAGAIN, and it gives up on that only after 101 attempts |
| FrameTransfer.GudDevice.Exchange | backport-4.9/gud_pipe.c:749-831 | request, then bulk, of one rectangle: nothing is sent once the request has stopped it |
| FrameTransfer.GudDevice.TransferPlain | backport-4.9/gud_pipe.c:1111-1200 | the transfer of the build without full-frame updates: raw chunks of at most 64 KiB and a single SET_BUFFER attempt each, so a first -EBUSY ends it; otherwise the same outcomes and explanations, so the copy and prefix theorems hold for it too |
| FrameTransfer.GudDevice.SendChunks | backport-4.9/gud_pipe.c:1151-1195 | its loop produces only words of that automaton |
| FrameTransfer.PlainPlanIsSound | backport-4.9/gud_pipe.c:1133-1139 | its chunks cover the frame and stay within 64 KiB |
| FrameTransfer.PairsTile | backport-4.9/gud_pipe.c:737-741 | in every reachable state the requests completed so far, read off the wire alone, are full-width rectangles one below the other down to the row reached |
| FrameTransfer.RetriesCounted | backport-4.9/gud_transfer_retry.h:4-12 | in every reachable state the requests in a row at the end are counted by the retry counter, which stays within its limit |
| FrameTransfer.PictureOfRun | backport-4.9/gud_pipe.c:693-741 | in every reachable state the device shows the rows done, and the rectangle under way exactly when one of its payloads has arrived |
| FrameTransfer.DrawPaints | backport-4.9/gud_pipe.c:737-745 | drawing the payload of a rectangle at the place its request names, once or twice, puts exactly its rows of the frame on the picture; every request field matters |
| FrameTransfer.PlanIsSound | backport-4.9/gud_pipe.c:620-633 | a plan covers the frame exactly and no rectangle of it exceeds the byte budget |
| FrameTransfer.OnlyLayoutRefuses | backport-4.9/gud_pipe.c:387-437 | once the buffers are set up, widths up to max_width are refused only by the layout: the -E2BIG and no-row exits are unreachable |
| FrameLayout.LayoutIsExact | backport-4.9/gud_frame_layout.h:31-50 | nothing wraps: the layout is the exact row and frame size; -EINVAL exactly for empty or unsupported frames, -EOVERFLOW exactly beyond 2^32 - 1 bytes |
| FrameLayout.RangeIsExact | backport-4.9/gud_frame_layout.h:53-60 | the range is accepted if and only if its end does not pass the mapping, without 64-bit wrap; otherwise -EINVAL |
| FrameLayout.FbCreateAccepts | backport-4.9/gud_pipe.c:1234-1273 | framebuffer creation accepts exactly the single-plane linear commands whose last row ends inside the object, with -ENOENT exactly where the handle is unknown; its wrap-around tests never decide |
| FrameLayout.AcceptedIsInRange | backport-4.9/gud_pipe.c:1318-1321 | an accepted framebuffer with the tight pitch and a layout always passes range validation and every row lies in the mapping; its layout fails only beyond 4 GiB |
| FrameLayout.BudgetIsExact | backport-4.9/gud_pipe.c:387-403 | setting up the buffers fails with -EINVAL exactly for a limit out of range, or a height of 0 under a width that fits, and with -E2BIG exactly where a full row exceeds the limit; otherwise the budget is the smaller of the limit and the whole frame, without 64-bit wrap |
| FrameLayout.RectanglesFit | backport-4.9/gud_pipe.c:627-643 | with that budget at least one row always fits, never more than the frame has, and every rectangle stays within the budget |
| FrameLayout.MaxRowsIsMost | backport-4.9/gud_pipe.c:630-633 | the rows of a rectangle are the most that fit the budget and the frame |
| AsyncFlush.FlushQueue.QueueDamage | backport-4.9/gud_pipe.c:1007-1083 | the submission: error order layout, mapping, range, then -ENODEV exactly when stopping and -EINVAL exactly with a live shadow buffer of another length, whatever the slot holds; an error changes nothing; success copies the whole frame, takes a reference only for a new framebuffer and hands back the displaced one |
| AsyncFlush.FlushQueue.TakeFb | backport-4.9/gud_pipe.c:946-953 | the worker takes the slot and leaves the shadow buffer alone |
| AsyncFlush.FlushQueue.Empty | backport-4.9/gud_pipe.c:986-993 | cancellation takes the slot and frees the shadow buffer |
| AsyncFlush.FlushQueue.SetStopping | backport-4.9/gud_pipe.c:1001-1003 | stopping only sets the flag |
| AsyncFlush.AlwaysBalanced | backport-4.9/gud_pipe.c:934-1083 | in every interleaving, for every framebuffer: references taken are those dropped plus those of the slot, the worker, and callers between taking a framebuffer out of the slot and dropping it |
| AsyncFlush.AlwaysAttended | backport-4.9/gud_pipe.c:934-1083 | in every interleaving a non-null slot has a live shadow buffer of its layout length, and is never forgotten: the work is queued or started, a submission is about to queue it, or a cancellation is about to empty the slot |
| AsyncFlush.NothingLeaks | backport-4.9/gud_pipe.c:934-1083 | once every caller has returned and the work is at rest, the slot is empty and every reference taken has been dropped exactly once |
| AsyncFlush.StopIsFinal | backport-4.9/gud_pipe.c:999-1005 | after the flag is set and a cancellation has waited, with no submission on its way to queue_work, no transfer ever starts again, whatever is called; and once the slot has been emptied, slot and shadow buffer stay gone |
| AsyncFlush.NewestWins | backport-4.9/gud_pipe.c:934-1083 | in every interleaving: at rest, with a welcome submission since the last cancellation, the slot is empty and the last transfer started after the final one of them and carried a prefix of exactly that frame, all of it on success, although transfers may read mixtures and the worker may act between a submission's unlock and its queue_work; welcome is told from the calls alone: stopping has not been set and no shadow buffer of another length is live |
| AsyncFlush.RefusalIsExact | backport-4.9/gud_pipe.c:1036-1054 | in every interleaving a submission is refused if and only if stopping has been set, with -ENODEV, or a shadow buffer of another length has been set up since the latest cancellation, with -EINVAL |
| AsyncFlush.ChecksAreExact | backport-4.9/gud_pipe.c:1020-1032 | which of the errors before the lock is returned, in plain arithmetic |
| AsyncFlush.CallsGoOn | backport-4.9/gud_pipe.c:934-1083 | in every interleaving the calls under way are those begun less those gone on: each welcome submission queues the work once, each stop cancels once, each cancellation locks once |
| AsyncFlush.CanAlwaysBeCarried | backport-4.9/gud_pipe.c:934-1083 | from every reachable state a run leads on in which a welcome submission is transferred whole |
| AsyncFlush.ShadowOutlivesTransfer | backport-4.9/gud_pipe.c:946-958 | in every interleaving: until a cancellation frees it, a transfer has a live shadow buffer of its framebuffer's size |
| AsyncFlush.OnlyOverlapsFreeInUse | backport-4.9/gud_pipe.c:981-997 | in every interleaving: a cancellation about to free the buffer finds no transfer under way or coming, unless a submission succeeded since the latest wait or stood before its queue_work when that ended |
| AsyncFlush.LateSubmissionMatters | backport-4.9/gud_pipe.c:985-993 | from any state with the work idle, a submission that succeeds between the wait and the lock of a cancellation loses its buffer while in use |
| AsyncFlush.LateQueueingMatters | backport-4.9/gud_pipe.c:1069-1074 | and so does one that queues its work only after the cancellation has waited |
| Reconnect.RootChild | backport-4.9/gud_reconnect.c:29-38 | the walk up the device tree ends at the ancestor plugged into the root hub: its port is the first of the path |
| Reconnect.ReconnectMonitor.Work | backport-4.9/gud_reconnect.c:71-105 | one poll: the whole new state, who is finished, whether to notify, time out or schedule again; an occupied port is bit 0 of the status |
| Reconnect.ReconnectMonitor.Arm | backport-4.9/gud_reconnect.c:168-180 | arming happens exactly when idle and not stopping, and starts the counters afresh |
| Reconnect.ReconnectMonitor.Cancel | backport-4.9/gud_reconnect.c:199-205 | cancelling takes the controller exactly when controller and port match |
| Reconnect.ReconnectMonitor.Exit | backport-4.9/gud_reconnect.c:144-148 | exit takes whatever is armed and forbids arming |
| Reconnect.ArmedAsAsked | backport-4.9/gud_reconnect.c:168-180 | in every interleaving what is armed is the controller and the port of the last arm that armed |
| Reconnect.CancelIsExact | backport-4.9/gud_reconnect.c:199-210 | in every interleaving a cancellation disarms exactly the session armed for its controller and its port; any other changes nothing |
| Reconnect.AlwaysBalanced | backport-4.9/gud_reconnect.c:59-214 | in every interleaving, for every controller: references acquired are those released plus those of the monitor, the worker, and callers on their way to releasing what their own lock step took |
| Reconnect.OnlyTheArmedIsLeft | backport-4.9/gud_reconnect.c:140-214 | with no caller under way and the worker idle, every reference but the armed one has been released exactly once |
| Reconnect.NothingLeaks | backport-4.9/gud_reconnect.c:140-153 | after exit, once every caller has returned, none is left |
| Reconnect.ExitCanEnd | backport-4.9/gud_reconnect.c:140-214 | from every reachable state, whoever is under way, an exit can come to its end with everything released |
| Reconnect.NotifiesIffRecovered | backport-4.9/gud_reconnect.c:75-98 | a poll notifies if and only if its session saw the port empty and the latest 15 polls all succeeded and saw it occupied; it ends the session exactly then or at poll 6000 |
| Reconnect.RecoveryCanBeSeen | backport-4.9/gud_reconnect.c:59-181 | from every reachable state in which the monitor can be armed, a session can end in the recovery signal |
| Reconnect.AlwaysHonest | backport-4.9/gud_reconnect.c:59-186 | in every interleaving: at most one recovery signal per arm, only after such a session; at most 6000 polls per session; nothing armed once stopping |
| Reconnect.NothingAfterExit | backport-4.9/gud_reconnect.c:140-153 | after exit has waited, nothing is armed, pending or running, for ever |
| Reconnect.ArmedIsWatchedIff | backport-4.9/gud_reconnect.c:155-214 | in every interleaving an armed monitor has a poll pending or about to run if and only if no cancellation has ended its wait since it was armed |
| Reconnect.ArmedIsWatching | backport-4.9/gud_reconnect.c:155-181 | a session armed while no cancellation was waiting always has one, whatever comes before or after |
| Reconnect.OverlapStrandsTheMonitor | backport-4.9/gud_reconnect.c:199-210 | from any armed idle state, an arm inside a cancellation leaves the monitor armed with no poll coming |
| ProbePayload.BuildProbePayload | backport-4.9/gud_pipe.c:486-531 | returns 0 if and only if some usable literal count encodes to the length within the limits; then it wrote exactly that many bytes, which decode to raw_length zeros, and nothing beyond; otherwise nothing was written |
| ProbePayload.ProbeRoundTrip | backport-4.9/gud_pipe.c:494-528 | the payload decodes to exactly raw_length zero bytes and ends in five literals |
| ProbePayload.Lz4Decompress | benchmark/scripts/quality_eval.py:81-116 | the decoder's index loop computes the decoding function, with an error exactly where the script would index past the end |
| ProbePayload.DecodeSequence | benchmark/scripts/quality_eval.py:90-115 | one pass of its loop consumes one token, its literals and its match |
| ProbePayload.CopyMatchLoop | benchmark/scripts/quality_eval.py:113-115 | the byte-by-byte match copy, overlapping its own output, with negative indices counting from the end |
| ProbePayload.CopyIsExact | benchmark/scripts/quality_eval.py:113-115 | for any bytes, start and count: the copy fails exactly when an index is out of range, and otherwise appends exactly count bytes, byte i equal to the byte its index names in the result |
| ProbePayload.MatchRepeats | benchmark/scripts/quality_eval.py:113-115 | for 0 < offset <= |out| the copy extends the output by exactly the match length, and every new byte i equals byte i - offset of the result |
| ProbePayload.SequenceDecodes | benchmark/scripts/quality_eval.py:90-115 | one encoded sequence of any literals, offset and match length decodes to what it denotes |
| ProbePayload.BlockDecodes | benchmark/scripts/quality_eval.py:88-116 | for any list of sequences ending in literals, decoding the encoded block gives exactly the bytes those sequences denote |
| ProbePayload.BlockDecompresses | benchmark/scripts/quality_eval.py:81-116 | the same through the whole function, cut to the length asked for |
| ProbePayload.SequenceCut | benchmark/scripts/quality_eval.py:88-116 | what the decoder makes of every proper prefix of a sequence: the literals that are there, or an error |
| ProbePayload.PayloadIsBlock | backport-4.9/gud_pipe.c:494-528 | the payload of the builder is the encoded block of one sequence and its last literals |
| ProbePayload.ReadLengthUndoes | backport-4.9/gud_pipe.c:511-515 | reading a length undoes writing it, for both bases |
| ProbePayload.SizeStep | backport-4.9/gud_pipe.c:496-505 | one more literal costs between nothing and two bytes |
| ProbePayload.SizeMonotone | backport-4.9/gud_pipe.c:496-505 | the encoded size grows with the literal count |
| ProbePayload.NeighbourIsConstructible | backport-4.9/gud_pipe.c:494-530 | from the smallest encoding up to raw_length, a length or the one below it is constructible |
| ProbePayload.NothingBelowSmallest | backport-4.9/gud_pipe.c:494-530 | nothing shorter than the encoding with four literals is constructible |
| ProbePayload.LastMatchRuleExactly | backport-4.9/gud_pipe.c:481-485 | when the last match starts at least 12 bytes before the end, exactly, in terms of the two lengths; always from 270 literals on |
| ProbePayload.LastMatchRuleCanFail | backport-4.9/gud_pipe.c:494-530 | raw length 26 and payload length 25 break that rule |
| RowCrc.RowCrc32 | backport-4.9/gud_pipe.c:94-109 | the byte and bit loops compute the CRC function |
| RowCrc.BurstDetected | backport-4.9/gud_pipe.c:94-109 | rows of equal length that differ, and only within four consecutive bytes, have different CRCs (CRC-32 of RFC 1952, section 8) |
| RowCrc.CheckValue | backport-4.9/gud_pipe.c:94-109 | the checksum of "123456789" is 0xcbf43926, the check value of the CRC-32 of RFC 1952 |
| RowCrc.CrcLinear | backport-4.9/gud_pipe.c:94-109 | crc(a) xor crc(b) xor crc(c) is crc(a xor b xor c) for equal lengths |
| RowCrc.BurstChangesRegister | backport-4.9/gud_pipe.c:94-106 | the same over any machine whose byte step is injective and loads its low byte |
| UpdateMonitor.Stats.Add | tools/monitor.py:785-799 | the maxima are the right and bottom edges of all updates |
| UpdateMonitor.Stats.Full | tools/monitor.py:801-836 | the merging loop computes the scan, including the merged entry's mean ratio and last end |
| UpdateMonitor.ScanIsExact | tools/monitor.py:801-836 | for any updates at all: an update adds an entry if and only if it closes a column of full-width pieces, from row 0 down without a gap, at the last row, merged from exactly that column; what is kept meanwhile is the one open column the updates end in |
| UpdateMonitor.MergedIsWhole | tools/monitor.py:828-834 | an entry covers the screen from the start of the first piece to the end of the last, with a ratio between the extremes |
| UpdateMonitor.MeanIsFair | tools/monitor.py:831 | the ratio of an entry weighs every piece alike |
| UpdateMonitor.ExtentIsLeast | tools/monitor.py:787-792 | the recorded size is the least that holds every rectangle seen |
| UpdateMonitor.ReassemblyInvertsSplit | tools/monitor.py:801-836 | for any stream of same-size frames, each split and possibly cut off after some rows, exactly one entry per whole frame, in order, if and only if some frame is whole or nothing was transferred |
| UpdateMonitor.ScanFrame | tools/monitor.py:806-834 | the pieces of a frame, after anything else, are collected and merged when complete |
| UpdateMonitor.MonitorWire | tools/monitor.py:934-997 | the monitor's loop computes what is recorded: each accepted request, at the first bulk transfer after it |
| UpdateMonitor.RecordedTile | tools/monitor.py:981-994 | in every reachable state of the driver the recorded requests tile the rows done, and the rectangle whose bulk has been attempted |
| UpdateMonitor.TransferIsFrame | tools/monitor.py:967-997 | what the monitor records of a transfer is a frame split from the top, whole if and only if the transfer returned 0 or stopped at a bulk of its last rectangle |
| UpdateMonitor.WireIsHeard | tools/monitor.py:934-997 | what is recorded of a whole session is what is recorded of its calls one after the other: no call leaves a request waiting |
| UpdateMonitor.SessionReported | tools/monitor.py:801-836 | for any session of calls of one frame size, the full frames reported are exactly those whose transfer returned 0, in order, if and only if no call failed at a bulk of its last rectangle and some call returned 0 or nothing was recorded |
| UpdateMonitor.FailedFrameIsReported | tools/monitor.py:981-994 | a transfer that failed with -ETIMEDOUT is reported as a full frame |
| UpdateMonitor.CutOffFrameIsReported | tools/monitor.py:801-836 | two rows of an eight-row frame are reported as a full frame |
| TemporalPolicy.Encoder.EncodeFrame | benchmark/tools/fbcodec-bench/src/transforms/temporal_policy.c:86-217 | the encoder's whole new state and packet, for both policies, forced keyframes and failed compression |
| TemporalPolicy.Decoder.DecodeFrame | benchmark/tools/fbcodec-bench/src/transforms/temporal_policy.c:219-252 | status, new state and frame; every error leaves the decoder untouched |
| TemporalPolicy.Encoder.ForceKeyframe | benchmark/tools/fbcodec-bench/src/transforms/temporal_policy.c:43-46 | sets the force flag and nothing else |
| TemporalPolicy.Decoder.Reset | benchmark/tools/fbcodec-bench/src/transforms/temporal_policy.c:74-79 | forgets the number and blanks the reference |
| TemporalChannel.ChannelSafety | benchmark/tools/fbcodec-bench/src/transforms/temporal_policy.c:86-252 | for every interleaving of encoding, forcing, resetting, loss, duplication, reordering and damage: a frame accepted for number s is the frame encoded as s, and the decoder's reference is the frame of its last number |
| TemporalChannel.AcceptanceIsExact | benchmark/tools/fbcodec-bench/src/transforms/temporal_policy.c:231-251 | in every reachable state exactly the keyframes and the deltas whose base the decoder shows are accepted; damaged payloads never; a rejection changes nothing |
| TemporalChannel.AnswersAreExact | benchmark/tools/fbcodec-bench/src/transforms/temporal_policy.c:219-252 | over every run of the channel, told from the log of answers alone: a delta is answered NeedKeyframe if and only if nothing was accepted since the start or the last reset, ReferenceMismatch if and only if something was and its number is not the base, a damaged packet past both tests Corrupt; everything else is accepted with the frame encoded |
| TemporalChannel.SentPixels | benchmark/tools/fbcodec-bench/src/transforms/temporal_policy.c:105-217 | over every run: what each packet decompresses to, pixel by pixel: the frame encoded under its number, for a delta exclusive-or the frame encoded under its base |
| TemporalChannel.SentChain | benchmark/tools/fbcodec-bench/src/transforms/temporal_policy.c:86-217 | over every run: the packets sent form a chain, each delta on the number of the packet sent right before it, each keyframe on none |
| TemporalChannel.AdaptiveBeatsAnyChoice | benchmark/tools/fbcodec-bench/src/transforms/temporal_policy.c:105-216 | an adaptive run costs no more bytes than any choice of types frame by frame |
| TemporalChannel.AdaptiveIsOptimal | benchmark/tools/fbcodec-bench/src/transforms/temporal_policy.c:105-216 | in particular no more than any fixed-interval run, interval 0 included, over the same frames and forced keyframes |
| TemporalChannel.AdaptiveSendsShorter | benchmark/tools/fbcodec-bench/src/transforms/temporal_policy.c:105-157 | what is sent is the shorter of the two compressions, the keyframe on a tie |
| TemporalChannel.FixedPolicyIsExact | benchmark/tools/fbcodec-bench/src/transforms/temporal_policy.c:86-157 | under the fixed policy a keyframe is sent exactly when forced, at the start, or at multiples of a nonzero interval |
| TemporalChannel.FailureForgetsForce | benchmark/tools/fbcodec-bench/src/transforms/temporal_policy.c:86-217 | under either policy a failed call sends nothing and changes nothing but the force flag, which it clears; a forced frame that does not compress fails |
| TemporalChannel.SelfStabilises | benchmark/tools/fbcodec-bench/src/transforms/temporal_policy.c:105-157 | from arbitrary states, consecutive numbers and interval N > 0 bring a keyframe after at most N - 1 frames, and everything from it on decodes exactly |
| TemporalChannel.KeyframeResynchronises | benchmark/tools/fbcodec-bench/src/transforms/temporal_policy.c:231-251 | from any decoder state a keyframe and everything after it decode exactly |
| TemporalChannel.ForcedKeyframeResynchronises | benchmark/tools/fbcodec-bench/src/transforms/temporal_policy.c:43-46 | a forced keyframe does so on the very next frame, under either policy |
| Temporal.TemporalContext.EncodeFrame | benchmark/tools/fbcodec-bench/src/transforms/temporal.c:59-122 | the new context and record; an error leaves the context alone |
| Temporal.TemporalContext.DecodeFrame | benchmark/tools/fbcodec-bench/src/transforms/temporal.c:124-168 | the new context and frame, or no change |
| Temporal.RecordIs | benchmark/tools/fbcodec-bench/src/transforms/temporal.c:59-122 | the record pixel by pixel: header 1 and the wanted pixel in a keyframe, header 0 and the difference or exclusive-or with the reference otherwise; whole frames come first and at multiples of a nonzero interval |
| Temporal.DecodingIs | benchmark/tools/fbcodec-bench/src/transforms/temporal.c:124-168 | which records are refused, and what a record shows, pixel by pixel |
| Temporal.TemporalContext.Reset | benchmark/tools/fbcodec-bench/src/transforms/temporal.c:39-43 | clears the flag and the index and keeps the reference |
| Temporal.TemporalContext.IsKeyframeDue | benchmark/tools/fbcodec-bench/src/transforms/temporal.c:50-57 | a keyframe without a reference, at multiples of a nonzero interval, and otherwise not |
| Temporal.DriftOfRun | benchmark/tools/fbcodec-bench/src/transforms/temporal.c:80-115 | over any run delivered in order: exact from the first keyframe on; until then decoded minus target (or xor) equals the initial reference mismatch, pixel by pixel |
| Temporal.CorrectIffAgreed | benchmark/tools/fbcodec-bench/src/transforms/temporal.c:124-168 | a frame is right if and only if a keyframe has passed or the references agreed from the start |
| Temporal.NoAccumulation | benchmark/tools/fbcodec-bench/src/transforms/temporal.c:59-168 | from a fresh or reset encoder every frame is reconstructed, exactly in the lossless modes and within one per channel in the quantised mode, however long the run |
| Temporal.ResetIsIgnored | benchmark/tools/fbcodec-bench/src/transforms/temporal.c:39-43 | for any packets, a reset decoder accepts the same ones and shows the same frames as without the reset |
| Temporal.ResetDecoderShowsWrongFrame | benchmark/tools/fbcodec-bench/src/transforms/temporal.c:124-168 | from fresh contexts and any faithful codec: keyframe delivered, difference lost, decoder reset, and the next difference is accepted and shown wrong |
| Temporal.FrameArrives | benchmark/tools/fbcodec-bench/src/transforms/temporal.c:80-164 | one frame from encoder to decoder, with room for the bound: never an error, and either exact or off by the mismatch |
| Predictors.RestoreResiduals | benchmark/tools/fbcodec-bench/src/transforms/predict.c:168-214 | inverse after forward is the identity for any reversible rule, row length and image, although the inverse reads only what it has rebuilt |
| Predictors.ResidualsOfRestored | benchmark/tools/fbcodec-bench/src/transforms/predict.c:168-214 | forward after inverse is the identity |
| Predictors.RulesReversible | benchmark/tools/fbcodec-bench/src/transforms/predict.c:20-489 | the eight neighbour rules are reversible, with wrap-around bytes and pixels and masked channels |
| Predictors.PaethIsNearest | benchmark/tools/fbcodec-bench/src/transforms/predict.c:154-166 | the Paeth predictor is the neighbour nearest to left + up - upper left, in that order of preference |
| Predictors.MedIsMedian | benchmark/tools/fbcodec-bench/src/transforms/predict.c:284-294 | the edge detector is the median of left, up and left + up - upper left |
| Predictors.PackUnpack | benchmark/tools/fbcodec-bench/src/common.h:59-72 | packing the three channels of a pixel gives the pixel |
| Transforms.TransformBijective | benchmark/tools/fbcodec-bench/src/transforms/predict.c:529-539 | each of the nine transforms is a bijection, for every width and frame |
| TransformBytes.SubByteWrites | benchmark/tools/fbcodec-bench/src/transforms/predict.c:20-60 | byte j of the output is the byte less the byte two before it in its row, modulo 256; the first two of a row stand as they are |
| TransformBytes.U16SubWrites | benchmark/tools/fbcodec-bench/src/transforms/predict.c:62-102 | word i is the pixel less the one before it in its row, modulo 65536, or the pixel itself at a row's start |
| TransformBytes.U16XorWrites | benchmark/tools/fbcodec-bench/src/transforms/predict.c:108-150 | the same with exclusive-or |
| TransformBytes.ChannelSubWrites | benchmark/tools/fbcodec-bench/src/transforms/predict.c:387-437 | each of the three channels is the difference modulo its width |
| TransformBytes.ChannelXorWrites | benchmark/tools/fbcodec-bench/src/transforms/predict.c:439-489 | each of the three channels is the exclusive-or |
| TransformBytes.PaethByteWrites | benchmark/tools/fbcodec-bench/src/transforms/predict.c:154-214 | byte j plus a neighbour nearest to left + up - upper left, ties in that order, is the byte of the frame |
| TransformBytes.PaethPixelWrites | benchmark/tools/fbcodec-bench/src/transforms/predict.c:220-280 | the same for whole pixels |
| TransformBytes.MedWrites | benchmark/tools/fbcodec-bench/src/transforms/predict.c:284-385 | in every channel what was subtracted, within the channel's bits, is the median of left, up and left + up - upper left |
| TransformBytes.ShuffleWrites | benchmark/tools/fbcodec-bench/src/transforms/predict.c:495-523 | the low byte of pixel j, and after all of them the high bytes |
| TransformBytes.ChannelsAre | benchmark/tools/fbcodec-bench/src/common.h:59-72 | the channels of a pixel are its bits 11 to 15, 5 to 10 and 0 to 4 |
| Transforms.ForwardElements | benchmark/tools/fbcodec-bench/src/transforms/predict.c:168-190 | the nested loops over rows and columns write the residual image |
| Transforms.InverseElements | benchmark/tools/fbcodec-bench/src/transforms/predict.c:192-214 | the in-place loops rebuild the image from the residuals |
| Transforms.LeftRules | benchmark/tools/fbcodec-bench/src/transforms/predict.c:62-489 | four of the rules depend on nothing but the pixel to the left, so the loops with a running left neighbour apply to them |
| Transforms.ForwardRunning | benchmark/tools/fbcodec-bench/src/transforms/predict.c:62-81 | the loops with a running left neighbour compute the same residuals |
| Transforms.InverseRunning | benchmark/tools/fbcodec-bench/src/transforms/predict.c:83-102 | their inverses rebuild the same image |
| Transforms.ShuffleForward | benchmark/tools/fbcodec-bench/src/transforms/predict.c:495-508 | low bytes first, then high bytes |
| Transforms.ShuffleInverse | benchmark/tools/fbcodec-bench/src/transforms/predict.c:510-523 | and back |
| Transforms.OneStepRoundTrip | benchmark/tools/fbcodec-bench/src/codecs/generic_lz4_codec.c:30-64 | one transform and LZ4: decoding gives exactly what the transform keeps, the frame itself for a predictor |
| Transforms.TwoStepRoundTrip | benchmark/tools/fbcodec-bench/src/codecs/generic_lz4_codec.c:66-116 | quantise-then-predict codecs decode to exactly the quantised frame |
| Transforms.EncodersSucceed | benchmark/tools/fbcodec-bench/src/codecs/generic_lz4_codec.c:7-10 | with a buffer of the bound neither encoder fails |
| Transforms.OneStepSends | benchmark/tools/fbcodec-bench/src/codecs/generic_lz4_codec.c:30-46 | the payload decompresses to the bytes of the named transform, or of the quantised frame |
| Transforms.TwoStepSends | benchmark/tools/fbcodec-bench/src/codecs/generic_lz4_codec.c:66-91 | of a quantiser and a transform, to the bytes of the transform of the quantised frame |
| Transforms.AnyPayload | benchmark/tools/fbcodec-bench/src/codecs/generic_lz4_codec.c:46-64 | any payload, from this encoder or not, is decoded if and only if it decompresses to the bytes of a frame, and then to the frame whose transform has those bytes |
| Lz4.CompressUndone | benchmark/tools/fbcodec-bench/src/lz4_util.c:13-42 | through the wrappers, empty input included, decompression undoes compression |
| Lz4.CompressSucceeds | benchmark/tools/fbcodec-bench/src/lz4_util.c:4-25 | compression into the bound succeeds |
| Quantise.QuantiseMild | benchmark/tools/fbcodec-bench/src/transforms/quant.c:31-47 | the loop masks every channel of every pixel |
| Quantise.QuantiseModerate | benchmark/tools/fbcodec-bench/src/transforms/quant.c:49-65 | the same with four bits per channel |
| Quantise.MildIsClose | benchmark/tools/fbcodec-bench/src/transforms/quant.c:19-47 | mild quantisation moves no channel by more than one |
| Quantise.MildMasks | benchmark/tools/fbcodec-bench/src/transforms/quant.c:19-47 | mild quantisation clears the lowest bit of red, the lowest of green and the lowest of blue, and no other |
| Quantise.ModerateMasks | benchmark/tools/fbcodec-bench/src/transforms/quant.c:49-65 | moderate quantisation keeps exactly the four highest bits of each channel |
| Quantise.MildFrameMasks | benchmark/tools/fbcodec-bench/src/transforms/quant.c:31-47 | a mildly quantised frame is masked so pixel by pixel, in place |
| Quantise.ModerateFrameMasks | benchmark/tools/fbcodec-bench/src/transforms/quant.c:49-65 | and so is a moderately quantised one |
| Quantise.ModerateIsClose | benchmark/tools/fbcodec-bench/src/transforms/quant.c:49-65 | and moves the channels by at most 1, 3 and 1 |
| Quantise.PackRgb444 | benchmark/tools/fbcodec-bench/src/transforms/quant.c:107-134 | the packing loop writes 3 * ceil(n / 2) bytes, the last pixel of an odd frame completed with zero |
| Quantise.UnpackRgb444 | benchmark/tools/fbcodec-bench/src/transforms/quant.c:136-160 | the unpacking loop expands every stored value |
| Quantise.RepackRgb444 | benchmark/tools/fbcodec-bench/src/transforms/quant.c:107-160 | packing what was unpacked gives back every well-formed buffer, odd pixel counts included |
| Quantise.PackedRgb444 | benchmark/tools/fbcodec-bench/src/transforms/quant.c:84-160 | packed frames are well formed and unpack to every pixel within 1, 3 and 1 per channel |
| Quantise.To444Bits | benchmark/tools/fbcodec-bench/src/transforms/quant.c:84-105 | the stored value holds the four highest bits of red, green and blue in that order |
| Quantise.PackedOrder444 | benchmark/tools/fbcodec-bench/src/transforms/quant.c:107-134 | the three bytes of a pair are its two stored values one after the other, highest bits first |
| Quantise.PackRgb332 | benchmark/tools/fbcodec-bench/src/transforms/quant.c:171-187 | one byte a pixel |
| Quantise.UnpackRgb332 | benchmark/tools/fbcodec-bench/src/transforms/quant.c:189-207 | and its expansion |
| Quantise.Rgb332Retraction | benchmark/tools/fbcodec-bench/src/transforms/quant.c:171-207 | packing what was unpacked gives back every byte string, and frames come back within 3, 7 and 7 per channel |
| Quantise.To332Bits | benchmark/tools/fbcodec-bench/src/transforms/quant.c:171-187 | the byte holds three bits of red, three of green and two of blue, from the top |
| Quantise.Rgb888RoundTrip | benchmark/tools/fbcodec-bench/src/common.h:67-103 | a pixel survives expansion to 8 bits per channel and back; the other way costs at most 7, 3 and 7 |
| Quantise.FromRgb888Bits | benchmark/tools/fbcodec-bench/src/common.h:99-103 | a pixel takes the highest 5, 6 and 5 bits |
| Quantise.FullScale | benchmark/tools/fbcodec-bench/src/common.h:79-97 | every expansion takes nothing to nothing and full scale to full scale |
| Quantise.ExpansionsGrow | benchmark/tools/fbcodec-bench/src/common.h:79-97 | and grows with its argument |
| PackBits.RleEncode | benchmark/tools/fbcodec-bench/src/transforms/rle.c:12-63 | encodes into the buffer and fails exactly when the encoding does not fit |
| PackBits.RleDecode | benchmark/tools/fbcodec-bench/src/transforms/rle.c:65-107 | terminates in bounds on arbitrary input, and gives the decoding or fails exactly when there is none that fits |
| PackBits.RoundTrip | benchmark/tools/fbcodec-bench/src/transforms/rle.c:12-107 | decoding an encoding gives the bytes back, for every byte string (TIFF 6.0, section 9) |
| PackBits.NoReservedControl | benchmark/tools/fbcodec-bench/src/transforms/rle.c:12-63 | the encoder never emits control byte 128 |
| PackBits.SizeBound | benchmark/tools/fbcodec-bench/src/transforms/rle.c:3-10 | the output has at most n + (n + 2) / 3 bytes, so rle_bound always suffices |
| PackBits.GroupsAreGreedy | benchmark/tools/fbcodec-bench/src/transforms/rle.c:12-63 | where a byte equals its successor the encoder emits the longest run up to 128, as count and byte; elsewhere the longest stretch up to 128 without a repeat, as length and bytes |
| PackBits.RunSize | benchmark/tools/fbcodec-bench/src/transforms/rle.c:12-63 | n equal bytes are encoded in two bytes for every 128, so runs are found |
| PackBits.GroupsDecode | benchmark/tools/fbcodec-bench/src/transforms/rle.c:65-107 | any sequence of groups, of this encoder or another, the reserved control byte included, decodes to what they denote when the buffer holds it and fails when it does not (TIFF 6.0, section 9) |
| PackBits.GroupCut | benchmark/tools/fbcodec-bench/src/transforms/rle.c:65-107 | a group cut short is refused |
| DamageStream.MakeDamageStream | benchmark/tools/fbcodec-bench/src/corpus/capture.c:50-143 | the frame, tile-row and tile loops build exactly the stream, within the allocated number of events; only an empty frame list fails |
| DamageStream.StreamAgrees | benchmark/tools/fbcodec-bench/src/corpus/capture.c:45-143 | for up to 2^32 frames, replaying the events with numbers up to f onto any canvas gives exactly frame f, if and only if neither dimension plus the tile exceeds 2^32 |
| DamageStream.HugeTileMisses | benchmark/tools/fbcodec-bench/src/corpus/capture.c:45-48 | two pixels and a tile of 2^32 - 1, which are never drawn |
| DamageStream.EmptyAgrees | benchmark/tools/fbcodec-bench/src/corpus/capture.c:45-143 | frames without pixels agree always |
| DamageStream.EmittedIffChanged | benchmark/tools/fbcodec-bench/src/corpus/capture.c:86-107 | the first frame emits every tile, a later frame a tile if and only if one of its pixels changed |
| DamageStream.EventsAreTimed | benchmark/tools/fbcodec-bench/src/corpus/capture.c:108-141 | every event carries the number of its frame, that times the interval modulo 2^64, a tile of the grid inside the frame, and the frame's pixels there |
| DamageStream.EventsInOrder | benchmark/tools/fbcodec-bench/src/corpus/capture.c:76-141 | for up to 2^32 frames the events come by frame, then tile row, then tile column, each place once |
| DamageStream.TilesPartition | benchmark/tools/fbcodec-bench/src/corpus/capture.c:81-85 | a pixel lies in the tile of its quotients and in no other |
| DamageStream.TileIsExact | benchmark/tools/fbcodec-bench/src/corpus/capture.c:45-85 | tiles start inside the frame and are cut off at its edge; the 32-bit sums in the loop do not wrap |
| DamageStream.TileReaches | benchmark/tools/fbcodec-bench/src/corpus/capture.c:45-48 | if the rounding up does not wrap, the tiles reach every position |
| DamageStream.AllocationSuffices | benchmark/tools/fbcodec-bench/src/corpus/capture.c:66-70 | the stream never has more events than were allocated |
| DamageStream.AllocationIsExact | benchmark/tools/fbcodec-bench/src/corpus/capture.c:66-70 | the allocation is at most one event per pixel of all frames |
| DamageStream.TileChanged | benchmark/tools/fbcodec-bench/src/corpus/capture.c:86-105 | the row comparison finds a change exactly when some row differs |
| DamageStream.CropTile | benchmark/tools/fbcodec-bench/src/corpus/capture.c:119-135 | the row copies pack the tile tightly |
| Fbcb.WriteFbcb | benchmark/tools/fbcodec-bench/src/corpus/capture.c:147-185 | writes exactly the printed file, or fails with an empty file when the count does not fit |
| Fbcb.ReadFbcb | benchmark/tools/fbcodec-bench/src/corpus/capture.c:187-247 | the sequence of reads accepts exactly what the parser accepts, with the same stream |
| Fbcb.InputFile.ReadEvent | benchmark/tools/fbcodec-bench/src/corpus/capture.c:215-240 | one event, failing exactly when a field or the payload is cut short |
| Fbcb.RoundTrip | benchmark/tools/fbcodec-bench/src/corpus/capture.c:145-247 | reading a written stream, of any number of events, gives the same stream if and only if every event has fewer than 2^32 bytes of pixels |
| Fbcb.LittleByte | benchmark/tools/fbcodec-bench/src/corpus/capture.c:145-165 | byte k of an integer field is its k-th lowest byte |
| Fbcb.FileBegins | benchmark/tools/fbcodec-bench/src/corpus/capture.c:147-165 | a file begins with the letters FBCB, version 1, width, height, format 0 and the count, each in four bytes |
| Fbcb.HeaderParses | benchmark/tools/fbcodec-bench/src/corpus/capture.c:187-212 | a header is read back with its width, height and count |
| Fbcb.FieldsParse | benchmark/tools/fbcodec-bench/src/corpus/capture.c:166-181 | the fields of a record stand at their offsets: time stamp, frame number, rectangle, the stride of two bytes a pixel in 32 bits, and the length |
| Fbcb.HugeEventIsCut | benchmark/tools/fbcodec-bench/src/corpus/capture.c:168-181 | one event of 2^32 bytes, which does not come back |
| Fbcb.ReadBack | benchmark/tools/fbcodec-bench/src/corpus/capture.c:168-181 | in any case it gives the stream with each event's pixels cut to the 32-bit length |
| Fbcb.PrefixRejected | benchmark/tools/fbcodec-bench/src/corpus/capture.c:187-247 | every proper prefix of a written file is rejected |
| CaptureFile.FileAgrees | benchmark/tools/fbcodec-bench/src/corpus/capture.c:50-247 | the stream of a recording, written, read back and replayed up to frame f onto any canvas, gives exactly frame f if and only if there are at most 2^32 - 1 events, neither dimension plus the tile exceeds 2^32, and the largest tile has fewer than 2^32 bytes |
| CaptureFile.ReadGivesKept | benchmark/tools/fbcodec-bench/src/corpus/capture.c:147-247 | writing fails exactly for a count beyond its field; otherwise each event comes back as the file keeps it |
| CaptureFile.KeptIffSmall | benchmark/tools/fbcodec-bench/src/corpus/capture.c:168-181 | an event comes back unchanged below 2^32 bytes of pixels, and with too few pixels for its rectangle from there on |
| CaptureFile.LoadedMemory | benchmark/tools/fbcodec-bench/src/corpus/capture.c:178-181 | the pixels written as the bytes they occupy are the pixels read |
| CaptureFile.MemoryBytes | benchmark/tools/fbcodec-bench/src/corpus/capture.c:178-181 | pixel i occupies bytes 2 i and 2 i + 1, the low one first |
| CaptureFile.EventsWritable | benchmark/tools/fbcodec-bench/src/corpus/capture.c:108-141 | every event of a stream fits the 32-bit fields and has the pixels of its rectangle |

## Left out

- The exact-length raw probe path (`gud_pipe_transfer_xdisp_probe`): one rectangle without retries or compression.
- USB, DRM, GEM and workqueue calls: nondeterministic results and steps of the environment.
- Memory-allocation failures: a failed `vzalloc` or `malloc` would add an early error return that changes nothing.
- Tracing, timing, `dev_info` records, statistics counters and the damage rectangle of the mailbox, which is only printed.
- Module parameters, the power-management test variant, device lifetime through the DRM core.
- LZ4 itself, apart from the block decoder of the quality script; the other codecs of the bench.
- The transforms write 16-bit values into byte buffers; the loops are modelled on arrays of pixels or of bytes, and `Pixels.ToBytes` relates the two. The composition of transforms and LZ4 is modelled on values: the scratch buffers it fills are not.
- Command lines, reports, plots and scripts.
- File errors: writing always succeeds, and reading fails only at the end of the file.
- The parsing of USB monitor records, and the timing properties of a flush: an update is its rectangle, bulk times and ratio, the ratio as a real number.
- TemporalPolicy.Encoder.EncodeFrame: where the adaptive policy compares its two candidates, requires room for one of them, because with both compressions failing the code copies a length of (size_t)-1. `TemporalChannel` gives that case the error return of a failed compression.
- Lz4.CompressUndone: does not model the cast of the lengths to `int`; inputs of 2 GiB and more would be cut or refused.
- Lz4.CompressSucceeds: likewise, for inputs and capacities of 2 GiB and more.
- ProbePayload.BuildProbePayload: requires the four bytes that `raw_length - 4` needs; shorter raw lengths make the unsigned loop bound wrap, and the function has no caller.
