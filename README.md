# Annex B NAL-unit splitter

A Dafny model of the Annex B splitter of the streamer,
`moonlight-web/streamer/src/video/annexb.rs`. It takes a byte buffer in the
H.264/H.265 byte-stream format (the byte stream format of Annex B, clause B.1,
of ITU-T H.264 and ITU-T H.265) and cuts it into NAL units. Each NAL unit
begins with a 3-byte (`00 00 01`) or a 4-byte (`00 00 00 01`) start code.

All of it is in the module `AnnexB` (`annexb.dfy`):

- **Start codes.** `StartCode` is `B3 | B4`. `Code` and `Len` are the
  source's `code()` and `len()`. `CodeAt(d, j, sc)` says the bytes of `sc`
  begin at index `j` of `d`.
- **`find_start_code`.** `FindStartCode` is a method with the source's
  `while` loop and its early returns. It is proved equal to
  `FirstStartCode`, a recursive reference scan. `IsFirstStartCodeFrom`
  characterises that scan's result: the least index where a start code
  begins, or nothing.
- **The splitter.** `AnnexBSplitter` is a class with the source's two
  fields, `data` and `offset`, plus its constructor, `Reset` and `Next`.
  `Next` keeps the source's fast path: it tests whether the rest of the
  data starts with `00 00 00 01`, then with `00 00 01`, and only otherwise
  scans forward.
- **The specification of one step.** `Next` is proved against
  `NextNal(data, offset)`, a pure `Step` of the NAL unit returned and the new
  offset. The properties of the splitter are lemmas about `NextNal`.
  - `Nals(data, offset)` drains the splitter: it lists every NAL unit the
    calls return until one yields nothing.
  - `Flatten` lays those units end to end.
- **The unit tests.** The source's unit tests (annexb.rs lines 146-211) are
  lemmas about `NextNal` and `Nals` on the same byte strings. One of them is
  also a method that calls the object itself.

Everything modelled here follows `annexb.rs`.
`usize` indices are modelled as `nat`. The byte arithmetic of the source
cannot overflow on any buffer it can hold, so nothing is lost by this.

In `find_start_code`, the look-back branch (`i > 0 && data[i-1] == 0`,
annexb.rs line 120) never fires. A `00 00 00 01` that begins at `i - 1` is
already reported at index `i - 1`, by the `00 00 00` test one iteration
earlier. For this reason the loop invariant of `FindStartCode` excludes a
4-byte code only before `i - 1`, and the branch still verifies.

## Model

| member | source | states |
|---|---|---|
| AnnexB.Code | moonlight-web/streamer/src/video/annexb.rs:13-18 | the code is 3 or 4 bytes; every byte is 0 except the last, which is 1; it is 4 bytes exactly for B4. So B3 is `00 00 01` and B4 is `00 00 00 01` |
| AnnexB.Len | moonlight-web/streamer/src/video/annexb.rs:19-25 | the length is the length of `Code(sc)`: 3 for B3 and 4 for B4 |
| AnnexB.CodeAtSlice | moonlight-web/streamer/src/video/annexb.rs:59-62 | a start code begins at `j` exactly when `d[j..j+len]` equals its code, and exactly when `d[j..]` starts with the code (the source's `starts_with` test) |
| AnnexB.ScanFrom | moonlight-web/streamer/src/video/annexb.rs:113-139 | reference scan from index `i`: it returns nothing only when no start code begins at or after `i`; otherwise it returns the least index where one begins, the kind found there (a 4-byte code is reported at its first zero) and its length |
| AnnexB.FirstStartCode | moonlight-web/streamer/src/video/annexb.rs:113-139 | the earliest start code of the whole buffer, with the same characterisation from index 0 |
| AnnexB.FirstStartCodeUnique | moonlight-web/streamer/src/video/annexb.rs:113-139 | at most one result fits the characterisation of the earliest start code |
| AnnexB.FindStartCode | moonlight-web/streamer/src/video/annexb.rs:113-139 | the source's loop returns exactly `FirstStartCode(d)`: the earliest start code with its kind and length, or None when there is none |
| AnnexB.FirstStartCodeBytes | moonlight-web/streamer/src/video/annexb.rs:113-139 | for a found code: `len == sc.len()`, `off + len <= len(d)`, `d[off..off+len] == sc.code()`, no start code begins before `off`, and the code is B4 exactly when `00 00 00 01` begins at `off`. When none is found, `00 00 01` occurs nowhere in `d` |
| AnnexB.ScanSuffix | moonlight-web/streamer/src/video/annexb.rs:71-90 | scanning the sub-slice `data[p..]`, as `next` does, finds the first start code of `data` at or after `p`, shifted by `p` |
| AnnexB.NextStartOrEnd | moonlight-web/streamer/src/video/annexb.rs:89-95 | the index of the first start code at or after `from`, or `len(data)` when there is none; no start code begins in between |
| AnnexB.CursorStartCode | moonlight-web/streamer/src/video/annexb.rs:58-62 | the fast path's `starts_with` tests recognise exactly a start code at the cursor, which is then the first one at or after it |
| AnnexB.NextNal | moonlight-web/streamer/src/video/annexb.rs:53-110 | one step: when it returns a NAL unit the offset strictly increases and stays within `len(data)`; a valid offset stays valid |
| AnnexB.NextNalAt | moonlight-web/streamer/src/video/annexb.rs:85-109 | when the first start code at or after the offset is `sc` at `s`, the step returns `data[s..e]` with ranges `0..len` and `len..e-s`, and moves the offset to `e`, the next start code after the payload start (or the end) |
| AnnexB.NextNalNone | moonlight-web/streamer/src/video/annexb.rs:54-80 | a step yields None exactly when `offset >= len(data)` or no start code begins at or after the offset. In the second case the offset becomes `len(data)` |
| AnnexB.NextNalStart | moonlight-web/streamer/src/video/annexb.rs:58-83 | the returned unit begins at the first start code at or after the offset, and the bytes skipped hold no start code. Its kind is B4 exactly when `00 00 00 01` begins there. A B4 at the cursor is taken as B4, and a B3 at the cursor as B3 |
| AnnexB.NextNalShape | moonlight-web/streamer/src/video/annexb.rs:86-109 | `start_code_range == 0..sc_len` and `payload_range == sc_len..len(full)`, with `sc_len <= len(full)`. `full` begins with `start_code.code()`, and `full` is `data[start..new offset]` |
| AnnexB.NextNalPayload | moonlight-web/streamer/src/video/annexb.rs:89-102 | no start code begins inside the payload. The new offset is `len(data)` or the beginning of a start code |
| AnnexB.NextNalWellFormed | moonlight-web/streamer/src/video/annexb.rs:86-109 | every returned unit is well formed: its ranges are as built, `full` opens with its start code, and its payload contains no start code |
| AnnexB.NextNalResumes | moonlight-web/streamer/src/video/annexb.rs:89-102 | contiguity: after a returned unit, the next call yields None exactly at the end of the data, and otherwise returns a unit that begins exactly at the previous `payload_end` |
| AnnexB.NextNalNoneSticky | moonlight-web/streamer/src/video/annexb.rs:76-80 | after a None, every later call yields None and leaves the offset unchanged |
| AnnexB.NextNalTile | moonlight-web/streamer/src/video/annexb.rs:95-102 | a returned unit is the slice of `data` from its start code to the new offset, and the next search stops at once at that offset |
| AnnexB.NalsUnfold | moonlight-web/streamer/src/video/annexb.rs:53-110 | draining from an offset gives this step's unit followed by draining from the new offset |
| AnnexB.NalsTile | moonlight-web/streamer/src/video/annexb.rs:53-110 | the units returned until None, laid end to end, are exactly `data` from the first start code at or after the offset to the end. Nothing is lost or repeated |
| AnnexB.NalsWellFormed | moonlight-web/streamer/src/video/annexb.rs:86-109 | every unit returned until None is well formed |
| AnnexB.PayloadEnd | moonlight-web/streamer/src/video/annexb.rs:89-95 | the source's computation of `payload_end` (a scan of the rest of the data when it is non-empty) equals `NextStartOrEnd(data, payload_start)` |
| AnnexB.AnnexBSplitter.constructor | moonlight-web/streamer/src/video/annexb.rs:41-46 | `new(d)` holds `data == d` and `offset == 0` |
| AnnexB.AnnexBSplitter.Reset | moonlight-web/streamer/src/video/annexb.rs:48-51 | `reset(d)` leaves `data == d` and `offset == 0`; the object has no other state |
| AnnexB.AnnexBSplitter.Next | moonlight-web/streamer/src/video/annexb.rs:53-110 | `next()` returns `NextNal(old data, old offset)`'s unit and moves the offset to its new offset. The data is unchanged, the offset stays within the data, and every returned unit strictly increases the offset |
| AnnexB.SplitSingleB3 | moonlight-web/streamer/src/video/annexb.rs:146-155 | `[0,0,1,0x42,1,2]` yields one B3 unit with payload `[0x42,1,2]`, then None |
| AnnexB.SplitSingleB4 | moonlight-web/streamer/src/video/annexb.rs:157-166 | `[0,0,0,1,0x44,5]` yields one B4 unit with payload `[0x44,5]`, then None |
| AnnexB.TwoNalsFirst | moonlight-web/streamer/src/video/annexb.rs:170-175 | the first call on the two-unit buffer returns its B4 unit and stops at index 7 |
| AnnexB.TwoNalsSecond | moonlight-web/streamer/src/video/annexb.rs:177-179 | the second call returns the B3 unit, up to the end of the data |
| AnnexB.TwoNalsPayloads | moonlight-web/streamer/src/video/annexb.rs:175-179 | the two payloads are `[0x42,1,2]` and `[0x44,3,4]` |
| AnnexB.SplitMultiple | moonlight-web/streamer/src/video/annexb.rs:168-182 | `[0,0,0,1,0x42,1,2,0,0,1,0x44,3,4]` yields a B4 unit with payload `[0x42,1,2]`, then a B3 unit with payload `[0x44,3,4]`, then None |
| AnnexB.SplitterMultipleNalus | moonlight-web/streamer/src/video/annexb.rs:168-182 | three calls of Next on a new splitter over the two-unit buffer return the B4 unit with payload [0x42,1,2], then the B3 unit with payload [0x44,3,4], then None |
| AnnexB.SplitNoNalus | moonlight-web/streamer/src/video/annexb.rs:184-190 | `[1,2,3]` yields None |
| AnnexB.SplitStartOfStream | moonlight-web/streamer/src/video/annexb.rs:192-200 | `[0,0,0,1,0x42]` yields a B4 unit with payload `[0x42]` |
| AnnexB.SplitMidStream | moonlight-web/streamer/src/video/annexb.rs:202-211 | `[0xFF,0xEE,0,0,1,0x42]` skips the two leading bytes and yields a B3 unit with payload `[0x42]` |

## Left out

- `moonlight-web/streamer/src/audio.rs` is not part of this model. It registers the Opus codec with the WebRTC media engine, runs a tokio task that writes Ogg pages into a channel, and adapts `std::io::Write` to that channel. All of this is concurrency, network I/O and calls into foreign libraries (`webrtc`, `ogg`). Its OpusHead/OpusTags header bytes (sections 5.1 and 5.2 of RFC 7845) are built inside that task, not in a function of their own.
- The reference-counted `Bytes` buffer and its zero-copy `slice`: `data` and `full` are plain sequences, and `full` is the sub-sequence the source's slice denotes. Sharing between the two is not modelled.
- Logging and the `#[allow(...)]` attributes.
