/**
 * Splitting an H.264/H.265 byte stream (the byte stream format of Annex B,
 * clause B.1, of ITU-T H.264 and ITU-T H.265) into NAL units, each introduced
 * by a 3-byte (00 00 01) or a 4-byte (00 00 00 01) start code.
 *
 * The scan for the earliest start code and the splitter's cursor are
 * imperative (a while loop over an index, an object whose offset advances);
 * each is proved against a pure specification function, and the properties
 * of the splitter are proved as lemmas about those functions.
 */
module AnnexB {

  type Byte = x: int | 0 <= x < 256
  type Bytes = seq<Byte>

  datatype Option<T> = None | Some(value: T)

  /** A half-open range of indices start..end. */
  datatype Range = Range(start: nat, end: nat)

  /** The two start-code prefixes of an Annex B byte stream. */
  datatype StartCode = B3 | B4

  /** One NAL unit: `full` holds the start code followed by the payload. */
  datatype AnnexBData = AnnexBData(
    payloadRange: Range,
    startCode: StartCode,
    startCodeRange: Range,
    full: Bytes)

  /** A start code found by the scan: where it begins, its kind and its length. */
  datatype Found = Found(offset: nat, startCode: StartCode, len: nat)

  // ---------------------------------------------------------------------------
  // Start codes

  /** The bytes of a start code: zero bytes closed by a single 0x01 byte. */
  function Code(sc: StartCode): (r: Bytes)
    ensures 3 <= |r| <= 4 && r[|r| - 1] == 1
    ensures forall k :: 0 <= k < |r| - 1 ==> r[k] == 0
    ensures sc == B4 <==> |r| == 4
  {
    match sc
    case B3 => [0, 0, 1]
    case B4 => [0, 0, 0, 1]
  }

  /** The length of a start code, taken from its bytes. */
  function Len(sc: StartCode): (n: nat)
    ensures n == |Code(sc)|
    ensures n == if sc == B3 then 3 else 4
  {
    match sc
    case B3 => |Code(B3)|
    case B4 => |Code(B4)|
  }

  /** The slice `s` begins with `prefix`. */
  predicate StartsWith(s: Bytes, prefix: Bytes) {
    |prefix| <= |s| && s[..|prefix|] == prefix
  }

  /**
   * The bytes of the start code `sc` begin at index `j` of `d`, compared one by
   * one (CodeAtSlice shows that this is comparing the slice with Code(sc)).
   */
  predicate CodeAt(d: Bytes, j: nat, sc: StartCode) {
    match sc
    case B3 => j + 3 <= |d| && d[j] == 0 && d[j + 1] == 0 && d[j + 2] == 1
    case B4 => j + 4 <= |d| && d[j] == 0 && d[j + 1] == 0 && d[j + 2] == 0 && d[j + 3] == 1
  }

  /** Some start code begins at index `j` of `d`. */
  predicate StartCodeAt(d: Bytes, j: nat) {
    CodeAt(d, j, B3) || CodeAt(d, j, B4)
  }

  /** No start code begins anywhere in `d`. */
  predicate NoStartCode(d: Bytes) {
    forall j :: 0 <= j < |d| ==> !StartCodeAt(d, j)
  }

  /**
   * A start code begins at `j` exactly when the slice of `d` at `j` of the
   * code's length equals the code, that is, when `d[j..]` starts with it.
   */
  lemma CodeAtSlice(d: Bytes, j: nat, sc: StartCode)
    ensures CodeAt(d, j, sc) <==> j + Len(sc) <= |d| && d[j..j + Len(sc)] == Code(sc)
    ensures CodeAt(d, j, sc) <==> j <= |d| && StartsWith(d[j..], Code(sc))
  {
    if j + Len(sc) <= |d| {
      assert d[j..][..Len(sc)] == d[j..j + Len(sc)];
      match sc
      case B3 => assert d[j..j + 3] == [d[j], d[j + 1], d[j + 2]];
      case B4 => assert d[j..j + 4] == [d[j], d[j + 1], d[j + 2], d[j + 3]];
    }
  }

  /** At one index at most one kind of start code begins. */
  lemma KindAt(d: Bytes, j: nat, sc: StartCode)
    requires CodeAt(d, j, sc)
    ensures sc == if CodeAt(d, j, B4) then B4 else B3
  {
  }

  /** A start code seen in the suffix `d[p..]` is one of `d`, and conversely. */
  lemma CodeAtSuffix(d: Bytes, p: nat, k: nat, sc: StartCode)
    requires p <= |d|
    ensures CodeAt(d[p..], k, sc) <==> CodeAt(d, p + k, sc)
  {
  }

  /** A start code seen in the slice `d[a..b]` is one of `d`. */
  lemma CodeAtWithin(d: Bytes, a: nat, b: nat, k: nat, sc: StartCode)
    requires a <= b <= |d|
    ensures CodeAt(d[a..b], k, sc) ==> CodeAt(d, a + k, sc)
  {
  }

  // ---------------------------------------------------------------------------
  // Finding the earliest start code

  /**
   * `r` is what a scan of `d` from index `from` must report: nothing when no
   * start code begins at or after `from`, otherwise the least such index,
   * with the kind of start code found there and its length.
   */
  ghost predicate IsFirstStartCodeFrom(d: Bytes, from: nat, r: Option<Found>) {
    match r
    case None => forall j :: from <= j < |d| ==> !StartCodeAt(d, j)
    case Some(f) =>
      from <= f.offset && f.len == Len(f.startCode) && CodeAt(d, f.offset, f.startCode)
      && forall j :: from <= j < f.offset ==> !StartCodeAt(d, j)
  }

  /** At most one result fits the description of the earliest start code. */
  lemma FirstStartCodeUnique(d: Bytes, from: nat, r: Option<Found>, r': Option<Found>)
    requires IsFirstStartCodeFrom(d, from, r) && IsFirstStartCodeFrom(d, from, r')
    ensures r == r'
  {
    if r.Some? && r'.Some? {
      var f, g := r.value, r'.value;
      assert StartCodeAt(d, f.offset) && StartCodeAt(d, g.offset);
      assert f.offset == g.offset;
      KindAt(d, f.offset, f.startCode);
      KindAt(d, g.offset, g.startCode);
    } else if r.Some? {
      assert StartCodeAt(d, r.value.offset);
    } else if r'.Some? {
      assert StartCodeAt(d, r'.value.offset);
    }
  }

  /**
   * Reference definition of the scan: test each index from `i` on, the 4-byte
   * code first, and stop at the first index where a start code begins.
   */
  function ScanFrom(d: Bytes, i: nat): (r: Option<Found>)
    ensures IsFirstStartCodeFrom(d, i, r)
    decreases |d| - i
  {
    if i >= |d| then None
    else if CodeAt(d, i, B4) then Some(Found(i, B4, Len(B4)))
    else if CodeAt(d, i, B3) then Some(Found(i, B3, Len(B3)))
    else ScanFrom(d, i + 1)
  }

  /** The earliest start code of `d`, if any. */
  function FirstStartCode(d: Bytes): (r: Option<Found>)
    ensures IsFirstStartCodeFrom(d, 0, r)
  {
    ScanFrom(d, 0)
  }

  /**
   * The earliest start code in the bytes: the code reported sits at the
   * reported offset, of the reported length, and is the 4-byte one exactly
   * when 00 00 00 01 begins there; when none is reported, 00 00 01 occurs
   * nowhere.
   */
  lemma FirstStartCodeBytes(d: Bytes)
    ensures match FirstStartCode(d)
      case Some(f) =>
        f.len == Len(f.startCode) && f.offset + f.len <= |d|
        && d[f.offset..f.offset + f.len] == Code(f.startCode)
        && (forall j :: 0 <= j < f.offset ==> !StartCodeAt(d, j))
        && (f.startCode == B4 <==> CodeAt(d, f.offset, B4))
      case None =>
        forall j :: 0 <= j && j + 2 < |d| ==> !(d[j] == 0 && d[j + 1] == 0 && d[j + 2] == 1)
  {
    match FirstStartCode(d)
    case Some(f) =>
      CodeAtSlice(d, f.offset, f.startCode);
    case None =>
      forall j | 0 <= j && j + 2 < |d|
        ensures !(d[j] == 0 && d[j + 1] == 0 && d[j + 2] == 1)
      {
        assert !StartCodeAt(d, j);
      }
  }

  /** Scanning from `p` finds what scanning the suffix `d[p..]` finds, shifted by `p`. */
  lemma ScanSuffix(d: Bytes, p: nat)
    requires p <= |d|
    ensures match FirstStartCode(d[p..])
      case None => ScanFrom(d, p) == None
      case Some(f) => ScanFrom(d, p) == Some(Found(p + f.offset, f.startCode, f.len))
  {
    var rest := d[p..];
    var shifted := match FirstStartCode(rest)
      case None => None
      case Some(f) => Some(Found(p + f.offset, f.startCode, f.len));
    forall j | p <= j < |d| && StartCodeAt(d, j)
      ensures StartCodeAt(rest, j - p)
    {
      CodeAtSuffix(d, p, j - p, B3);
      CodeAtSuffix(d, p, j - p, B4);
    }
    if shifted.Some? {
      CodeAtSuffix(d, p, FirstStartCode(rest).value.offset, shifted.value.startCode);
    }
    assert IsFirstStartCodeFrom(d, p, shifted);
    FirstStartCodeUnique(d, p, shifted, ScanFrom(d, p));
  }

  /**
   * The source's scan: walk `i` over every index that has two bytes after it;
   * at 00 00 01 report a 4-byte code if the byte before is 00 and a 3-byte
   * code otherwise; at 00 00 00 report a 4-byte code if 01 follows.
   */
  method FindStartCode(d: Bytes) returns (r: Option<Found>)
    ensures IsFirstStartCodeFrom(d, 0, r)
    ensures r == FirstStartCode(d)
  {
    var limit := if |d| >= 2 then |d| - 2 else 0;
    var i := 0;
    while i < limit
      invariant i <= limit
      // No 00 00 01 begins before i; no 00 00 00 01 begins before i - 1. More
      // holds (the 00 00 00 test at i - 1 already reports a code there), but
      // the invariant is kept this weak so that the look-back branch stays
      // reachable in the proof.
      invariant forall j :: 0 <= j < i ==> !CodeAt(d, j, B3)
      invariant forall j :: 0 <= j && j + 1 < i ==> !CodeAt(d, j, B4)
    {
      if d[i] == 0 && d[i + 1] == 0 {
        if d[i + 2] == 1 {
          if i > 0 && d[i - 1] == 0 {
            r := Some(Found(i - 1, B4, 4));
          } else {
            r := Some(Found(i, B3, 3));
          }
          FirstStartCodeUnique(d, 0, r, FirstStartCode(d));
          return;
        } else if d[i + 2] == 0 {
          if i + 3 < |d| && d[i + 3] == 1 {
            r := Some(Found(i, B4, 4));
            FirstStartCodeUnique(d, 0, r, FirstStartCode(d));
            return;
          }
          i := i + 1;
          continue;
        }
      }
      i := i + 1;
    }
    r := None;
    FirstStartCodeUnique(d, 0, r, FirstStartCode(d));
  }

  // ---------------------------------------------------------------------------
  // One step of the splitter

  /**
   * The index of the first start code of `data` at or after `from`, or the
   * end of `data` when none begins there.
   */
  function NextStartOrEnd(data: Bytes, from: nat): (e: nat)
    requires from <= |data|
    ensures from <= e <= |data|
    ensures forall j :: from <= j < e ==> !StartCodeAt(data, j)
    ensures e == |data| || StartCodeAt(data, e)
  {
    match ScanFrom(data, from)
    case None => |data|
    case Some(g) => g.offset
  }

  /**
   * A start code at the cursor itself is the first one at or after it, and
   * it is recognised by testing whether the rest of the data starts with it.
   */
  lemma CursorStartCode(data: Bytes, offset: nat, sc: StartCode)
    requires offset < |data|
    ensures StartsWith(data[offset..], Code(sc)) <==> CodeAt(data, offset, sc)
    ensures CodeAt(data, offset, sc) ==> NextStartOrEnd(data, offset) == offset
  {
    CodeAtSlice(data, offset, sc);
    if CodeAt(data, offset, sc) {
      assert StartCodeAt(data, offset);
    }
  }

  /** What one call of the splitter yields, and the offset it leaves behind. */
  datatype Step = Step(nal: Option<AnnexBData>, offset: nat)

  /**
   * One step of the splitter over `data` from `offset`: nothing once the
   * offset has reached the end; otherwise the NAL unit that begins at the
   * first start code at or after `offset` (a 4-byte code is reported at its
   * first zero, before the 3-byte code inside it) and
   * runs up to the next start code after it, or to the end of `data`. When no
   * start code remains, the offset jumps to the end.
   */
  function NextNal(data: Bytes, offset: nat): (r: Step)
    ensures r.nal.Some? ==> offset < r.offset <= |data|
    ensures offset <= |data| ==> r.offset <= |data|
  {
    if offset >= |data| then Step(None, offset)
    else
      var s := NextStartOrEnd(data, offset);
      if s == |data| then Step(None, |data|)
      else
        var sc := if CodeAt(data, s, B4) then B4 else B3;
        var e := NextStartOrEnd(data, s + Len(sc));
        Step(Some(AnnexBData(Range(Len(sc), e - s), sc, Range(0, Len(sc)), data[s..e])), e)
  }

  /**
   * A step whose first start code at or after `offset` is `sc` at `s` returns
   * the NAL unit from `s` up to the next start code after that one.
   */
  lemma NextNalAt(data: Bytes, offset: nat, s: nat, sc: StartCode)
    requires offset < |data| && s == NextStartOrEnd(data, offset) && CodeAt(data, s, sc)
    ensures s + Len(sc) <= |data|
    ensures var e := NextStartOrEnd(data, s + Len(sc));
      NextNal(data, offset)
      == Step(Some(AnnexBData(Range(Len(sc), e - s), sc, Range(0, Len(sc)), data[s..e])), e)
  {
    KindAt(data, s, sc);
  }

  /** Where the NAL unit returned by a step begins in `data`. */
  function NalStart(r: Step): int
    requires r.nal.Some?
  {
    r.offset - |r.nal.value.full|
  }

  /**
   * A step yields nothing exactly when the offset has reached the end or no
   * start code begins at or after it; in the second case the offset moves to
   * the end of `data`.
   */
  lemma NextNalNone(data: Bytes, offset: nat)
    ensures var r := NextNal(data, offset);
      r.nal.None? <==>
        (offset >= |data| || forall j :: offset <= j < |data| ==> !StartCodeAt(data, j))
    ensures var r := NextNal(data, offset);
      r.nal.None? ==> r.offset == if offset < |data| then |data| else offset
  {
    if offset < |data| {
      var s := NextStartOrEnd(data, offset);
      if s < |data| {
        assert StartCodeAt(data, s);
      }
    }
  }

  /**
   * The NAL unit a step returns begins at the first start code at or after
   * `offset`: the bytes skipped before it hold no start code, and the 4-byte
   * code is preferred wherever one begins, in particular at the cursor itself.
   */
  lemma NextNalStart(data: Bytes, offset: nat)
    requires NextNal(data, offset).nal.Some?
    ensures var r := NextNal(data, offset); var n := r.nal.value; var s := NalStart(r);
      offset <= s && CodeAt(data, s, n.startCode)
      && (forall j :: offset <= j < s ==> !StartCodeAt(data, j))
      && (n.startCode == B4 <==> CodeAt(data, s, B4))
    ensures var r := NextNal(data, offset); var n := r.nal.value;
      CodeAt(data, offset, B4) ==> NalStart(r) == offset && n.startCode == B4
    ensures var r := NextNal(data, offset); var n := r.nal.value;
      CodeAt(data, offset, B3) && !CodeAt(data, offset, B4) ==>
        NalStart(r) == offset && n.startCode == B3
  {
    var s := NextStartOrEnd(data, offset);
    assert StartCodeAt(data, offset) ==> s == offset;
  }

  /**
   * The shape of a returned NAL unit: the start-code range is 0..L and the
   * payload range L..|full| for the start code's length L, `full` begins with
   * the start code, and `full` is the slice of `data` from the start code up
   * to the new offset.
   */
  lemma NextNalShape(data: Bytes, offset: nat)
    requires NextNal(data, offset).nal.Some?
    ensures var r := NextNal(data, offset); var n := r.nal.value; var l := Len(n.startCode);
      0 <= NalStart(r) && l <= |n.full|
      && n.startCodeRange == Range(0, l) && n.payloadRange == Range(l, |n.full|)
      && n.full[..l] == Code(n.startCode)
      && n.full == data[NalStart(r)..r.offset]
  {
    var r := NextNal(data, offset);
    var s := NextStartOrEnd(data, offset);
    var sc := r.nal.value.startCode;
    CodeAtSlice(data, s, sc);
    assert r.nal.value.full[..Len(sc)] == data[s..s + Len(sc)];
  }

  /**
   * The payload of a returned NAL unit ends at the next start code, or at the
   * end of `data` when there is none: no start code begins inside it, and the
   * new offset is the end of `data` or the beginning of a start code.
   */
  lemma NextNalPayload(data: Bytes, offset: nat)
    requires NextNal(data, offset).nal.Some?
    ensures var r := NextNal(data, offset); var n := r.nal.value;
      (forall j :: NalStart(r) + Len(n.startCode) <= j < r.offset ==> !StartCodeAt(data, j))
      && (r.offset == |data| || StartCodeAt(data, r.offset))
  {
  }

  /** The payload of a NAL unit: the bytes of `full` in its payload range. */
  function Payload(n: AnnexBData): Bytes
    requires n.payloadRange.start <= n.payloadRange.end <= |n.full|
  {
    n.full[n.payloadRange.start..n.payloadRange.end]
  }

  /**
   * A well-formed NAL unit: ranges as the splitter builds them, `full` opening
   * with the start code, and a payload in which no start code begins.
   */
  ghost predicate WellFormedNal(n: AnnexBData) {
    var l := Len(n.startCode);
    l <= |n.full| && n.startCodeRange == Range(0, l) && n.payloadRange == Range(l, |n.full|)
    && StartsWith(n.full, Code(n.startCode)) && NoStartCode(Payload(n))
  }

  /** A stretch of `data` in which no start code begins holds none as a slice either. */
  lemma NoStartCodeSlice(data: Bytes, a: nat, b: nat)
    requires a <= b <= |data|
    requires forall j :: a <= j < b ==> !StartCodeAt(data, j)
    ensures NoStartCode(data[a..b])
  {
    forall k | 0 <= k < b - a
      ensures !StartCodeAt(data[a..b], k)
    {
      CodeAtWithin(data, a, b, k, B3);
      CodeAtWithin(data, a, b, k, B4);
      assert !StartCodeAt(data, a + k);
    }
  }

  /** A slice of a slice is a slice of the whole. */
  lemma SliceOfSlice(d: Bytes, a: nat, b: nat, i: nat, j: nat)
    requires a <= b <= |d| && i <= j <= b - a
    ensures d[a..b][i..j] == d[a + i..a + j]
  {
    forall k | 0 <= k < j - i
      ensures d[a..b][i..j][k] == d[a + i..a + j][k]
    {
      assert d[a..b][i..j][k] == d[a..b][i + k] == d[a + i + k];
    }
  }

  /** Every NAL unit the splitter returns is well formed. */
  lemma NextNalWellFormed(data: Bytes, offset: nat)
    requires NextNal(data, offset).nal.Some?
    ensures WellFormedNal(NextNal(data, offset).nal.value)
  {
    var r := NextNal(data, offset);
    var n := r.nal.value;
    var s, l := NalStart(r), Len(n.startCode);
    assert n.full == data[s..r.offset] && n.full[..l] == Code(n.startCode) by {
      NextNalShape(data, offset);
    }
    assert NoStartCode(data[s + l..r.offset]) by {
      NextNalPayload(data, offset);
      NoStartCodeSlice(data, s + l, r.offset);
    }
    SliceOfSlice(data, s, r.offset, l, r.offset - s);
    assert Payload(n) == data[s + l..r.offset];
  }

  /**
   * Consecutive NAL units are contiguous: the step after one that returned a
   * NAL unit either finds the end of `data` or returns a NAL unit beginning
   * exactly where the previous one ended.
   */
  lemma NextNalResumes(data: Bytes, offset: nat)
    requires NextNal(data, offset).nal.Some?
    ensures var o := NextNal(data, offset).offset; var r := NextNal(data, o);
      (r.nal.None? <==> o == |data|) && (r.nal.Some? ==> NalStart(r) == o)
  {
    var o := NextNal(data, offset).offset;
    NextNalPayload(data, offset);
    NextNalNone(data, o);
    if NextNal(data, o).nal.Some? {
      NextNalStart(data, o);
    }
  }

  /** Once a step yields nothing, every later step yields nothing and leaves the offset alone. */
  lemma NextNalNoneSticky(data: Bytes, offset: nat)
    requires NextNal(data, offset).nal.None?
    ensures var o := NextNal(data, offset).offset; NextNal(data, o) == Step(None, o)
  {
    NextNalNone(data, offset);
  }

  // ---------------------------------------------------------------------------
  // Draining the splitter

  /** The NAL units the splitter returns from `offset` on, until it yields nothing. */
  ghost function Nals(data: Bytes, offset: nat): seq<AnnexBData>
    decreases |data| - offset
  {
    var r := NextNal(data, offset);
    match r.nal
    case None => []
    case Some(n) => [n] + Nals(data, r.offset)
  }

  /** The bytes of a sequence of NAL units, start codes included, end to end. */
  ghost function Flatten(nals: seq<AnnexBData>): Bytes {
    if nals == [] then [] else nals[0].full + Flatten(nals[1..])
  }

  /** Draining from `offset` is the step's NAL unit followed by draining from the new offset. */
  lemma NalsUnfold(data: Bytes, offset: nat)
    requires NextNal(data, offset).nal.Some?
    ensures var r := NextNal(data, offset); var all := Nals(data, offset);
      all == [r.nal.value] + Nals(data, r.offset)
      && Flatten(all) == r.nal.value.full + Flatten(Nals(data, r.offset))
  {
    var r := NextNal(data, offset);
    var all := Nals(data, offset);
    assert all[1..] == Nals(data, r.offset);
  }

  /** Two adjacent slices of a sequence joined give the longer slice. */
  lemma SliceConcat(d: Bytes, a: nat, b: nat)
    requires a <= b <= |d|
    ensures d[a..b] + d[b..] == d[a..]
  {
  }

  /**
   * The index just past a returned NAL unit is a fixed point of the search for
   * the next start code: the next step begins exactly there.
   */
  lemma StartOrEndFixed(data: Bytes, o: nat)
    requires o <= |data| && (o == |data| || StartCodeAt(data, o))
    ensures NextStartOrEnd(data, o) == o
  {
  }

  /**
   * A returned NAL unit is the slice of `data` from the first start code at or
   * after `offset` up to the new offset, where the next search stops at once.
   */
  lemma NextNalTile(data: Bytes, offset: nat)
    requires NextNal(data, offset).nal.Some?
    ensures var r := NextNal(data, offset);
      offset <= NextStartOrEnd(data, offset) <= r.offset <= |data|
      && r.nal.value.full == data[NextStartOrEnd(data, offset)..r.offset]
      && NextStartOrEnd(data, r.offset) == r.offset
  {
    StartOrEndFixed(data, NextNal(data, offset).offset);
  }

  /**
   * The NAL units returned from `offset` on lose and repeat nothing: laid end
   * to end they are exactly the bytes of `data` from the first start code at
   * or after `offset` to the end (and none begins before it, by NextStartOrEnd).
   */
  lemma {:induction false} NalsTile(data: Bytes, offset: nat)
    requires offset <= |data|
    ensures Flatten(Nals(data, offset)) == data[NextStartOrEnd(data, offset)..]
    decreases |data| - offset
  {
    var r := NextNal(data, offset);
    if r.nal.Some? {
      NextNalTile(data, offset);
      NalsTile(data, r.offset);
      NalsUnfold(data, offset);
      SliceConcat(data, NextStartOrEnd(data, offset), r.offset);
    } else {
      NextNalNone(data, offset);
    }
  }

  /** Every NAL unit returned from `offset` on is well formed. */
  lemma {:induction false} NalsWellFormed(data: Bytes, offset: nat)
    ensures forall k :: 0 <= k < |Nals(data, offset)| ==> WellFormedNal(Nals(data, offset)[k])
    decreases |data| - offset
  {
    var r := NextNal(data, offset);
    if r.nal.Some? {
      NalsWellFormed(data, r.offset);
      NextNalWellFormed(data, offset);
      NalsUnfold(data, offset);
    }
  }

  /**
   * Where the payload that begins at `payloadStart` ends: at the next start
   * code in the rest of `data`, or at the end of `data` when none is left.
   */
  method PayloadEnd(data: Bytes, payloadStart: nat) returns (payloadEnd: nat)
    requires payloadStart <= |data|
    ensures payloadEnd == NextStartOrEnd(data, payloadStart)
  {
    payloadEnd := |data|;
    if payloadStart < |data| {
      var found := FindStartCode(data[payloadStart..]);
      ScanSuffix(data, payloadStart);
      if found.Some? {
        payloadEnd := payloadStart + found.value.offset;
      }
    }
  }

  // ---------------------------------------------------------------------------
  // The source's unit tests, as statements about the model

  /** A lone NAL unit behind a 3-byte start code, after which the splitter is done. */
  lemma SplitSingleB3()
    ensures var d: Bytes := [0, 0, 1, 0x42, 0x01, 0x02];
      var n := AnnexBData(Range(3, 6), B3, Range(0, 3), d);
      Nals(d, 0) == [n] && Payload(n) == [0x42, 0x01, 0x02]
  {
    var d: Bytes := [0, 0, 1, 0x42, 0x01, 0x02];
    assert ScanFrom(d, 0) == Some(Found(0, B3, 3));
    assert ScanFrom(d, 3) == None;
    NextNalAt(d, 0, 0, B3);
    assert d[0..6] == d;
    NalsUnfold(d, 0);
  }

  /** A lone NAL unit behind a 4-byte start code, after which the splitter is done. */
  lemma SplitSingleB4()
    ensures var d: Bytes := [0, 0, 0, 1, 0x44, 0x05];
      var n := AnnexBData(Range(4, 6), B4, Range(0, 4), d);
      Nals(d, 0) == [n] && Payload(n) == [0x44, 0x05]
  {
    var d: Bytes := [0, 0, 0, 1, 0x44, 0x05];
    assert ScanFrom(d, 0) == Some(Found(0, B4, 4));
    assert ScanFrom(d, 4) == None;
    NextNalAt(d, 0, 0, B4);
    assert d[0..6] == d;
    NalsUnfold(d, 0);
  }

  /** The bytes of the two-unit example of SplitMultiple. */
  function TwoNals(): Bytes {
    [0, 0, 0, 1, 0x42, 0x01, 0x02] + [0, 0, 1, 0x44, 0x03, 0x04]
  }

  /** The first step over TwoNals stops at the 3-byte start code at index 7. */
  lemma TwoNalsFirst()
    ensures NextNal(TwoNals(), 0)
      == Step(Some(AnnexBData(Range(4, 7), B4, Range(0, 4), [0, 0, 0, 1, 0x42, 0x01, 0x02])), 7)
  {
    var d := TwoNals();
    assert ScanFrom(d, 0) == Some(Found(0, B4, 4));
    assert ScanFrom(d, 4) == Some(Found(7, B3, 3));
    NextNalAt(d, 0, 0, B4);
    assert d[0..7] == [0, 0, 0, 1, 0x42, 0x01, 0x02];
  }

  /** The second step over TwoNals runs to the end of the data. */
  lemma TwoNalsSecond()
    ensures NextNal(TwoNals(), 7)
      == Step(Some(AnnexBData(Range(3, 6), B3, Range(0, 3), [0, 0, 1, 0x44, 0x03, 0x04])), 13)
  {
    var d := TwoNals();
    assert ScanFrom(d, 7) == Some(Found(7, B3, 3));
    assert ScanFrom(d, 10) == None;
    NextNalAt(d, 7, 7, B3);
    assert d[7..13] == [0, 0, 1, 0x44, 0x03, 0x04];
  }

  /** The payloads of the two NAL units of TwoNals. */
  lemma TwoNalsPayloads()
    ensures Payload(AnnexBData(Range(4, 7), B4, Range(0, 4), [0, 0, 0, 1, 0x42, 0x01, 0x02]))
      == [0x42, 0x01, 0x02]
    ensures Payload(AnnexBData(Range(3, 6), B3, Range(0, 3), [0, 0, 1, 0x44, 0x03, 0x04]))
      == [0x44, 0x03, 0x04]
  {
  }

  /**
   * A 4-byte and a 3-byte NAL unit in a row: the first call returns the first,
   * the second call the second, and the third call nothing.
   */
  lemma SplitMultiple()
    ensures var n1 := AnnexBData(Range(4, 7), B4, Range(0, 4), [0, 0, 0, 1, 0x42, 0x01, 0x02]);
      var n2 := AnnexBData(Range(3, 6), B3, Range(0, 3), [0, 0, 1, 0x44, 0x03, 0x04]);
      NextNal(TwoNals(), 0) == Step(Some(n1), 7)
      && NextNal(TwoNals(), 7) == Step(Some(n2), 13)
      && NextNal(TwoNals(), 13).nal == None
      && Payload(n1) == [0x42, 0x01, 0x02] && Payload(n2) == [0x44, 0x03, 0x04]
  {
    TwoNalsFirst();
    TwoNalsSecond();
    TwoNalsPayloads();
  }

  /** Bytes without a start code yield no NAL unit. */
  lemma SplitNoNalus()
    ensures Nals([0x01, 0x02, 0x03], 0) == []
  {
    assert ScanFrom([0x01, 0x02, 0x03], 0) == None;
  }

  /** A start code at the very beginning with a one-byte payload. */
  lemma SplitStartOfStream()
    ensures var d: Bytes := [0, 0, 0, 1, 0x42];
      var n := AnnexBData(Range(4, 5), B4, Range(0, 4), d);
      NextNal(d, 0).nal == Some(n) && Payload(n) == [0x42]
  {
    var d: Bytes := [0, 0, 0, 1, 0x42];
    assert ScanFrom(d, 0) == Some(Found(0, B4, 4));
    assert ScanFrom(d, 4) == None;
    NextNalAt(d, 0, 0, B4);
    assert d[0..5] == d;
  }

  /** Leading bytes that are not a start code are skipped. */
  lemma SplitMidStream()
    ensures var d: Bytes := [0xFF, 0xEE, 0, 0, 1, 0x42];
      var n := AnnexBData(Range(3, 4), B3, Range(0, 3), d[2..]);
      NextNal(d, 0).nal == Some(n) && Payload(n) == [0x42]
  {
    var d: Bytes := [0xFF, 0xEE, 0, 0, 1, 0x42];
    assert ScanFrom(d, 0) == Some(Found(2, B3, 3));
    assert ScanFrom(d, 5) == None;
    NextNalAt(d, 0, 2, B3);
    assert d[2..6] == d[2..];
  }

  // ---------------------------------------------------------------------------
  // The splitter object

  /** A cursor over a byte stream; each call of Next returns one NAL unit. */
  class AnnexBSplitter {
    var data: Bytes
    var offset: nat

    /** The offset never passes the end of the data. */
    ghost predicate Valid()
      reads this
    {
      offset <= |data|
    }

    constructor (data: Bytes)
      ensures Valid() && this.data == data && offset == 0
    {
      this.data := data;
      offset := 0;
    }

    /** Starts over on new data; nothing of the old data is kept. */
    method Reset(data: Bytes)
      modifies this
      ensures Valid() && this.data == data && offset == 0
    {
      this.data := data;
      offset := 0;
    }

    /**
     * Returns the next NAL unit and advances the offset past it. A start code
     * at the cursor is taken directly (the 4-byte one first); otherwise the
     * leading bytes are skipped up to the first start code, and if there is
     * none the offset moves to the end.
     */
    method Next() returns (r: Option<AnnexBData>)
      modifies this
      ensures data == old(data)
      ensures r == NextNal(old(data), old(offset)).nal
      ensures offset == NextNal(old(data), old(offset)).offset
      ensures old(Valid()) ==> Valid()
      ensures r.Some? ==> old(offset) < offset
    {
      var d, o := data, offset;
      if o >= |d| {
        return None;
      }
      var current := d[o..];
      var startCode: StartCode;
      var scLen: nat;
      if StartsWith(current, Code(B4)) {
        startCode, scLen := B4, 4;
        CursorStartCode(d, o, B4);
      } else if StartsWith(current, Code(B3)) {
        startCode, scLen := B3, 3;
        CursorStartCode(d, o, B3);
        CursorStartCode(d, o, B4);
      } else {
        var found := FindStartCode(current);
        ScanSuffix(d, o);
        match found
        case Some(f) =>
          KindAt(d, o + f.offset, f.startCode);
          o := o + f.offset;
          startCode, scLen := f.startCode, f.len;
        case None =>
          offset := |d|;
          return None;
      }
      assert o == NextStartOrEnd(d, old(offset)) && CodeAt(d, o, startCode)
        && scLen == Len(startCode);
      NextNalAt(d, old(offset), o, startCode);
      var payloadStart := o + scLen;
      var payloadEnd := PayloadEnd(d, payloadStart);
      var nalLen := payloadEnd - o;
      var full := d[o..payloadEnd];
      offset := payloadEnd;
      r := Some(AnnexBData(Range(scLen, nalLen), startCode, Range(0, scLen), full));
    }
  }

  /**
   * The source's test of two NAL units in a row, run against the splitter
   * object: two calls return the two units and the third returns nothing.
   */
  method SplitterMultipleNalus()
    returns (nal1: Option<AnnexBData>, nal2: Option<AnnexBData>, nal3: Option<AnnexBData>)
    ensures nal1.Some? && nal1.value.startCode == B4
      && nal1.value.payloadRange == Range(4, 7) && |nal1.value.full| == 7
      && Payload(nal1.value) == [0x42, 0x01, 0x02]
    ensures nal2.Some? && nal2.value.startCode == B3
      && nal2.value.payloadRange == Range(3, 6) && |nal2.value.full| == 6
      && Payload(nal2.value) == [0x44, 0x03, 0x04]
    ensures nal3.None?
  {
    var splitter := new AnnexBSplitter(TwoNals());
    SplitMultiple();
    nal1 := splitter.Next();
    nal2 := splitter.Next();
    nal3 := splitter.Next();
  }
}
