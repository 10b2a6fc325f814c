/**
 * Cursor arithmetic of the reader over the circular byte buffer, as pure
 * functions of the buffer contents (`data`, whose length is buffer_size).
 * One drain step either skips the padding at the physical end, or reads the
 * item at the read cursor, in one part or in two parts when it reaches the
 * end, and advances the cursor past it.  Chain says that the items from the
 * read cursor tile the pending region exactly up to the snapshot `until`
 * of the write cursor; Drained is the sequence of records a drain emits.
 */
module Ring {
  import opened Wrappers
  import opened ItemLayout

  /** The read cursor together with the drain's local wraparound indicator. */
  datatype Cursor = Cursor(pos: int, wrapped: bool)

  /** The condition of the drain loop; it never holds with the cursor at `until`. */
  predicate Continues(c: Cursor, until: int)
    ensures Continues(c, until) ==> c.pos != until
  {
    (!c.wrapped && c.pos < until) || (c.wrapped && c.pos > until)
  }

  /** Bytes still to be read before the cursor reaches `until`. */
  function Remaining(size: int, c: Cursor, until: int): int
  {
    if c.wrapped then size - c.pos + until else until - c.pos
  }

  /** Reducing a value below twice the modulus subtracts it at most once. */
  lemma ModOnce(x: int, m: int)
    requires 0 < m && 0 <= x < 2 * m
    ensures x % m == (if x < m then x else x - m)
  {
    if x < m {
      assert x == m * 0 + x;
    } else {
      assert x == m * 1 + (x - m);
    }
  }

  /** The header stored at offset p, which must be read contiguously. */
  function HeaderAt(data: seq<byte>, p: int): Header
    requires 0 <= p && p + ITEM_HDR_LEN <= |data|
  {
    HeaderOf(data[p..p + ITEM_HDR_LEN])
  }

  /** If a header fits before the physical end at p, it is one the reader can follow. */
  predicate FrameOkAt(data: seq<byte>, p: int)
    requires 0 <= p
  {
    p + ITEM_HDR_LEN <= |data| ==> WellFormedHeader(HeaderAt(data, p), |data|)
  }

  /**
   * The cursor after one drain step.  With no room for a header before the
   * end the step skips to offset 0; otherwise the cursor moves on by
   * `totallen` modulo the buffer size, and the indicator is cleared exactly
   * when the item reaches the physical end.
   */
  function Advance(data: seq<byte>, c: Cursor): (n: Cursor)
    requires 0 <= c.pos < |data| && FrameOkAt(data, c.pos)
    ensures 0 <= n.pos < |data|
    ensures c.pos + ITEM_HDR_LEN > |data| ==> n == Cursor(0, false)
    ensures c.pos + ITEM_HDR_LEN <= |data| ==>
              n.pos == (c.pos + HeaderAt(data, c.pos).totallen) % |data| &&
              (n.wrapped <==> c.wrapped && c.pos + HeaderAt(data, c.pos).totallen < |data|)
  {
    if c.pos + ITEM_HDR_LEN > |data| then
      Cursor(0, false)
    else
      var totallen := HeaderAt(data, c.pos).totallen;
      ModOnce(c.pos + totallen, |data|);
      if c.pos + totallen >= |data| then
        Cursor(c.pos + totallen - |data|, false)
      else
        Cursor(c.pos + totallen, c.wrapped)
  }

  /**
   * The payload of the item at p as the reader copies it: in one part, or,
   * when the item reaches the physical end, the tail up to the end followed
   * by the head of the buffer up to the new read cursor.
   */
  function PayloadAt(data: seq<byte>, p: int): (payload: seq<byte>)
    requires 0 <= p && p + ITEM_HDR_LEN <= |data| && FrameOkAt(data, p)
    ensures |payload| == HeaderAt(data, p).totallen - ITEM_HDR_LEN
  {
    var totallen := HeaderAt(data, p).totallen;
    if p + totallen >= |data| then
      data[p + ITEM_HDR_LEN..] + data[..p + totallen - |data|]
    else
      data[p + ITEM_HDR_LEN..p + totallen]
  }

  /** The private copy of the item at p: its header bytes, then its payload. */
  function ItemAt(data: seq<byte>, p: int): (item: seq<byte>)
    requires 0 <= p && p + ITEM_HDR_LEN <= |data| && FrameOkAt(data, p)
    ensures |item| == HeaderAt(data, p).totallen
    ensures item[..ITEM_HDR_LEN] == data[p..p + ITEM_HDR_LEN]
    ensures item[ITEM_HDR_LEN..] == PayloadAt(data, p)
  {
    data[p..p + ITEM_HDR_LEN] + PayloadAt(data, p)
  }

  /**
   * The record emitted for the item at p: it carries p as its position and
   * the level and errno of the header there, and its texts fit in the item.
   */
  function RecordAt(data: seq<byte>, p: int): (r: LogRecord)
    requires 0 <= p && p + ITEM_HDR_LEN <= |data| && FrameOkAt(data, p)
    ensures r.position == p && r.level == HeaderAt(data, p).elevel && r.errno == HeaderAt(data, p).savedErrno
    ensures ITEM_HDR_LEN + |r.message| + TextLen(r.detail) + TextLen(r.hint) <= HeaderAt(data, p).totallen
  {
    DecodeItem(HeaderAt(data, p), PayloadAt(data, p), p)
  }

  /** The n bytes starting at `start`, taken modulo the buffer size. */
  function CircularRange(data: seq<byte>, start: int, n: nat): (b: seq<byte>)
    requires |data| > 0
    ensures |b| == n
  {
    seq(n, i requires 0 <= i < n => data[(start + i) % |data|])
  }

  /** A two-part copy (header, tail up to the end, head from 0) is the circular range. */
  lemma TwoPartCopyIsCircular(data: seq<byte>, p: int, totallen: int)
    requires 0 <= p && p + ITEM_HDR_LEN <= |data| && ITEM_HDR_LEN <= totallen <= |data|
    requires p + totallen >= |data|
    ensures data[p..p + ITEM_HDR_LEN] + (data[p + ITEM_HDR_LEN..] + data[..p + totallen - |data|])
            == CircularRange(data, p, totallen)
  {
    var size := |data|;
    var copy := data[p..p + ITEM_HDR_LEN] + (data[p + ITEM_HDR_LEN..] + data[..p + totallen - size]);
    var range := CircularRange(data, p, totallen);
    assert |copy| == totallen;
    forall i | 0 <= i < totallen
      ensures copy[i] == range[i]
    {
      ModOnce(p + i, size);
      assert range[i] == data[(p + i) % size];
      if i < size - p {
        assert copy[i] == data[p + i];
      } else {
        assert copy[i] == data[p + i - size];
      }
    }
  }

  /** A one-part copy (header, then the payload before the end) is the circular range. */
  lemma OnePartCopyIsCircular(data: seq<byte>, p: int, totallen: int)
    requires 0 <= p && p + ITEM_HDR_LEN <= totallen + p < |data| && ITEM_HDR_LEN <= totallen
    ensures data[p..p + ITEM_HDR_LEN] + data[p + ITEM_HDR_LEN..p + totallen]
            == CircularRange(data, p, totallen)
  {
    var size := |data|;
    var copy := data[p..p + ITEM_HDR_LEN] + data[p + ITEM_HDR_LEN..p + totallen];
    var range := CircularRange(data, p, totallen);
    assert |copy| == totallen;
    forall i | 0 <= i < totallen
      ensures copy[i] == range[i]
    {
      ModOnce(p + i, size);
      assert range[i] == data[(p + i) % size];
      assert copy[i] == data[p + i];
    }
  }

  /** The copied item is exactly the circular byte range [p, p + totallen). */
  lemma ItemIsCircularRange(data: seq<byte>, p: int)
    requires 0 <= p && p + ITEM_HDR_LEN <= |data| && FrameOkAt(data, p)
    ensures ItemAt(data, p) == CircularRange(data, p, HeaderAt(data, p).totallen)
  {
    var totallen := HeaderAt(data, p).totallen;
    if p + totallen >= |data| {
      TwoPartCopyIsCircular(data, p, totallen);
    } else {
      OnePartCopyIsCircular(data, p, totallen);
    }
  }

  /**
   * The items from cursor c tile the pending region up to `until`: every
   * step the loop takes is over a well-formed item (or the end padding),
   * strictly decreases the bytes still to read, never passes `until`, and
   * the loop stops with the cursor exactly at `until`.  So `until` itself is
   * an offset of the buffer, and no more bytes remain to read than it holds.
   */
  ghost predicate Chain(data: seq<byte>, c: Cursor, until: int)
    ensures Chain(data, c, until) ==> 0 <= until < |data|
    ensures Chain(data, c, until) ==> 0 <= Remaining(|data|, c, until) <= |data|
    decreases Remaining(|data|, c, until)
  {
    0 <= c.pos < |data| &&
    if !Continues(c, until) then
      c.pos == until
    else
      FrameOkAt(data, c.pos) &&
      var n := Advance(data, c);
      0 <= Remaining(|data|, n, until) < Remaining(|data|, c, until) &&
      Chain(data, n, until)
  }

  /**
   * The records a drain emits from cursor c, oldest first.  Each one takes
   * at least a header's worth of the bytes still to read.
   */
  function Drained(data: seq<byte>, c: Cursor, until: int): (rs: seq<LogRecord>)
    requires Chain(data, c, until)
    ensures |rs| * ITEM_HDR_LEN <= Remaining(|data|, c, until)
    decreases Remaining(|data|, c, until)
  {
    if !Continues(c, until) then
      []
    else
      var n := Advance(data, c);
      var rest := Drained(data, n, until);
      if c.pos + ITEM_HDR_LEN > |data| then
        rest
      else
        ItemStepConsumesItem(data, c, until);
        assert (|rest| + 1) * ITEM_HDR_LEN == |rest| * ITEM_HDR_LEN + ITEM_HDR_LEN;
        [RecordAt(data, c.pos)] + rest
  }

  /** A step of a chain over an item consumes the item's `totallen` bytes. */
  lemma ItemStepConsumesItem(data: seq<byte>, c: Cursor, until: int)
    requires Chain(data, c, until) && Continues(c, until)
    ensures c.pos + ITEM_HDR_LEN <= |data| ==>
              Remaining(|data|, Advance(data, c), until) + HeaderAt(data, c.pos).totallen
              == Remaining(|data|, c, until)
  {
  }

  /** One step of the drain: the record at the cursor (none for padding), then the rest. */
  lemma DrainedStep(data: seq<byte>, c: Cursor, until: int)
    requires Chain(data, c, until) && Continues(c, until)
    ensures FrameOkAt(data, c.pos) && Chain(data, Advance(data, c), until)
    ensures Drained(data, c, until) ==
            (if c.pos + ITEM_HDR_LEN > |data| then [] else [RecordAt(data, c.pos)]) +
            Drained(data, Advance(data, c), until)
  {
  }

  /** Offset p lies in the pending region from cursor c to `until`. */
  predicate InPending(size: int, c: Cursor, until: int, p: int)
  {
    if c.wrapped then c.pos <= p < size || 0 <= p < until else c.pos <= p < until
  }

  /**
   * r is the record of the item at a header-contiguous offset in the pending
   * region from c to `until`, with that offset as its position (the bytes it
   * was decoded from are then the circular range ItemIsCircularRange names).
   */
  ghost predicate IsItemRecord(data: seq<byte>, c: Cursor, until: int, r: LogRecord)
  {
    && InPending(|data|, c, until, r.position)
    && 0 <= r.position && r.position + ITEM_HDR_LEN <= |data|
    && FrameOkAt(data, r.position)
    && r == RecordAt(data, r.position)
  }

  /** The record read at the cursor itself is an item record of its pending region. */
  lemma HeadIsItemRecord(data: seq<byte>, c: Cursor, until: int)
    requires Chain(data, c, until) && Continues(c, until)
    requires c.pos + ITEM_HDR_LEN <= |data|
    ensures IsItemRecord(data, c, until, RecordAt(data, c.pos))
  {
  }

  /** A step of a chain keeps to the pending region of the cursor it starts from. */
  lemma StepKeepsItemRecord(data: seq<byte>, c: Cursor, until: int, r: LogRecord)
    requires Chain(data, c, until) && Continues(c, until)
    requires IsItemRecord(data, Advance(data, c), until, r)
    ensures IsItemRecord(data, c, until, r)
  {
    var n := Advance(data, c);
    assert InPending(|data|, n, until, r.position);
    assert 0 <= Remaining(|data|, n, until) < Remaining(|data|, c, until);
  }

  /** Every record of rs is an item record of the pending region from c. */
  ghost predicate AllItemRecords(data: seq<byte>, c: Cursor, until: int, rs: seq<LogRecord>)
  {
    forall k :: 0 <= k < |rs| ==> IsItemRecord(data, c, until, rs[k])
  }

  /** Item records of the region after a step are item records of the region before it. */
  lemma StepKeepsItemRecords(data: seq<byte>, c: Cursor, until: int, rs: seq<LogRecord>)
    requires Chain(data, c, until) && Continues(c, until)
    requires AllItemRecords(data, Advance(data, c), until, rs)
    ensures AllItemRecords(data, c, until, rs)
  {
    forall k | 0 <= k < |rs|
      ensures IsItemRecord(data, c, until, rs[k])
    {
      StepKeepsItemRecord(data, c, until, rs[k]);
    }
  }

  /** Item records stay item records with one more in front. */
  lemma ConsItemRecords(data: seq<byte>, c: Cursor, until: int, r: LogRecord, rs: seq<LogRecord>)
    requires IsItemRecord(data, c, until, r) && AllItemRecords(data, c, until, rs)
    ensures AllItemRecords(data, c, until, [r] + rs)
  {
    var all := [r] + rs;
    forall k | 0 <= k < |all|
      ensures IsItemRecord(data, c, until, all[k])
    {
      if k > 0 {
        assert all[k] == rs[k - 1];
      }
    }
  }

  /** Every record a drain emits is the record of an item of the pending region. */
  lemma {:induction false} DrainedRecordsAreItems(data: seq<byte>, c: Cursor, until: int)
    requires Chain(data, c, until)
    ensures AllItemRecords(data, c, until, Drained(data, c, until))
    decreases Remaining(|data|, c, until)
  {
    if Continues(c, until) {
      var n := Advance(data, c);
      DrainedRecordsAreItems(data, n, until);
      DrainedStep(data, c, until);
      StepKeepsItemRecords(data, c, until, Drained(data, n, until));
      if c.pos + ITEM_HDR_LEN <= |data| {
        HeadIsItemRecord(data, c, until);
        ConsItemRecords(data, c, until, RecordAt(data, c.pos), Drained(data, n, until));
      }
    }
  }

  /** A chain whose cursor does not continue has arrived at `until` and emits nothing more. */
  lemma ChainEnd(data: seq<byte>, c: Cursor, until: int)
    requires Chain(data, c, until) && !Continues(c, until)
    ensures c.pos == until && Drained(data, c, until) == []
  {
  }

  /** A cursor already at `until` (and not wrapped) has nothing pending. */
  lemma NothingPendingAtUntil(data: seq<byte>, until: int)
    requires 0 <= until < |data|
    ensures Chain(data, Cursor(until, false), until)
    ensures Drained(data, Cursor(until, false), until) == []
  {
  }

  /** Where a circular range does not reach the physical end, it is a plain slice. */
  lemma CircularRangePrefix(data: seq<byte>, p: int, b: seq<byte>, n: int)
    requires 0 <= p < |data| && 0 <= n <= |b| && p + n <= |data|
    requires CircularRange(data, p, |b|) == b
    ensures data[p..p + n] == b[..n]
  {
    forall i | 0 <= i < n
      ensures data[p..p + n][i] == b[..n][i]
    {
      ModOnce(p + i, |data|);
      assert b[i] == CircularRange(data, p, |b|)[i];
    }
  }

  /**
   * An encoded item laid into the buffer as the circular range starting at
   * p, including one that straddles the physical end, is read back as its
   * record at position p.
   */
  lemma PlacedItemReadsBack(data: seq<byte>, p: int, r: LogRecord)
    requires Encodable(r) && r.detail != Some([]) && r.hint != Some([])
    requires 0 <= p && p + ITEM_HDR_LEN <= |data| && |EncodeItem(r)| <= |data|
    requires CircularRange(data, p, |EncodeItem(r)|) == EncodeItem(r)
    ensures FrameOkAt(data, p)
    ensures HeaderAt(data, p).totallen == |EncodeItem(r)|
    ensures RecordAt(data, p) == r.(position := p)
  {
    var b := EncodeItem(r);
    ItemRoundTrip(r, p);
    CircularRangePrefix(data, p, b, ITEM_HDR_LEN);
    assert HeaderAt(data, p) == HeaderFor(r);
    ItemIsCircularRange(data, p);
    assert PayloadAt(data, p) == ItemAt(data, p)[ITEM_HDR_LEN..] == b[ITEM_HDR_LEN..];
  }
}
