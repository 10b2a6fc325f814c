/**
 * The shared buffer header (LoggingShmemHdr) with its reader operations:
 * the drain loop of get_logged_data and reset_counters_in_shmem.  The lock
 * and the atomics are modelled sequentially: the lock is a no-op and the
 * compare-and-swap loop of the reset is a single assignment.
 */
module LoggingShmem {
  import opened Wrappers
  import opened ItemLayout
  import opened Ring

  const INT_MAX: int := 0x7FFF_FFFF

  /** A prefix of s splits at any point inside it. */
  lemma SplitPrefix(s: seq<byte>, i: int, j: int)
    requires 0 <= i <= j <= |s|
    ensures s[..j] == s[..i] + s[i..j]
  {
  }

  /** Sequence concatenation is associative. */
  lemma AppendAssoc<T>(a: seq<T>, b: seq<T>, c: seq<T>)
    ensures (a + b) + c == a + (b + c)
  {
  }

  /**
   * memcpy(dst + dstOff, src + srcOff, n) between distinct buffers: the n
   * bytes from dstOff on become those of src from srcOff on, and the bytes
   * before and after them keep their values.
   */
  method CopyBytes(dst: array<byte>, dstOff: int, src: array<byte>, srcOff: int, n: int)
    requires src != dst
    requires 0 <= n && 0 <= dstOff && dstOff + n <= dst.Length && 0 <= srcOff && srcOff + n <= src.Length
    modifies dst
    ensures dst[..dstOff] == old(dst[..dstOff])
    ensures dst[dstOff..dstOff + n] == src[srcOff..srcOff + n]
    ensures dst[dstOff + n..] == old(dst[dstOff + n..])
  {
    for i := 0 to n
      invariant forall j :: 0 <= j < dst.Length ==>
                  dst[j] == if dstOff <= j < dstOff + i then src[srcOff + j - dstOff] else old(dst[j])
    {
      dst[dstOff + i] := src[srcOff + i];
    }
  }

  class RingBuffer {
    /** The circular byte buffer of bufferSize bytes. */
    var data: array<byte>
    /** Write cursor (atomic in the source). */
    var endpos: int
    /** Read cursor. */
    var readpos: int
    /** Total size of the buffer. */
    var bufferSize: int
    /** The shared wraparound flag; neither the drain nor the reset touches it. */
    var wraparound: bool

    /** Cursors are offsets into data[0..bufferSize), and bufferSize is a positive C int. */
    ghost predicate Valid()
      reads this
    {
      data.Length == bufferSize && 0 < bufferSize <= INT_MAX &&
      0 <= readpos < bufferSize && 0 <= endpos < bufferSize
    }

    /**
     * Where a drain starts: the read cursor, wrapped when the write cursor is
     * behind it.  The loop then runs exactly when the two cursors differ.
     */
    ghost function StartCursor(): (c: Cursor)
      reads this
      ensures c.pos == readpos
      ensures Continues(c, endpos) <==> readpos != endpos
    {
      Cursor(readpos, endpos < readpos)
    }

    /** The items between the read cursor and the write cursor form a chain. */
    ghost predicate PendingWellFormed()
      reads this, data
      requires Valid()
    {
      Chain(data[..], StartCursor(), endpos)
    }

    /** The records a drain started now would emit. */
    ghost function Pending(): seq<LogRecord>
      reads this, data
      requires Valid() && PendingWellFormed()
    {
      Drained(data[..], StartCursor(), endpos)
    }

    /** A zeroed buffer with both cursors at 0. */
    constructor (size: int)
      requires 0 < size <= INT_MAX
      ensures Valid() && fresh(data) && bufferSize == size
      ensures readpos == 0 && endpos == 0 && !wraparound
      ensures PendingWellFormed() && Pending() == []
    {
      data := new byte[size](_ => 0);
      bufferSize := size;
      endpos, readpos := 0, 0;
      wraparound := false;
      new;
      NothingPendingAtUntil(data[..], 0);
    }

    /**
     * Discards everything pending: both cursors become 0; the bytes, the
     * buffer size and the shared wraparound flag are left as they were.
     */
    method Reset()
      requires Valid()
      modifies this`endpos, this`readpos
      ensures Valid() && endpos == 0 && readpos == 0
      ensures data == old(data) && bufferSize == old(bufferSize) && wraparound == old(wraparound)
      ensures PendingWellFormed() && Pending() == []
    {
      endpos := 0;
      readpos := 0;
      NothingPendingAtUntil(data[..], 0);
    }

    /**
     * The rest of an item that reaches the physical end: its tail up to the
     * end of the buffer, then its head from offset 0; the read cursor ends
     * up just past the head.
     */
    method CopyTwoParts(item: array<byte>, totallen: int)
      requires Valid() && item != data && item.Length == totallen
      requires readpos + ITEM_HDR_LEN <= bufferSize <= readpos + totallen < 2 * bufferSize
      requires item[..ITEM_HDR_LEN] == data[readpos..readpos + ITEM_HDR_LEN]
      modifies item, this`readpos
      ensures Valid() && readpos == old(readpos) + totallen - bufferSize
      ensures item[..] == data[old(readpos)..old(readpos) + ITEM_HDR_LEN] +
                          (data[old(readpos) + ITEM_HDR_LEN..] + data[..readpos])
    {
      ghost var p := readpos;
      ghost var headerBytes := data[p..p + ITEM_HDR_LEN];
      ghost var tail := data[p + ITEM_HDR_LEN..];
      var taillen := bufferSize - readpos - ITEM_HDR_LEN;
      CopyBytes(item, ITEM_HDR_LEN, data, readpos + ITEM_HDR_LEN, taillen);
      assert item[ITEM_HDR_LEN..ITEM_HDR_LEN + taillen] == tail;
      SplitPrefix(item[..], ITEM_HDR_LEN, ITEM_HDR_LEN + taillen);
      ghost var copied := item[..ITEM_HDR_LEN + taillen];
      assert copied == headerBytes + tail;
      readpos := readpos + totallen;
      readpos := readpos - bufferSize;
      CopyBytes(item, ITEM_HDR_LEN + taillen, data, 0, readpos);
      assert item[ITEM_HDR_LEN + taillen..] == data[..readpos];
      SplitPrefix(item[..], ITEM_HDR_LEN + taillen, item.Length);
      assert item[..] == copied + data[..readpos];
      AppendAssoc(headerBytes, tail, data[..readpos]);
    }

    /** The rest of an item that ends before the physical end, in one copy. */
    method CopyOnePart(item: array<byte>, totallen: int)
      requires Valid() && item != data && item.Length == totallen
      requires ITEM_HDR_LEN <= totallen && readpos + totallen < bufferSize
      requires item[..ITEM_HDR_LEN] == data[readpos..readpos + ITEM_HDR_LEN]
      modifies item, this`readpos
      ensures Valid() && readpos == old(readpos) + totallen
      ensures item[..] == data[old(readpos)..old(readpos) + ITEM_HDR_LEN] +
                          data[old(readpos) + ITEM_HDR_LEN..old(readpos) + totallen]
    {
      ghost var headerBytes := data[readpos..readpos + ITEM_HDR_LEN];
      CopyBytes(item, ITEM_HDR_LEN, data, readpos + ITEM_HDR_LEN, totallen - ITEM_HDR_LEN);
      assert item[ITEM_HDR_LEN..] == data[readpos + ITEM_HDR_LEN..readpos + totallen];
      SplitPrefix(item[..], ITEM_HDR_LEN, item.Length);
      readpos := readpos + totallen;
    }

    /**
     * Copies the item at the read cursor into a fresh zeroed block of
     * `totallen` bytes, in one part or in two when it reaches the physical
     * end, and moves the read cursor past it; the returned indicator is the
     * drain's wraparound indicator afterwards.
     */
    method ReadItem(w: bool) returns (item: array<byte>, w': bool)
      requires Valid() && readpos + ITEM_HDR_LEN <= bufferSize && FrameOkAt(data[..], readpos)
      modifies this`readpos
      ensures Valid() && fresh(item)
      ensures item.Length >= ITEM_HDR_LEN
      ensures item[..] == ItemAt(data[..], old(readpos))
      ensures item[..ITEM_HDR_LEN] == data[old(readpos)..old(readpos) + ITEM_HDR_LEN]
      ensures item[ITEM_HDR_LEN..] == PayloadAt(data[..], old(readpos))
      ensures item[..] == CircularRange(data[..], old(readpos), item.Length)
      ensures Cursor(readpos, w') == Advance(data[..], Cursor(old(readpos), w))
    {
      ghost var snap := data[..];
      ghost var p := readpos;
      var h := HeaderOf(data[readpos..readpos + ITEM_HDR_LEN]);
      assert h == HeaderAt(snap, p);
      item := new byte[h.totallen](_ => 0);
      ghost var headerBytes := snap[p..p + ITEM_HDR_LEN];
      CopyBytes(item, 0, data, readpos, ITEM_HDR_LEN);
      assert item[..ITEM_HDR_LEN] == headerBytes;
      w' := w;
      if readpos + h.totallen >= bufferSize {
        /* two parts */
        w' := false;
        CopyTwoParts(item, h.totallen);
        assert PayloadAt(snap, p) == snap[p + ITEM_HDR_LEN..] + snap[..readpos];
      } else {
        /* one part */
        CopyOnePart(item, h.totallen);
        assert PayloadAt(snap, p) == snap[p + ITEM_HDR_LEN..p + h.totallen];
      }
      assert data[..] == snap;
      ItemIsCircularRange(snap, p);
    }

    /**
     * One row of the drain: copies out the item at the read cursor and
     * decodes its fields, reporting the offset it was read from.
     */
    method ReadRecord(w: bool) returns (rec: LogRecord, w': bool)
      requires Valid() && readpos + ITEM_HDR_LEN <= bufferSize && FrameOkAt(data[..], readpos)
      modifies this`readpos
      ensures Valid()
      ensures rec == RecordAt(data[..], old(readpos))
      ensures Cursor(readpos, w') == Advance(data[..], Cursor(old(readpos), w))
    {
      var curpos := readpos;
      var item;
      item, w' := ReadItem(w);
      rec := DecodeItem(HeaderOf(item[..ITEM_HDR_LEN]), item[ITEM_HDR_LEN..], curpos);
    }

    /**
     * One pass of the drain loop: at a cursor too close to the physical end
     * for a header, it skips the padding and wraps to offset 0; otherwise it
     * reads the record there.  Either way the cursor moves one link along the
     * chain, and `out` is what that link contributes to the drained records.
     */
    method Step(w: bool, until: int) returns (out: seq<LogRecord>, w': bool)
      requires Valid() && Chain(data[..], Cursor(readpos, w), until) && Continues(Cursor(readpos, w), until)
      modifies this`readpos
      ensures Valid()
      ensures Cursor(readpos, w') == Advance(data[..], Cursor(old(readpos), w))
      ensures Chain(data[..], Cursor(readpos, w'), until)
      ensures 0 <= Remaining(bufferSize, Cursor(readpos, w'), until) < Remaining(bufferSize, Cursor(old(readpos), w), until)
      ensures old(readpos) + ITEM_HDR_LEN > bufferSize ==> out == [] && readpos == 0 && !w'
      ensures old(readpos) + ITEM_HDR_LEN <= bufferSize ==> out == [RecordAt(data[..], old(readpos))]
      ensures Drained(data[..], Cursor(old(readpos), w), until) == out + Drained(data[..], Cursor(readpos, w'), until)
    {
      ghost var snap := data[..];
      ghost var c := Cursor(readpos, w);
      DrainedStep(snap, c, until);
      if readpos + ITEM_HDR_LEN > bufferSize {
        /* padding up to the physical end */
        readpos := 0;
        w' := false;
        out := [];
      } else {
        var rec;
        rec, w' := ReadRecord(w);
        out := [rec];
      }
    }

    /**
     * Reads every item between the read cursor and a snapshot of the write
     * cursor, oldest first, and moves the read cursor up to that snapshot.
     */
    method Drain() returns (records: seq<LogRecord>)
      requires Valid() && PendingWellFormed()
      modifies this`readpos
      ensures Valid() && readpos == endpos
      ensures records == old(Pending())
      ensures PendingWellFormed() && Pending() == []
    {
      var until := endpos;
      var w := until < readpos;
      ghost var snap := data[..];
      ghost var start := Cursor(readpos, w);
      ghost var pending := Pending();
      assert pending == Drained(snap, start, until);
      records := [];
      while (!w && readpos < until) || (w && readpos > until)
        invariant Valid() && until == endpos && data[..] == snap
        invariant Chain(snap, Cursor(readpos, w), until)
        invariant records + Drained(snap, Cursor(readpos, w), until) == Drained(snap, start, until)
        decreases Remaining(bufferSize, Cursor(readpos, w), until)
      {
        ghost var done := records;
        var out;
        out, w := Step(w, until);
        records := records + out;
        AppendAssoc(done, out, Drained(snap, Cursor(readpos, w), until));
      }
      ChainEnd(snap, Cursor(readpos, w), until);
      assert records == pending;
      NothingPendingAtUntil(snap, until);
    }
  }
}
