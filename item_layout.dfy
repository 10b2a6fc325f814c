/**
 * The binary layout of one logged item (CollectedItem): a fixed header of
 * 32-bit ints and one char, followed by the message, detail and hint texts
 * back to back.  Ints are stored in host byte order, modelled here as
 * little-endian; `char` is modelled as signed.
 */
module ItemLayout {
  import opened Wrappers

  /** One byte of the shared buffer. */
  type byte = x: int | 0 <= x < 0x100

  /** Byte offsets of the header fields, with CHECK_DATA defined. */
  const MAGIC_OFFSET: int := 0
  const TOTALLEN_OFFSET: int := 4
  const ERRNO_OFFSET: int := 8
  const ELEVEL_OFFSET: int := 12
  const MESSAGE_LEN_OFFSET: int := 16
  const DETAIL_LEN_OFFSET: int := 20
  const HINT_LEN_OFFSET: int := 24

  /** offsetof(CollectedItem, data): the size of the header that precedes the texts. */
  const ITEM_HDR_LEN: int := HINT_LEN_OFFSET + 4

  /** Value of the `magic` field of an item. */
  const PG_ITEM_MAGIC: int := 0x06054AB5

  predicate IsInt32(x: int) { -0x8000_0000 <= x < 0x8000_0000 }

  predicate IsChar(x: int) { -0x80 <= x < 0x80 }

  /** The unsigned little-endian value of the four bytes at `off`. */
  function UInt32At(b: seq<byte>, off: int): (u: int)
    requires 0 <= off && off + 4 <= |b|
    ensures 0 <= u < 0x1_0000_0000
  {
    var b0, b1, b2, b3: int := b[off], b[off + 1], b[off + 2], b[off + 3];
    b0 + 0x100 * (b1 + 0x100 * (b2 + 0x100 * b3))
  }

  /** The `int` stored at `off` (two's complement). */
  function Int32At(b: seq<byte>, off: int): (x: int)
    requires 0 <= off && off + 4 <= |b|
    ensures IsInt32(x)
  {
    var u := UInt32At(b, off);
    if u < 0x8000_0000 then u else u - 0x1_0000_0000
  }

  /** The four bytes that store the `int` x. */
  function EncodeInt32(x: int): (b: seq<byte>)
    requires IsInt32(x)
    ensures |b| == 4
  {
    var u := if x < 0 then x + 0x1_0000_0000 else x;
    var q1 := u / 0x100;
    var q2 := q1 / 0x100;
    var q3 := q2 / 0x100;
    [u % 0x100, q1 % 0x100, q2 % 0x100, q3]
  }

  lemma Int32RoundTrip(x: int)
    requires IsInt32(x)
    ensures Int32At(EncodeInt32(x), 0) == x
  {
    var u := if x < 0 then x + 0x1_0000_0000 else x;
    var q1 := u / 0x100;
    var q2 := q1 / 0x100;
    var q3 := q2 / 0x100;
    assert u == u % 0x100 + 0x100 * q1;
    assert q1 == q1 % 0x100 + 0x100 * q2;
    assert q2 == q2 % 0x100 + 0x100 * q3;
    assert UInt32At(EncodeInt32(x), 0) == u;
  }

  /** Every four bytes are the encoding of the int they store. */
  lemma Int32Canonical(b: seq<byte>)
    requires |b| == 4
    ensures EncodeInt32(Int32At(b, 0)) == b
  {
    var u := UInt32At(b, 0);
    var b1, b2, b3: int := b[1], b[2], b[3];
    var q1 := b1 + 0x100 * (b2 + 0x100 * b3);
    var q2 := b2 + 0x100 * b3;
    assert u / 0x100 == q1 && u % 0x100 == b[0];
    assert q1 / 0x100 == q2 && q1 % 0x100 == b[1];
    assert q2 / 0x100 == b[3] && q2 % 0x100 == b[2];
  }

  /** The `char` stored in one byte. */
  function CharOf(b: byte): (c: int)
    ensures IsChar(c)
  {
    if b < 0x80 then b else b - 0x100
  }

  function EncodeChar(c: int): (b: byte)
    requires IsChar(c)
    ensures CharOf(b) == c
  {
    if c < 0 then c + 0x100 else c
  }

  /** The fixed header of a CollectedItem. */
  datatype Header = Header(
    magic: int,
    totallen: int,    // size of the whole item, header included
    savedErrno: int,
    elevel: int,
    messageLen: int,
    detailLen: int,
    hintLen: int)

  /** The field values fit their C types. */
  predicate Representable(h: Header)
  {
    IsInt32(h.magic) && IsInt32(h.totallen) && IsInt32(h.savedErrno) && IsChar(h.elevel) &&
    IsInt32(h.messageLen) && IsInt32(h.detailLen) && IsInt32(h.hintLen)
  }

  /** The header stored in the first ITEM_HDR_LEN bytes of b. */
  function HeaderOf(b: seq<byte>): (h: Header)
    requires |b| >= ITEM_HDR_LEN
    ensures Representable(h)
  {
    Header(Int32At(b, MAGIC_OFFSET), Int32At(b, TOTALLEN_OFFSET), Int32At(b, ERRNO_OFFSET),
           CharOf(b[ELEVEL_OFFSET]),
           Int32At(b, MESSAGE_LEN_OFFSET), Int32At(b, DETAIL_LEN_OFFSET), Int32At(b, HINT_LEN_OFFSET))
  }

  /** The header bytes, with the three alignment bytes after `elevel` zeroed. */
  function EncodeHeader(h: Header): (b: seq<byte>)
    requires Representable(h)
    ensures |b| == ITEM_HDR_LEN
  {
    EncodeInt32(h.magic) + EncodeInt32(h.totallen) + EncodeInt32(h.savedErrno) +
    [EncodeChar(h.elevel), 0, 0, 0] +
    EncodeInt32(h.messageLen) + EncodeInt32(h.detailLen) + EncodeInt32(h.hintLen)
  }

  /** The int at `off` depends only on the four bytes there. */
  lemma Int32AtSlice(b: seq<byte>, off: int)
    requires 0 <= off && off + 4 <= |b|
    ensures Int32At(b, off) == Int32At(b[off..off + 4], 0)
  {
  }

  /** Only the first ITEM_HDR_LEN bytes decide the header. */
  lemma HeaderOfPrefix(a: seq<byte>, b: seq<byte>)
    requires |a| >= ITEM_HDR_LEN && |b| >= ITEM_HDR_LEN
    requires a[..ITEM_HDR_LEN] == b[..ITEM_HDR_LEN]
    ensures HeaderOf(a) == HeaderOf(b)
  {
    assert forall i :: 0 <= i < ITEM_HDR_LEN ==> a[i] == a[..ITEM_HDR_LEN][i] == b[i];
  }

  lemma HeaderRoundTrip(h: Header)
    requires Representable(h)
    ensures HeaderOf(EncodeHeader(h)) == h
  {
    var b := EncodeHeader(h);
    assert b[MAGIC_OFFSET..MAGIC_OFFSET + 4] == EncodeInt32(h.magic);
    assert b[TOTALLEN_OFFSET..TOTALLEN_OFFSET + 4] == EncodeInt32(h.totallen);
    assert b[ERRNO_OFFSET..ERRNO_OFFSET + 4] == EncodeInt32(h.savedErrno);
    assert b[MESSAGE_LEN_OFFSET..MESSAGE_LEN_OFFSET + 4] == EncodeInt32(h.messageLen);
    assert b[DETAIL_LEN_OFFSET..DETAIL_LEN_OFFSET + 4] == EncodeInt32(h.detailLen);
    assert b[HINT_LEN_OFFSET..HINT_LEN_OFFSET + 4] == EncodeInt32(h.hintLen);
    Int32AtSlice(b, MAGIC_OFFSET);
    Int32AtSlice(b, TOTALLEN_OFFSET);
    Int32AtSlice(b, ERRNO_OFFSET);
    Int32AtSlice(b, MESSAGE_LEN_OFFSET);
    Int32AtSlice(b, DETAIL_LEN_OFFSET);
    Int32AtSlice(b, HINT_LEN_OFFSET);
    Int32RoundTrip(h.magic);
    Int32RoundTrip(h.totallen);
    Int32RoundTrip(h.savedErrno);
    Int32RoundTrip(h.messageLen);
    Int32RoundTrip(h.detailLen);
    Int32RoundTrip(h.hintLen);
  }

  /** The three text lengths are non-negative and the texts fit in a payload of n bytes. */
  predicate TextsFit(h: Header, n: int)
  {
    0 <= h.messageLen && 0 <= h.detailLen && 0 <= h.hintLen &&
    h.messageLen + h.detailLen + h.hintLen <= n
  }

  /**
   * A header the reader can follow in a buffer of `bufferSize` bytes: the
   * block covers at least its own header and at most the whole buffer, and
   * the texts lie inside its payload.
   */
  predicate WellFormedHeader(h: Header, bufferSize: int)
  {
    ITEM_HDR_LEN <= h.totallen <= bufferSize && TextsFit(h, h.totallen - ITEM_HDR_LEN)
  }

  /** One row of the drain: level, errno, message, detail, hint, position. */
  datatype LogRecord = LogRecord(
    level: int,
    errno: int,
    message: seq<byte>,
    detail: Option<seq<byte>>,
    hint: Option<seq<byte>>,
    position: int)

  /**
   * The record an item describes, from its header and its payload (the
   * bytes after the header): the texts are cut from the payload by the
   * length fields, and a zero length reads as NULL.
   */
  function DecodeItem(h: Header, payload: seq<byte>, position: int): (r: LogRecord)
    requires TextsFit(h, |payload|)
    ensures r.level == h.elevel && r.errno == h.savedErrno && r.position == position
    ensures |r.message| == h.messageLen && TextLen(r.detail) == h.detailLen && TextLen(r.hint) == h.hintLen
    ensures r.detail.None? <==> h.detailLen == 0
    ensures r.hint.None? <==> h.hintLen == 0
  {
    var message := payload[..h.messageLen];
    var detail := if h.detailLen != 0 then Some(payload[h.messageLen..h.messageLen + h.detailLen]) else None;
    var hintStart := if h.detailLen != 0 then h.messageLen + h.detailLen else h.messageLen;
    var hint := if h.hintLen != 0 then Some(payload[hintStart..hintStart + h.hintLen]) else None;
    LogRecord(h.elevel, h.savedErrno, message, detail, hint, position)
  }

  /**
   * The other direction of the payload codec: the decoded texts stored back
   * to back are exactly the bytes the three lengths cover at the start of
   * the payload.
   */
  lemma DecodeThenEncodePayload(h: Header, payload: seq<byte>, position: int)
    requires TextsFit(h, |payload|)
    ensures EncodePayload(DecodeItem(h, payload, position)) ==
            payload[..h.messageLen + h.detailLen + h.hintLen]
  {
  }

  /** Byte count stored for an optional text (0 for NULL). */
  function TextLen(t: Option<seq<byte>>): nat
  {
    if t.Some? then |t.value| else 0
  }

  function TextBytes(t: Option<seq<byte>>): (b: seq<byte>)
    ensures |b| == TextLen(t)
  {
    if t.Some? then t.value else []
  }

  /** The record's fields fit the header's C types. */
  predicate Encodable(r: LogRecord)
  {
    IsChar(r.level) && IsInt32(r.errno) &&
    ITEM_HDR_LEN + |r.message| + TextLen(r.detail) + TextLen(r.hint) < 0x8000_0000
  }

  /** The header an item for `r` carries. */
  function HeaderFor(r: LogRecord): (h: Header)
    requires Encodable(r)
    ensures Representable(h)
  {
    Header(PG_ITEM_MAGIC, ITEM_HDR_LEN + |r.message| + TextLen(r.detail) + TextLen(r.hint),
           r.errno, r.level, |r.message|, TextLen(r.detail), TextLen(r.hint))
  }

  /** The payload for a record: message, detail and hint with no separators. */
  function EncodePayload(r: LogRecord): seq<byte>
  {
    r.message + TextBytes(r.detail) + TextBytes(r.hint)
  }

  /** The whole item for a record: its header followed by its payload. */
  function EncodeItem(r: LogRecord): (b: seq<byte>)
    requires Encodable(r)
  {
    EncodeHeader(HeaderFor(r)) + EncodePayload(r)
  }

  /** The payload of an encoded record decodes back to it when no present text is empty. */
  lemma PayloadRoundTrip(r: LogRecord, position: int)
    requires Encodable(r)
    requires r.detail != Some([]) && r.hint != Some([])
    ensures TextsFit(HeaderFor(r), |EncodePayload(r)|)
    ensures DecodeItem(HeaderFor(r), EncodePayload(r), position) == r.(position := position)
  {
    var payload := EncodePayload(r);
    var ml, dl := |r.message|, TextLen(r.detail);
    assert payload[..ml] == r.message;
    assert payload[ml..ml + dl] == TextBytes(r.detail);
    assert payload[ml + dl..ml + dl + TextLen(r.hint)] == TextBytes(r.hint);
  }

  /**
   * An encoded item read back (header from its first ITEM_HDR_LEN bytes,
   * payload from the rest) gives its record, as long as a present detail or
   * hint is non-empty; its `totallen` is its length and its `magic` is
   * PG_ITEM_MAGIC.
   */
  lemma ItemRoundTrip(r: LogRecord, position: int)
    requires Encodable(r)
    requires r.detail != Some([]) && r.hint != Some([])
    ensures var b := EncodeItem(r);
      && |b| >= ITEM_HDR_LEN
      && HeaderOf(b[..ITEM_HDR_LEN]) == HeaderFor(r)
      && HeaderFor(r).totallen == |b|
      && HeaderFor(r).magic == PG_ITEM_MAGIC
      && b[ITEM_HDR_LEN..] == EncodePayload(r)
      && TextsFit(HeaderFor(r), |b| - ITEM_HDR_LEN)
      && DecodeItem(HeaderFor(r), b[ITEM_HDR_LEN..], position) == r.(position := position)
  {
    var b := EncodeItem(r);
    assert b[..ITEM_HDR_LEN] == EncodeHeader(HeaderFor(r));
    assert b[ITEM_HDR_LEN..] == EncodePayload(r);
    HeaderRoundTrip(HeaderFor(r));
    PayloadRoundTrip(r, position);
  }

  /**
   * Under this encoding (each length counts the text's bytes and no
   * terminator), a present but empty detail is stored with length 0 and so
   * reads back as NULL.
   */
  lemma EmptyDetailReadsAsNull(r: LogRecord, position: int)
    requires Encodable(r) && r.detail == Some([])
    ensures TextsFit(HeaderFor(r), |EncodePayload(r)|)
    ensures DecodeItem(HeaderFor(r), EncodePayload(r), position).detail == None
  {
  }
}
