# pg_logging reader side, in Dafny

pg_logging collects PostgreSQL log events into one fixed-size circular buffer
in shared memory. This project models the reader side of that buffer:

- the binary layout of one logged item (`CollectedItem`);
- the shared header (`LoggingShmemHdr`) with its write cursor `endpos`, read
  cursor `readpos`, `buffer_size` and `wraparound` flag;
- the drain loop of `get_logged_data`, which walks `readpos` up to a snapshot
  of `endpos`. It skips the padding at the physical end, copies each item out
  in one or two parts, and emits one record per item;
- `reset_counters_in_shmem`;
- the two conversions of the error-level type: `get_errlevel_name` (level to
  name) and `errlevel_in` (name to level).

Modules:

- `Wrappers` (wrappers.dfy). `Option` and `Result`.
- `ItemLayout` (item_layout.dfy). The item header and its byte encoding:
  ints are 4-byte little-endian two's complement, `elevel` is a signed `char`,
  and `ITEM_HDR_LEN` is 28. Also the decoding of the texts and the encoder
  used to state round trips.
- `Ring` (ring.dfy). Pure functions of the buffer bytes:
  - one drain step (`Advance`);
  - the item copy as the reader makes it (`ItemAt`, `PayloadAt`) and the
    record it produces (`RecordAt`);
  - the ghost predicate `Chain`: the items from the read cursor tile the
    pending region exactly up to `until`;
  - `Drained`: the records a drain emits.
- `LoggingShmem` (shmem.dfy). The class `RingBuffer`, holding the shared
  header fields and the byte array. It has methods for the reset, the item
  copy (`memcpy` into a fresh zeroed block), one pass of the drain loop, and
  the drain.
- `ErrorLevels` (errlevel.dfy). The 22-slot name search and the name parser.

Three behaviours of the code are easy to misread:

- The reset sets `endpos` and `readpos` to 0 and does not touch the shared
  `wraparound` flag (`RingBuffer.Reset` says it is unchanged).
- The drain never reads the shared `wraparound` flag. It uses a local flag,
  initialised to `until < readpos`.
- A zero `detail_len` or `hint_len` reads as NULL. With an encoding whose
  lengths count no terminator, a present but empty detail therefore reads
  back as NULL (`EmptyDetailReadsAsNull`).

Also, the drain never checks the `magic` field, so there is no framing error.

The producer that writes items is not in the modelled code. What the reader
relies on about it is the precondition `Chain`: every item the drain reaches
has a well-formed header (`ITEM_HDR_LEN <= totallen <= buffer_size`, with its
texts inside its payload), and the steps land exactly on `until`.
`Ring.PlacedItemReadsBack` states that an item laid into the buffer as a
circular byte range reads back as its record.

## Model

| member | source | states |
|---|---|---|
| ItemLayout.Int32At | pg_logging.h:15-24 | the `int` stored at an offset is a 32-bit two's-complement value |
| ItemLayout.Int32RoundTrip | pg_logging.h:15-24 | reading back the four bytes written for a 32-bit int gives that int |
| ItemLayout.Int32Canonical | pg_logging.h:15-24 | every four bytes are exactly the encoding of the int they store (the other direction of the round trip) |
| ItemLayout.CharOf | pg_logging.h:19 | the `char elevel` field is a signed byte in [-128, 128) |
| ItemLayout.EncodeChar | pg_logging.h:19 | writing a char value and reading it back gives the same value |
| ItemLayout.HeaderOf | pg_logging.h:12-30 | the fixed header read from the first ITEM_HDR_LEN bytes has every field within its C type |
| ItemLayout.HeaderOfPrefix | pl_funcs.c:140-142 | only the ITEM_HDR_LEN header bytes decide the header, so the header copied into the fresh block equals the one in the buffer |
| ItemLayout.HeaderRoundTrip | pg_logging.h:12-30 | writing any representable header and reading it back gives the same header |
| ItemLayout.DecodeItem | pl_funcs.c:165-184 | the record takes level and errno from the header; its message, detail and hint have the header's three lengths, and a detail or hint is NULL exactly when its length is 0 |
| ItemLayout.DecodeThenEncodePayload | pl_funcs.c:165-184 | the decoded texts, concatenated, are exactly the bytes the three lengths cover at the start of the payload (the partner of `PayloadRoundTrip`) |
| ItemLayout.PayloadRoundTrip | pg_logging.h:21-27 | message, detail and hint stored back to back and cut by their lengths give the original texts when no present text is empty |
| ItemLayout.ItemRoundTrip | pg_logging.h:12-30 | an encoded item has `totallen` equal to its length and `magic` equal to PG_ITEM_MAGIC; its header decodes back, and header plus payload decode to the original record |
| ItemLayout.EmptyDetailReadsAsNull | pl_funcs.c:171-178 | under this encoding (lengths without a terminator), a present but empty detail is stored with length 0 and reads back as NULL |
| Ring.Continues | pl_funcs.c:115-116 | the loop condition never holds with the cursor at `until` |
| Ring.Advance | pl_funcs.c:125-159 | the new read cursor stays in [0, buffer_size). Padding moves it to 0 with the flag cleared. Otherwise it becomes `(readpos + totallen) mod buffer_size`, and the flag is cleared exactly when the item reaches the physical end |
| Ring.PayloadAt | pl_funcs.c:143-159 | the copied payload has `totallen - ITEM_HDR_LEN` bytes |
| Ring.ItemAt | pl_funcs.c:139-159 | the private copy has `totallen` bytes: the header bytes at `readpos`, then the payload |
| Ring.RecordAt | pl_funcs.c:132-184 | the emitted record carries the starting offset as its position, and the header's `elevel` and `saved_errno`; its texts fit inside the item's `totallen` bytes |
| Ring.TwoPartCopyIsCircular | pl_funcs.c:145-153 | header, then the tail up to buffer_size, then the head from 0 to the new readpos, is the circular range of `totallen` bytes from `readpos` |
| Ring.OnePartCopyIsCircular | pl_funcs.c:154-159 | header and one contiguous payload copy is that circular range |
| Ring.ItemIsCircularRange | pl_funcs.c:139-159 | the reader's copy of any item is the circular byte range [readpos, readpos + totallen) modulo buffer_size |
| Ring.Chain | pl_funcs.c:115-184 | when the items from a cursor tile the pending region, `until` is an offset of the buffer and the bytes left to read are at most buffer_size |
| Ring.ItemStepConsumesItem | pl_funcs.c:139-159 | a loop pass over an item leaves exactly `totallen` fewer bytes to read |
| Ring.Drained | pl_funcs.c:115-184 | a drain emits at most one record per ITEM_HDR_LEN bytes pending |
| Ring.DrainedRecordsAreItems | pl_funcs.c:115-184 | every emitted record is the record of a well-formed item that starts at its position inside the pending region |
| Ring.NothingPendingAtUntil | pl_funcs.c:84-86 | with `readpos == until` the local flag is false, the loop does not run and no record is emitted |
| Ring.PlacedItemReadsBack | pl_funcs.c:139-184 | an encoded item laid into the buffer as a circular range, possibly straddling the end, is read back as its record at that offset |
| LoggingShmem.CopyBytes | pl_funcs.c:142-158 | `memcpy` between distinct buffers: the n destination bytes become the source bytes, and the bytes before and after are unchanged |
| LoggingShmem.RingBuffer.StartCursor | pl_funcs.c:84-86 | the drain starts at readpos, and its loop runs at least once exactly when readpos differs from the snapshot of endpos |
| LoggingShmem.RingBuffer.Reset | pl_funcs.c:40-54 | both cursors become 0; the bytes, buffer_size and the shared wraparound flag are unchanged; a drain then emits nothing |
| LoggingShmem.RingBuffer.CopyTwoParts | pl_funcs.c:145-153 | copies the tail then the head, and readpos becomes `readpos + totallen - buffer_size` |
| LoggingShmem.RingBuffer.CopyOnePart | pl_funcs.c:154-159 | copies `totallen - ITEM_HDR_LEN` payload bytes in one part, and readpos grows by totallen |
| LoggingShmem.RingBuffer.ReadItem | pl_funcs.c:132-159 | the fresh block holds exactly the header and the payload of the item at the old readpos, which is the circular range of its totallen bytes; cursor and flag move as one step of `Advance` |
| LoggingShmem.RingBuffer.ReadRecord | pl_funcs.c:132-184 | the record built from the copy equals the record of the item at the old readpos |
| LoggingShmem.RingBuffer.Step | pl_funcs.c:115-184 | one loop pass keeps readpos in range, keeps the chain and strictly shrinks the bytes left; it emits nothing for padding (readpos 0, flag cleared) and the item's record otherwise |
| LoggingShmem.RingBuffer.Drain | pl_funcs.c:63-195 | emits exactly the pending records, oldest first, and leaves readpos equal to the snapshot of endpos, so a second drain emits nothing |
| ErrorLevels.NameFrom | pl_funcs.c:27-38 | succeeds exactly when some slot 0..21 has a non-NULL name for the level; the result is the name of the first such slot; otherwise "Invalid error level name" |
| ErrorLevels.GetErrlevelName | pl_funcs.c:27-38 | the `for` loop over slots 0..21 computes that first-match search |
| ErrorLevels.ErrlevelIn | pl_funcs.c:203-218 | the empty name is refused with "Empty status name"; a name the lookup does not know is refused with that name; otherwise the lookup's level is returned |
| ErrorLevels.ParseOfLevelName | pl_funcs.c:203-218 | parsing the name `get_errlevel_name` prints for a level gives that level, given a sound and complete lookup over unique, non-empty names |
| ErrorLevels.ParsedLevelHasName | pl_funcs.c:203-218 | every level a name parses to has a name `get_errlevel_name` finds, given a sound lookup |
| ErrorLevels.NameOfParsedLevel | pl_funcs.c:203-218 | when no two names share a level, `get_errlevel_name` of a parsed level gives back the parsed name |

## Left out

- Concurrency. The LWLock, the `pg_atomic_*` operations and `pg_read_barrier` are modelled sequentially: the lock is a no-op and nothing runs beside the drain or the reset.
- LoggingShmem.RingBuffer.Reset: the compare-and-swap retry loop on `endpos` is a single assignment, which is what it amounts to without concurrent writers.
- LoggingShmem.RingBuffer.Drain: the set-returning-function machinery (first-call setup, memory contexts, tuple descriptors, `heap_form_tuple`, one row per call) is replaced by one method that returns all the rows as a sequence. `startpos` is saved by the source but never used.
- The producer (append path) is not part of this model. Its guarantees enter only as the ghost precondition `Chain`.
- ItemLayout.EncodeItem / ItemLayout.HeaderFor: the encoder stores each text's length without a terminating NUL and sets `totallen` to the unpadded sum of header and texts. The producer is not in the modelled code, so its convention is not fixed by it; the reader's use of `CStringGetTextDatum` suggests the stored lengths may count a terminator. The round trips and `EmptyDetailReadsAsNull` hold for this encoding.
- The `magic` field is kept as a header field but never checked, as in the drain.
- `CStringGetTextDatum`'s scan for a terminating NUL is not modelled. Each text is the byte slice its length field gives.
- `AssertPointerAlignment` is a platform alignment check and is not modelled.
- Host byte order is modelled as little-endian and `char` as signed.
- `buffer_size` is bounded by INT_MAX, so the `uint32` cursor sums never wrap.
- ErrorLevels.ErrlevelIn: `get_errlevel` (a generated perfect-hash function) and the contents of `errlevel_wordlist` are not part of this model. The lookup is a parameter, and the round-trip lemmas state what they assume about it (`LookupSound`, `LookupComplete`, `UniqueNames`, `NamesNonEmpty`, `UniqueCodes`). The table is any sequence with at least 22 slots.
- `errlevel_out` and `flush_logged_data` are one-line wrappers. `errlevel_eq` is declared but its body is not part of this model.
- `elog(ERROR, ...)` is modelled as a `Failure` result carrying which error was raised.
