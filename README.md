# A verified model of the ecu-stats J1939 frame journal

ecu-stats records J1939 CAN traffic into an embedded ordered key-value store and reads it back. The model covers the core of the program:

- **PGN arithmetic** (`pgn.dfy`, module `Pgn`): `pgn_from_dbc` takes the Parameter Group Number out of a 29-bit arbitration id. `is_proprietary_pgn` is the test dump uses to keep unknown proprietary PGNs quiet.
- **The on-disk codec** (`big_endian.dfy`, `codec.dfy`; modules `BigEndian` and `Codec`):
  - The key is the capture time in microseconds as 16 big-endian bytes.
  - The value is the 4-byte big-endian id followed by the payload.
  - The store's byte-lexicographic key order is proved to be time order.
- **The store** (`store.dfy`, module `Store`):
  - The journal is the default namespace. There is one namespace (tree) per PGN.
  - Iteration visits keys in ascending byte order.
  - The *mirror* invariant says that PGN `p`'s namespace holds `k -> v` exactly when the journal does and `v`'s frame has PGN `p`.
- **The `record` loop** (`recorder.dfy`, module `Recorder`): a `Recorder` class.
  - Its fields are the journal, the namespaces, the session's cache of opened namespace handles (the `Forest`), a ghost log of namespace openings and the counter `i`.
  - `OpenTree`, `Store` and `RecordStep` are the loop body's parts. `Pass` is one pass of the loop and `Record` is the loop.
  - The environment is a sequence of ticks. Each tick gives the interrupt flag as the loop reads it, what `read_frame` returned, and the clock reading.
  - `Record` is proved against the specification function `Session`, which says where a session stops. Its final store is stated through `PutAll`/`IndexAll` over the frames the ticks carried.
  - Separate lemmas prove where a session stops (`SessionStops`), that the mirror is kept, and how many entries are added.
- **The read paths** (`read_paths.dfy`, module `ReadPaths`):
  - `playback` and `dump` are functions over the journal's entries in iteration order. A value too short to split at byte 4 becomes the recorded panic point.
  - `count` is a function of the journal and the namespaces.
- `option.dfy` holds the `Option` type.

Integers are modelled as bounded subset types of `int` (`u8`, `u32`, `u128`). `(id >> 8) & 0x1FFFF` on an unsigned 32-bit id is written as `(id / 2^8) % 2^17`, which is the same value.

Two points where the model follows the code exactly:
- The comment at src/lib.rs:7 names the reserved band 65280-65535, but `is_proprietary_pgn` at src/lib.rs:9 holds for every id up to 65535. `dump` uses the function as written, so it says nothing for an unknown PGN such as 0x1234; a test for the band alone would report it (see Findings). `ReadPaths.DumpExample` states both outcomes.
- A read that must be retried ends in `continue` (src/run.rs:37-38), which goes back to the `while` condition at src/run.rs:34. The interrupt flag is therefore checked again before the next read, and in the model every tick carries the flag.

## Model

| member | source | states |
|---|---|---|
| Pgn.PgnFromDbc | src/lib.rs:3-5 | the PGN of an id is below 2^17 |
| Pgn.PgnIgnoresSourceAddress | src/lib.rs:4 | ids that differ only in bits 0-7 (source address) have the same PGN |
| Pgn.PgnIgnoresHighBits | src/lib.rs:4 | ids that agree on bits 0-24 have the same PGN, whatever bits 25-31 hold |
| Pgn.PgnFields | src/lib.rs:4 | an id is its high bits, its PGN shifted by 8 and its source address, so the PGN is exactly bits 8-24 |
| Pgn.PgnFromShiftedPgn | src/lib.rs:4 | every PGN below 2^17, shifted over any source address, gives itself back |
| Pgn.PgnExamples | src/lib.rs:3-5 | worked values: 0 -> 0, 0x1FFFFFF and 0xFFFFFFFF -> 0x1FFFF, 0x18FEF100 -> 0xFEF1, 0x00123400 -> 0x1234 |
| Pgn.IsProprietaryPgn | src/lib.rs:7-10 | holds exactly when id <= 65535; it holds on all of the band 65280..65535 and on no PGN in 65536..131071 |
| Pgn.IsReservedBandPgn | src/lib.rs:7 | the corrected test: holds exactly on 65280..65535 and implies the as-written test |
| Pgn.ProprietaryOutsideBand | src/lib.rs:9 | every PGN below 65280 (e.g. 0x1234) passes the as-written test but is outside the band |
| BigEndian.ToBE | src/run.rs:46 | `to_be_bytes` on a w-byte integer gives exactly w bytes |
| BigEndian.FromBE | src/run.rs:85 | `from_be_bytes` of s bytes gives a number below 256^s |
| BigEndian.LexLess | src/run.rs:82 | the store's byte order is irreflexive and extends the proper-prefix order |
| BigEndian.FromToBE | src/run.rs:42-46 | reading back `to_be_bytes` of a number that fits in w bytes gives the number, in exactly w bytes |
| BigEndian.ToFromBE | src/run.rs:85 | writing back `from_be_bytes` of a byte string gives the same bytes |
| BigEndian.FromBEInjective | src/run.rs:105 | equal-length byte strings with the same big-endian value are equal |
| BigEndian.LexLessIsNumericOrder | src/run.rs:42-46 | for equal-length big-endian strings, byte-lexicographic order is numeric order |
| Codec.EncodeKey | src/run.rs:42-46 | the 16-byte key of a time reads back as that time |
| Codec.DecodeKey | src/run.rs:105 | the time a key stands for encodes back to the same key |
| Codec.DecodeEncodeKey | src/run.rs:42-46 | decoding an encoded key gives the time back |
| Codec.KeyOrderIsTimeOrder | src/run.rs:42-46 | one key sorts before another exactly when its time is earlier |
| Codec.KeyCollision | src/run.rs:42-46 | two times give the same key exactly when they are equal |
| Codec.Decodable | src/run.rs:84 | a value shorter than 4 bytes, which `split_at` cannot split, is never the encoding of a frame |
| Codec.EncodeValue | src/run.rs:48-53 | the value is the id in big-endian (4 bytes) followed by the payload, 4 bytes longer than the payload |
| Codec.DecodeValue | src/run.rs:84-85 | a value of at least 4 bytes splits into an id and payload that encode back to it |
| Codec.DecodeEncodeValue | src/run.rs:84-85 | an encoded frame is decodable and decodes to the same id and payload, for any payload length |
| Codec.ValuePgn | src/run.rs:50 | the PGN of a stored value is below 2^17 |
| Codec.ValuePgnOfFrame | src/run.rs:50-53 | a stored frame's value carries the PGN of the frame's id |
| Store.AscendingKeys | src/run.rs:82 | iteration visits each key of the namespace exactly once, in strictly ascending byte order |
| Store.Entries | src/run.rs:82-83 | `db.iter()` yields each key in ascending order with the value stored under it |
| Store.JournalFor | src/run.rs:56-60 | the journal entries whose frame has PGN p, with their values |
| Store.MirrorEntrywise | src/run.rs:53-60 | under the mirror, namespace p maps k to v exactly when the journal maps k to v and v has PGN p |
| Store.TreeOf | src/run.rs:58 | `open_tree` yields the existing namespace, or an empty one for a new PGN |
| Store.IndexInsert | src/run.rs:56-60 | inserting into PGN p's namespace adds p, maps k to v there and leaves every other namespace unchanged |
| Store.MirrorInsert | src/run.rs:53-60 | storing a frame under a new key in the journal and its PGN's namespace keeps the mirror |
| Store.MirrorInsertTree | src/run.rs:53-60 | after such an insertion each namespace is exactly the journal restricted to its PGN |
| Store.JournalForUnindexed | src/run.rs:56-59 | under the mirror, a PGN with no namespace has no journal entries |
| Store.CollisionBreaksMirror | src/run.rs:42-60 | two frames of different PGNs in the same microsecond leave a stale entry in the first frame's namespace: the mirror breaks |
| Store.JournalIn | src/run.rs:119-122 | the journal entries whose PGN is in a set |
| Store.SumSizesIsJournalIn | src/run.rs:120 | under the mirror, the namespace sizes of distinct PGNs add up to the journal entries of those PGNs |
| Store.JournalInAdd | src/run.rs:120 | adding a PGN adds exactly its own journal entries |
| Store.CountsPartitionJournal | src/run.rs:119-122 | under the mirror, the sizes of all namespaces add up to the journal's size |
| Recorder.ValueOf | src/run.rs:48-53 | a capture's value decodes to its frame and carries its PGN |
| Recorder.Captures | src/run.rs:35-62 | the frames the ticks store are at most one per tick |
| Recorder.PutAll | src/run.rs:54 | storing the captures adds exactly their keys to the journal |
| Recorder.IndexAll | src/run.rs:56-60 | mirroring captures never removes a namespace |
| Recorder.EffectiveLimit | src/run.rs:62-69 | the number of frames a limit of c allows is c, and 1 when c is 0 |
| Recorder.SessionFrom | src/run.rs:34-69 | the number of ticks a session consumes from tick i is between i and the number of ticks |
| Recorder.Session | src/run.rs:34-69 | a session consumes at most the ticks it is given |
| Recorder.Recorder.Open | src/run.rs:25 | a store opened on a journal and namespaces holds them, with an empty cache and counter |
| Recorder.Recorder.OpenTree | src/run.rs:56-59 | the PGN's handle is cached afterwards and its namespace exists (empty if new); the namespace is opened only when not cached, so no PGN is opened twice; nothing else changes |
| Recorder.Recorder.Store | src/run.rs:42-62 | the journal and the PGN's namespace map the capture key to the encoded value, every other namespace is unchanged, and the counter goes up by 1 |
| Recorder.Recorder.RecordStep | src/run.rs:35-62 | a frame is stored as `Store` says; a retried read changes nothing; a fatal read changes nothing and ends the loop |
| Recorder.Recorder.Pass | src/run.rs:34-69 | one pass stores the tick's frame and stops or continues exactly as `SessionFrom` says |
| Recorder.Recorder.Record | src/run.rs:32-70 | the loop stops where `Session` says, and the store is then the old store with the frames of the consumed ticks stored and mirrored in order |
| Recorder.SessionStops | src/run.rs:34-69 | a session stops before the first set flag, right after the first fatal read, or right after storing the frame that reaches the limit. It stores no more than max(1, c) frames for limit c, and exactly that many when the limit is the reason. Without a limit it never stops for one |
| Recorder.SessionFromStops | src/run.rs:34-69 | the same, for a session resumed after passes that neither saw the flag nor failed |
| Recorder.StopsAfterPass | src/run.rs:39-69 | a fatal read or a frame that reaches the limit ends the session as `SessionStops` says |
| Recorder.PassKeepsRunning | src/run.rs:35-69 | a pass that neither fails nor reaches the limit keeps the session running with the counter advanced by its frame |
| Recorder.ZeroLimitIsOne | src/run.rs:65-69 | a limit of 0 stops a session at the same pass as a limit of 1 |
| Recorder.ZeroLimitIsOneFrom | src/run.rs:65-69 | the same, from any pass |
| Recorder.SessionExample | src/run.rs:34-69 | with no limit, a retry, two frames, then the flag: three ticks consumed and two frames stored. A limit of 0 stops after the first frame |
| Recorder.PutAllSize | src/run.rs:54-62 | with fresh keys, each stored frame adds one journal entry, so the journal grows by the counter |
| Recorder.CapturesInTimeOrder | src/run.rs:42-54 | when reads see an increasing clock, the stored frames are in time order and each was taken at the time of one read |
| Recorder.SessionCapturesFresh | src/run.rs:42-54 | when reads see an increasing clock and no read's key is already in the journal, every frame of the session is stored under a fresh key |
| Recorder.SessionKeepsMirror | src/run.rs:53-60 | under those conditions a session keeps the mirror and adds one journal entry per frame stored |
| Recorder.PutAllMirror | src/run.rs:53-60 | with fresh keys, storing and mirroring the captures keeps the mirror |
| Recorder.StateAdvance | src/run.rs:35-62 | one pass extends the stored frames by the pass's frame, if any |
| ReadPaths.Playback | src/run.rs:82-91 | playback sends at most one frame per entry |
| ReadPaths.PlaybackAllDecodable | src/run.rs:82-88 | when every value holds an id, playback sends each entry's decoded frame, in iteration order, and does not panic |
| ReadPaths.PlaybackStopsAtShortValue | src/run.rs:84 | playback sends the frames before the first value shorter than 4 bytes, then panics on it |
| ReadPaths.Frames | src/run.rs:87-88 | the captures' frames, one per capture, in order |
| ReadPaths.Stored | src/run.rs:53-54 | each capture's key and encoded value, in order |
| ReadPaths.PlaybackOfCaptures | src/run.rs:84-88 | the stored entries of captures play back as the captured frames |
| ReadPaths.PutAllLookup | src/run.rs:54 | captures with distinct times are each found under their own key with their own value |
| ReadPaths.CaptureKeysAscend | src/run.rs:42-46 | for captures at increasing times, iteration visits their keys in capture order |
| ReadPaths.JournalOfCaptures | src/run.rs:82-83 | a journal recorded at increasing times iterates as the frames were stored |
| ReadPaths.PlaybackAfterRecording | src/run.rs:82-88 | a journal recorded at increasing times plays back exactly the recorded frames, in recording order |
| Recorder.TimeOrderIsFresh | src/run.rs:42-54 | captures at increasing times into an empty journal never reuse a key |
| ReadPaths.Classify | src/run.rs:107-111 | a PGN in the dictionary is described with its description; an unknown PGN is reported exactly when above 65535; otherwise nothing is written |
| ReadPaths.ClassifyIntended | src/lib.rs:7 | with the band test, a known PGN is described with its dictionary description and an unknown PGN is silent exactly when it lies in 65280..65535 |
| ReadPaths.ClassifyDiffersBelowBand | src/run.rs:109 | the two decisions differ exactly on unknown PGNs below 65280, where the program is silent and the intent warns |
| ReadPaths.LinesOf | src/run.rs:105-111 | an entry gives at most one line: its capture time and the dictionary description for a known PGN, `Unknown` with the PGN for an unknown PGN above 65535, and nothing for an unknown PGN up to 65535 |
| ReadPaths.Dump | src/run.rs:100-112 | dump writes at most one line per entry |
| ReadPaths.DumpLines | src/run.rs:100-112 | the lines of readable entries, in iteration order, at most one per entry |
| ReadPaths.DumpAllDecodable | src/run.rs:100-112 | when every value can be split, dump writes exactly the lines of all entries in iteration order and does not stop early |
| ReadPaths.DumpStopsAtShortValue | src/run.rs:102 | at the first value shorter than 4 bytes, dump has written the lines of the entries before it and stops at that entry's key |
| ReadPaths.DumpLinesSound | src/run.rs:100-112 | every line written is the line of one readable entry, built from that entry's own time, PGN and dictionary description |
| ReadPaths.LaterKeyLaterTime | src/run.rs:105 | a key sorting later decodes to a later time |
| ReadPaths.DumpTimesAscend | src/run.rs:100-108 | over entries in key order, described lines come out in strictly increasing time order |
| ReadPaths.DumpJournalInTimeOrder | src/run.rs:100-108 | dumping a journal lists its described frames in capture-time order |
| ReadPaths.DumpExample | src/run.rs:100-112 | with only PGN 0xFEF1 described, frames of PGNs 0xFEF1, 0xFEF2 and 0x1234 give one described line and nothing else, where the intended test would report both unknown PGNs |
| ReadPaths.Count | src/run.rs:119-122 | no filter counts the journal; a PGN with a namespace counts that namespace; a PGN without one counts 0 |
| ReadPaths.CountIsJournalEntriesOfPgn | src/run.rs:120 | under the mirror, a PGN's count is the number of journal entries of that PGN |
| ReadPaths.CountsAddUp | src/run.rs:119-122 | under the mirror, the counts of all PGN namespaces add up to the unfiltered count |
| ReadPaths.CountExample | src/run.rs:119-122 | after recording three frames of different PGNs, the unfiltered count is 3, 0xFEF1 counts 1 and a PGN never recorded counts 0 |

## Left out

- Bus I/O (`socketcan` open, read timeout, `read_frame`, `write_frame`): a read is a tick's `ReadOutcome` and a write is an element of `Replay.frames`. The socketcan library is not part of this model.
- `CANFrame::new(...).unwrap()` in playback panics for a payload over 8 bytes or an id over 29 bits. That check belongs to socketcan and is not modelled, so `Playback` only fails on values shorter than 4 bytes. Frames the recorder stores come from the bus, where both always hold.
- The other `unwrap`s (store errors, a clock before the epoch, a key not 16 bytes long) are not modelled. Keys are 16 bytes by type.
- The store engine: durability, compression, the error cases of `insert` and `open_tree`, and `tree_names`. The store is a map with overwrite-on-insert and ascending byte-order iteration. Namespaces are keyed by PGN, since the 4-byte big-endian name is injective.
- The interrupt flag is set asynchronously, by a signal handler. The model gives its value per pass in the tick.
- The clock is the tick's `now`. Strictly increasing times are an assumption of the lemmas that need fresh keys (`PutAllMirror`, `PutAllSize`, `SessionKeepsMirror`, `PlaybackAfterRecording`). `Store.CollisionBreaksMirror` shows what a repeated microsecond does.
- `Recorder.Recorder.Record`: the ticks are finite, so a session can also end with `Exhausted` when they run out. The program would keep reading.
- `Recorder.Recorder.Record`: the mirror and the entry count after a session are not stated in `Record`'s own contract. `SessionKeepsMirror` derives them from its final-state clause when the clock increases between reads and no read's key is already in the journal.
- `Recorder.Recorder.OpenTree`: the number of handles opened is not stated as a count. The ghost log of openings is kept duplicate-free instead.
- The playback delay and `sleep` do not change what is sent.
- DBC loading (`PgnLibrary::from_dbc_file`, `get_pgn`): the dictionary is a map from PGN to description.
- Progress and summary output on standard error: the running counter and the "across N PGNs" total.
- `main`'s dispatch and error propagation, and `src/cli.rs` (argument structures only). The count command's PGN filter is taken as a parameter: `src/cli.rs:63-70` declares no `pgn` field for it.
- `ReadPaths.Count`: a filter on a new PGN creates its empty namespace in the store. The model returns the count only and does not record that creation.

## Findings

| source | as written | input that shows it | evidently intended | confidence | as-written member | corrected member |
|---|---|---|---|---|---|---|
| src/lib.rs:9 | `id <= 65280` or `id <= 65535`, which together are `id <= 65535`, so dump keeps every unknown PGN up to 65535 quiet | PGN 0x1234 (id 0x00123400), or 0xFEF2, absent from the dictionary: nothing is written | the reserved proprietary band of SAE J1939/21 section 5.3.2 named in the comment, `65280 <= id && id <= 65535`, so unknown PGNs below 65280 are reported | high; not executed | Pgn.ProprietaryOutsideBand, ReadPaths.Classify | Pgn.IsReservedBandPgn, ReadPaths.ClassifyIntended |
