# Segmented journal writer

This project models the write path of the atomix-storage Raft journal. A journal is an
append-only log of entries, each addressed by a consecutive index. It is stored as an
ordered run of segments. Each segment starts at a base index and holds a size-bounded
run of entries. The segmented journal writer is the single entry point the consensus
layer uses to change the log. It keeps a cursor on the current (last) segment and on
that segment's exclusively acquired writer. It offers these operations:

- `append` writes at the next index. When the current segment is full, it rolls over to
  a fresh segment and retries exactly once.
- `commit` only ever raises the commit index. It flushes when flush-on-commit is set.
- `truncate` refuses to drop committed entries. Otherwise it deletes whole segments that
  start past the index, last first, never the first segment. It then truncates the
  segment it stopped on and resets the readers' tails.
- `reset` either starts over with one empty segment at the index or truncates to
  `index - 1`. Either way it ends by resetting the readers' heads.
- `flush`, `close` and the getters `getLastIndex`, `getNextIndex` and `getLastEntry`.

Layout:

- `outcomes.dfy`: `Option` and `Outcome`. An operation either succeeds, overflows (the
  Java `BufferOverflowException`) or is refused (`IndexOutOfBoundsException`).
- `segments.dfy`: one segment and its writer's append and truncate.
- `journal_spec.dfy`: the journal state as a value, with one function per writer
  operation and the lemmas about them. The state holds the segments, the commit index,
  the configuration and a trace of the calls made on collaborators: flush, writer
  acquire and release, reader head and tail resets, and close. The trace lets the model
  state the order of those calls.
- `commit_invariant.dfy`: the design's promise that the commit index lies within the
  log and committed records never change. It proves which operations keep that promise
  and which two do not check it.
- `journal_writer.dfy`: the `JournalWriter` interface. Its promises are predicates over
  the state before and after a call, with one lemma per operation proving that the
  segmented writer keeps them.
- `storage.dfy`: the imperative model. `SegmentedJournalWriter` is a class with the
  cursor field and the Java method bodies, including the truncate loop.
  `SegmentedJournal` is the journal it mutates. Every writer method that has a
  matching `JournalSpec` function is proved to produce exactly the state that function
  computes. Every writer method that implements an operation of the `JournalWriter`
  interface is also proved to satisfy that operation's contract. `close` and the
  indexed `append` are not part of the interface. The rollover and truncate-loop
  helpers state their new state directly.

In a well-formed journal, the segments are chained: each one starts at its
predecessor's next index, and only the last segment may be empty. Every segment
respects its capacity. The log is the concatenation of all segments' records, and its
first entry has the first segment's base as its index.

The writer's cursor is the position of the last segment. The Java test at
`SegmentedJournalWriter.java:114`, `currentSegment != journal.getFirstSegment()`, is
modelled as "the position is not 0".

Two behaviours of the code as written are worth knowing. Both are proved:

- An entry larger than a whole segment, appended while the current segment holds
  entries, rolls over before failing (`JournalSpec.OversizedAfterRollover`). The writer
  is then left on a fresh empty segment. `getLastEntry` answers "none" there, although
  the log is not empty and `getLastIndex` is unchanged.
- `truncate(i)` with `i` before the first index empties the first segment, so the last
  index becomes the first index minus one. `reset(i)` with `i` before the first index
  makes the next index the first index, not `i`.
- Neither `commit` nor the forward branch of `reset` checks the commit index against
  the log. Committing past the last index leaves the commit index beyond the log
  (`CommitInvariant.CommitBeyondLog`). Resetting past the current segment's base to an index
  at or below the commit index discards every record, committed ones included
  (`CommitInvariant.ResetForwardDropsCommitted`). The other operations keep the commit index
  within the log and never change a committed record: append, an accepted truncate,
  the truncating branch of reset, and commit to an index within the log.

## Model

| member | source | states |
|---|---|---|
| Segments.WriterTruncate | atomix-storage/src/main/java/io/atomix/storage/journal/SegmentedJournalWriter.java:122 | the segment writer's truncate keeps the base and capacity, keeps a prefix of the records, and leaves the last index at min(old last index, max(index, base - 1)) |
| Segments.WriterAppendSpec | atomix-storage/src/main/java/io/atomix/storage/journal/SegmentedJournalWriter.java:74 | the segment writer's append succeeds exactly when the entry fits the remaining capacity; it then places the entry at the old next index, advances the next index by one, makes the entry the last entry and keeps the segment within capacity |
| Segments.WriterTruncateSound | atomix-storage/src/main/java/io/atomix/storage/journal/SegmentedJournalWriter.java:122 | truncating a segment never makes it exceed its capacity |
| Segments.WriterTruncateIdempotent | atomix-storage/src/main/java/io/atomix/storage/journal/SegmentedJournalWriter.java:122 | truncating a segment twice to the same index is the same as truncating it once |
| JournalSpec.LogLength | atomix-storage/src/main/java/io/atomix/storage/journal/SegmentedJournalWriter.java:34-47 | in a chained journal the last segment's next index is the first index plus the number of entries in the whole log |
| JournalSpec.LogAt | atomix-storage/src/main/java/io/atomix/storage/journal/SegmentedJournalWriter.java:34-47 | the record at position j of segment k is the log entry at index base(k) + j |
| JournalSpec.Survivors | atomix-storage/src/main/java/io/atomix/storage/journal/SegmentedJournalWriter.java:113-119 | the number of segments the truncate loop keeps is at least one and at most all of them |
| JournalSpec.SurvivorsSpec | atomix-storage/src/main/java/io/atomix/storage/journal/SegmentedJournalWriter.java:113-119 | the loop stops on the first segment or on one whose base is at most the index, and every segment it deletes starts past the index |
| JournalSpec.SurvivorsStep | atomix-storage/src/main/java/io/atomix/storage/journal/SegmentedJournalWriter.java:114-118 | deleting a last segment that starts past the index does not change where the loop stops |
| JournalSpec.SurvivorsExit | atomix-storage/src/main/java/io/atomix/storage/journal/SegmentedJournalWriter.java:114-122 | when the loop guard fails at position c, the loop keeps c + 1 segments and the truncation result is those segments with the last one truncated |
| JournalSpec.KeptLog | atomix-storage/src/main/java/io/atomix/storage/journal/SegmentedJournalWriter.java:113-119 | the first k segments hold a prefix of the log that ends at the k-th segment's next index |
| JournalSpec.TruncateChained | atomix-storage/src/main/java/io/atomix/storage/journal/SegmentedJournalWriter.java:113-122 | truncation keeps the segments chained and keeps the first segment's base |
| JournalSpec.TruncateLogPrefix | atomix-storage/src/main/java/io/atomix/storage/journal/SegmentedJournalWriter.java:113-122 | the log after truncation is a prefix of the log before it |
| JournalSpec.SurvivorBounds | atomix-storage/src/main/java/io/atomix/storage/journal/SegmentedJournalWriter.java:113-119 | the segment the loop stops on lies between the first and the last segment, and when later segments were deleted, the index lies before its next index |
| JournalSpec.TruncateLogLength | atomix-storage/src/main/java/io/atomix/storage/journal/SegmentedJournalWriter.java:113-122 | after truncation the log holds exactly the entries with index at most the given index, clamped to the log's length |
| JournalSpec.TruncateLog | atomix-storage/src/main/java/io/atomix/storage/journal/SegmentedJournalWriter.java:107-126 | truncation leaves exactly the log prefix up to the index, so entries up to the index are unchanged |
| JournalSpec.TruncateLastIndex | atomix-storage/src/main/java/io/atomix/storage/journal/SegmentedJournalWriter.java:107-126 | after truncation the last index is min(old last index, max(index, first index - 1)) |
| JournalSpec.TruncateSegmentsIdempotent | atomix-storage/src/main/java/io/atomix/storage/journal/SegmentedJournalWriter.java:113-122 | a second truncation to the same index deletes no segment and changes no segment |
| JournalSpec.TruncateRefused | atomix-storage/src/main/java/io/atomix/storage/journal/SegmentedJournalWriter.java:109-111 | truncate is refused exactly when the index is below the commit index, and a refused truncate changes nothing, not even the trace |
| JournalSpec.TruncateSpec | atomix-storage/src/main/java/io/atomix/storage/journal/SegmentedJournalWriter.java:107-126 | an accepted truncate keeps the journal well formed, the first index, the commit index and the configuration; it leaves the log prefix up to the index and the stated last index; it releases and acquires writers once per deleted segment, then resets the reader tails to index + 1 |
| JournalSpec.TruncateIdempotent | atomix-storage/src/main/java/io/atomix/storage/journal/SegmentedJournalWriter.java:107-126 | truncating again to the same index changes no segment and only resets the reader tails again |
| JournalSpec.TruncateAcrossSegments | atomix-storage/src/main/java/io/atomix/storage/journal/SegmentedJournalWriter.java:113-122 | with segments based at 1, 100 and 200 and last index 250, truncate(50) keeps only the first segment, with last index 50 |
| JournalSpec.LogReplaceLast | atomix-storage/src/main/java/io/atomix/storage/journal/SegmentedJournalWriter.java:74 | growing the last segment by some records grows the log by the same records |
| JournalSpec.AppendOk | atomix-storage/src/main/java/io/atomix/storage/journal/SegmentedJournalWriter.java:71-83 | a successful append returns the entry at the old next index, adds exactly its record to the log, keeps the first index, advances the next index by one and makes the entry the current writer's last entry |
| JournalSpec.AppendOverflow | atomix-storage/src/main/java/io/atomix/storage/journal/SegmentedJournalWriter.java:71-83 | append fails, with overflow and never with a refusal, exactly when the entry is larger than a whole segment; the failure leaves the log and the next index as they were |
| JournalSpec.AppendPaths | atomix-storage/src/main/java/io/atomix/storage/journal/SegmentedJournalWriter.java:71-83 | the three outcomes: the entry fits and is written with no other call; the segment is empty, so the append fails and changes nothing; or the writer flushes, releases, moves to a new segment at the next index and acquires its writer, in that order, and then retries once |
| JournalSpec.AppendWellFormed | atomix-storage/src/main/java/io/atomix/storage/journal/SegmentedJournalWriter.java:71-83 | append, successful or not, keeps the journal well formed and changes neither the commit index nor the configuration |
| JournalSpec.OversizedAfterRollover | atomix-storage/src/main/java/io/atomix/storage/journal/SegmentedJournalWriter.java:75-82 | an oversized entry appended to a non-empty segment fails after rolling over; this leaves an empty current segment with no last entry over a non-empty log, with the last index unchanged |
| JournalSpec.AppendEachOutcome | atomix-storage/src/main/java/io/atomix/storage/journal/SegmentedJournalWriter.java:71-83 | a run of appends succeeds exactly when no entry is larger than a whole segment, however many rollovers it takes; otherwise it fails with overflow |
| JournalSpec.AppendEachContiguous | atomix-storage/src/main/java/io/atomix/storage/journal/SegmentedJournalWriter.java:71-83 | a successful run of appends gives the n-th entry the index next index + n, with no gaps across rollovers |
| JournalSpec.AppendEachLog | atomix-storage/src/main/java/io/atomix/storage/journal/SegmentedJournalWriter.java:71-83 | a successful run of appends adds exactly its entries' records to the end of the log, and the next index advances by their number |
| JournalSpec.CommitSpec | atomix-storage/src/main/java/io/atomix/storage/journal/SegmentedJournalWriter.java:61-69 | commit sets the commit index to max(old, index) and never touches the segments; it flushes once exactly when it advanced and flush-on-commit is set; otherwise it changes nothing |
| JournalSpec.CommitMonotonic | atomix-storage/src/main/java/io/atomix/storage/journal/SegmentedJournalWriter.java:61-69 | committing a lower index after a higher one neither lowers the commit index nor flushes |
| JournalSpec.CurrentBaseBounds | atomix-storage/src/main/java/io/atomix/storage/journal/SegmentedJournalWriter.java:51 | the current segment's base lies between the first index and the next index |
| JournalSpec.ResetSpec | atomix-storage/src/main/java/io/atomix/storage/journal/SegmentedJournalWriter.java:49-59 | reset is refused exactly when it takes the truncate branch and index - 1 is below the commit index, and then it changes nothing; otherwise the journal stays well formed, the next index becomes max(index, first index), the commit index is kept and the last call made is the reader-head reset to the index |
| JournalSpec.ResetForward | atomix-storage/src/main/java/io/atomix/storage/journal/SegmentedJournalWriter.java:51-54 | past the current segment's base, reset leaves a single empty segment at the index; it releases the old writer, acquires the new one and then resets the reader heads |
| JournalSpec.ResetTruncating | atomix-storage/src/main/java/io/atomix/storage/journal/SegmentedJournalWriter.java:55-58 | otherwise reset behaves as truncate(index - 1) and then resets the reader heads. It is refused with no change exactly when that truncate is. When accepted, it leaves truncate's segments, so the log keeps exactly its records before the index |
| CommitInvariant.AppendKeepsCommitted | atomix-storage/src/main/java/io/atomix/storage/journal/SegmentedJournalWriter.java:71-83 | append, whatever its outcome, keeps the commit index at most the last index and leaves the committed records unchanged |
| CommitInvariant.TruncateKeepsCommitted | atomix-storage/src/main/java/io/atomix/storage/journal/SegmentedJournalWriter.java:107-126 | an accepted truncate keeps the commit index at most the last index and never drops or changes a committed record |
| CommitInvariant.CommitKeepsWithinLog | atomix-storage/src/main/java/io/atomix/storage/journal/SegmentedJournalWriter.java:61-69 | committing an index at most the last index keeps the commit index at most the last index |
| CommitInvariant.CommitBeyondLog | atomix-storage/src/main/java/io/atomix/storage/journal/SegmentedJournalWriter.java:62-64 | commit does not check the index against the log: raising it past the last index leaves the commit index beyond the log |
| CommitInvariant.ResetForwardDropsCommitted | atomix-storage/src/main/java/io/atomix/storage/journal/SegmentedJournalWriter.java:51-54 | the forward branch of reset does not check the commit index: resetting to an index past the current base and at most the commit index succeeds, empties the log and leaves the commit index beyond it |
| CommitInvariant.ResetTruncatingKeepsCommitted | atomix-storage/src/main/java/io/atomix/storage/journal/SegmentedJournalWriter.java:55-58 | an accepted truncating reset keeps the commit index at most the last index and leaves the committed records unchanged |
| JournalWriterContract.AppendMeetsContract | atomix-storage/src/main/java/io/atomix/storage/journal/JournalWriter.java:47-53 | append writes the given entry at the index getNextIndex reported and returns it with that index. The log grows by exactly that entry, which becomes the last one. On failure, with overflow, the log and the last index are unchanged |
| JournalWriterContract.CommitMeetsContract | atomix-storage/src/main/java/io/atomix/storage/journal/JournalWriter.java:55-60 | commit makes the commit index max(old, index) and keeps the entries |
| JournalWriterContract.ResetMeetsContract | atomix-storage/src/main/java/io/atomix/storage/journal/JournalWriter.java:62-67 | after reset the next entry is written at the index (or at the first index, if the index lies before it); a refused reset changes nothing |
| JournalWriterContract.TruncateMeetsContract | atomix-storage/src/main/java/io/atomix/storage/journal/JournalWriter.java:69-74 | truncate succeeds exactly when the index is at or past the commit index. The log then keeps exactly its records up to the index, unchanged, with no entry past the index. A refused truncate changes nothing |
| JournalWriterContract.FlushMeetsContract | atomix-storage/src/main/java/io/atomix/storage/journal/JournalWriter.java:76-79 | flush makes one flush of the current segment and changes neither the entries nor the commit index |
| Storage.SegmentedJournalWriter.constructor | atomix-storage/src/main/java/io/atomix/storage/journal/SegmentedJournalWriter.java:28-32 | the writer starts on the last segment with its writer acquired, and nothing else changes |
| Storage.SegmentedJournalWriter.GetLastIndex | atomix-storage/src/main/java/io/atomix/storage/journal/SegmentedJournalWriter.java:34-37 | the current writer's last index is the index of the log's last entry, that is, the first index plus the log length minus one |
| Storage.SegmentedJournalWriter.GetLastEntry | atomix-storage/src/main/java/io/atomix/storage/journal/SegmentedJournalWriter.java:39-42 | none exactly when the current segment is empty; otherwise the log's last record, at the last index |
| Storage.SegmentedJournalWriter.GetNextIndex | atomix-storage/src/main/java/io/atomix/storage/journal/SegmentedJournalWriter.java:44-47 | the current writer's next index is the first index plus the log length |
| Storage.SegmentedJournalWriter.Reset | atomix-storage/src/main/java/io/atomix/storage/journal/SegmentedJournalWriter.java:49-59 | the writer's reset produces exactly JournalSpec.Reset's outcome and state, keeps the cursor on the last segment with its writer acquired, and meets the interface contract |
| Storage.SegmentedJournalWriter.Commit | atomix-storage/src/main/java/io/atomix/storage/journal/SegmentedJournalWriter.java:61-69 | the writer's commit produces exactly JournalSpec.Commit's state and meets the interface contract |
| Storage.SegmentedJournalWriter.Append | atomix-storage/src/main/java/io/atomix/storage/journal/SegmentedJournalWriter.java:71-83 | the writer's append, with the entry's encoded size, produces exactly JournalSpec.Append's outcome and state and meets the interface contract |
| Storage.SegmentedJournalWriter.AppendIndexed | atomix-storage/src/main/java/io/atomix/storage/journal/SegmentedJournalWriter.java:85-98 | appending an entry that carries the next index takes the same paths and reaches the same state as JournalSpec.Append, returning nothing on success and overflow on failure |
| Storage.SegmentedJournalWriter.MoveToNextSegment | atomix-storage/src/main/java/io/atomix/storage/journal/SegmentedJournalWriter.java:100-105 | the writer flushes and releases the current writer, adds a segment at the current next index and acquires its writer, in that order |
| Storage.SegmentedJournalWriter.MoveToPreviousSegment | atomix-storage/src/main/java/io/atomix/storage/journal/SegmentedJournalWriter.java:115-118 | one loop iteration releases the current writer, deletes the last segment, moves the cursor back by one and acquires that segment's writer; the commit index is kept |
| Storage.SegmentedJournalWriter.DeleteSegmentsAfter | atomix-storage/src/main/java/io/atomix/storage/journal/SegmentedJournalWriter.java:113-119 | the loop terminates with exactly the segments JournalSpec.Survivors keeps, in order, and the cursor on the last of them; it adds one release and one acquire per deleted segment and keeps the commit index |
| Storage.SegmentedJournalWriter.Truncate | atomix-storage/src/main/java/io/atomix/storage/journal/SegmentedJournalWriter.java:107-126 | the writer's truncate produces exactly JournalSpec.Truncate's outcome and state and meets the interface contract |
| Storage.SegmentedJournalWriter.Flush | atomix-storage/src/main/java/io/atomix/storage/journal/SegmentedJournalWriter.java:128-131 | the writer's flush produces exactly JournalSpec.FlushState and meets the interface contract |
| Storage.SegmentedJournalWriter.Close | atomix-storage/src/main/java/io/atomix/storage/journal/SegmentedJournalWriter.java:133-136 | close records one close of the current writer and changes nothing else |
| Storage.SegmentedJournal.SetCommitIndex | atomix-storage/src/main/java/io/atomix/storage/journal/SegmentedJournalWriter.java:64 | the journal's commit index becomes the index and nothing else changes |
| Storage.SegmentedJournal.GetNextSegment | atomix-storage/src/main/java/io/atomix/storage/journal/SegmentedJournalWriter.java:103 | the journal adds an empty segment at the last segment's next index and stays well formed |
| Storage.SegmentedJournal.ResetSegments | atomix-storage/src/main/java/io/atomix/storage/journal/SegmentedJournalWriter.java:53 | the journal's segments are replaced by one empty segment at the index |
| Storage.SegmentedJournal.RemoveSegment | atomix-storage/src/main/java/io/atomix/storage/journal/SegmentedJournalWriter.java:116 | the last segment, never the first, is deleted and the journal stays well formed |
| Storage.SegmentedJournal.ResetHead | atomix-storage/src/main/java/io/atomix/storage/journal/SegmentedJournalWriter.java:58 | the reader-head reset is recorded and nothing else changes |
| Storage.SegmentedJournal.ResetTail | atomix-storage/src/main/java/io/atomix/storage/journal/SegmentedJournalWriter.java:125 | the reader-tail reset is recorded and nothing else changes |
| Storage.SegmentedJournal.AcquireWriter | atomix-storage/src/main/java/io/atomix/storage/journal/SegmentedJournalWriter.java:31 | a segment's writer can be acquired only when no writer is checked out; the acquire is recorded |
| Storage.SegmentedJournal.ReleaseWriter | atomix-storage/src/main/java/io/atomix/storage/journal/SegmentedJournalWriter.java:52 | the checked-out writer is released and the release is recorded |
| Storage.SegmentedJournal.AppendToSegment | atomix-storage/src/main/java/io/atomix/storage/journal/SegmentedJournalWriter.java:74 | the last segment's writer appends as Segments.WriterAppend says: on success the segment grows, on overflow nothing changes |
| Storage.SegmentedJournal.TruncateSegment | atomix-storage/src/main/java/io/atomix/storage/journal/SegmentedJournalWriter.java:122 | the last segment is replaced by its writer's truncation, and the journal stays well formed |
| Storage.SegmentedJournal.FlushSegment | atomix-storage/src/main/java/io/atomix/storage/journal/SegmentedJournalWriter.java:130 | a flush of the segment's writer is recorded and nothing else changes |
| Storage.SegmentedJournal.CloseSegment | atomix-storage/src/main/java/io/atomix/storage/journal/SegmentedJournalWriter.java:135 | a close of the segment's writer is recorded and nothing else changes |

## Left out

- JournalWriter is a Java interface. Dafny traits are not used here, so the interface is a set of contract predicates (`JournalWriterContract`), and every writer method is proved to meet them.
- SegmentedJournal, JournalSegment and JournalSegmentWriter are not part of this model. `Storage.SegmentedJournal` and the `Segments` module stand in for them with the behaviour the writer relies on. `getNextSegment` creates a segment at the last segment's next index. `resetSegments(index)` leaves one empty segment at the index. A segment writer appends while the entry fits and truncates to a prefix.
- `getFirstSegment`, `getLastSegment` and `removeSegment` are modelled by positions in the segment sequence. Segment identity is modelled as position, so the loop's `currentSegment != journal.getFirstSegment()` becomes "the position is not 0".
- Indices are unbounded integers. The 64-bit `long` overflow of `index + 1` and `index - 1` is not modelled.
- Byte-level encoding, buffers, memory mapping and the durability of flush are not modelled. A segment's capacity is counted in encoded bytes, and the codec is only an encoded-size function. A flush is a recorded call.
- The codec's IOError (a serialization failure other than lack of space) is not modelled. Append's only failure is overflow.
- Readers are not modelled. `resetHead` and `resetTail` are recorded calls with their index.
- Concurrency is not modelled. The writer is single-threaded by design, and exclusive writer checkout is a flag with preconditions on acquire and release.
- Exceptions are modelled as `Outcome` values: `Overflow` for `BufferOverflowException` and `IndexOutOfBounds` for `IndexOutOfBoundsException`.
- Storage.SegmentedJournalWriter.AppendIndexed: the entry's index must equal the next index. This is a precondition rather than an error path, because a mismatch is a caller's contract violation with no defined outcome. The entry's stored size is recomputed by the codec, as the segment writer re-encodes the entry.
- JournalWriterContract.ResetMeetsContract: when the index lies before the first index, the next index becomes the first index, not the index.
