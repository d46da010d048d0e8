/**
 * The segmented journal writer: a cursor (current segment and its acquired writer)
 * over the journal's ordered segments, driving rollover on overflow, commit with
 * optional flush, truncation across segments and reset.
 */
module Storage {
  import opened Outcomes
  import opened Segments
  import opened JournalSpec
  import JournalWriterContract

  /**
   * The journal the writer works on: its ordered segments, each carrying the state
   * of that segment's writer, the commit index, the flush-on-commit policy, the
   * maximum segment size and the entry codec's encoded size. It stands in for
   * SegmentedJournal, JournalSegment and JournalSegmentWriter; their operations have
   * the semantics of the Segments module. Calls whose effect lies outside this model
   * are appended to `events`.
   */
  class SegmentedJournal<E> {
    var segments: seq<Segment<E>>
    var commitIndex: int
    const flushOnCommit: bool
    const maxSegmentSize: nat
    /** Encoded size of an entry under the journal's codec. */
    const encodedSize: E -> nat
    var events: seq<Event>
    /** Whether the last segment's writer is checked out; at most one writer exists. */
    var writerAcquired: bool

    ghost function State(): JournalState<E>
      reads this
    {
      JournalState(segments, commitIndex, flushOnCommit, maxSegmentSize, events)
    }

    ghost predicate Valid()
      reads this
    {
      WellFormed(State())
    }

    constructor (segments: seq<Segment<E>>, commitIndex: int, flushOnCommit: bool, maxSegmentSize: nat,
                 encodedSize: E -> nat)
      requires WellFormed(JournalState(segments, commitIndex, flushOnCommit, maxSegmentSize, []))
      ensures Valid() && !writerAcquired && this.encodedSize == encodedSize
      ensures State() == JournalState(segments, commitIndex, flushOnCommit, maxSegmentSize, [])
    {
      this.segments := segments;
      this.commitIndex := commitIndex;
      this.flushOnCommit := flushOnCommit;
      this.maxSegmentSize := maxSegmentSize;
      this.encodedSize := encodedSize;
      this.events := [];
      this.writerAcquired := false;
    }

    method SetCommitIndex(index: int)
      modifies this
      ensures State() == old(State()).(commitIndex := index)
      ensures writerAcquired == old(writerAcquired)
    {
      commitIndex := index;
    }

    /** Creates the segment that follows the last one, starting at its writer's next index. */
    method GetNextSegment() returns (pos: nat)
      requires Valid() && segments[|segments| - 1].records != []
      modifies this
      ensures Valid() && pos == |segments| - 1
      ensures State() == old(State()).(segments := old(segments) + [Segment(NextIndex(old(segments)[|old(segments)| - 1]), maxSegmentSize, [])])
      ensures writerAcquired == old(writerAcquired)
    {
      var last := segments[|segments| - 1];
      segments := segments + [Segment(NextIndex(last), maxSegmentSize, [])];
      pos := |segments| - 1;
      assert Linked(segments, pos);
      forall k | 0 < k < pos ensures Linked(segments, k) {
        assert Linked(old(segments), k);
      }
    }

    /** Discards every segment and starts over with one empty segment at `index`. */
    method ResetSegments(index: int) returns (pos: nat)
      requires Valid()
      modifies this
      ensures Valid() && pos == 0
      ensures State() == old(State()).(segments := [Segment(index, maxSegmentSize, [])])
      ensures writerAcquired == old(writerAcquired)
    {
      segments := [Segment(index, maxSegmentSize, [])];
      pos := 0;
    }

    /** Deletes the last segment; the first segment is never deleted. */
    method RemoveSegment(pos: nat)
      requires Valid() && pos == |segments| - 1 && pos > 0
      modifies this
      ensures Valid()
      ensures State() == old(State()).(segments := old(segments)[..pos])
      ensures writerAcquired == old(writerAcquired)
    {
      ChainedPrefix(segments, pos);
      segments := segments[..pos];
    }

    method ResetHead(index: int)
      modifies this
      ensures State() == old(State()).(events := old(events) + [Event.ResetHead(index)])
      ensures writerAcquired == old(writerAcquired)
    {
      events := events + [Event.ResetHead(index)];
    }

    method ResetTail(index: int)
      modifies this
      ensures State() == old(State()).(events := old(events) + [Event.ResetTail(index)])
      ensures writerAcquired == old(writerAcquired)
    {
      events := events + [Event.ResetTail(index)];
    }

    /** Checks out the writer of the segment at `pos`; it must not already be checked out. */
    method AcquireWriter(pos: nat)
      requires pos < |segments| && !writerAcquired
      modifies this
      ensures writerAcquired
      ensures State() == old(State()).(events := old(events) + [Acquire(old(segments)[pos].base)])
    {
      events := events + [Acquire(segments[pos].base)];
      writerAcquired := true;
    }

    method ReleaseWriter(pos: nat)
      requires pos < |segments| && writerAcquired
      modifies this
      ensures !writerAcquired
      ensures State() == old(State()).(events := old(events) + [Release(old(segments)[pos].base)])
    {
      events := events + [Release(segments[pos].base)];
      writerAcquired := false;
    }

    /** The segment writer's append on the last segment. */
    method AppendToSegment(pos: nat, entry: E, size: nat) returns (r: Outcome<Indexed<E>>)
      requires Valid() && writerAcquired && pos == |segments| - 1
      modifies this
      ensures Valid() && writerAcquired
      ensures var w := WriterAppend(old(segments)[pos], entry, size);
        && (w.Ok? ==> r == Ok(w.value.entry) && State() == old(State()).(segments := old(segments)[..pos] + [w.value.segment]))
        && (!w.Ok? ==> r == Overflow && State() == old(State()))
    {
      var w := WriterAppend(segments[pos], entry, size);
      if w.Ok? {
        AppendWellFormed(State(), entry, size);
        segments := segments[..pos] + [w.value.segment];
        r := Ok(w.value.entry);
      } else {
        r := Overflow;
      }
    }

    /** The segment writer's truncate on the last segment. */
    method TruncateSegment(pos: nat, index: int)
      requires Valid() && pos == |segments| - 1
      modifies this
      ensures Valid() && writerAcquired == old(writerAcquired)
      ensures State() == old(State()).(segments := old(segments)[..pos] + [WriterTruncate(old(segments)[pos], index)])
    {
      var s := segments[pos];
      WriterTruncateSound(s, index);
      var t := segments[..pos] + [WriterTruncate(s, index)];
      forall k | 0 < k < |t| ensures Linked(t, k) {
        assert Linked(segments, k);
        assert t[k - 1] == segments[k - 1];
      }
      forall k | 0 <= k < |t| ensures t[k].capacity == maxSegmentSize && Sound(t[k]) {
        if k < pos { assert t[k] == segments[k]; }
      }
      segments := t;
    }

    method FlushSegment(pos: nat)
      requires pos < |segments|
      modifies this
      ensures writerAcquired == old(writerAcquired)
      ensures State() == old(State()).(events := old(events) + [Flush(old(segments)[pos].base)])
    {
      events := events + [Flush(segments[pos].base)];
    }

    method CloseSegment(pos: nat)
      requires pos < |segments|
      modifies this
      ensures writerAcquired == old(writerAcquired)
      ensures State() == old(State()).(events := old(events) + [Event.Close(old(segments)[pos].base)])
    {
      events := events + [Event.Close(segments[pos].base)];
    }
  }

  /** The Raft log writer: the single append/commit/truncate/reset/flush entry point. */
  class SegmentedJournalWriter<E> {
    const journal: SegmentedJournal<E>
    /** Position of the current segment in the journal; the current writer is the one acquired on it. */
    var current: nat

    ghost predicate Valid()
      reads this, journal
    {
      journal.Valid() && current == |journal.segments| - 1 && journal.writerAcquired
    }

    /** Starts on the journal's last segment and acquires its writer. */
    constructor (journal: SegmentedJournal<E>)
      requires journal.Valid() && !journal.writerAcquired
      modifies journal
      ensures Valid() && this.journal == journal
      ensures journal.State() == old(journal.State()).(events := old(journal.events) + [Acquire(Current(old(journal.State())).base)])
    {
      this.journal := journal;
      current := |journal.segments| - 1;
      new;
      journal.AcquireWriter(current);
    }

    /** The current writer's last index: nothing is cached here, and it is the index of the last entry written. */
    method GetLastIndex() returns (r: int)
      requires Valid()
      ensures r == LastIndex(journal.segments[current])
      ensures r == journal.segments[0].base + |Log(journal.segments)| - 1
    {
      r := LastIndex(journal.segments[current]);
      LogLength(journal.segments);
    }

    /** The current writer's next index: where the next entry goes, right after the whole log. */
    method GetNextIndex() returns (r: int)
      requires Valid()
      ensures r == NextIndex(journal.segments[current])
      ensures r == journal.segments[0].base + |Log(journal.segments)|
    {
      r := NextIndex(journal.segments[current]);
      LogLength(journal.segments);
    }

    /**
     * The current writer's last entry: the log's last record at the last index, or
     * None when the current segment holds no entry.
     */
    method GetLastEntry() returns (r: Option<Indexed<E>>)
      requires Valid()
      ensures r == LastEntry(journal.segments[current])
      ensures r.None? <==> journal.segments[current].records == []
      ensures r.Some? ==>
        && r.value.index == journal.segments[0].base + |Log(journal.segments)| - 1
        && Record(r.value.entry, r.value.size) == Log(journal.segments)[|Log(journal.segments)| - 1]
    {
      var cur := journal.segments[current];
      r := LastEntry(cur);
      LogLength(journal.segments);
      assert Log(journal.segments) == Log(journal.segments[..current]) + cur.records;
    }

    method Flush()
      requires Valid()
      modifies journal
      ensures Valid()
      ensures journal.State() == FlushState(old(journal.State()))
      ensures JournalWriterContract.FlushContract(old(journal.State()), journal.State())
    {
      journal.FlushSegment(current);
    }

    method Close()
      requires Valid()
      modifies journal
      ensures Valid()
      ensures journal.State() == CloseState(old(journal.State()))
    {
      journal.CloseSegment(current);
    }

    method Commit(index: int)
      requires Valid()
      modifies journal
      ensures Valid()
      ensures journal.State() == JournalSpec.Commit(old(journal.State()), index)
      ensures JournalWriterContract.CommitContract(old(journal.State()), index, journal.State())
    {
      if index > journal.commitIndex {
        journal.SetCommitIndex(index);
        if journal.flushOnCommit {
          Flush();
        }
      }
      JournalWriterContract.CommitMeetsContract(old(journal.State()), index);
    }

    /** Flushes and releases the current writer, then moves to a new segment and acquires its writer. */
    method MoveToNextSegment()
      requires Valid() && journal.segments[current].records != []
      modifies this, journal
      ensures Valid()
      ensures var st := old(journal.State()); var cur := Current(st);
        journal.State() == st.(segments := st.segments + [Segment(NextIndex(cur), st.maxSegmentSize, [])],
                               events := st.events + [Event.Flush(cur.base), Release(cur.base), Acquire(NextIndex(cur))])
    {
      journal.FlushSegment(current);
      journal.ReleaseWriter(current);
      current := journal.GetNextSegment();
      journal.AcquireWriter(current);
    }

    /**
     * One step of the truncate loop: release the current writer, delete the current
     * (last, not first) segment and acquire the writer of the new last segment.
     */
    method MoveToPreviousSegment()
      requires Valid() && current > 0
      modifies this, journal
      ensures Valid() && current == old(current) - 1
      ensures journal.segments == old(journal.segments)[..old(current)]
      ensures journal.events == old(journal.events) + [Release(old(journal.segments)[old(current)].base),
                                                       Acquire(old(journal.segments)[current].base)]
      ensures journal.commitIndex == old(journal.commitIndex)
    {
      journal.ReleaseWriter(current);
      journal.RemoveSegment(current);
      current := |journal.segments| - 1;
      journal.AcquireWriter(current);
    }

    method Append(entry: E) returns (r: Outcome<Indexed<E>>)
      requires Valid()
      modifies this, journal
      ensures Valid()
      ensures Step(r, journal.State()) == JournalSpec.Append(old(journal.State()), entry, journal.encodedSize(entry))
      ensures JournalWriterContract.AppendContract(old(journal.State()), entry, r, journal.State())
    {
      var size := journal.encodedSize(entry);
      r := journal.AppendToSegment(current, entry, size);
      if r.Overflow? {
        if journal.segments[current].base == NextIndex(journal.segments[current]) {
          JournalWriterContract.AppendMeetsContract(old(journal.State()), entry, size);
          return;
        }
        MoveToNextSegment();
        r := journal.AppendToSegment(current, entry, size);
      }
      JournalWriterContract.AppendMeetsContract(old(journal.State()), entry, size);
    }

    /**
     * Appends an entry that already carries its index, which must be the next index;
     * the segment writer encodes it again, with the same rollover as `Append`.
     */
    method AppendIndexed(entry: Indexed<E>) returns (r: Outcome<()>)
      requires Valid() && entry.index == NextIndexOf(journal.State())
      modifies this, journal
      ensures Valid()
      ensures var s := JournalSpec.Append(old(journal.State()), entry.entry, journal.encodedSize(entry.entry));
        && journal.State() == s.state
        && (r.Ok? <==> s.result.Ok?)
        && (!r.Ok? ==> r.Overflow?)
    {
      var size := journal.encodedSize(entry.entry);
      var w := journal.AppendToSegment(current, entry.entry, size);
      if w.Overflow? {
        if journal.segments[current].base == NextIndex(journal.segments[current]) {
          return Overflow;
        }
        MoveToNextSegment();
        w := journal.AppendToSegment(current, entry.entry, size);
      }
      r := if w.Ok? then Ok(()) else Overflow;
    }

    /**
     * The loop of truncate: delete every segment whose first index lies past `index`,
     * last one first, never the first segment.
     */
    method DeleteSegmentsAfter(index: int)
      requires Valid()
      modifies this, journal
      ensures Valid()
      ensures var st := old(journal.State()); var k := Survivors(st.segments, index);
        && current == k - 1
        && journal.segments == st.segments[..k]
        && journal.events == st.events + RemovalEvents(st.segments, k)
        && journal.commitIndex == st.commitIndex
    {
      ghost var st := journal.State();
      while index < journal.segments[current].base && current != 0
        invariant Valid()
        invariant journal.segments == st.segments[..current + 1]
        invariant Survivors(st.segments[..current + 1], index) == Survivors(st.segments, index)
        invariant journal.events == st.events + RemovalEvents(st.segments, current + 1)
        invariant journal.commitIndex == st.commitIndex
        decreases current
      {
        ghost var c := current;
        SurvivorsStep(st.segments, c, index);
        RemovalEventsStep(st.segments, c);
        ConcatAssoc(st.events, RemovalEvents(st.segments, c + 1),
                    [Release(st.segments[c].base), Acquire(st.segments[c - 1].base)]);
        MoveToPreviousSegment();
      }
      SurvivorsExit(st.segments, current, index);
    }

    method Truncate(index: int) returns (r: Outcome<()>)
      requires Valid()
      modifies this, journal
      ensures Valid()
      ensures Step(r, journal.State()) == JournalSpec.Truncate(old(journal.State()), index)
      ensures JournalWriterContract.TruncateContract(old(journal.State()), index, r, journal.State())
    {
      ghost var st := journal.State();
      if index < journal.commitIndex {
        JournalWriterContract.TruncateMeetsContract(st, index);
        return IndexOutOfBounds;
      }
      DeleteSegmentsAfter(index);
      ghost var k := current + 1;
      assert journal.segments[current] == st.segments[k - 1];
      journal.TruncateSegment(current, index);
      journal.ResetTail(index + 1);
      r := Ok(());
      ghost var spec := JournalSpec.Truncate(st, index);
      assert journal.segments == TruncateSegments(st.segments, index) by {
        assert st.segments[..k][..k - 1] == st.segments[..k - 1];
      }
      assert journal.events == st.events + RemovalEvents(st.segments, k) + [ResetTail(index + 1)];
      assert journal.State() == spec.state;
      assert JournalWriterContract.TruncateContract(st, index, spec.result, spec.state) by {
        JournalWriterContract.TruncateMeetsContract(st, index);
      }
    }

    method Reset(index: int) returns (r: Outcome<()>)
      requires Valid()
      modifies this, journal
      ensures Valid()
      ensures Step(r, journal.State()) == JournalSpec.Reset(old(journal.State()), index)
      ensures JournalWriterContract.ResetContract(old(journal.State()), index, r, journal.State())
    {
      ghost var st := journal.State();
      ghost var spec := JournalSpec.Reset(st, index);
      JournalWriterContract.ResetMeetsContract(st, index);
      if index > journal.segments[current].base {
        journal.ReleaseWriter(current);
        current := journal.ResetSegments(index);
        journal.AcquireWriter(current);
        r := Ok(());
      } else {
        r := Truncate(index - 1);
        if !r.Ok? {
          return;
        }
      }
      journal.ResetHead(index);
      assert r == spec.result && journal.State() == spec.state;
    }
  }
}
