/**
 * The design's promise about the commit index and the log: the commit index lies
 * within the written log, and committed records are never changed. Which writer
 * operations keep it, and which two do not check it.
 */
module CommitInvariant {
  import opened Outcomes
  import opened Segments
  import opened JournalSpec

  /**
   * The design's invariant that nothing past the written log is committed: the
   * commit index is at most the last index.
   */
  predicate CommitWithinLog<E>(st: JournalState<E>)
    requires |st.segments| > 0
  {
    st.commitIndex <= LastIndexOf(st)
  }

  /** The committed records: the log's records with index at most the commit index. */
  function Committed<E>(st: JournalState<E>): seq<Record<E>>
    requires |st.segments| > 0
  {
    Log(st.segments)[..Clamp(st.commitIndex - FirstIndex(st) + 1, |Log(st.segments)|)]
  }

  /** Append, successful or not, keeps the commit index within the log and the committed records as they were. */
  lemma AppendKeepsCommitted<E>(st: JournalState<E>, entry: E, size: nat)
    requires WellFormed(st) && CommitWithinLog(st)
    ensures var r := Append(st, entry, size);
      CommitWithinLog(r.state) && Committed(r.state) == Committed(st)
  {
    var r := Append(st, entry, size);
    AppendOk(st, entry, size);
    AppendOverflow(st, entry, size);
    AppendWellFormed(st, entry, size);
    LogLength(st.segments);
    if r.result.Ok? {
      var c := Clamp(st.commitIndex - FirstIndex(st) + 1, |Log(st.segments)|);
      assert (Log(st.segments) + [Record(entry, size)])[..c] == Log(st.segments)[..c];
    } else {
      assert !r.result.IndexOutOfBounds?;
      assert FirstIndex(r.state) == FirstIndex(st) by {
        if |r.state.segments| > |st.segments| {
          AppendPaths(st, entry, size);
          assert r.state.segments[0] == st.segments[0];
        }
      }
    }
  }

  /** An accepted truncate never drops a committed record and keeps the commit index within the log. */
  lemma TruncateKeepsCommitted<E>(st: JournalState<E>, index: int)
    requires WellFormed(st) && CommitWithinLog(st) && st.commitIndex <= index
    ensures var r := Truncate(st, index);
      CommitWithinLog(r.state) && Committed(r.state) == Committed(st)
  {
    var r := Truncate(st, index).state;
    TruncateSpec(st, index);
    LogLength(st.segments);
    CommittedOfPrefix(st, r, Clamp(index - FirstIndex(st) + 1, |Log(st.segments)|));
  }

  /** A state whose log is a prefix of another's, long enough to hold its committed records, has the same ones. */
  lemma CommittedOfPrefix<E>(a: JournalState<E>, b: JournalState<E>, t: nat)
    requires |a.segments| > 0 && |b.segments| > 0
    requires FirstIndex(b) == FirstIndex(a) && b.commitIndex == a.commitIndex
    requires t <= |Log(a.segments)| && Log(b.segments) == Log(a.segments)[..t]
    requires a.commitIndex - FirstIndex(a) + 1 <= t
    ensures Committed(b) == Committed(a)
  {
    var k := Clamp(a.commitIndex - FirstIndex(a) + 1, |Log(a.segments)|);
    assert Log(a.segments)[..t][..k] == Log(a.segments)[..k];
  }

  /** Commit to an index within the log keeps the commit index within the log. */
  lemma CommitKeepsWithinLog<E>(st: JournalState<E>, index: int)
    requires |st.segments| > 0 && CommitWithinLog(st) && index <= LastIndexOf(st)
    ensures CommitWithinLog(Commit(st, index))
  {
  }

  /**
   * Commit does not check the index against the log: committing past the last index
   * breaks the invariant.
   */
  lemma CommitBeyondLog<E>(st: JournalState<E>, index: int)
    requires |st.segments| > 0 && index > LastIndexOf(st) && index > st.commitIndex
    ensures !CommitWithinLog(Commit(st, index))
  {
  }

  /**
   * The forward branch of reset makes no commit-index check: resetting past the current
   * segment's base to an index at or below the commit index discards every record,
   * committed ones included, and leaves the commit index past the last index.
   */
  lemma ResetForwardDropsCommitted<E>(st: JournalState<E>, index: int)
    requires WellFormed(st) && Current(st).base < index <= st.commitIndex
    ensures var r := Reset(st, index);
      && r.result.Ok?
      && Log(r.state.segments) == []
      && r.state.commitIndex == st.commitIndex
      && !CommitWithinLog(r.state)
  {
    ResetForward(st, index);
    assert Log(Reset(st, index).state.segments) == [] by {
      assert Reset(st, index).state.segments[..0] == [];
    }
  }

  /**
   * The truncating branch of reset, when accepted, keeps the commit index within the
   * log and the committed records as they were.
   */
  lemma ResetTruncatingKeepsCommitted<E>(st: JournalState<E>, index: int)
    requires WellFormed(st) && CommitWithinLog(st) && index <= Current(st).base && st.commitIndex <= index - 1
    ensures var r := Reset(st, index);
      CommitWithinLog(r.state) && Committed(r.state) == Committed(st)
  {
    var t := Truncate(st, index - 1).state;
    TruncateKeepsCommitted(st, index - 1);
    var r := Reset(st, index).state;
    assert r == t.(events := t.events + [ResetHead(index)]);
    assert r.segments == t.segments && r.commitIndex == t.commitIndex;
  }
}
