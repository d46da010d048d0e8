/**
 * The JournalWriter interface: what any journal writer promises its caller, stated
 * over the journal state before and after a call, and proved of the segmented
 * writer's behaviour.
 */
module JournalWriterContract {
  import opened Outcomes
  import opened Segments
  import opened JournalSpec

  /**
   * append writes the given entry at the index getNextIndex reported and returns it
   * with that index; the log grows by exactly that entry, which becomes the last one.
   * It never returns "nothing": it fails with Overflow, and then the log and the last
   * index are as they were.
   */
  ghost predicate AppendContract<E>(before: JournalState<E>, entry: E, r: Outcome<Indexed<E>>, after: JournalState<E>)
  {
    && |before.segments| > 0 && |after.segments| > 0
    && (r.Ok? ==>
          && r.value.index == NextIndexOf(before)
          && r.value.entry == entry
          && Log(after.segments) == Log(before.segments) + [Record(entry, r.value.size)]
          && LastIndexOf(after) == r.value.index
          && NextIndexOf(after) == r.value.index + 1)
    && (!r.Ok? ==>
          && r.Overflow?
          && Log(after.segments) == Log(before.segments)
          && LastIndexOf(after) == LastIndexOf(before))
  }

  /** commit marks entries up to `index` committed; the commit index only grows and the entries stay. */
  ghost predicate CommitContract<E>(before: JournalState<E>, index: int, after: JournalState<E>)
  {
    && after.commitIndex == Max(before.commitIndex, index)
    && after.segments == before.segments
  }

  /**
   * truncate refuses to drop committed entries; otherwise the log keeps exactly its
   * records up to `index`, unchanged, so no entry lies past `index`.
   */
  ghost predicate TruncateContract<E>(before: JournalState<E>, index: int, r: Outcome<()>, after: JournalState<E>)
  {
    && |before.segments| > 0 && |after.segments| > 0
    && (r.Ok? <==> before.commitIndex <= index)
    && (r.Ok? ==>
          && Log(after.segments) == Log(before.segments)[..Clamp(index - FirstIndex(before) + 1, |Log(before.segments)|)]
          && LastIndexOf(after) <= Max(index, FirstIndex(before) - 1)
          && LastIndexOf(after) == Min(LastIndexOf(before), Max(index, FirstIndex(before) - 1)))
    && (!r.Ok? ==> r.IndexOutOfBounds? && after == before)
  }

  /** reset makes `index` the head: the next entry is written at `index` (never before the first index). */
  ghost predicate ResetContract<E>(before: JournalState<E>, index: int, r: Outcome<()>, after: JournalState<E>)
  {
    && |before.segments| > 0 && |after.segments| > 0
    && (r.Ok? ==> NextIndexOf(after) == Max(index, FirstIndex(before)))
    && (!r.Ok? ==> r.IndexOutOfBounds? && after == before)
  }

  /** flush makes the written entries durable: one flush of the current segment, no change to the entries. */
  ghost predicate FlushContract<E>(before: JournalState<E>, after: JournalState<E>)
  {
    && |before.segments| > 0
    && after.segments == before.segments
    && after.commitIndex == before.commitIndex
    && after.events == before.events + [Flush(Current(before).base)]
  }

  lemma AppendMeetsContract<E>(st: JournalState<E>, entry: E, size: nat)
    requires WellFormed(st)
    ensures var r := Append(st, entry, size); AppendContract(st, entry, r.result, r.state)
  {
    AppendOk(st, entry, size);
    AppendOverflow(st, entry, size);
    AppendWellFormed(st, entry, size);
  }

  lemma CommitMeetsContract<E>(st: JournalState<E>, index: int)
    requires |st.segments| > 0
    ensures CommitContract(st, index, Commit(st, index))
  {
    CommitSpec(st, index);
  }

  lemma TruncateMeetsContract<E>(st: JournalState<E>, index: int)
    requires WellFormed(st)
    ensures var r := Truncate(st, index); TruncateContract(st, index, r.result, r.state)
  {
    if st.commitIndex <= index {
      TruncateSpec(st, index);
    }
  }

  lemma ResetMeetsContract<E>(st: JournalState<E>, index: int)
    requires WellFormed(st)
    ensures var r := Reset(st, index); ResetContract(st, index, r.result, r.state)
  {
    ResetSpec(st, index);
  }

  lemma FlushMeetsContract<E>(st: JournalState<E>)
    requires |st.segments| > 0
    ensures FlushContract(st, FlushState(st))
  {
  }
}
