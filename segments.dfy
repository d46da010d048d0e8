/**
 * One journal segment and the semantics of its single writer.
 *
 * A segment starts at a base index and holds a capacity-bounded run of records;
 * the record at position k has log index base + k. The writer's next index is
 * base + (number of records), so an empty segment is one whose base equals its
 * writer's next index.
 */
module Segments {
  import opened Outcomes

  /** A stored entry together with its encoded size in bytes. */
  datatype Record<E> = Record(entry: E, size: nat)

  /** An entry paired with its log index and encoded size (Java's Indexed<E>). */
  datatype Indexed<E> = Indexed(index: int, entry: E, size: nat)

  datatype Segment<E> = Segment(base: int, capacity: nat, records: seq<Record<E>>)

  /** What a successful segment append yields: the indexed entry and the grown segment. */
  datatype Appended<E> = Appended(entry: Indexed<E>, segment: Segment<E>)

  function NextIndex<E>(s: Segment<E>): int { s.base + |s.records| }

  function LastIndex<E>(s: Segment<E>): int { NextIndex(s) - 1 }

  /** Bytes taken by a run of records. */
  function Used<E>(rs: seq<Record<E>>): nat
  {
    if rs == [] then 0 else Used(rs[..|rs| - 1]) + rs[|rs| - 1].size
  }

  /** The segment's records fit its capacity. */
  predicate Sound<E>(s: Segment<E>) { Used(s.records) <= s.capacity }

  /** An entry of the given encoded size fits in the remaining capacity. */
  predicate Fits<E>(s: Segment<E>, size: nat) { Used(s.records) + size <= s.capacity }

  lemma {:induction false} UsedPrefix<E>(rs: seq<Record<E>>, n: nat)
    requires n <= |rs|
    ensures Used(rs[..n]) <= Used(rs)
    decreases |rs|
  {
    if n < |rs| {
      assert rs[..|rs| - 1][..n] == rs[..n];
      UsedPrefix(rs[..|rs| - 1], n);
    } else {
      assert rs[..n] == rs;
    }
  }

  /** The entry at the writer's last index, or None for an empty segment. */
  function LastEntry<E>(s: Segment<E>): Option<Indexed<E>>
  {
    if s.records == [] then None
    else
      var last := s.records[|s.records| - 1];
      Some(Indexed(LastIndex(s), last.entry, last.size))
  }

  /** The segment writer's append: the entry goes at the next index, or Overflow when it does not fit. */
  function WriterAppend<E>(s: Segment<E>, entry: E, size: nat): Outcome<Appended<E>>
  {
    if Fits(s, size) then
      Ok(Appended(Indexed(NextIndex(s), entry, size), s.(records := s.records + [Record(entry, size)])))
    else
      Overflow
  }

  /** The segment writer's truncate: keep exactly the records whose index is at most `index`. */
  function WriterTruncate<E>(s: Segment<E>, index: int): (r: Segment<E>)
    ensures r.base == s.base && r.capacity == s.capacity
    ensures r.records <= s.records
    ensures LastIndex(r) == Min(LastIndex(s), Max(index, s.base - 1))
  {
    if index < s.base then s.(records := [])
    else if index - s.base + 1 >= |s.records| then s
    else s.(records := s.records[..index - s.base + 1])
  }

  /** A successful writer append places the entry at the old next index and keeps the segment sound. */
  lemma WriterAppendSpec<E>(s: Segment<E>, entry: E, size: nat)
    requires Sound(s)
    ensures var r := WriterAppend(s, entry, size);
      && (r.Ok? <==> Fits(s, size))
      && (r.Ok? ==>
            && r.value.entry == Indexed(NextIndex(s), entry, size)
            && r.value.segment.base == s.base && r.value.segment.capacity == s.capacity
            && r.value.segment.records == s.records + [Record(entry, size)]
            && Sound(r.value.segment)
            && NextIndex(r.value.segment) == NextIndex(s) + 1
            && LastEntry(r.value.segment) == Some(r.value.entry))
  {
    var rs := s.records + [Record(entry, size)];
    assert rs[..|rs| - 1] == s.records;
  }

  /** Truncation never grows the bytes used, so a sound segment stays sound. */
  lemma WriterTruncateSound<E>(s: Segment<E>, index: int)
    requires Sound(s)
    ensures Sound(WriterTruncate(s, index))
  {
    var r := WriterTruncate(s, index);
    assert r.records == s.records[..|r.records|];
    UsedPrefix(s.records, |r.records|);
  }

  /** Truncating a second time to the same index changes nothing. */
  lemma WriterTruncateIdempotent<E>(s: Segment<E>, index: int)
    ensures WriterTruncate(WriterTruncate(s, index), index) == WriterTruncate(s, index)
  {
  }
}
