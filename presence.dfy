/**
 * Presence debouncer: the specification of `isNewCard` (src/main.cpp:84-102).
 * The reader's 12-byte tag buffer is all zero when no tag is in range; the
 * debouncer remembers one bit (was a tag present on the previous read) and
 * reports an arrival only on the absent-to-present edge. It compares
 * presence, never identity.
 */
module Presence {
  import opened Hex

  /** Length of the reader driver's tag buffer `rfid.uid`. */
  const UidLength: nat := 12

  /** A tag is in range: some byte of the buffer is non-zero. */
  predicate Present(uid: seq<byte>) {
    exists i :: 0 <= i < |uid| && uid[i] != 0
  }

  /** The scan at the head of `isNewCard`: looks for a non-zero byte, stopping at the first. */
  method CardIsPresent(uid: seq<byte>) returns (cardIsPresent: bool)
    requires |uid| == UidLength
    ensures cardIsPresent <==> Present(uid)
  {
    cardIsPresent := false;
    var i := 0;
    while i < UidLength
      invariant 0 <= i <= UidLength
      invariant forall j :: 0 <= j < i ==> uid[j] == 0
    {
      if uid[i] != 0 {
        cardIsPresent := true;
        break;
      }
      i := i + 1;
    }
  }

  /** Whether a read of `uid` is an arrival, given whether a tag was present on the previous read. */
  predicate Arrival(wasPresent: bool, uid: seq<byte>) {
    Present(uid) && !wasPresent
  }

  /** The reads, in order, at which the debouncer reports an arrival, starting from `wasPresent`. */
  function ArrivalReads(wasPresent: bool, scans: seq<seq<byte>>): seq<seq<byte>>
    decreases scans
  {
    if scans == [] then []
    else
      (if Arrival(wasPresent, scans[0]) then [scans[0]] else [])
      + ArrivalReads(Present(scans[0]), scans[1..])
  }

  /** Number of arrivals the debouncer reports over successive reads, starting from `wasPresent`. */
  function Events(wasPresent: bool, scans: seq<seq<byte>>): nat {
    |ArrivalReads(wasPresent, scans)|
  }

  /** The debouncer's state after the reads: the presence of the last one, or the start state if none. */
  function FinalPresence(wasPresent: bool, scans: seq<seq<byte>>): bool {
    if scans == [] then wasPresent else Present(scans[|scans| - 1])
  }

  /** The arrivals over reads followed by one more are those over the reads, then the one more's from the state they leave. */
  lemma {:induction false} ArrivalReadsSnoc(wasPresent: bool, scans: seq<seq<byte>>, uid: seq<byte>)
    ensures ArrivalReads(wasPresent, scans + [uid])
      == ArrivalReads(wasPresent, scans) + ArrivalReads(FinalPresence(wasPresent, scans), [uid])
    decreases scans
  {
    if scans == [] {
      assert scans + [uid] == [uid];
    } else {
      assert (scans + [uid])[0] == scans[0];
      assert (scans + [uid])[1..] == scans[1..] + [uid];
      ArrivalReadsSnoc(Present(scans[0]), scans[1..], uid);
      assert FinalPresence(Present(scans[0]), scans[1..]) == FinalPresence(wasPresent, scans);
    }
  }

  /** Every reported arrival is one of the reads, and has a tag present. */
  lemma {:induction false} ArrivalReadsFromScans(wasPresent: bool, scans: seq<seq<byte>>)
    ensures forall k :: 0 <= k < |ArrivalReads(wasPresent, scans)| ==>
      ArrivalReads(wasPresent, scans)[k] in scans && Present(ArrivalReads(wasPresent, scans)[k])
    decreases scans
  {
    if scans != [] {
      ArrivalReadsFromScans(Present(scans[0]), scans[1..]);
      var rest := ArrivalReads(Present(scans[0]), scans[1..]);
      assert forall k :: 0 <= k < |rest| ==> rest[k] in scans;
    }
  }

  /** Length of the leading run of reads with a tag present. */
  function RunLength(scans: seq<seq<byte>>): (k: nat)
    ensures k <= |scans|
    ensures forall i :: 0 <= i < k ==> Present(scans[i])
    ensures k < |scans| ==> !Present(scans[k])
  {
    if scans != [] && Present(scans[0]) then 1 + RunLength(scans[1..]) else 0
  }

  /** The reads that follow the leading run of reads with a tag present. */
  function SkipRun(scans: seq<seq<byte>>): seq<seq<byte>> {
    scans[RunLength(scans)..]
  }

  /** Number of maximal runs of consecutive scans with a tag present. */
  function Runs(scans: seq<seq<byte>>): nat
    decreases |scans|
  {
    if scans == [] then 0
    else if !Present(scans[0]) then Runs(scans[1..])
    else
      1 + Runs(SkipRun(scans))
  }

  /** While a tag stays present no arrival is reported; the count resumes from absent after the run. */
  lemma {:induction false} EventsAfterPresence(scans: seq<seq<byte>>)
    ensures Events(true, scans) == Events(false, SkipRun(scans))
  {
    if scans != [] && Present(scans[0]) {
      EventsAfterPresence(scans[1..]);
    }
  }

  /** From the initial absent state, the number of arrivals equals the number of maximal present runs. */
  lemma {:induction false} EventsCountRuns(scans: seq<seq<byte>>)
    ensures Events(false, scans) == Runs(scans)
    decreases |scans|
  {
    if scans != [] {
      if !Present(scans[0]) {
        EventsCountRuns(scans[1..]);
      } else {
        EventsAfterPresence(scans[1..]);
        assert RunLength(scans) == 1 + RunLength(scans[1..]);
        assert SkipRun(scans) == SkipRun(scans[1..]);
        EventsCountRuns(SkipRun(scans));
      }
    }
  }

  /**
   * Presence, not identity: two read sequences that agree on which scans
   * have a tag present yield the same arrivals, so a different tag replacing
   * the first within a present run adds none.
   */
  lemma {:induction false} PresenceNotIdentity(wasPresent: bool, scans: seq<seq<byte>>, others: seq<seq<byte>>)
    requires |scans| == |others|
    requires forall i :: 0 <= i < |scans| ==> (Present(scans[i]) <==> Present(others[i]))
    ensures Events(wasPresent, scans) == Events(wasPresent, others)
    decreases scans
  {
    if scans != [] {
      assert Present(scans[0]) <==> Present(others[0]);
      PresenceNotIdentity(Present(scans[0]), scans[1..], others[1..]);
    }
  }

  /** No arrival is reported while every read is all zero. */
  lemma {:induction false} AbsentReadsReportNothing(wasPresent: bool, scans: seq<seq<byte>>)
    requires forall i :: 0 <= i < |scans| ==> !Present(scans[i])
    ensures Events(wasPresent, scans) == 0
  {
    if scans != [] {
      AbsentReadsReportNothing(false, scans[1..]);
    }
  }

  /** A tag left in range for any number of scans is reported once. */
  lemma {:induction false} ResidentTagReportedOnce(tag: seq<byte>, k: nat)
    requires Present(tag) && k >= 1
    ensures Events(false, seq(k, _ => tag)) == 1
  {
    var scans := seq(k, _ => tag);
    EventsAfterPresence(scans[1..]);
    assert SkipRun(scans[1..]) == [];
  }

  /** A tag that leaves the field and comes back is reported twice. */
  lemma ReturningTagReportedTwice(tag: seq<byte>, empty: seq<byte>)
    requires Present(tag) && !Present(empty)
    ensures Events(false, [tag, empty, tag]) == 2
  {
    var scans := [tag, empty, tag];
    assert scans[1..] == [empty, tag] && scans[1..][1..] == [tag] && scans[1..][1..][1..] == [];
    assert ArrivalReads(true, [tag]) == [];
    assert ArrivalReads(false, [tag]) == [tag];
    assert ArrivalReads(true, [empty, tag]) == [tag];
    assert ArrivalReads(false, scans) == [tag, tag];
  }
}
