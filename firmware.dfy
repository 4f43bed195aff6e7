/**
 * The firmware's globals and the steps of `loop` that use them
 * (src/main.cpp:32-34, 84-118, 139-159): the presence flag
 * `cardWasPresent`, the poll baseline `lastPollTime`, and the publish calls
 * handed to the pub/sub client.
 */
module Firmware {
  import opened Hex
  import opened Presence
  import opened PollClock
  import opened Payload
  import opened Wrappers

  /** What `handleRfidScan` does on one call, as its log line reports it. */
  datatype ScanOutcome =
    | NoArrival                      // no new card: nothing published, nothing logged
    | Published(payload: string)     // "Published: <payload>"
    | PublishFailed(payload: string) // "Publish failed" (the payload is not logged); the event is dropped

  /** The publish call for an arrival read of `uid`. */
  function ScanPublication(uid: seq<byte>): Publication {
    Publication(ScanTopic, ScanPayload(Encode(uid)))
  }

  /** The publish calls `handleRfidScan` makes over successive reads of the tag buffer: one per arrival, in order. */
  function ScanPublications(wasPresent: bool, scans: seq<seq<byte>>): seq<Publication> {
    var arrivals := ArrivalReads(wasPresent, scans);
    seq(|arrivals|, k requires 0 <= k < |arrivals| => ScanPublication(arrivals[k]))
  }

  /** Publishing over reads followed by one more is publishing over the reads, then the one more from the state they leave. */
  lemma ScanPublicationsSnoc(wasPresent: bool, scans: seq<seq<byte>>, uid: seq<byte>)
    ensures ScanPublications(wasPresent, scans + [uid])
      == ScanPublications(wasPresent, scans) + ScanPublications(FinalPresence(wasPresent, scans), [uid])
  {
    ArrivalReadsSnoc(wasPresent, scans, uid);
  }

  /** From power-up, exactly one publish call per maximal run of reads with a tag present. */
  lemma OnePublicationPerRun(scans: seq<seq<byte>>)
    ensures |ScanPublications(false, scans)| == Runs(scans)
  {
    EventsCountRuns(scans);
  }

  /**
   * Every publish call goes to the scan topic with a payload from which a
   * consumer recovers 24 upper-case hex characters and, from them, exactly
   * the 12-byte buffer read at the corresponding arrival.
   */
  lemma PublicationsWellFormed(wasPresent: bool, scans: seq<seq<byte>>)
    requires forall i :: 0 <= i < |scans| ==> |scans[i]| == UidLength
    ensures |ScanPublications(wasPresent, scans)| == |ArrivalReads(wasPresent, scans)|
    ensures forall k :: 0 <= k < |ScanPublications(wasPresent, scans)| ==>
      var p := ScanPublications(wasPresent, scans)[k];
      p.topic == ScanTopic
      && ParseScanPayload(p.payload).Some?
      && |ParseScanPayload(p.payload).value| == 2 * UidLength
      && Decode(ParseScanPayload(p.payload).value) == Some(ArrivalReads(wasPresent, scans)[k])
      && |ArrivalReads(wasPresent, scans)[k]| == UidLength
  {
    ArrivalReadsFromScans(wasPresent, scans);
    var arrivals := ArrivalReads(wasPresent, scans);
    forall k | 0 <= k < |arrivals|
      ensures ParseScanPayload(ScanPublication(arrivals[k]).payload) == Some(Encode(arrivals[k]))
      ensures Decode(Encode(arrivals[k])) == Some(arrivals[k])
      ensures |arrivals[k]| == UidLength
    {
      ParseScanPayloadRoundTrip(Encode(arrivals[k]));
      DecodeEncode(arrivals[k]);
    }
  }

  /** The encoded identifier needs no escaping inside the JSON string. */
  lemma EncodedUidJsonSafe(uid: seq<byte>)
    ensures JsonStringSafe(Encode(uid))
  {
  }

  /** A read of tag 04 12 A3 00.. after an empty buffer publishes one scan event with its identifier. */
  lemma ExampleScan()
    ensures var empty := seq(12, _ => 0 as byte);
            var tag: seq<byte> := [0x04, 0x12, 0xA3, 0, 0, 0, 0, 0, 0, 0, 0, 0];
            ScanPublications(false, [empty, tag])
              == [Publication(ScanTopic, ScanPayload("0412A3000000000000000000"))]
  {
    var empty := seq(12, _ => 0 as byte);
    var tag: seq<byte> := [0x04, 0x12, 0xA3, 0, 0, 0, 0, 0, 0, 0, 0, 0];
    assert !Present(empty);
    assert tag[0] != 0;
    ExampleTagEncoding();
    assert [empty, tag][1..] == [tag] && [tag][1..] == [];
    assert ScanPublications(true, []) == [];
    assert ScanPublications(false, [tag]) == [ScanPublication(tag)];
    assert ScanPublications(false, [empty, tag]) == ScanPublications(false, [tag]);
  }

  /** The device: the globals of src/main.cpp that the firmware overwrites, and the client's record of publish calls. */
  class Reader {
    /** `lastPollTime`: `millis()` when the last inventory request was issued. */
    var lastPollTime: u32
    /** `cardWasPresent`: whether the previous read found a tag. */
    var cardWasPresent: bool
    /** The publish calls made on the pub/sub client so far, oldest first. */
    var publishCalls: seq<Publication>

    /** Power-up: both globals at their initialisers, nothing published. */
    constructor ()
      ensures lastPollTime == 0 && !cardWasPresent && publishCalls == []
    {
      lastPollTime := 0;
      cardWasPresent := false;
      publishCalls := [];
    }

    /**
     * `isNewCard`: reports an arrival only on the absent-to-present edge; the
     * flag afterwards records presence in this read, whatever it was before.
     */
    method IsNewCard(uid: seq<byte>) returns (isNew: bool)
      requires |uid| == UidLength
      modifies this`cardWasPresent
      ensures isNew <==> Present(uid) && !old(cardWasPresent)
      ensures cardWasPresent <==> Present(uid)
    {
      var cardIsPresent := CardIsPresent(uid);
      if cardIsPresent && !cardWasPresent {
        cardWasPresent := true;
        return true;
      } else if !cardIsPresent {
        cardWasPresent := false;
      }
      return false;
    }

    /**
     * `handleRfidScan`: on an arrival, one publish call on the scan topic with
     * the payload for the encoded buffer; `accepted` is the client's answer,
     * which only chooses the log line (no retry, no queue).
     */
    method HandleRfidScan(uid: seq<byte>, accepted: bool) returns (outcome: ScanOutcome)
      requires |uid| == UidLength
      modifies this`cardWasPresent, this`publishCalls
      ensures cardWasPresent <==> Present(uid)
      ensures publishCalls == old(publishCalls) + ScanPublications(old(cardWasPresent), [uid])
      ensures outcome == NoArrival <==> !Arrival(old(cardWasPresent), uid)
      ensures Arrival(old(cardWasPresent), uid) ==>
        outcome == (if accepted then Published(ScanPayload(Encode(uid)))
                    else PublishFailed(ScanPayload(Encode(uid))))
    {
      var isNew := IsNewCard(uid);
      if isNew {
        var uidStr := UidToHexString(uid, 12);
        assert uid[..12] == uid;
        var payload := ScanPayload(uidStr);
        publishCalls := publishCalls + [Publication(ScanTopic, payload)];
        if accepted {
          outcome := Published(payload);
        } else {
          outcome := PublishFailed(payload);
        }
      } else {
        outcome := NoArrival;
      }
      assert [uid][1..] == [];
      assert ScanPublications(Present(uid), []) == [];
    }

    /**
     * Successive passes of the scan handler over the reads `scans`, the
     * broker answering `accepted[i]` to the i-th. The publish calls made are
     * exactly the ones `ScanPublications` gives for those reads.
     */
    method HandleScans(scans: seq<seq<byte>>, accepted: seq<bool>)
      requires |accepted| == |scans|
      requires forall i :: 0 <= i < |scans| ==> |scans[i]| == UidLength
      modifies this`cardWasPresent, this`publishCalls
      ensures publishCalls == old(publishCalls) + ScanPublications(old(cardWasPresent), scans)
      ensures cardWasPresent == FinalPresence(old(cardWasPresent), scans)
      ensures !old(cardWasPresent) ==> |publishCalls| == |old(publishCalls)| + Runs(scans)
    {
      var i := 0;
      while i < |scans|
        invariant 0 <= i <= |scans|
        invariant publishCalls == old(publishCalls) + ScanPublications(old(cardWasPresent), scans[..i])
        invariant cardWasPresent == FinalPresence(old(cardWasPresent), scans[..i])
      {
        ScanPublicationsSnoc(old(cardWasPresent), scans[..i], scans[i]);
        assert scans[..i + 1] == scans[..i] + [scans[i]];
        var _ := HandleRfidScan(scans[i], accepted[i]);
        i := i + 1;
      }
      assert scans[..i] == scans;
      OnePublicationPerRun(scans);
    }

    /**
     * The poll step of `loop`: `now` and `stamp` are the two `millis()` reads
     * of the guard and of the update. An inventory request is issued exactly
     * when the wrapped difference exceeds the interval, and only then does
     * the baseline move.
     */
    method PollStep(now: u32, stamp: u32) returns (polled: bool)
      modifies this`lastPollTime
      ensures polled <==> PollDue(old(lastPollTime), now)
      ensures lastPollTime == if polled then stamp else old(lastPollTime)
    {
      polled := false;
      if PollDue(lastPollTime, now) {
        polled := true;
        lastPollTime := stamp;
      }
    }

    /**
     * One pass of `loop` once the client is connected: the poll step, then
     * the scan handler on the buffer as the driver leaves it.
     */
    method Loop(now: u32, stamp: u32, uid: seq<byte>, accepted: bool) returns (polled: bool, outcome: ScanOutcome)
      requires |uid| == UidLength
      modifies this
      ensures polled <==> PollDue(old(lastPollTime), now)
      ensures lastPollTime == if polled then stamp else old(lastPollTime)
      ensures cardWasPresent <==> Present(uid)
      ensures publishCalls == old(publishCalls) + ScanPublications(old(cardWasPresent), [uid])
      ensures outcome == NoArrival <==> !Arrival(old(cardWasPresent), uid)
      ensures Arrival(old(cardWasPresent), uid) ==>
        outcome == (if accepted then Published(ScanPayload(Encode(uid)))
                    else PublishFailed(ScanPayload(Encode(uid))))
    {
      polled := PollStep(now, stamp);
      outcome := HandleRfidScan(uid, accepted);
    }
  }
}
