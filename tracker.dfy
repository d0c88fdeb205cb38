/**
 * The live-feed tracker as the page holds it: mutable track list, id
 * counter and ever-infested set, updated once per detection cycle by two
 * passes over the data. Each update replaces the state by Tracking.Step.
 */
module Tracker {
  import opened Options
  import opened Geometry
  import opened Detections
  import opened Tracking

  /**
   * The inner scan over the previous tracks for one detection box: the
   * best unmatched index so far, replaced only by a strictly higher IoU,
   * starting from the threshold.
   */
  method FindBestMatch(prev: seq<Track>, matched: set<nat>, box: Box) returns (bestMatch: Option<nat>)
    ensures bestMatch == BestMatch(prev, matched, box)
    ensures bestMatch.Some? ==> IsGreedyBest(prev, matched, box, bestMatch.value)
    ensures bestMatch.None? ==> NoCandidate(prev, matched, box)
  {
    bestMatch := None;
    var highestIou := MatchThreshold;
    var j := 0;
    while j < |prev|
      invariant 0 <= j <= |prev|
      invariant Candidate(bestMatch, highestIou) == ScanBest(prev, matched, box, j)
    {
      if j !in matched {
        var iouValue := Iou(prev[j].box, box);
        if iouValue > highestIou {
          highestIou := iouValue;
          bestMatch := Some(j);
        }
      }
      j := j + 1;
    }
    BestMatchCharacterized(prev, matched, box);
  }

  /**
   * The eviction pass: appends, in their original order, the previous
   * tracks that were not claimed and were last seen less than StaleWindow
   * milliseconds before now.
   */
  method AppendRecent(updated: seq<Track>, prev: seq<Track>, matched: set<nat>, now: int)
    returns (r: seq<Track>)
    ensures r == updated + Carry(prev, matched, now, |prev|)
    ensures forall t :: t in r[|updated|..] <==>
      exists j :: 0 <= j < |prev| && j !in matched && now - prev[j].timestamp < StaleWindow && t == prev[j]
  {
    r := updated;
    var j := 0;
    while j < |prev|
      invariant 0 <= j <= |prev|
      invariant r == updated + Carry(prev, matched, now, j)
    {
      if j !in matched && now - prev[j].timestamp < StaleWindow {
        r := r + [prev[j]];
      }
      j := j + 1;
    }
    CarryMembers(prev, matched, now, |prev|);
    assert r[|updated|..] == Carry(prev, matched, now, |prev|);
  }

  class TrackerState {
    var tracks: seq<Track>
    var nextId: nat
    var infested: set<nat>

    /** The current state as a value. */
    function Model(): Snapshot
      reads this
    {
      Snapshot(tracks, nextId, infested)
    }

    predicate Valid()
      reads this
    {
      Tracking.Valid(Model())
    }

    /** A new session: no tracks, the counter at 1, nothing infested yet. */
    constructor ()
      ensures Model() == Init() && Valid()
    {
      tracks := [];
      nextId := 1;
      infested := {};
    }

    /**
     * Handles one detection of the matching pass: it claims its best
     * unmatched previous track, or takes the next id (the counter rises by
     * one); its id joins the ever-infested set when its class is 0.
     */
    method MatchOne(d: Detection, now: int, updated: seq<Track>, matched: set<nat>)
      returns (updated': seq<Track>, matched': set<nat>)
      modifies this`nextId, this`infested
      ensures Pass(updated', matched', nextId, infested) ==
        MatchStep(tracks, Pass(updated, matched, old(nextId), old(infested)), d, now)
    {
      var bestMatch := FindBestMatch(tracks, matched, d.box);
      match bestMatch {
        case Some(i) =>
          var t := Track(tracks[i].id, d.box, d.cls, now);
          updated' := updated + [t];
          matched' := matched + {i};
          if IsInfested(t.cls) {
            infested := infested + {t.id};
          }
        case None =>
          var t := Track(nextId, d.box, d.cls, now);
          nextId := nextId + 1;
          updated' := updated + [t];
          matched' := matched;
          if IsInfested(t.cls) {
            infested := infested + {t.id};
          }
      }
    }

    /**
     * One detection cycle at time now. Every detection, in order, claims
     * the unmatched previous track with the highest IoU above the
     * threshold or gets the next id; unclaimed previous tracks seen less
     * than StaleWindow ago are appended; the list then replaces the old.
     */
    method Update(dets: seq<Detection>, now: int)
      modifies this
      ensures Model() == Step(old(Model()), dets, now)
      ensures old(Valid()) ==> Valid()
      ensures old(nextId) <= nextId && old(infested) <= infested
    {
      ghost var s := Model();
      var updated: seq<Track> := [];
      var matched: set<nat> := {};
      var k := 0;
      while k < |dets|
        invariant 0 <= k <= |dets|
        invariant tracks == s.tracks
        invariant Pass(updated, matched, nextId, infested) == MatchPass(s, dets, now, k)
      {
        updated, matched := MatchOne(dets[k], now, updated, matched);
        k := k + 1;
      }

      // Carry forward the unclaimed tracks that are not stale.
      updated := AppendRecent(updated, tracks, matched, now);
      tracks := updated;
      assert Model() == Step(s, dets, now);
      assert old(Model()) == s;
      if Tracking.Valid(s) {
        StepPreservesValid(s, dets, now);
        assert Valid();
      }
      StepGrows(s, dets, now);
    }
  }
}
