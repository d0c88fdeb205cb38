/**
 * One update cycle of the greedy IoU tracker, as values: the functions
 * below are the specification that the TrackerState class implements
 * with loops, and the lemmas state what a cycle guarantees.
 */
module Tracking {
  import opened Options
  import opened Geometry
  import opened Detections

  /** A detection claims a track only with an IoU strictly above this. */
  const MatchThreshold: real := 0.4
  /** An unmatched track survives while it was last seen less than this many milliseconds ago. */
  const StaleWindow: int := 1000

  /** A live track: persistent id, latest box and class, time last matched (ms). */
  datatype Track = Track(id: nat, box: Box, cls: ClassCode, timestamp: int)

  /** The tracker's whole state: live tracks, the id counter, the ever-infested ids. */
  datatype Snapshot = Snapshot(tracks: seq<Track>, nextId: nat, infested: set<nat>)

  /** The state of the inner scan: the best unmatched index so far and its IoU. */
  datatype Candidate = Candidate(best: Option<nat>, highest: real)

  /** The state of the matching pass after some prefix of the detections. */
  datatype Pass = Pass(out: seq<Track>, matched: set<nat>, nextId: nat, infested: set<nat>)

  /** The state at session start: no tracks, ids start at 1. */
  function Init(): Snapshot
  {
    Snapshot([], 1, {})
  }

  predicate DistinctIds(s: seq<Track>)
  {
    forall i, j :: 0 <= i < |s| && 0 <= j < |s| && i != j ==> s[i].id != s[j].id
  }

  /**
   * The tracker invariant: every live id and every ever-infested id has
   * been issued (lies in [1, nextId)), live ids are distinct, and every
   * live infested track is recorded as ever infested.
   */
  predicate Valid(s: Snapshot)
  {
    1 <= s.nextId &&
    (forall i :: 0 <= i < |s.tracks| ==> 1 <= s.tracks[i].id < s.nextId) &&
    DistinctIds(s.tracks) &&
    (forall x :: x in s.infested ==> 1 <= x < s.nextId) &&
    (forall i :: 0 <= i < |s.tracks| && IsInfested(s.tracks[i].cls) ==> s.tracks[i].id in s.infested)
  }

  lemma InitValid()
    ensures Valid(Init())
  {
  }

  // ---------------------------------------------------------------------
  // Choosing the track a detection claims

  /**
   * Scans the first n previous tracks in order, keeping the unmatched one
   * with the highest IoU; it replaces the current best only when strictly
   * higher, starting from the threshold.
   */
  function ScanBest(prev: seq<Track>, matched: set<nat>, box: Box, n: nat): (c: Candidate)
    requires n <= |prev|
    ensures c.highest >= MatchThreshold
    ensures c.best.None? ==>
      c.highest == MatchThreshold &&
      forall j {:trigger Iou(prev[j].box, box)} :: 0 <= j < n && j !in matched ==>
        Iou(prev[j].box, box) <= MatchThreshold
    ensures c.best.Some? ==>
      c.best.value < n && c.best.value !in matched &&
      c.highest == Iou(prev[c.best.value].box, box) && c.highest > MatchThreshold &&
      (forall j {:trigger Iou(prev[j].box, box)} :: 0 <= j < n && j !in matched ==>
        Iou(prev[j].box, box) <= c.highest) &&
      (forall j {:trigger Iou(prev[j].box, box)} :: 0 <= j < c.best.value && j !in matched ==>
        Iou(prev[j].box, box) < c.highest)
  {
    if n == 0 then Candidate(None, MatchThreshold)
    else
      var c := ScanBest(prev, matched, box, n - 1);
      var v := Iou(prev[n - 1].box, box);
      if n - 1 !in matched && v > c.highest then Candidate(Some(n - 1), v) else c
  }

  /** The index of the previous track the detection box claims, if any. */
  function BestMatch(prev: seq<Track>, matched: set<nat>, box: Box): (r: Option<nat>)
    ensures r.Some? ==> IsGreedyBest(prev, matched, box, r.value)
    ensures r.None? ==> NoCandidate(prev, matched, box)
  {
    ScanBest(prev, matched, box, |prev|).best
  }

  /**
   * Reference definition of the greedy choice: i is unmatched, clears the
   * threshold, no unmatched track scores higher, and every unmatched track
   * before it scores strictly lower (ties go to the first in list order).
   */
  predicate IsGreedyBest(prev: seq<Track>, matched: set<nat>, box: Box, i: nat)
  {
    i < |prev| && i !in matched && Iou(prev[i].box, box) > MatchThreshold &&
    (forall j {:trigger Iou(prev[j].box, box)} :: 0 <= j < |prev| && j !in matched ==>
       Iou(prev[j].box, box) <= Iou(prev[i].box, box)) &&
    (forall j {:trigger Iou(prev[j].box, box)} :: 0 <= j < i && j !in matched ==>
       Iou(prev[j].box, box) < Iou(prev[i].box, box))
  }

  /** No unmatched previous track clears the threshold. */
  predicate NoCandidate(prev: seq<Track>, matched: set<nat>, box: Box)
  {
    forall j {:trigger Iou(prev[j].box, box)} :: 0 <= j < |prev| && j !in matched ==>
      Iou(prev[j].box, box) <= MatchThreshold
  }

  /** BestMatch agrees with the reference definition, in both directions. */
  lemma BestMatchCharacterized(prev: seq<Track>, matched: set<nat>, box: Box)
    ensures forall i: nat :: BestMatch(prev, matched, box) == Some(i) <==> IsGreedyBest(prev, matched, box, i)
    ensures BestMatch(prev, matched, box) == None <==> NoCandidate(prev, matched, box)
  {
  }

  // ---------------------------------------------------------------------
  // The matching pass over the detections

  /**
   * Handles one detection: it either claims its best previous track, which
   * keeps its id and takes the detection's box, class and the time now, or
   * it becomes a new track with the next id. Either way its id joins the
   * ever-infested set when its class is infested.
   */
  function MatchStep(prev: seq<Track>, st: Pass, d: Detection, now: int): (r: Pass)
    ensures |r.out| == |st.out| + 1 && r.out[..|st.out|] == st.out
    ensures r.out[|st.out|].box == d.box && r.out[|st.out|].cls == d.cls && r.out[|st.out|].timestamp == now
    ensures r.infested == st.infested + if IsInfested(d.cls) then {r.out[|st.out|].id} else {}
    ensures r.nextId == st.nextId + 1 || r.nextId == st.nextId
  {
    match BestMatch(prev, st.matched, d.box)
    case Some(i) =>
      var t := Track(prev[i].id, d.box, d.cls, now);
      Pass(st.out + [t], st.matched + {i}, st.nextId,
           if IsInfested(d.cls) then st.infested + {t.id} else st.infested)
    case None =>
      var t := Track(st.nextId, d.box, d.cls, now);
      Pass(st.out + [t], st.matched, st.nextId + 1,
           if IsInfested(d.cls) then st.infested + {t.id} else st.infested)
  }

  /**
   * The two outcomes of one detection: with no candidate it takes the next
   * id and claims nothing; otherwise it claims the greedy best previous
   * track and keeps that track's id.
   */
  lemma MatchStepChoice(prev: seq<Track>, st: Pass, d: Detection, now: int)
    ensures MatchStep(prev, st, d, now).nextId == st.nextId + 1 ==>
      MatchStep(prev, st, d, now).matched == st.matched &&
      MatchStep(prev, st, d, now).out[|st.out|].id == st.nextId &&
      NoCandidate(prev, st.matched, d.box)
    ensures MatchStep(prev, st, d, now).nextId == st.nextId ==>
      exists i: nat :: IsGreedyBest(prev, st.matched, d.box, i) &&
        MatchStep(prev, st, d, now).matched == st.matched + {i} &&
        MatchStep(prev, st, d, now).out[|st.out|].id == prev[i].id
  {
  }

  /** The matching pass after the first k detections, in input order. */
  function MatchPass(s: Snapshot, dets: seq<Detection>, now: int, k: nat): (p: Pass)
    requires k <= |dets|
    ensures |p.out| == k && s.nextId <= p.nextId
    ensures forall m :: m in p.matched ==> m < |s.tracks|
  {
    if k == 0 then Pass([], {}, s.nextId, s.infested)
    else MatchStep(s.tracks, MatchPass(s, dets, now, k - 1), dets[k - 1], now)
  }

  /** Ids of the tracks in s whose class is infested. */
  function InfestedIds(s: seq<Track>): set<nat>
  {
    if |s| == 0 then {}
    else
      var t := s[|s| - 1];
      InfestedIds(s[..|s| - 1]) + if IsInfested(t.cls) then {t.id} else {}
  }

  lemma {:induction false} InfestedIdsMembers(s: seq<Track>)
    ensures forall x :: x in InfestedIds(s) ==>
      exists i :: 0 <= i < |s| && IsInfested(s[i].cls) && s[i].id == x
    ensures forall i :: 0 <= i < |s| && IsInfested(s[i].cls) ==> s[i].id in InfestedIds(s)
  {
    if |s| > 0 {
      var p := s[..|s| - 1];
      InfestedIdsMembers(p);
      forall x | x in InfestedIds(s)
        ensures exists i :: 0 <= i < |s| && IsInfested(s[i].cls) && s[i].id == x
      {
        if x in InfestedIds(p) {
          var i :| 0 <= i < |p| && IsInfested(p[i].cls) && p[i].id == x;
          assert s[i] == p[i];
        } else {
          assert s[|s| - 1].id == x;
        }
      }
      forall i | 0 <= i < |s| && IsInfested(s[i].cls)
        ensures s[i].id in InfestedIds(s)
      {
        if i < |s| - 1 {
          assert s[i] == p[i];
        }
      }
    }
  }

  /** One matching step extends a layout that is correct for a prefix of dets by one entry. */
  lemma LayoutStep(prev: seq<Track>, st: Pass, dets: seq<Detection>, now: int)
    requires |st.out| < |dets|
    requires forall i :: 0 <= i < |st.out| ==>
      st.out[i].box == dets[i].box && st.out[i].cls == dets[i].cls && st.out[i].timestamp == now
    ensures forall i :: 0 <= i <= |st.out| ==>
      MatchStep(prev, st, dets[|st.out|], now).out[i].box == dets[i].box &&
      MatchStep(prev, st, dets[|st.out|], now).out[i].cls == dets[i].cls &&
      MatchStep(prev, st, dets[|st.out|], now).out[i].timestamp == now
  {
  }

  /** One matching step either takes a fresh id or claims one more previous track. */
  lemma CounterStep(prev: seq<Track>, st: Pass, d: Detection, now: int)
    ensures MatchStep(prev, st, d, now).nextId - st.nextId +
      |MatchStep(prev, st, d, now).matched| - |st.matched| == 1
  {
  }

  /** Each detection's entry carries its box, its class and the time now. */
  lemma {:induction false} MatchPassLayout(s: Snapshot, dets: seq<Detection>, now: int, k: nat)
    requires k <= |dets|
    ensures forall i :: 0 <= i < k ==>
      MatchPass(s, dets, now, k).out[i].box == dets[i].box &&
      MatchPass(s, dets, now, k).out[i].cls == dets[i].cls &&
      MatchPass(s, dets, now, k).out[i].timestamp == now
  {
    if k > 0 {
      MatchPassLayout(s, dets, now, k - 1);
      LayoutStep(s.tracks, MatchPass(s, dets, now, k - 1), dets, now);
    }
  }

  /** Each detection either consumed one fresh id or claimed one previous track. */
  lemma {:induction false} MatchPassCounter(s: Snapshot, dets: seq<Detection>, now: int, k: nat)
    requires k <= |dets|
    ensures MatchPass(s, dets, now, k).nextId - s.nextId + |MatchPass(s, dets, now, k).matched| == k
  {
    if k > 0 {
      MatchPassCounter(s, dets, now, k - 1);
      CounterStep(s.tracks, MatchPass(s, dets, now, k - 1), dets[k - 1], now);
    }
  }

  /**
   * The id belongs to a previous track claimed in the pass whose IoU with
   * detection d cleared the threshold.
   */
  predicate FromClaim(s: Snapshot, p: Pass, id: nat, d: Detection)
  {
    exists m :: m in p.matched && m < |s.tracks| && id == s.tracks[m].id &&
      Iou(s.tracks[m].box, d.box) > MatchThreshold
  }

  /**
   * Unpacks FromClaim: the id is that of a previous track claimed in the
   * pass, and of a previous track whose IoU with d cleared the threshold.
   */
  lemma FromClaimPrevious(s: Snapshot, p: Pass, id: nat, d: Detection)
    requires FromClaim(s, p, id, d)
    ensures exists m :: m in p.matched && m < |s.tracks| && id == s.tracks[m].id
    ensures exists j :: 0 <= j < |s.tracks| && id == s.tracks[j].id && Iou(s.tracks[j].box, d.box) > MatchThreshold
  {
    var m :| m in p.matched && m < |s.tracks| && id == s.tracks[m].id &&
      Iou(s.tracks[m].box, d.box) > MatchThreshold;
  }

  /** The id was issued by the pass: it lies in [s.nextId, p.nextId). */
  predicate Issued(s: Snapshot, p: Pass, id: nat)
  {
    s.nextId <= id < p.nextId
  }

  /** Each entry's id is freshly issued, or belongs to a claimed previous track that matched its detection. */
  lemma {:induction false} MatchPassOrigins(s: Snapshot, dets: seq<Detection>, now: int, k: nat)
    requires k <= |dets|
    ensures forall i :: 0 <= i < k ==>
      Issued(s, MatchPass(s, dets, now, k), MatchPass(s, dets, now, k).out[i].id) ||
      FromClaim(s, MatchPass(s, dets, now, k), MatchPass(s, dets, now, k).out[i].id, dets[i])
  {
    if k > 0 {
      MatchPassOrigins(s, dets, now, k - 1);
      var st := MatchPass(s, dets, now, k - 1);
      var d := dets[k - 1];
      var p := MatchPass(s, dets, now, k);
      assert st.matched <= p.matched && st.nextId <= p.nextId;
      forall i | 0 <= i < k
        ensures Issued(s, p, p.out[i].id) || FromClaim(s, p, p.out[i].id, dets[i])
      {
        if i < k - 1 {
          assert p.out[i] == st.out[i];
          if !Issued(s, st, st.out[i].id) {
            var m :| m in st.matched && m < |s.tracks| && st.out[i].id == s.tracks[m].id &&
              Iou(s.tracks[m].box, dets[i].box) > MatchThreshold;
            assert m in p.matched;
          }
        } else {
          match BestMatch(s.tracks, st.matched, d.box)
          case Some(b) =>
            assert p.out[i].id == s.tracks[b].id && b in p.matched;
          case None =>
        }
      }
    }
  }

  /** The ever-infested set grew by exactly the ids of the infested entries. */
  lemma {:induction false} MatchPassInfested(s: Snapshot, dets: seq<Detection>, now: int, k: nat)
    requires k <= |dets|
    ensures MatchPass(s, dets, now, k).infested == s.infested + InfestedIds(MatchPass(s, dets, now, k).out)
  {
    if k > 0 {
      MatchPassInfested(s, dets, now, k - 1);
      var st := MatchPass(s, dets, now, k - 1);
      var p := MatchPass(s, dets, now, k);
      assert p.out[..k - 1] == st.out;
    }
  }

  /**
   * Appending one entry keeps the ids distinct when the entry either takes
   * the id of an unclaimed previous track b, or the next fresh id n1.
   */
  lemma AppendDistinct(prev: seq<Track>, n0: nat, n1: nat, matched: set<nat>,
                       out: seq<Track>, t: Track, b: Option<nat>)
    requires forall i :: 0 <= i < |prev| ==> prev[i].id < n0
    requires DistinctIds(prev) && DistinctIds(out) && n0 <= n1
    requires forall i :: 0 <= i < |out| ==>
      (n0 <= out[i].id < n1) || exists m :: m in matched && m < |prev| && out[i].id == prev[m].id
    requires b.Some? ==> b.value < |prev| && b.value !in matched && t.id == prev[b.value].id
    requires b.None? ==> t.id == n1
    ensures DistinctIds(out + [t])
  {
  }

  /**
   * When the previous ids are distinct and below the counter, the output
   * of the matching pass has distinct ids: no previous track is claimed
   * twice and fresh ids collide with nothing.
   */
  lemma {:induction false} MatchPassDistinct(s: Snapshot, dets: seq<Detection>, now: int, k: nat)
    requires k <= |dets|
    requires Valid(s)
    ensures DistinctIds(MatchPass(s, dets, now, k).out)
  {
    if k > 0 {
      MatchPassDistinct(s, dets, now, k - 1);
      MatchPassOrigins(s, dets, now, k - 1);
      var st := MatchPass(s, dets, now, k - 1);
      var d := dets[k - 1];
      var p := MatchPass(s, dets, now, k);
      var bm := BestMatch(s.tracks, st.matched, d.box);
      assert p.out == st.out + [p.out[k - 1]];
      forall i | 0 <= i < |st.out|
        ensures (s.nextId <= st.out[i].id < st.nextId) ||
          exists m :: m in st.matched && m < |s.tracks| && st.out[i].id == s.tracks[m].id
      {
        if !Issued(s, st, st.out[i].id) {
          FromClaimPrevious(s, st, st.out[i].id, dets[i]);
        }
      }
      AppendDistinct(s.tracks, s.nextId, st.nextId, st.matched, st.out, p.out[k - 1], bm);
    }
  }

  // ---------------------------------------------------------------------
  // The eviction pass

  /** An unmatched track is kept while now - timestamp is below the window. */
  predicate Recent(t: Track, now: int)
  {
    now - t.timestamp < StaleWindow
  }

  /** Whether previous track j survives the eviction pass. */
  predicate Kept(prev: seq<Track>, matched: set<nat>, now: int, j: nat)
    requires j < |prev|
  {
    j !in matched && Recent(prev[j], now)
  }

  /** The unmatched, recent tracks among the first n previous ones, in order. */
  function Carry(prev: seq<Track>, matched: set<nat>, now: int, n: nat): (r: seq<Track>)
    requires n <= |prev|
    ensures |r| <= n
    ensures forall i :: 0 <= i < |r| ==> Recent(r[i], now)
  {
    if n == 0 then []
    else
      Carry(prev, matched, now, n - 1) +
        if Kept(prev, matched, now, n - 1) then [prev[n - 1]] else []
  }

  /** Every carried track is a kept previous track among the first n. */
  predicate CarriedFrom(prev: seq<Track>, matched: set<nat>, now: int, n: nat, t: Track)
    requires n <= |prev|
  {
    exists j :: 0 <= j < n && Kept(prev, matched, now, j) && t == prev[j]
  }

  /** Carry holds exactly the unmatched recent previous tracks. */
  lemma {:induction false} CarryMembers(prev: seq<Track>, matched: set<nat>, now: int, n: nat)
    requires n <= |prev|
    ensures forall t :: t in Carry(prev, matched, now, n) ==> CarriedFrom(prev, matched, now, n, t)
    ensures forall j :: 0 <= j < n && Kept(prev, matched, now, j) ==> prev[j] in Carry(prev, matched, now, n)
  {
    if n > 0 {
      CarryMembers(prev, matched, now, n - 1);
      var c0 := Carry(prev, matched, now, n - 1);
      var c := Carry(prev, matched, now, n);
      forall t | t in c
        ensures CarriedFrom(prev, matched, now, n, t)
      {
        if t in c0 {
          var j :| 0 <= j < n - 1 && Kept(prev, matched, now, j) && t == prev[j];
        } else {
          assert Kept(prev, matched, now, n - 1) && t == prev[n - 1];
        }
      }
    }
  }

  /** With distinct previous ids, the carried tracks have distinct ids. */
  lemma {:induction false} CarryDistinct(prev: seq<Track>, matched: set<nat>, now: int, n: nat)
    requires n <= |prev|
    requires DistinctIds(prev)
    ensures DistinctIds(Carry(prev, matched, now, n))
  {
    if n > 0 {
      CarryDistinct(prev, matched, now, n - 1);
      CarryMembers(prev, matched, now, n - 1);
      var c0 := Carry(prev, matched, now, n - 1);
      var c := Carry(prev, matched, now, n);
      if Kept(prev, matched, now, n - 1) {
        forall i | 0 <= i < |c0|
          ensures c0[i].id != prev[n - 1].id
        {
          assert c0[i] in c0;
          var j :| 0 <= j < n - 1 && Kept(prev, matched, now, j) && c0[i] == prev[j];
        }
        forall i, j | 0 <= i < |c| && 0 <= j < |c| && i != j
          ensures c[i].id != c[j].id
        {
          if i < |c0| && j < |c0| {
            assert c[i] == c0[i] && c[j] == c0[j];
          } else if i < |c0| {
            assert c[i] == c0[i];
          } else {
            assert c[j] == c0[j];
          }
        }
      }
    }
  }

  // ---------------------------------------------------------------------
  // A whole cycle

  /**
   * One cycle: the matching pass over every detection, followed by the
   * unmatched recent previous tracks; the result replaces the state.
   */
  function Step(s: Snapshot, dets: seq<Detection>, now: int): (r: Snapshot)
    ensures |r.tracks| >= |dets| && s.nextId <= r.nextId
  {
    var p := MatchPass(s, dets, now, |dets|);
    Snapshot(p.out + Carry(s.tracks, p.matched, now, |s.tracks|), p.nextId, p.infested)
  }

  /**
   * The layout of the new track list and the counters after a cycle: one
   * entry per detection, in detection order, then exactly the unmatched
   * previous tracks that are recent; the counter rose by one per detection
   * that claimed no previous track; the ever-infested set only grew, by the
   * ids of the infested new entries.
   */
  lemma StepShape(s: Snapshot, dets: seq<Detection>, now: int)
    ensures forall k :: 0 <= k < |dets| ==>
      Step(s, dets, now).tracks[k].box == dets[k].box &&
      Step(s, dets, now).tracks[k].cls == dets[k].cls &&
      Step(s, dets, now).tracks[k].timestamp == now
    ensures Step(s, dets, now).tracks[|dets|..] ==
      Carry(s.tracks, MatchPass(s, dets, now, |dets|).matched, now, |s.tracks|)
    ensures forall t :: t in Step(s, dets, now).tracks[|dets|..] <==>
      exists j :: 0 <= j < |s.tracks| && j !in MatchPass(s, dets, now, |dets|).matched &&
        Recent(s.tracks[j], now) && t == s.tracks[j]
    ensures Step(s, dets, now).nextId - s.nextId == |dets| - |MatchPass(s, dets, now, |dets|).matched|
    ensures s.infested <= Step(s, dets, now).infested
    ensures Step(s, dets, now).infested == s.infested + InfestedIds(Step(s, dets, now).tracks[..|dets|])
  {
    var r := Step(s, dets, now);
    var p := MatchPass(s, dets, now, |dets|);
    MatchPassLayout(s, dets, now, |dets|);
    MatchPassCounter(s, dets, now, |dets|);
    MatchPassInfested(s, dets, now, |dets|);
    var c := Carry(s.tracks, p.matched, now, |s.tracks|);
    CarryMembers(s.tracks, p.matched, now, |s.tracks|);
    assert r.tracks[..|dets|] == p.out;
    assert r.tracks[|dets|..] == c;
    forall k | 0 <= k < |dets|
      ensures r.tracks[k] == p.out[k]
    {
    }
    forall t | t in c
      ensures exists j :: 0 <= j < |s.tracks| && j !in p.matched && Recent(s.tracks[j], now) && t == s.tracks[j]
    {
      var j :| 0 <= j < |s.tracks| && Kept(s.tracks, p.matched, now, j) && t == s.tracks[j];
    }
  }

  /** Across a cycle the id counter and the ever-infested set never shrink. */
  lemma StepGrows(s: Snapshot, dets: seq<Detection>, now: int)
    ensures s.nextId <= Step(s, dets, now).nextId
    ensures s.infested <= Step(s, dets, now).infested
  {
    MatchPassInfested(s, dets, now, |dets|);
  }

  /**
   * Each new entry's id is either freshly issued, in [s.nextId, r.nextId),
   * or the id of a previous track whose IoU with the detection exceeds
   * the threshold.
   */
  lemma StepIds(s: Snapshot, dets: seq<Detection>, now: int)
    ensures forall k :: 0 <= k < |dets| ==>
        (s.nextId <= Step(s, dets, now).tracks[k].id < Step(s, dets, now).nextId) ||
        (exists j :: 0 <= j < |s.tracks| && Step(s, dets, now).tracks[k].id == s.tracks[j].id &&
           Iou(s.tracks[j].box, dets[k].box) > MatchThreshold)
  {
    var p := MatchPass(s, dets, now, |dets|);
    MatchPassOrigins(s, dets, now, |dets|);
    var r := Step(s, dets, now);
    forall k | 0 <= k < |dets|
      ensures (s.nextId <= r.tracks[k].id < r.nextId) ||
        (exists j :: 0 <= j < |s.tracks| && r.tracks[k].id == s.tracks[j].id &&
           Iou(s.tracks[j].box, dets[k].box) > MatchThreshold)
    {
      assert r.tracks[k] == p.out[k];
      if !Issued(s, p, p.out[k].id) {
        FromClaimPrevious(s, p, p.out[k].id, dets[k]);
      }
    }
  }

  /**
   * The id facts of a cycle, detached from how the two parts were built:
   * entries that are fresh or belong to claimed previous tracks, followed
   * by unclaimed previous tracks.
   */
  lemma ConcatIds(prev: seq<Track>, n0: nat, n1: nat, matched: set<nat>, now: int,
                  out: seq<Track>, c: seq<Track>)
    requires forall i :: 0 <= i < |prev| ==> 1 <= prev[i].id < n0
    requires DistinctIds(prev) && DistinctIds(out) && DistinctIds(c)
    requires 1 <= n0 <= n1
    requires forall i :: 0 <= i < |out| ==>
      (n0 <= out[i].id < n1) || exists m :: m in matched && m < |prev| && out[i].id == prev[m].id
    requires forall t :: t in c ==> CarriedFrom(prev, matched, now, |prev|, t)
    ensures DistinctIds(out + c)
    ensures forall i :: 0 <= i < |out + c| ==> 1 <= (out + c)[i].id < n1
  {
    var r := out + c;
    var n := |out|;
    forall i | 0 <= i < |r|
      ensures 1 <= r[i].id < n1
    {
      if i < n {
        if !(n0 <= out[i].id < n1) {
          var m :| m in matched && m < |prev| && out[i].id == prev[m].id;
        }
      } else {
        assert r[i] == c[i - n] && c[i - n] in c;
        var j :| 0 <= j < |prev| && Kept(prev, matched, now, j) && c[i - n] == prev[j];
      }
    }
    forall i, j | 0 <= i < |r| && 0 <= j < |r| && i != j
      ensures r[i].id != r[j].id
    {
      if i < n && j < n {
      } else if i >= n && j >= n {
        assert r[i] == c[i - n] && r[j] == c[j - n];
      } else {
        var a, b := if i < n then i else j, if i < n then j else i;
        assert r[b] == c[b - n] && c[b - n] in c;
        var q :| 0 <= q < |prev| && Kept(prev, matched, now, q) && c[b - n] == prev[q];
        if !(n0 <= out[a].id < n1) {
          var m :| m in matched && m < |prev| && out[a].id == prev[m].id;
          assert m != q;
        }
      }
    }
  }

  /** The new live ids are distinct and issued. */
  lemma StepIdsDistinct(s: Snapshot, dets: seq<Detection>, now: int)
    requires Valid(s)
    ensures DistinctIds(Step(s, dets, now).tracks)
    ensures forall i :: 0 <= i < |Step(s, dets, now).tracks| ==>
      1 <= Step(s, dets, now).tracks[i].id < Step(s, dets, now).nextId
  {
    var p := MatchPass(s, dets, now, |dets|);
    MatchPassOrigins(s, dets, now, |dets|);
    MatchPassDistinct(s, dets, now, |dets|);
    var c := Carry(s.tracks, p.matched, now, |s.tracks|);
    CarryMembers(s.tracks, p.matched, now, |s.tracks|);
    CarryDistinct(s.tracks, p.matched, now, |s.tracks|);
    forall i | 0 <= i < |p.out|
      ensures (s.nextId <= p.out[i].id < p.nextId) ||
        exists m :: m in p.matched && m < |s.tracks| && p.out[i].id == s.tracks[m].id
    {
      if !Issued(s, p, p.out[i].id) {
        FromClaimPrevious(s, p, p.out[i].id, dets[i]);
      }
    }
    ConcatIds(s.tracks, s.nextId, p.nextId, p.matched, now, p.out, c);
  }

  /** Every infested live track of the new state is recorded as ever infested. */
  lemma StepInfestedCovers(s: Snapshot, dets: seq<Detection>, now: int)
    requires Valid(s)
    ensures forall i :: 0 <= i < |Step(s, dets, now).tracks| && IsInfested(Step(s, dets, now).tracks[i].cls) ==>
      Step(s, dets, now).tracks[i].id in Step(s, dets, now).infested
  {
    var r := Step(s, dets, now);
    var p := MatchPass(s, dets, now, |dets|);
    MatchPassInfested(s, dets, now, |dets|);
    var c := Carry(s.tracks, p.matched, now, |s.tracks|);
    CarryMembers(s.tracks, p.matched, now, |s.tracks|);
    InfestedIdsMembers(p.out);
    var n := |p.out|;
    forall i | 0 <= i < |r.tracks| && IsInfested(r.tracks[i].cls)
      ensures r.tracks[i].id in r.infested
    {
      if i < n {
        assert r.tracks[i] == p.out[i];
      } else {
        assert r.tracks[i] == c[i - n] && c[i - n] in c;
        var j :| 0 <= j < |s.tracks| && Kept(s.tracks, p.matched, now, j) && c[i - n] == s.tracks[j];
      }
    }
  }

  /** The ever-infested set holds only issued ids. */
  lemma StepInfestedIssued(s: Snapshot, dets: seq<Detection>, now: int)
    requires Valid(s)
    ensures forall x :: x in Step(s, dets, now).infested ==> 1 <= x < Step(s, dets, now).nextId
  {
    var r := Step(s, dets, now);
    var p := MatchPass(s, dets, now, |dets|);
    MatchPassOrigins(s, dets, now, |dets|);
    MatchPassInfested(s, dets, now, |dets|);
    InfestedIdsMembers(p.out);
    forall x | x in r.infested
      ensures 1 <= x < r.nextId
    {
      if x !in s.infested {
        var i :| 0 <= i < |p.out| && IsInfested(p.out[i].cls) && p.out[i].id == x;
        if !Issued(s, p, p.out[i].id) {
          FromClaimPrevious(s, p, p.out[i].id, dets[i]);
        }
      }
    }
  }

  /**
   * A cycle preserves the tracker invariant: ids are never reused, no
   * previous track is claimed twice, and the ever-infested set stays a
   * set of issued ids covering every live infested track.
   */
  lemma StepPreservesValid(s: Snapshot, dets: seq<Detection>, now: int)
    requires Valid(s)
    ensures Valid(Step(s, dets, now))
  {
    StepIdsDistinct(s, dets, now);
    StepInfestedCovers(s, dets, now);
    StepInfestedIssued(s, dets, now);
  }

  /**
   * An empty batch runs only the eviction pass: the recent tracks are
   * kept in order, the counter and the ever-infested set are unchanged.
   */
  lemma StepEmptyBatch(s: Snapshot, now: int)
    ensures Step(s, [], now) == Snapshot(Carry(s.tracks, {}, now, |s.tracks|), s.nextId, s.infested)
    ensures forall t :: t in Step(s, [], now).tracks <==> t in s.tracks && Recent(t, now)
  {
    var c := Carry(s.tracks, {}, now, |s.tracks|);
    CarryMembers(s.tracks, {}, now, |s.tracks|);
    assert Step(s, [], now).tracks == c;
    forall t | t in c
      ensures t in s.tracks && Recent(t, now)
    {
      var j :| 0 <= j < |s.tracks| && Kept(s.tracks, {}, now, j) && t == s.tracks[j];
    }
    forall t | t in s.tracks && Recent(t, now)
      ensures t in c
    {
      var j :| 0 <= j < |s.tracks| && s.tracks[j] == t;
      assert Kept(s.tracks, {}, now, j);
    }
  }
}
