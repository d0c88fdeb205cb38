/**
 * The cumulative figures shown on the page, derived on every query from
 * the id counter and the ever-infested set and never stored on their own.
 */
module Counts {
  import opened Geometry
  import opened Detections
  import opened Tracking

  /** Total plants ever tracked, plants ever infested, and the percentage infested. */
  datatype Summary = Summary(total: int, infested: nat, percentage: real)

  /** Total is the highest id issued; the percentage is 0 while nothing was tracked. */
  function Summarize(nextId: nat, infested: set<nat>): (r: Summary)
    ensures r.total == nextId - 1 && r.infested == |infested|
    ensures r.total > 0 ==> r.percentage * (r.total as real) == (r.infested as real) * 100.0
    ensures r.total <= 0 ==> r.percentage == 0.0
  {
    var total := nextId - 1;
    var count := |infested|;
    Summary(total, count, if total > 0 then (count as real) / (total as real) * 100.0 else 0.0)
  }

  /** The "not infested" card: total minus infested. */
  function NotInfested(c: Summary): int
  {
    c.total - c.infested
  }

  /** A set of issued ids, all in [1, n), has at most n - 1 members. */
  lemma {:induction false} IssuedIdsBound(ids: set<nat>, n: nat)
    requires n >= 1
    requires forall x :: x in ids ==> 1 <= x < n
    ensures |ids| <= n - 1
  {
    if n == 1 {
      assert ids == {} by {
        forall x | x in ids
          ensures false
        {
        }
      }
    } else {
      var rest := ids - {n - 1};
      IssuedIdsBound(rest, n - 1);
      assert ids <= rest + {n - 1};
      assert |ids| <= |rest| + 1 by {
        if n - 1 in ids {
          assert ids == rest + {n - 1};
        } else {
          assert ids == rest;
        }
      }
    }
  }

  lemma {:induction false} SubsetCard(a: set<nat>, b: set<nat>)
    requires a <= b
    ensures |a| <= |b|
    decreases |a|
  {
    if a != {} {
      var x :| x in a;
      SubsetCard(a - {x}, b - {x});
    }
  }

  /**
   * For any reachable state the figures are consistent: the infested count
   * never exceeds the total, so "not infested" is never negative; the
   * percentage lies in [0, 100], is 0 exactly when nothing was ever
   * infested and 100 exactly when every tracked plant was.
   */
  lemma SummaryConsistent(s: Snapshot)
    requires Valid(s)
    ensures Summarize(s.nextId, s.infested).total == s.nextId - 1 >= 0
    ensures Summarize(s.nextId, s.infested).infested == |s.infested|
    ensures 0 <= Summarize(s.nextId, s.infested).infested <= Summarize(s.nextId, s.infested).total
    ensures NotInfested(Summarize(s.nextId, s.infested)) >= 0
    ensures 0.0 <= Summarize(s.nextId, s.infested).percentage <= 100.0
    ensures Summarize(s.nextId, s.infested).percentage == 0.0 <==> |s.infested| == 0
    ensures s.nextId > 1 ==>
      (Summarize(s.nextId, s.infested).percentage == 100.0 <==> |s.infested| == s.nextId - 1)
  {
    IssuedIdsBound(s.infested, s.nextId);
    var c := Summarize(s.nextId, s.infested);
    var i, t := |s.infested| as real, (s.nextId - 1) as real;
    if s.nextId > 1 {
      assert 0.0 <= i <= t && t > 0.0;
      var q := i / t;
      assert q * t == i;
      QuotientAtMostOne(i, t);
      assert 0.0 <= q;
      assert c.percentage == q * 100.0;
      assert q == 0.0 <==> i == 0.0;
      QuotientOne(t);
      assert q == 1.0 <==> i == t;
    } else {
      assert s.infested == {} by {
        assert |s.infested| <= 0;
      }
    }
  }

  /**
   * Over a cycle from a valid state the total and the infested count never
   * decrease, so the cumulative figures are never retracted.
   */
  lemma SummaryMonotone(s: Snapshot, dets: seq<Detection>, now: int)
    ensures Summarize(s.nextId, s.infested).total <=
      Summarize(Step(s, dets, now).nextId, Step(s, dets, now).infested).total
    ensures Summarize(s.nextId, s.infested).infested <=
      Summarize(Step(s, dets, now).nextId, Step(s, dets, now).infested).infested
  {
    StepGrows(s, dets, now);
    SubsetCard(s.infested, Step(s, dets, now).infested);
  }
}
