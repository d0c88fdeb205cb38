/**
 * Three detection cycles two seconds apart on one stationary plant: seen
 * infested, then healthy at the same place, then not seen at all.
 */
module Scenario {
  import opened Options
  import opened Geometry
  import opened Detections
  import opened Tracking
  import opened Counts

  const Plant: Box := Box(0.5, 0.5, 0.2, 0.2)

  function Cycle1(): Snapshot
  {
    Step(Init(), [Detection(Plant, Code(0))], 0)
  }

  function Cycle2(): Snapshot
  {
    Step(Cycle1(), [Detection(Plant, Code(1))], 2000)
  }

  function Cycle3(): Snapshot
  {
    Step(Cycle2(), [], 4000)
  }

  /** The first sighting creates id 1 and records it as infested: 100 percent. */
  lemma FirstSighting()
    ensures Cycle1() == Snapshot([Track(1, Plant, Code(0), 0)], 2, {1})
    ensures Summarize(Cycle1().nextId, Cycle1().infested) == Summary(1, 1, 100.0)
  {
    var t1 := Track(1, Plant, Code(0), 0);
    var d1 := [Detection(Plant, Code(0))];
    assert BestMatch([], {}, Plant) == None;
    assert MatchPass(Init(), d1, 0, 1) == Pass([t1], {}, 2, {1}) by {
      assert MatchPass(Init(), d1, 0, 0) == Pass([], {}, 1, {});
    }
  }

  /**
   * The healthy sighting at the same place claims the track: id 1 is kept,
   * and the infested count stays 1 because it is cumulative.
   */
  lemma SecondSighting()
    ensures Cycle2() == Snapshot([Track(1, Plant, Code(1), 2000)], 2, {1})
    ensures Summarize(Cycle2().nextId, Cycle2().infested) == Summary(1, 1, 100.0)
  {
    FirstSighting();
    var t1 := Track(1, Plant, Code(0), 0);
    IouSelf(Plant);
    assert BestMatch([t1], {}, Plant) == Some(0);
    var t2 := Track(1, Plant, Code(1), 2000);
    var d2 := [Detection(Plant, Code(1))];
    assert MatchPass(Cycle1(), d2, 2000, 1) == Pass([t2], {0}, 2, {1}) by {
      assert MatchPass(Cycle1(), d2, 2000, 0) == Pass([], {}, 2, {1});
    }
    assert Carry([t1], {0}, 2000, 1) == [];
  }

  /** Once the window has passed without a sighting the track is gone; the counts remain. */
  lemma PlantLeavesView()
    ensures Cycle3() == Snapshot([], 2, {1})
    ensures Summarize(Cycle3().nextId, Cycle3().infested) == Summary(1, 1, 100.0)
  {
    SecondSighting();
    var t2 := Track(1, Plant, Code(1), 2000);
    assert Carry([t2], {}, 4000, 1) == [];
  }
}
