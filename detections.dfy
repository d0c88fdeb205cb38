/**
 * Turning one detector response into a batch of detections: one detection
 * per reported box, paired by position with the reported class code.
 */
module Detections {
  import opened Options
  import opened Geometry

  /**
   * The class code carried by a detection. The response may hold fewer
   * codes than boxes, in which case the detection has no code at all.
   */
  datatype ClassCode = Code(value: int) | Missing

  /** Only the code 0 means infested; any other code, or none, is healthy. */
  predicate IsInfested(c: ClassCode)
  {
    c == Code(0)
  }

  datatype Detection = Detection(box: Box, cls: ClassCode)

  /** The parsed detector reply; either list may be absent. */
  datatype Response = Response(boxes: Option<seq<Box>>, classes: Option<seq<int>>)

  function OrEmpty<T>(o: Option<seq<T>>): seq<T>
  {
    match o
    case Some(s) => s
    case None => []
  }

  /** The class code at position i, or Missing past the end of the list. */
  function ClassAt(classes: seq<int>, i: nat): ClassCode
  {
    if i < |classes| then Code(classes[i]) else Missing
  }

  /** Pairs every box with the class code at the same position. */
  function Pair(boxes: seq<Box>, classes: seq<int>): (ds: seq<Detection>)
    ensures |ds| == |boxes|
    ensures forall i :: 0 <= i < |ds| ==> ds[i].box == boxes[i] && ds[i].cls == ClassAt(classes, i)
  {
    if |boxes| == 0 then []
    else
      var n := |boxes| - 1;
      Pair(boxes[..n], classes) + [Detection(boxes[n], ClassAt(classes, n))]
  }

  /**
   * The batch built from a response: as many detections as boxes (none when
   * the box list is absent), and a detection is infested exactly when the
   * response has a code 0 at its position.
   */
  function FromResponse(r: Response): (ds: seq<Detection>)
    ensures |ds| == |OrEmpty(r.boxes)|
    ensures forall i :: 0 <= i < |ds| ==> ds[i].box == OrEmpty(r.boxes)[i]
    ensures forall i :: 0 <= i < |ds| ==>
      (IsInfested(ds[i].cls) <==> i < |OrEmpty(r.classes)| && OrEmpty(r.classes)[i] == 0)
    ensures forall i :: 0 <= i < |ds| && i >= |OrEmpty(r.classes)| ==> ds[i].cls == Missing
  {
    Pair(OrEmpty(r.boxes), OrEmpty(r.classes))
  }
}
