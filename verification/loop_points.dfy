/** `getLoopPoints` in src/main.js: the display-space polygon of one contour
    for one detected face. */
module LoopPoints {
  import opened Optional
  import opened Adjacency
  import opened Cover

  /** One detected landmark, normalised to the video frame (`z` is relative
      depth and unused here). */
  datatype Landmark = Landmark(x: real, y: real, z: real)

  /** The landmark list has an entry at `index`. */
  predicate HasLandmark(landmarks: seq<Landmark>, index: Node) {
    index < |landmarks|
  }

  /** Lines 108-120: `null` for a contour of fewer than three indices or one
      whose index has no landmark; otherwise one display point per contour
      index, in contour order. */
  method GetLoopPoints(landmarks: seq<Landmark>, loop: seq<Node>, t: Transform) returns (points: Option<seq<Point>>)
    ensures points.None? <==> |loop| < 3 || exists i :: 0 <= i < |loop| && !HasLandmark(landmarks, loop[i])
    ensures points.Some? ==> |points.value| == |loop|
    ensures points.Some? ==> forall i :: 0 <= i < |loop| ==>
              HasLandmark(landmarks, loop[i]) && points.value[i] == MapPoint(t, landmarks[loop[i]].x, landmarks[loop[i]].y)
  {
    if |loop| < 3 {
      return None;
    }
    var acc: seq<Point> := [];
    for k := 0 to |loop|
      invariant |acc| == k
      invariant forall i :: 0 <= i < k ==>
                  HasLandmark(landmarks, loop[i]) && acc[i] == MapPoint(t, landmarks[loop[i]].x, landmarks[loop[i]].y)
    {
      var index := loop[k];
      if !HasLandmark(landmarks, index) {
        return None;
      }
      var point := landmarks[index];
      acc := acc + [MapPoint(t, point.x, point.y)];
    }
    return Some(acc);
  }

  /** Real multiplication associates. */
  lemma MulAssociates(a: real, b: real, c: real)
    ensures a * b * c == a * (b * c)
  {
  }

  /** A fraction in [0, 1] of a non-negative length lies between 0 and it. */
  lemma ScaledBetween(len: real, f: real)
    requires len >= 0.0 && 0.0 <= f <= 1.0
    ensures 0.0 <= f * len <= len
  {
    MulMonotone(len, 0.0, f);
    MulMonotone(len, f, 1.0);
  }

  /** A landmark inside the video frame lands inside the scaled video's
      on-screen rectangle. */
  lemma LandmarkInsideScaledVideo(t: Transform, l: Landmark)
    requires t.scale > 0.0
    requires 0.0 <= l.x <= 1.0 && 0.0 <= l.y <= 1.0
    ensures t.offsetX <= MapPoint(t, l.x, l.y).x <= t.offsetX + t.ScaledWidth()
    ensures t.offsetY <= MapPoint(t, l.x, l.y).y <= t.offsetY + t.ScaledHeight()
  {
    var w, h := t.ScaledWidth(), t.ScaledHeight();
    var p := MapPoint(t, l.x, l.y);
    MulAssociates(l.x, t.videoWidth as real, t.scale);
    MulAssociates(l.y, t.videoHeight as real, t.scale);
    assert p.x == l.x * w + t.offsetX;
    assert p.y == l.y * h + t.offsetY;
    ScaledBetween(w, l.x);
    ScaledBetween(h, l.y);
  }
}
