/** `getCoverTransform` in src/main.js: the uniform scale and offsets that make
    the video fill the display ("cover"), cropping whatever overflows, and the
    mapping of a normalised landmark into display pixels that uses them. */
module Cover {
  import opened Optional

  /** The record the source returns. The video size is the element's
      intrinsic pixel size, an unsigned integer in the DOM. */
  datatype Transform = Transform(scale: real, offsetX: real, offsetY: real, videoWidth: nat, videoHeight: nat) {

    /** The on-screen width of the scaled video. */
    function ScaledWidth(): real {
      videoWidth as real * scale
    }

    /** The on-screen height of the scaled video. */
    function ScaledHeight(): real {
      videoHeight as real * scale
    }
  }

  /** A display-space point, in CSS pixels. */
  datatype Point = Point(x: real, y: real)

  /** `Math.max` on two finite numbers. */
  function Max(a: real, b: real): (m: real)
    ensures m >= a && m >= b && (m == a || m == b)
  {
    if a >= b then a else b
  }

  /** The scaled video covers a `displayWidth` x `displayHeight` display: it
      is at least as large on both axes and exactly flush on one. */
  ghost predicate Covers(t: Transform, displayWidth: nat, displayHeight: nat) {
    && t.scale > 0.0
    && t.ScaledWidth() >= displayWidth as real
    && t.ScaledHeight() >= displayHeight as real
    && (t.ScaledWidth() == displayWidth as real || t.ScaledHeight() == displayHeight as real)
  }

  /** The overflow is cropped equally on both sides of each axis: the video
      starts at or left of (above) the display and sticks out of the far edge
      by as much as it sticks out of the near one. */
  ghost predicate Centred(t: Transform, displayWidth: nat, displayHeight: nat) {
    && t.offsetX <= 0.0
    && t.offsetY <= 0.0
    && -t.offsetX == t.offsetX + t.ScaledWidth() - displayWidth as real
    && -t.offsetY == t.offsetY + t.ScaledHeight() - displayHeight as real
  }

  /** Lines 58-70, with the four element sizes passed in instead of read from
      the page. A zero size (no layout or no frame yet) gives `null`. */
  function CoverTransform(displayWidth: nat, displayHeight: nat, videoWidth: nat, videoHeight: nat): (t: Option<Transform>)
    ensures t.None? <==> displayWidth == 0 || displayHeight == 0 || videoWidth == 0 || videoHeight == 0
    ensures t.Some? ==> t.value.videoWidth == videoWidth && t.value.videoHeight == videoHeight
    ensures t.Some? ==> Covers(t.value, displayWidth, displayHeight)
    ensures t.Some? ==> Centred(t.value, displayWidth, displayHeight)
  {
    if displayWidth == 0 || displayHeight == 0 || videoWidth == 0 || videoHeight == 0 then None
    else
      var dw, dh, vw, vh := displayWidth as real, displayHeight as real, videoWidth as real, videoHeight as real;
      var scale := Max(dw / vw, dh / vh);
      assert vw * (dw / vw) == dw;
      assert vh * (dh / vh) == dh;
      assert vw * scale >= dw by {
        MulMonotone(vw, dw / vw, scale);
      }
      assert vh * scale >= dh by {
        MulMonotone(vh, dh / vh, scale);
      }
      Some(Transform(scale, (dw - vw * scale) / 2.0, (dh - vh * scale) / 2.0, videoWidth, videoHeight))
  }

  /** Multiplying by a non-negative number keeps order. */
  lemma MulMonotone(k: real, a: real, b: real)
    requires k >= 0.0 && a <= b
    ensures k * a <= k * b
  {
  }

  /** A normalised video coordinate in display pixels: each coordinate is
      scaled by the on-screen video size along its axis and then shifted by
      that axis's offset (lines 115-116). */
  function MapPoint(t: Transform, x: real, y: real): Point {
    Point(x * t.videoWidth as real * t.scale + t.offsetX, y * t.videoHeight as real * t.scale + t.offsetY)
  }

  /** The frame's edges land on the scaled video's edges: coordinate 0 at the
      offset, coordinate 1 one on-screen video size further. */
  lemma MapPointEdges(t: Transform)
    ensures MapPoint(t, 0.0, 0.0) == Point(t.offsetX, t.offsetY)
    ensures MapPoint(t, 1.0, 1.0) == Point(t.offsetX + t.ScaledWidth(), t.offsetY + t.ScaledHeight())
  {
  }

  /** The mapping can be undone: removing the offset and dividing by the
      on-screen video size gives the normalised coordinate back. */
  lemma MapPointInverse(t: Transform, x: real, y: real)
    requires t.ScaledWidth() != 0.0 && t.ScaledHeight() != 0.0
    ensures (MapPoint(t, x, y).x - t.offsetX) / t.ScaledWidth() == x
    ensures (MapPoint(t, x, y).y - t.offsetY) / t.ScaledHeight() == y
  {
    assert MapPoint(t, x, y).x - t.offsetX == x * t.ScaledWidth();
    assert MapPoint(t, x, y).y - t.offsetY == y * t.ScaledHeight();
  }

  /** The cover scale is the smallest uniform scale at which the video fills
      the display on both axes. */
  lemma {:induction false} CoverScaleIsLeast(displayWidth: nat, displayHeight: nat, videoWidth: nat, videoHeight: nat, s: real)
    requires CoverTransform(displayWidth, displayHeight, videoWidth, videoHeight).Some?
    requires videoWidth as real * s >= displayWidth as real && videoHeight as real * s >= displayHeight as real
    ensures CoverTransform(displayWidth, displayHeight, videoWidth, videoHeight).value.scale <= s
  {
    var t := CoverTransform(displayWidth, displayHeight, videoWidth, videoHeight).value;
    if t.ScaledWidth() == displayWidth as real {
      if s < t.scale {
        MulMonotone(videoWidth as real, s, t.scale);
      }
    } else {
      if s < t.scale {
        MulMonotone(videoHeight as real, s, t.scale);
      }
    }
  }

  /** The corners of the video land on or outside the display's corners, so
      the video leaves no uncovered strip anywhere on the display. */
  lemma VideoCornersCoverDisplay(displayWidth: nat, displayHeight: nat, videoWidth: nat, videoHeight: nat)
    requires CoverTransform(displayWidth, displayHeight, videoWidth, videoHeight).Some?
    ensures var t := CoverTransform(displayWidth, displayHeight, videoWidth, videoHeight).value;
      && MapPoint(t, 0.0, 0.0).x <= 0.0 && MapPoint(t, 0.0, 0.0).y <= 0.0
      && MapPoint(t, 1.0, 1.0).x >= displayWidth as real && MapPoint(t, 1.0, 1.0).y >= displayHeight as real
  {
  }

  /** The centre of the video lands on the centre of the display. */
  lemma VideoCentreIsDisplayCentre(displayWidth: nat, displayHeight: nat, videoWidth: nat, videoHeight: nat)
    requires CoverTransform(displayWidth, displayHeight, videoWidth, videoHeight).Some?
    ensures var t := CoverTransform(displayWidth, displayHeight, videoWidth, videoHeight).value;
      MapPoint(t, 0.5, 0.5) == Point(displayWidth as real / 2.0, displayHeight as real / 2.0)
  {
  }

  /** A 1280 x 720 video on an 800 x 600 display is scaled by 5/6, overflows
      horizontally by 800/3 pixels split on both sides, and fits vertically. */
  lemma CoverExample()
    ensures CoverTransform(800, 600, 1280, 720) == Some(Transform(5.0 / 6.0, -400.0 / 3.0, 0.0, 1280, 720))
  {
  }
}
