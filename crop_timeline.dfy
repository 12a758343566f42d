/**
  The crop timeline of index.js: the portrait target size computed from the
  input height, and the crop chosen for every sampled frame from the face
  detected in it (or from the crop before it when no face is found).
 */
module CropTimeline {
  import opened Wrappers

  /** A detected face box, with its coordinates already floored to integers. */
  datatype Box = Box(x: int, y: int, width: int, height: int)

  /** A crop window: its top-left corner and its size, in pixels. */
  datatype Crop = Crop(x: int, y: int, width: int, height: int)

  /**
    The 9:16 portrait size cut from a video of height `h`: the width is
    `floor(h / 16 * 9)` and the height is `h`.
   */
  function TargetSize(h: int): (r: (int, int))
    ensures 16 * r.0 <= 9 * h < 16 * r.0 + 16
    ensures r.1 == h
  {
    ((9 * h) / 16, h)
  }

  /** A non-negative height gives a target no wider than it is tall. */
  lemma TargetSizeIsPortrait(h: int)
    requires h >= 0
    ensures 0 <= TargetSize(h).0 <= TargetSize(h).1
  {
  }

  /** The crop used before any face was found: the left edge of the frame. */
  function DefaultCrop(tw: int, th: int): (c: Crop)
    ensures c.x == 0 && c.y == 0 && c.width == tw && c.height == th
  {
    Crop(0, 0, tw, th)
  }

  /** The horizontal centre of a box, rounded down. */
  function CentreX(b: Box): (c: int)
    ensures 2 * (c - b.x) <= b.width < 2 * (c - b.x) + 2
    ensures b.width >= 0 ==> b.x <= c <= b.x + b.width
  {
    b.x + b.width / 2
  }

  /** The crop that centres the target window on a detected face. */
  function CropFor(b: Box, tw: int, th: int): (c: Crop)
    ensures c.y == 0 && c.width == tw && c.height == th
    ensures c.x + tw / 2 == CentreX(b)
  {
    Crop(CentreX(b) - tw / 2, 0, tw, th)
  }

  /** A window at least one pixel wide holds the centre of the face it was cut for. */
  lemma FaceCentreInside(b: Box, tw: int, th: int)
    requires tw >= 1
    ensures CropFor(b, tw, th).x <= CentreX(b) < CropFor(b, tw, th).x + tw
  {
  }

  /**
    The crop for one sample, given what was detected in it and the crops
    chosen so far: centred on the face if there is one, otherwise the last
    crop, otherwise the default crop.
   */
  function ChooseCrop(detection: Option<Box>, tw: int, th: int, crops: seq<Crop>): (c: Crop)
    ensures detection.Some? ==> c == CropFor(detection.value, tw, th)
    ensures detection.None? && crops != [] ==> c == crops[|crops| - 1]
    ensures detection.None? && crops == [] ==> c == DefaultCrop(tw, th)
  {
    match detection
    case Some(b) => CropFor(b, tw, th)
    case None => if crops != [] then crops[|crops| - 1] else DefaultCrop(tw, th)
  }

  /** Every crop has the target size. */
  predicate WellSized(crops: seq<Crop>, tw: int, th: int)
  {
    forall i :: 0 <= i < |crops| ==> crops[i].width == tw && crops[i].height == th
  }

  /** The crop chosen for a timeline of target-sized crops has the target size too. */
  lemma ChooseCropWellSized(detection: Option<Box>, tw: int, th: int, crops: seq<Crop>)
    requires WellSized(crops, tw, th)
    ensures WellSized(crops + [ChooseCrop(detection, tw, th, crops)], tw, th)
  {
  }

  /** The crops recorded for a sequence of samples, one per sample, in order. */
  function CropsFor(detections: seq<Option<Box>>, tw: int, th: int): (crops: seq<Crop>)
    ensures |crops| == |detections|
  {
    if detections == [] then []
    else
      var before := CropsFor(detections[..|detections| - 1], tw, th);
      before + [ChooseCrop(detections[|detections| - 1], tw, th, before)]
  }

  /** A later sample never changes the crops recorded for earlier ones. */
  lemma {:induction false} CropsForPrefix(detections: seq<Option<Box>>, tw: int, th: int, k: nat)
    requires k <= |detections|
    ensures CropsFor(detections[..k], tw, th) == CropsFor(detections, tw, th)[..k]
    decreases |detections|
  {
    if k < |detections| {
      var init := detections[..|detections| - 1];
      CropsForPrefix(init, tw, th, k);
      assert init[..k] == detections[..k];
    } else {
      assert detections[..k] == detections;
    }
  }

  /** Every recorded crop has the target size. */
  lemma {:induction false} CropsForWellSized(detections: seq<Option<Box>>, tw: int, th: int)
    ensures WellSized(CropsFor(detections, tw, th), tw, th)
    decreases |detections|
  {
    if detections != [] {
      var init := detections[..|detections| - 1];
      CropsForWellSized(init, tw, th);
      ChooseCropWellSized(detections[|detections| - 1], tw, th, CropsFor(init, tw, th));
    }
  }

  /** The index of the latest sample at or before `i` in which a face was found. */
  function LatestDetection(detections: seq<Option<Box>>, i: int): (r: Option<nat>)
    requires i < |detections|
    ensures r.Some? ==> r.value <= i && detections[r.value].Some?
    ensures r.Some? ==> forall j :: r.value < j <= i ==> detections[j].None?
    ensures r.None? ==> forall j :: 0 <= j <= i ==> detections[j].None?
    decreases i + 1
  {
    if i < 0 then None
    else if detections[i].Some? then Some(i)
    else LatestDetection(detections, i - 1)
  }

  /**
    Reference description of the timeline: the crop of sample `i` is centred
    on the latest face found at or before it, or is the default crop when no
    face has been found yet.
   */
  lemma {:induction false} CropsForLatest(detections: seq<Option<Box>>, tw: int, th: int, i: nat)
    requires i < |detections|
    ensures CropsFor(detections, tw, th)[i] ==
              match LatestDetection(detections, i)
              case None => DefaultCrop(tw, th)
              case Some(j) => CropFor(detections[j].value, tw, th)
    decreases |detections|
  {
    var n := |detections|;
    var init := detections[..n - 1];
    if i < n - 1 {
      CropsForLatest(init, tw, th, i);
      LatestDetectionPrefix(detections, n - 1, i);
    } else if detections[i].None? && i > 0 {
      CropsForLatest(init, tw, th, i - 1);
      LatestDetectionPrefix(detections, n - 1, i - 1);
    }
  }

  /** The latest detection up to `i` depends only on the samples up to `i`. */
  lemma {:induction false} LatestDetectionPrefix(detections: seq<Option<Box>>, k: nat, i: int)
    requires i < k <= |detections|
    ensures LatestDetection(detections[..k], i) == LatestDetection(detections, i)
    decreases i + 1
  {
    if i >= 0 && detections[i].None? {
      LatestDetectionPrefix(detections, k, i - 1);
    }
  }

  /** With no face in any sample, every crop is the default crop. */
  lemma NoFaceMeansDefault(detections: seq<Option<Box>>, tw: int, th: int)
    requires forall j :: 0 <= j < |detections| ==> detections[j].None?
    ensures forall i :: 0 <= i < |detections| ==> CropsFor(detections, tw, th)[i] == DefaultCrop(tw, th)
  {
    forall i | 0 <= i < |detections|
      ensures CropsFor(detections, tw, th)[i] == DefaultCrop(tw, th)
    {
      CropsForLatest(detections, tw, th, i);
    }
  }

  /**
    The `crops` list of the `data` handler, with the target size it was
    created for.
   */
  class CropRecorder {
    const tw: int
    const th: int
    var crops: seq<Crop>

    /** The target size computed from the input height, and an empty list of crops. */
    constructor (height: int)
      ensures (tw, th) == TargetSize(height)
      ensures crops == []
    {
      var size := TargetSize(height);
      tw, th := size.0, size.1;
      crops := [];
    }

    /** One `data` event: choose the crop for the sampled frame and append it. */
    method OnSample(detection: Option<Box>)
      modifies this
      ensures crops == old(crops) + [ChooseCrop(detection, tw, th, old(crops))]
      ensures WellSized(old(crops), tw, th) ==> WellSized(crops, tw, th)
    {
      var crop := ChooseCrop(detection, tw, th, crops);
      if WellSized(crops, tw, th) {
        ChooseCropWellSized(detection, tw, th, crops);
      }
      crops := crops + [crop];
    }
  }

  /**
    The whole capture phase: one `data` event per sampled frame, handled
    strictly in order. The list it builds is CropsFor of the detections.
   */
  method CaptureCrops(height: int, detections: seq<Option<Box>>) returns (crops: seq<Crop>)
    ensures crops == CropsFor(detections, TargetSize(height).0, TargetSize(height).1)
  {
    var recorder := new CropRecorder(height);
    var i := 0;
    while i < |detections|
      invariant 0 <= i <= |detections|
      invariant (recorder.tw, recorder.th) == TargetSize(height)
      invariant recorder.crops == CropsFor(detections[..i], recorder.tw, recorder.th)
    {
      assert detections[..i + 1][..i] == detections[..i];
      recorder.OnSample(detections[i]);
      i := i + 1;
    }
    assert detections[..i] == detections;
    crops := recorder.crops;
  }
}
