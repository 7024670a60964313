/**
 `MatMserTracker`: keeps the bright-on-dark (`up`) and dark-on-bright (`down`) MSER
 populations of a video, detecting them on the first frame and afterwards moving
 their centroids with the point tracker and refreshing their statistics there.
 */
module Tracker {
  import opened MatMser
  import opened TrackerSpec

  class MatMserTracker<Image(!new), Point(!new), Shape(!new)> {
    const detector: Detector<Image, Point, Shape>
    const opticalFlow: OpticalFlow<Image, Point>

    var count: nat
    var upMsers: seq<ComponentStats<Point, Shape>>
    var downMsers: seq<ComponentStats<Point, Shape>>
    var lastImage: Option<Image>
    var upMeans: seq<Point>
    var downMeans: seq<Point>

    /** The fields as a value. */
    ghost function State(): TrackerState<Image, Point, Shape>
      reads this
    {
      TrackerState(count, RegionSet(upMsers, upMeans), RegionSet(downMsers, downMeans), lastImage)
    }

    /** The collaborators behave as assumed, and both populations are index-aligned. */
    ghost predicate Valid()
      reads this
    {
      LengthPreserving(detector) && FlowPreservesLength(opticalFlow) && Consistent(State())
    }

    constructor (detector: Detector<Image, Point, Shape>, opticalFlow: OpticalFlow<Image, Point>)
      requires LengthPreserving(detector) && FlowPreservesLength(opticalFlow)
      ensures Valid()
      ensures this.detector == detector && this.opticalFlow == opticalFlow
      ensures State() == Initial()
    {
      this.detector := detector;
      this.opticalFlow := opticalFlow;
      count := 0;
      upMsers, downMsers := [], [];
      upMeans, downMeans := [], [];
      lastImage := None;
    }

    /** Processes the next frame: bootstrap on the first call, tracking and refresh on
        every later one; advances the counter and makes `image` the reference. */
    method Update(image: Image)
      requires Valid()
      modifies this
      ensures Valid()
      ensures State() == Step(detector, opticalFlow, old(State()), image)
      ensures count == old(count) + 1 && lastImage == Some(image)
    {
      if count == 0 {
        upMsers := detector.detectMsers(image, Upwards);
        upMeans := detector.extractMeans(upMsers);
        downMsers := detector.detectMsers(image, Downwards);
        downMeans := detector.extractMeans(downMsers);
      } else {
        upMsers, upMeans := TrackMeans(upMsers, upMeans, image);
        downMsers, downMeans := TrackMeans(downMsers, downMeans, image);
        upMsers := detector.retrieveMsers(image, upMsers, false);
        downMsers := detector.retrieveMsers(image, downMsers, true);
      }
      count := count + 1;
      lastImage := Some(image);
    }

    /** The current bright-on-dark components, one per centroid. */
    function UpMsers(): (r: seq<ComponentStats<Point, Shape>>)
      reads this
      requires Valid()
      ensures |r| == |upMeans|
      ensures r == State().up.msers
    {
      upMsers
    }

    /** The current dark-on-bright components, one per centroid. */
    function DownMsers(): (r: seq<ComponentStats<Point, Shape>>)
      reads this
      requires Valid()
      ensures |r| == |downMeans|
      ensures r == State().down.msers
    {
      downMsers
    }

    /** Tracks `means` from the reference image to `newImage` and writes the tracked
        point i into component i, whatever the tracker's status for that point. The
        loop reads one tracked point per component, so there must be at least as many. */
    method TrackMeans(msers: seq<ComponentStats<Point, Shape>>, means: seq<Point>, newImage: Image)
      returns (trackedMsers: seq<ComponentStats<Point, Shape>>, trackedMeans: seq<Point>)
      requires lastImage.Some?
      requires |opticalFlow(lastImage.value, newImage, means).points| >= |msers|
      ensures trackedMeans == opticalFlow(lastImage.value, newImage, means).points
      ensures |trackedMsers| == |msers|
      ensures forall i :: 0 <= i < |msers| ==>
                trackedMsers[i].mean == trackedMeans[i] && trackedMsers[i].shape == msers[i].shape
      ensures trackedMsers == Overwritten(msers, trackedMeans)
    {
      var flowed := opticalFlow(lastImage.value, newImage, means);
      trackedMeans := flowed.points;
      trackedMsers := msers;
      var i := 0;
      while i < |trackedMsers|
        invariant 0 <= i <= |trackedMsers| == |msers|
        invariant forall k :: 0 <= k < i ==> trackedMsers[k] == msers[k].(mean := trackedMeans[k])
        invariant forall k :: i <= k < |msers| ==> trackedMsers[k] == msers[k]
      {
        trackedMsers := trackedMsers[i := trackedMsers[i].(mean := trackedMeans[i])];
        i := i + 1;
      }
      forall k | 0 <= k < |msers|
        ensures trackedMsers[k] == Overwritten(msers, trackedMeans)[k]
      {
        OverwrittenAt(msers, trackedMeans, k);
      }
    }
  }
}
