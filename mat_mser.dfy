/**
 The interface the region tracker consumes: the MSER detector (`MatMser`) and the
 pyramidal Lucas-Kanade point tracker of the vision library. Images, points and the
 shape statistics of a region are opaque type parameters; the collaborators are
 function values handed to the tracker, and the facts the tracker relies on are
 stated as predicates over those values.
 */
module MatMser {

  datatype Option<T> = None | Some(value: T)

  /** Which of the two extremal-region passes a region comes from:
      bright-on-dark (`upwards`) or dark-on-bright (`downwards`). */
  datatype Polarity = Upwards | Downwards

  /** `MatMser::ComponentStats`: the statistics of one region. `mean` is its centroid,
      the only field the tracker writes; everything else is `shape`. */
  datatype ComponentStats<Point, Shape> = ComponentStats(mean: Point, shape: Shape)

  /** The outputs of the point tracker: one new position and one success flag per
      input point (the per-point error output is not modelled). */
  datatype FlowResult<Point> = FlowResult(points: seq<Point>, status: seq<bool>)

  /** The detector handle the tracker is built with.
      - `detectMsers(image, polarity)`: full detection of one polarity;
      - `retrieveMsers(image, components, flag)`: re-derive the statistics of the
        given components on `image`; the tracker passes `false` for `up` and `true`
        for `down`;
      - `extractMeans(components)`: the centroid list of a component list. */
  datatype Detector<!Image, !Point, !Shape> = Detector(
    detectMsers: (Image, Polarity) -> seq<ComponentStats<Point, Shape>>,
    retrieveMsers: (Image, seq<ComponentStats<Point, Shape>>, bool) -> seq<ComponentStats<Point, Shape>>,
    extractMeans: seq<ComponentStats<Point, Shape>> -> seq<Point>)

  /** `calcOpticalFlowPyrLK(previous, next, points)`. */
  type OpticalFlow<!Image, !Point> = (Image, Image, seq<Point>) -> FlowResult<Point>

  /** What the tracker assumes of the detector: one mean per component, and a
      refresh that keeps the number of components. */
  ghost predicate LengthPreserving<Image(!new), Point(!new), Shape(!new)>(d: Detector<Image, Point, Shape>)
  {
    && (forall ms :: |d.extractMeans(ms)| == |ms|)
    && (forall image, ms, flag :: |d.retrieveMsers(image, ms, flag)| == |ms|)
  }

  /** What the tracker assumes of the point tracker: one output position per input point. */
  ghost predicate FlowPreservesLength<Image(!new), Point(!new)>(flow: OpticalFlow<Image, Point>)
  {
    forall previous, next, points :: |flow(previous, next, points).points| == |points|
  }
}
