# MatMserTracker, modelled in Dafny

This project models the incremental MSER region tracker of the video stabilizer,
`MatMserTracker` (`stabilizer/MatMserTracker.hpp`). The tracker keeps two region
populations, bright-on-dark (`up`) and dark-on-bright (`down`). Each population is a
list of components (`ComponentStats`) plus a list of centroids (`means`), and the two
lists are index-aligned. The first call of `update` runs full detection for each
polarity and extracts the centroids. Every later call does three things:
- it moves each centroid list to the new image with the point tracker;
- it writes tracked point i into component i;
- it asks the detector to refresh the components at those positions.

Every call advances a counter and keeps the image as the tracking reference.

Files:
- `mat_mser.dfy` (module `MatMser`): the collaborators the tracker uses. These are the
  detector's `detect_msers`, `retrieve_msers` and `extract_means`, and the point tracker
  `calcOpticalFlowPyrLK`. Each one is a function value handed to the tracker. Images,
  points and region shape statistics are opaque type parameters. The module also
  states the length facts the tracker relies on:
  - `LengthPreserving`: `extract_means` gives one mean per component, and
    `retrieve_msers` keeps the number of components;
  - `FlowPreservesLength`: the point tracker returns one position per input point.
- `tracker_spec.dfy` (module `TrackerSpec`): the tracker's fields as a value
  (`TrackerState`). One `update` is the function `Step` and a sequence of updates is
  `Run`. The module holds the lemmas about them.
- `mat_mser_tracker.dfy` (module `Tracker`): the class `MatMserTracker`. It has the
  source's fields, and `Update`, `TrackMeans` and the two accessors. `Update` is proved
  to move the fields exactly as `Step` says.

The detector and the point tracker are constructor arguments. The constructor
requires them to satisfy the two length predicates, and `Valid()` keeps them. Under
these assumptions, both populations stay index-aligned after every call.

`track_means_` takes both vectors by reference. `TrackMeans` instead takes the
component and centroid lists as values and returns the new pair. `Update` assigns the
pair back to the fields of the polarity at hand, in the same order as the source. The
source's `last_image_` starts as an empty `cv::Mat`; this is modelled as `None`.

## Model

| member | source | states |
|---|---|---|
| `Tracker.MatMserTracker.constructor` | stabilizer/MatMserTracker.hpp:14-15 | keeps the detector it is given; the counter is 0, all four lists are empty and no reference image is stored |
| `Tracker.MatMserTracker.Update` | stabilizer/MatMserTracker.hpp:17-32 | the new fields are exactly `Step` of the old ones; the counter goes up by one; the reference image becomes the image passed; index alignment of both populations is preserved |
| `Tracker.MatMserTracker.TrackMeans` | stabilizer/MatMserTracker.hpp:53-64 | needs at least as many tracked points as components, because the loop reads one per component; the centroid list is replaced wholesale by the tracker's output for (reference image, new image, old centroids); component i gets tracked point i as its mean, its other statistics are unchanged, and the component count is unchanged; the result equals the reference definition `Overwritten` |
| `Tracker.MatMserTracker.UpMsers` | stabilizer/MatMserTracker.hpp:34-36 | returns the current bright-on-dark components without changing state; there is one per stored centroid |
| `Tracker.MatMserTracker.DownMsers` | stabilizer/MatMserTracker.hpp:38-40 | returns the current dark-on-bright components without changing state; there is one per stored centroid |
| `TrackerSpec.Initial` | stabilizer/MatMserTracker.hpp:45-51 | a fresh tracker has counter 0 and satisfies the consistency invariant |
| `TrackerSpec.Overwritten` | stabilizer/MatMserTracker.hpp:62-63 | the index loop as a recursive reference definition; it keeps the number of components |
| `TrackerSpec.OverwrittenAt` | stabilizer/MatMserTracker.hpp:62-63 | for every i below the number of components, component i has mean `means[i]` and the shape statistics of the original component i |
| `TrackerSpec.Detected` | stabilizer/MatMserTracker.hpp:19-22 | the components are the detector's output for the polarity; under the detector assumption, the centroid list has one entry per component |
| `TrackerSpec.Propagated` | stabilizer/MatMserTracker.hpp:24-27 | the new centroids are the point tracker's output; the population stays aligned and keeps its size, given aligned input and the length assumptions |
| `TrackerSpec.Step` | stabilizer/MatMserTracker.hpp:17-32 | the consistency invariant (counter 0 exactly when no reference image, both populations aligned) is preserved; the counter goes up by one; the reference becomes the new image |
| `TrackerSpec.Run` | stabilizer/MatMserTracker.hpp:17-32 | any sequence of updates keeps the consistency invariant |
| `TrackerSpec.BootstrapDetects` | stabilizer/MatMserTracker.hpp:18-22 | on the first call, `up` is detection with `upwards` and `down` with `downwards`; each centroid list is `extract_means` of its own population; swapping in a different refresh or point tracker changes nothing |
| `TrackerSpec.SteadyStateTracks` | stabilizer/MatMserTracker.hpp:23-28 | on later calls, centroids are tracked from the reference image; components are overwritten and then refreshed with flag `false` for `up` and `true` for `down`; swapping in a different detection function changes nothing |
| `TrackerSpec.StatusIgnored` | stabilizer/MatMserTracker.hpp:56-63 | two point trackers that return the same positions, whatever their status flags, give the same new state; no component is dropped |
| `TrackerSpec.PolaritiesIndependent` | stabilizer/MatMserTracker.hpp:24-27 | the new `up` population depends only on the old `up` population (with the counter and reference), and likewise for `down` |
| `TrackerSpec.RunCount` | stabilizer/MatMserTracker.hpp:30-31 | after n updates the counter has grown by exactly n, and the reference image is the last image passed |
| `TrackerSpec.RunPrefix` | stabilizer/MatMserTracker.hpp:17-32 | update k of a sequence acts on the state left by the first k updates |
| `TrackerSpec.OnlyFirstCallBootstraps` | stabilizer/MatMserTracker.hpp:17-31 | from a fresh tracker, update k starts with counter k, so only the first update takes the bootstrap branch; after n updates the counter is n |

## Left out

- `stabilizer/Stabilizer.h` (the frame aligner): its header holds only enums, a constructor and declarations. The per-frame state machine and the transform fitting are not part of this model.
- MSER detection, `retrieve_msers`, `extract_means` and `calcOpticalFlowPyrLK` are not modelled internally. They are uninterpreted function values. Only their length behaviour is assumed: one mean per component, a length-preserving refresh, and one tracked point per input point.
- The point tracker's per-point error output (`err`) is not modelled; the source discards it.
- Image contents and `cv::Point2f` values are opaque type parameters. The tracker only copies them, so floating point is not modelled.
- `Tracker.MatMserTracker.Update`: the collaborators are modelled as total, deterministic, side-effect-free functions. An exception thrown partway through `update` is not modelled. For example, `calcOpticalFlowPyrLK` throws when the two images differ in size or type. The partial update such an exception leaves is not modelled either: `up` tracked, `down` not, and the counter and reference image unchanged. Any state inside the tracker's own `MatMser` copy that `detect_msers` or `retrieve_msers` might change is not modelled.
- `Tracker.MatMserTracker.Update`: the counter is an unbounded `nat`. It does not model overflow of the source's `int` counter after 2^31 - 1 calls.
- `Tracker.MatMserTracker.Update`: `cv::Mat` assignment shares pixel data. The model stores the image as a value, so aliasing between `last_image_` and the caller's image is not modelled.
- `Tracker.MatMserTracker.UpMsers` and `Tracker.MatMserTracker.DownMsers` return the lists as values. The source returns const references into the tracker.
- `Tracker.MatMserTracker.TrackMeans` works on lists passed as values and returned. It does not update vectors passed by reference in place.
