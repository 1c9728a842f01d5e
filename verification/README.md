# Floorplan feature-point model

This project models the sequential core of a floorplan-analysis pipeline. The
pipeline thins a floorplan raster to a one-pixel skeleton, then finds the
skeleton's endpoints, corners and T-junctions with a crossing-number rule on
3x3 neighbourhoods. It groups those points with k-means and colours each
cluster centre by re-deriving its class from the image. The HTTP front end
accepts uploads whose file extension is one of five image types.

What is modelled:

- `classify_point` (module `Classifier`). Only the value 255 counts as
  foreground. N is the number of foreground neighbours. T is the number of
  0-to-1 steps around the clockwise ring of eight neighbours, counted on the
  ring with its first element appended, as the source does. The central fact
  is `N == T + touching pairs`, where a touching pair is two foreground
  neighbours next to each other on the ring. It gives `T <= N`, and together
  with `2*T <= 9` it gives `T <= 4`. It also turns the rule into a geometric
  description: 'corner' means exactly two non-touching neighbours;
  't_junction' means three neighbours with exactly one touching pair.
- Both passes of `detect_corners` (module `Detector`). The sparse pass filters
  an arbitrary candidate list. The exhaustive pass is a row-major loop. Its
  contract says which points it appends and in what order. It also says that
  every qualifying pixel is either appended or suppressed. A suppressing point
  lies closer than D on both axes and was accepted before the scan reached the
  pixel. Together these pin the appended points down: a list that keeps a
  later pixel in place of an earlier one does not meet the contract
  (`ScanOrderDecides`).
- The guard and the choice of k in `cluster_points` (module `Clustering`).
- The decision logic of `fit_line_to_clustered_points` (module `Annotator`):
  clip the patch, fall back to 'none', map the class to a colour. The image is
  repainted after every centre, and later centres are classified on the
  repainted image. A blue (endpoint) circle writes 255 into the channel that
  is read, so earlier circles can change later classes. The model keeps this
  behaviour. `PaintedUpTo` is the channel after the first i circles. Each mark's
  colour is stated against it, and so is the final channel. The model also
  proves that colours come from the undrawn skeleton whenever no earlier
  circle reaches a centre's 3x3 neighbourhood.
- `allowed_file` with `ALLOWED_EXTENSIONS` (module `Upload`).
- The line-83 clean-up `skel[skel > 0] = 255` (module `Raster`).

Two points where the code is narrower than its comments or callers suggest;
the model follows the code:

- The docstrings of the thinning and skeleton steps describe the image as
  0/255 (`apps/api/src/detect_floorplan.py:29` and `:51`). `classify_point`
  tests `neighborhood == 255` (line 91), so any other value, 254 for example,
  is background (`NonMaximalIsBackground`).
- `cluster_points` computes `k = min(num_clusters, len(points))` (line 171).
  With `num_clusters = 0` and a non-empty point list this is 0, and
  `KMeans(n_clusters=0)` (line 172) is rejected by the library. The model
  returns `InvalidClusterCount` (`ZeroClustersFails`).

A plain T shape on the skeleton (west, east and south neighbours) has T = 3, so
the rule calls it 'none' (`PlainTeeIsUnclassified`). A straight vertical run
has T = 2 and N = 2, so the rule calls it a 'corner' (`StraightRunIsCorner`).
Both follow from the thresholds in lines 113-121 and are recorded as proved
behaviour, not as defects.

## Model

| member | source | states |
|---|---|---|
| Classifier.Classify | apps/api/src/detect_floorplan.py:87-121 | a centre other than exactly 255 gives 'none'; a foreground centre with one foreground neighbour is an endpoint |
| Classifier.NeighboursSplit | apps/api/src/detect_floorplan.py:96-111 | N (pattern sum minus centre) equals T plus the number of touching neighbour pairs on the closed ring |
| Classifier.TransitionBounds | apps/api/src/detect_floorplan.py:96-111 | T, counted cyclically, lies in 0..4 and never exceeds N, and N is at most 8 |
| Classifier.EndpointIff | apps/api/src/detect_floorplan.py:113-114 | endpoint exactly when the centre is 255 and N = 1, whatever T is |
| Classifier.CornerIff | apps/api/src/detect_floorplan.py:115-117 | corner exactly when the centre is 255 and there are two foreground neighbours, not next to each other on the ring |
| Classifier.TJunctionIff | apps/api/src/detect_floorplan.py:115-119 | t_junction exactly when the centre is 255 and there are three foreground neighbours with exactly one touching pair |
| Classifier.UnclassifiedIff | apps/api/src/detect_floorplan.py:91-121 | 'none' exactly for a background centre, N = 0, N >= 4, two touching neighbours, or three neighbours without exactly one touching pair |
| Classifier.StraightRunIsCorner | apps/api/src/detect_floorplan.py:100-117 | north and south neighbours give 'corner' |
| Classifier.AdjacentPairIsUnclassified | apps/api/src/detect_floorplan.py:100-121 | north and north-east neighbours give 'none' |
| Classifier.BendIsCorner | apps/api/src/detect_floorplan.py:100-117 | the bend of an L (west and south neighbours) is a corner |
| Classifier.PlainTeeIsUnclassified | apps/api/src/detect_floorplan.py:100-121 | west, east and south neighbours give T = 3 and so 'none' |
| Classifier.NonMaximalIsBackground | apps/api/src/detect_floorplan.py:91-94 | a centre of 254 is 'none'; a neighbour of 254 does not count |
| Raster.Window | apps/api/src/detect_floorplan.py:143 | the neighbourhood of an interior pixel is 3x3, with element (i, j) taken from row y-1+i and column x-1+j |
| Raster.Normalise | apps/api/src/detect_floorplan.py:83 | the grid keeps its shape, and every sample becomes 255 when it was positive and stays as it was otherwise |
| Raster.NormaliseIsBinary | apps/api/src/detect_floorplan.py:82-83 | on 8-bit input the clean-up gives a 0/255 grid of the same shape, 255 exactly where the input was non-zero, and is idempotent |
| Detector.SparsePass | apps/api/src/detect_floorplan.py:136-146 | the output is a subsequence of the candidates; each candidate keeps its multiplicity when it is strictly interior and not 'none', and is dropped otherwise |
| Detector.ExhaustivePass | apps/api/src/detect_floorplan.py:148-159 | the input list stays a prefix; each appended point is interior, equals 255, is an endpoint or t_junction, and is at least D away on x or on y from every earlier point; appended points follow row-major order; every qualifying pixel is appended, or lies closer than D on both axes to a point that was accepted before the scan reached it (an input point or an earlier appended one) |
| Detector.Visit | apps/api/src/detect_floorplan.py:152-159 | no contract of its own; one scan step, stated by VisitKeepsInvariant and, over the whole scan, ExhaustivePass |
| Detector.VisitKeepsInvariant | apps/api/src/detect_floorplan.py:152-159 | one scan step keeps the prefix, ordering, distance and coverage properties up to the next pixel |
| Detector.ScanOrderDecides | apps/api/src/detect_floorplan.py:150-159 | on a horizontal run of two foreground pixels with D = 10 both pixels qualify; the left one accounts for the right one, but the right one alone does not account for the left one, so only the scan's own choice meets the contract |
| Detector.DetectCorners | apps/api/src/detect_floorplan.py:123-161 | the output starts with the sparse pass's result; the rest is appended as the exhaustive pass states: endpoints or t_junctions at 255, each at least D away on some axis from every earlier point, in row-major order, and every qualifying pixel appended or suppressed by an earlier-accepted point; every point is interior and classified; corners come only from the candidates |
| Detector.PerAxisNotEuclidean | apps/api/src/detect_floorplan.py:157-158 | closeness is tested per axis: an offset of (9, 9) is close for D = 10 although its Euclidean length exceeds 10 |
| Clustering.PlanClusters | apps/api/src/detect_floorplan.py:163-173 | empty input gives the empty result; otherwise the fit runs with a k that is at least 1, at most the number of points and at most the request, and equal to one of them; a request below one is an error |
| Clustering.CentreCountIsMin | apps/api/src/detect_floorplan.py:167-173 | for a positive request the number of centres is min(request, number of points) |
| Clustering.ZeroClustersFails | apps/api/src/detect_floorplan.py:171-172 | a request for zero clusters on a non-empty list is rejected |
| Annotator.ColourOf | apps/api/src/detect_floorplan.py:199-206 | no contract of its own; stated by ColourRoundTrip, TypeOfColourRoundTrip and EndpointCirclesAreForeground |
| Annotator.ColourRoundTrip | apps/api/src/detect_floorplan.py:199-206 | endpoint, corner and t_junction map to blue, red and green, and 'none' maps to orange (0, 165, 255); the four colours are distinct, so a colour identifies its class |
| Annotator.TypeOfColourRoundTrip | apps/api/src/detect_floorplan.py:199-206 | each of blue, red, green and orange is the colour of the class it reads back as; with ColourRoundTrip the map from the four classes to the four colours is a bijection |
| Annotator.ClippedPatch | apps/api/src/detect_floorplan.py:189-193 | the patch has max(0, min(h, y+2) - max(0, y-1)) rows, each of the clipped width |
| Annotator.AnnotatedType | apps/api/src/detect_floorplan.py:189-197 | no contract of its own; stated by AnnotatorAgreesWithDetector and AnnotatedTypeIsLocal |
| Annotator.AnnotatorAgreesWithDetector | apps/api/src/detect_floorplan.py:189-197 | the clipped patch is a full 3x3 exactly for interior centres; then the class is the detector's classification of the window, and otherwise 'none' |
| Annotator.AnnotatedTypeIsLocal | apps/api/src/detect_floorplan.py:189-197 | the derived class depends only on the centre's 3x3 neighbourhood |
| Annotator.Paint | apps/api/src/detect_floorplan.py:208 | painting a circle changes exactly the in-bounds footprint cells of the read channel, to the colour's blue component |
| Annotator.DrawFrom | apps/api/src/detect_floorplan.py:185-208 | the loop from iteration j on: one mark per remaining centre, in order, at that centre; the channel keeps its shape |
| Annotator.DrawFromPainted | apps/api/src/detect_floorplan.py:185-208 | running the remaining iterations from the channel after j circles gives mark i the colour chosen on the channel after i circles, and ends with all circles painted |
| Annotator.DrawAll | apps/api/src/detect_floorplan.py:185-208 | one mark per centre, in order, at that centre; mark i has the colour of the class derived on the channel after the first i circles; the final channel is the one with every circle painted |
| Annotator.Annotate | apps/api/src/detect_floorplan.py:180-208 | with draw off nothing is marked and the image is unchanged; with draw on every centre is marked in order, mark i in the colour derived after i circles, and the final channel has every circle painted |
| Annotator.PaintedAgreesAround | apps/api/src/detect_floorplan.py:185-208 | when none of the first j circles reaches the neighbourhood of a point, the channel after them agrees there with the original |
| Annotator.ColourFromSkeleton | apps/api/src/detect_floorplan.py:185-208 | when no earlier circle reaches a centre's 3x3 neighbourhood, its colour is that of its class on the undrawn image |
| Annotator.EndpointCirclesAreForeground | apps/api/src/detect_floorplan.py:199-208 | a blue circle writes 255 into the read channel (foreground for later centres); a red circle writes 0 |
| Upload.AllowedFile | apps/api/src/app.py:34-35 | no contract of its own; stated by AllowedFileIff, NoDotRejected and CaseInsensitive |
| Upload.Lower | apps/api/src/app.py:35 | the name keeps its length and is lower-cased character by character (A-Z only, see Left out) |
| Upload.Extension | apps/api/src/app.py:35 | no contract of its own; stated by ExtensionSplit and AllowedFileIff |
| Upload.LastDot | apps/api/src/app.py:35 | no index when there is no dot; otherwise the index of a dot with no dot after it |
| Upload.NoDotRejected | apps/api/src/app.py:35 | a name without a dot is rejected |
| Upload.ExtensionSplit | apps/api/src/app.py:35 | a name with a dot is its stem, a dot, and a dot-free extension |
| Upload.AllowedFileIff | apps/api/src/app.py:32-35 | for any stem and dot-free extension, the name is accepted exactly when the lower-cased extension is one of png, jpg, jpeg, bmp, tiff |
| Upload.CaseInsensitive | apps/api/src/app.py:35 | lower-casing the whole name never changes the verdict |
| Upload.UpperCaseAccepted | apps/api/src/app.py:35 | PLAN.PNG is accepted |
| Upload.StemIgnored | apps/api/src/app.py:35 | a.tar.png and .png are accepted |
| Upload.LastExtensionDecides | apps/api/src/app.py:35 | plan.png.exe is rejected |
| Upload.NearMissExtensions | apps/api/src/app.py:32-35 | x.tif and x.gif are rejected |
| Upload.DotEdgeExamples | apps/api/src/app.py:35 | plan. (empty extension) and plan (no dot) are rejected |

## Left out

- Image reading and writing, `argparse`, `main` and the debug prints are plumbing.
- `morphological_thinning` and the threshold, opening, closing and resize steps of `skeletonize_image` are calls into OpenCV or scikit-image, whose semantics are not visible here. Only the final `skel > 0` to 255 clean-up is modelled.
- `goodFeaturesToTrack` is foreign. Its output is the `candidates` parameter: an arbitrary list of integer positions, empty when the selector returns nothing. The float-to-int cast of its output is not modelled.
- The k-means fit and its floating-point centroids are foreign and not modelled. Only the empty-input guard and the effective k are.
- Annotator.Annotate: centres are taken as already-truncated non-negative integers. The float-to-int truncation of centroids is not modelled. A negative centre cannot arise from centroids of non-negative pixel positions, so Python's negative-index slicing is not modelled either.
- Annotator.Paint: the pixels covered by a filled circle of radius 3 are drawn by the library. The footprint is a function parameter. Only the first channel is tracked, because it is the only channel read back.
- `detect_straight_walls_hough` (edge detection and probabilistic Hough transform) and the drawing of line segments are foreign library calls.
- Everything else in the HTTP layer: routes, CORS, `secure_filename`, unique names, file saving, form parsing and JSON conversion.
- Upload.Lower: lower-casing is modelled for A-Z only. No other character lower-cases to a string made only of letters used in the five extensions, so acceptance is unaffected.
- Integer widths: samples are unbounded integers. The classifier tests only `== 255`, so the 8-bit width matters only for `Raster.NormaliseIsBinary`, which assumes 8-bit input.
