/**
 The part of `cluster_points` that happens before the k-means fit: the guard
 for an empty point list and the choice of the effective cluster count.
 The fit itself (and the floating-point centres it returns) is not modelled;
 a plan records how many centres the fit is asked for.
 */
module Clustering {
  import opened Raster

  datatype ClusterPlan =
    | NoPoints                          // empty input: an empty list is returned, no fit happens
    | FitKMeans(k: nat)                 // the fit runs with k clusters and returns k centres
    | InvalidClusterCount(requested: int) // the fit rejects a cluster count below one

  function PlanClusters(points: seq<Point>, numClusters: int): (plan: ClusterPlan)
    ensures plan == NoPoints <==> |points| == 0
    ensures plan.FitKMeans? <==> |points| > 0 && numClusters >= 1
    ensures plan.FitKMeans? ==> 1 <= plan.k <= |points| && plan.k <= numClusters
    ensures plan.FitKMeans? ==> plan.k == numClusters || plan.k == |points|
  {
    if |points| == 0 then NoPoints
    else
      var k := Min(numClusters, |points|);
      if k < 1 then InvalidClusterCount(k) else FitKMeans(k)
  }

  /** Number of centres handed back to the caller (none on the error path). */
  function CentreCount(plan: ClusterPlan): nat {
    match plan
    case NoPoints => 0
    case FitKMeans(k) => k
    case InvalidClusterCount(_) => 0
  }

  /**
   For a positive requested count the call succeeds and returns
   min(numClusters, |points|) centres; in particular every point gets its own
   centre when there are fewer points than requested clusters.
   */
  lemma CentreCountIsMin(points: seq<Point>, numClusters: int)
    requires numClusters >= 1
    ensures !PlanClusters(points, numClusters).InvalidClusterCount?
    ensures CentreCount(PlanClusters(points, numClusters)) == Min(numClusters, |points|)
    ensures |points| <= numClusters ==> CentreCount(PlanClusters(points, numClusters)) == |points|
  {
  }

  /** A request for zero clusters on a non-empty list fails rather than returning nothing. */
  lemma ZeroClustersFails(points: seq<Point>)
    requires |points| > 0
    ensures PlanClusters(points, 0) == InvalidClusterCount(0)
  {
  }
}
