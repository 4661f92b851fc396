/**
 * `MEGNetMolecule.get_all_neighbors`: for every atom of a molecule, the list of
 * the other atoms within a cutoff radius, read off the molecule's all-pairs
 * distance matrix. A neighbour record is a list: the site, the distance, then
 * the site's index and a dummy periodic image (0, 0, 0) when asked for.
 */
module Molecule {
  import opened BooleanMask

  /** An atom of the molecule (species and coordinates); its contents play no part here. */
  type Site

  /** A periodic-image offset; molecules are not periodic, so it is always zero. */
  datatype Image = Image(a: int, b: int, c: int)

  const ZeroImage: Image := Image(0, 0, 0)

  /** One item of a neighbour record, which is a heterogeneous list. */
  datatype Entry =
    | SiteEntry(site: Site)
    | DistanceEntry(distance: real)
    | IndexEntry(index: nat)
    | ImageEntry(image: Image)

  /**
   * Distances at or below this are taken to be an atom's distance to itself.
   * It is the exact value of the IEEE 754 double written `1e-8`, which lies
   * slightly above 10^-8, so comparisons against it agree with numpy's.
   */
  const SelfTolerance: real := 0.000000010000000000000000209225608301284726753266340892878361046314239501953125

  /** A distance that makes a neighbour: above the self tolerance and within the cutoff. */
  predicate InShell(distance: real, cutoff: real) {
    SelfTolerance < distance <= cutoff
  }

  /** `dist` is an n-by-n matrix, one row and one column per site. */
  predicate IsDistanceMatrix(dist: seq<seq<real>>, n: nat) {
    |dist| == n && forall i :: 0 <= i < |dist| ==> |dist[i]| == n
  }

  /** The mask `(row <= cutoff) & (row > 1e-8)`. */
  function ShellMask(row: seq<real>, cutoff: real): seq<bool> {
    seq(|row|, j requires 0 <= j < |row| => row[j] <= cutoff && row[j] > SelfTolerance)
  }

  /** Atom indices selected from one row of the distance matrix, ascending. */
  function NeighborIndices(row: seq<real>, cutoff: real): (inds: seq<nat>) {
    Where(ShellMask(row, cutoff))
  }

  /** The record for the neighbour at `index`, shaped by the two flags. */
  ghost function Record(site: Site, distance: real, index: nat, includeIndex: bool, includeImage: bool): (item: seq<Entry>) {
    [SiteEntry(site), DistanceEntry(distance)]
      + (if includeIndex then [IndexEntry(index)] else [])
      + (if includeImage then [ImageEntry(ZeroImage)] else [])
  }

  /** The neighbour list of the atom whose distances are `row`. */
  ghost function RowNeighbors(sites: seq<Site>, row: seq<real>, cutoff: real, includeIndex: bool, includeImage: bool)
    : (neighbor: seq<seq<Entry>>)
    requires |row| == |sites|
  {
    var inds := NeighborIndices(row, cutoff);
    seq(|inds|, k requires 0 <= k < |inds| =>
      Record(sites[inds[k]], row[inds[k]], inds[k], includeIndex, includeImage))
  }

  /** The neighbour lists of every atom, in atom order. */
  ghost function AllNeighbors(sites: seq<Site>, dist: seq<seq<real>>, cutoff: real, includeIndex: bool, includeImage: bool)
    : (neighbors: seq<seq<seq<Entry>>>)
    requires IsDistanceMatrix(dist, |sites|)
  {
    seq(|dist|, i requires 0 <= i < |dist| => RowNeighbors(sites, dist[i], cutoff, includeIndex, includeImage))
  }

  /**
   * The routine itself: one pass over the rows of the distance matrix, one
   * neighbour list per row, appended in row order. Both flags default to true.
   */
  method GetAllNeighbors(sites: seq<Site>, dist: seq<seq<real>>, cutoff: real, includeIndex: bool := true, includeImage: bool := true)
    returns (neighbors: seq<seq<seq<Entry>>>)
    requires IsDistanceMatrix(dist, |sites|)
    ensures |neighbors| == |dist|
    ensures neighbors == AllNeighbors(sites, dist, cutoff, includeIndex, includeImage)
  {
    neighbors := [];
    var r := 0;
    while r < |dist|
      invariant 0 <= r <= |dist|
      invariant |neighbors| == r
      invariant forall i :: 0 <= i < r ==>
        neighbors[i] == RowNeighbors(sites, dist[i], cutoff, includeIndex, includeImage)
    {
      var neighbor := RowNeighborList(sites, dist[r], cutoff, includeIndex, includeImage);
      neighbors := neighbors + [neighbor];
      r := r + 1;
    }
  }

  /**
   * The body of the row loop: the mask, its indices and distances, then one
   * record per selected atom, built item by item.
   */
  method RowNeighborList(sites: seq<Site>, row: seq<real>, cutoff: real, includeIndex: bool, includeImage: bool)
    returns (neighbor: seq<seq<Entry>>)
    requires |row| == |sites|
    ensures neighbor == RowNeighbors(sites, row, cutoff, includeIndex, includeImage)
  {
    var cond := ShellMask(row, cutoff);
    var inds := Where(cond);
    var d := Compress(row, cond);
    var images := seq(|d|, _ => ZeroImage);
    CompressAlignsWithWhere(row, cond);
    neighbor := [];
    var k := 0;
    // `zip(d, inds, images)` stops at the shortest of the three.
    while k < |d| && k < |inds| && k < |images|
      invariant 0 <= k <= |inds|
      invariant neighbor == RowNeighbors(sites, row, cutoff, includeIndex, includeImage)[..k]
    {
      var dk, l, m := d[k], inds[k], images[k];
      var item: seq<Entry> := [];
      item := item + [SiteEntry(sites[l])];
      item := item + [DistanceEntry(dk)];
      if includeIndex {
        item := item + [IndexEntry(l)];
      }
      if includeImage {
        item := item + [ImageEntry(m)];
      }
      RowNeighborsAt(sites, row, cutoff, includeIndex, includeImage, k);
      assert item == Record(sites[l], row[l], l, includeIndex, includeImage);
      neighbor := neighbor + [item];
      k := k + 1;
    }
  }

  /** The k-th list entry is the record of the k-th selected index. */
  lemma RowNeighborsAt(sites: seq<Site>, row: seq<real>, cutoff: real, includeIndex: bool, includeImage: bool, k: nat)
    requires |row| == |sites| && k < |NeighborIndices(row, cutoff)|
    ensures |RowNeighbors(sites, row, cutoff, includeIndex, includeImage)| == |NeighborIndices(row, cutoff)|
    ensures var l := NeighborIndices(row, cutoff)[k];
      l < |sites| &&
      RowNeighbors(sites, row, cutoff, includeIndex, includeImage)[k]
        == Record(sites[l], row[l], l, includeIndex, includeImage)
  {
  }
}
