/**
 * What `get_all_neighbors` promises about its result: one list per atom,
 * exactly the atoms within the cutoff shell, in ascending atom order, with
 * records of a fixed shape; no atom is its own neighbour when the diagonal is
 * (near) zero, and neighbourhood is mutual when the matrix is symmetric.
 */
module NeighborProperties {
  import opened BooleanMask
  import opened Molecule

  /** The record at position k of row i is built from the k-th selected index. */
  lemma RecordAt(sites: seq<Site>, dist: seq<seq<real>>, cutoff: real, includeIndex: bool, includeImage: bool, i: nat, k: nat)
    requires IsDistanceMatrix(dist, |sites|) && i < |dist|
    requires k < |NeighborIndices(dist[i], cutoff)|
    ensures |AllNeighbors(sites, dist, cutoff, includeIndex, includeImage)[i]| == |NeighborIndices(dist[i], cutoff)|
    ensures var l := NeighborIndices(dist[i], cutoff)[k];
      l < |sites| &&
      AllNeighbors(sites, dist, cutoff, includeIndex, includeImage)[i][k]
        == Record(sites[l], dist[i][l], l, includeIndex, includeImage)
  {
  }

  /** Membership in a row's index list is exactly the shell condition, each member once. */
  lemma NeighborIndicesExact(row: seq<real>, cutoff: real, j: nat)
    ensures j in NeighborIndices(row, cutoff) <==> j < |row| && InShell(row[j], cutoff)
    ensures multiset(NeighborIndices(row, cutoff))[j] == if j < |row| && InShell(row[j], cutoff) then 1 else 0
  {
    WhereOccurrences(ShellMask(row, cutoff), j);
  }

  /** Soundness: every record in row i is the record of some atom l in the shell of atom i. */
  lemma NeighborSound(sites: seq<Site>, dist: seq<seq<real>>, cutoff: real, includeIndex: bool, includeImage: bool, i: nat, k: nat)
    requires IsDistanceMatrix(dist, |sites|) && i < |dist|
    requires k < |AllNeighbors(sites, dist, cutoff, includeIndex, includeImage)[i]|
    ensures exists l :: (0 <= l < |sites| && InShell(dist[i][l], cutoff) &&
      AllNeighbors(sites, dist, cutoff, includeIndex, includeImage)[i][k]
        == Record(sites[l], dist[i][l], l, includeIndex, includeImage))
  {
    var l := NeighborIndices(dist[i], cutoff)[k];
    RecordAt(sites, dist, cutoff, includeIndex, includeImage, i, k);
    assert InShell(dist[i][l], cutoff);
  }

  /**
   * Completeness: every atom j in the shell of atom i has a record in row i,
   * at a position that no other record of row i shares.
   */
  lemma NeighborComplete(sites: seq<Site>, dist: seq<seq<real>>, cutoff: real, includeIndex: bool, includeImage: bool, i: nat, j: nat)
    requires IsDistanceMatrix(dist, |sites|) && i < |dist| && j < |dist|
    requires InShell(dist[i][j], cutoff)
    ensures exists k :: (0 <= k < |NeighborIndices(dist[i], cutoff)| && NeighborIndices(dist[i], cutoff)[k] == j &&
      AllNeighbors(sites, dist, cutoff, includeIndex, includeImage)[i][k]
        == Record(sites[j], dist[i][j], j, includeIndex, includeImage))
    ensures multiset(NeighborIndices(dist[i], cutoff))[j] == 1
  {
    var inds := NeighborIndices(dist[i], cutoff);
    NeighborIndicesExact(dist[i], cutoff, j);
    var k :| 0 <= k < |inds| && inds[k] == j;
    RecordAt(sites, dist, cutoff, includeIndex, includeImage, i, k);
  }

  /**
   * Records of a row come in strictly ascending atom order (whatever their
   * distances), which the index field shows when it is present.
   */
  lemma NeighborOrder(sites: seq<Site>, dist: seq<seq<real>>, cutoff: real, includeIndex: bool, includeImage: bool, i: nat, k1: nat, k2: nat)
    requires IsDistanceMatrix(dist, |sites|) && i < |dist|
    requires k1 < k2 < |AllNeighbors(sites, dist, cutoff, includeIndex, includeImage)[i]|
    ensures NeighborIndices(dist[i], cutoff)[k1] < NeighborIndices(dist[i], cutoff)[k2]
    ensures includeIndex ==>
      AllNeighbors(sites, dist, cutoff, includeIndex, includeImage)[i][k1][2].IndexEntry? &&
      AllNeighbors(sites, dist, cutoff, includeIndex, includeImage)[i][k2][2].IndexEntry? &&
      AllNeighbors(sites, dist, cutoff, includeIndex, includeImage)[i][k1][2].index
        < AllNeighbors(sites, dist, cutoff, includeIndex, includeImage)[i][k2][2].index
  {
    RecordAt(sites, dist, cutoff, includeIndex, includeImage, i, k1);
    RecordAt(sites, dist, cutoff, includeIndex, includeImage, i, k2);
  }

  /**
   * Record shape: site, distance, then the index if asked for, then the zero
   * image if asked for; the site and the distance belong to the same atom.
   */
  lemma RecordShape(sites: seq<Site>, dist: seq<seq<real>>, cutoff: real, includeIndex: bool, includeImage: bool, i: nat, k: nat)
    requires IsDistanceMatrix(dist, |sites|) && i < |dist|
    requires k < |AllNeighbors(sites, dist, cutoff, includeIndex, includeImage)[i]|
    ensures var item := AllNeighbors(sites, dist, cutoff, includeIndex, includeImage)[i][k];
      var l := NeighborIndices(dist[i], cutoff)[k];
      l < |sites| &&
      |item| == 2 + (if includeIndex then 1 else 0) + (if includeImage then 1 else 0) &&
      item[0] == SiteEntry(sites[l]) &&
      item[1] == DistanceEntry(dist[i][l]) &&
      (includeIndex ==> item[2] == IndexEntry(l)) &&
      (includeImage ==> item[|item| - 1] == ImageEntry(Image(0, 0, 0)))
  {
    RecordAt(sites, dist, cutoff, includeIndex, includeImage, i, k);
  }

  /** A cutoff at or below the self tolerance (in particular a negative one) selects nothing. */
  lemma SmallCutoffSelectsNothing(sites: seq<Site>, dist: seq<seq<real>>, cutoff: real, includeIndex: bool, includeImage: bool)
    requires IsDistanceMatrix(dist, |sites|)
    requires cutoff <= SelfTolerance
    ensures forall i :: 0 <= i < |dist| ==> AllNeighbors(sites, dist, cutoff, includeIndex, includeImage)[i] == []
  {
    forall i | 0 <= i < |dist|
      ensures AllNeighbors(sites, dist, cutoff, includeIndex, includeImage)[i] == []
    {
      var inds := NeighborIndices(dist[i], cutoff);
      if inds != [] {
        NeighborIndicesExact(dist[i], cutoff, inds[0]);
        assert false;
      }
    }
  }

  /** Self-exclusion: an atom whose distance to itself is near zero is not among its own neighbours. */
  lemma NoSelfNeighbor(sites: seq<Site>, dist: seq<seq<real>>, cutoff: real, includeIndex: bool, includeImage: bool, i: nat, k: nat)
    requires IsDistanceMatrix(dist, |sites|) && i < |dist| && dist[i][i] <= SelfTolerance
    requires k < |AllNeighbors(sites, dist, cutoff, includeIndex, includeImage)[i]|
    ensures NeighborIndices(dist[i], cutoff)[k] != i
    ensures includeIndex ==> AllNeighbors(sites, dist, cutoff, includeIndex, includeImage)[i][k][2] != IndexEntry(i)
  {
    RecordAt(sites, dist, cutoff, includeIndex, includeImage, i, k);
    NeighborIndicesExact(dist[i], cutoff, i);
  }

  predicate Symmetric(dist: seq<seq<real>>)
    requires IsDistanceMatrix(dist, |dist|)
  {
    forall i, j :: 0 <= i < |dist| && 0 <= j < |dist| ==> dist[i][j] == dist[j][i]
  }

  /**
   * Symmetry: with a symmetric matrix, if atom j is the k-th neighbour of atom i
   * then atom i is a neighbour of atom j, at the same distance.
   */
  lemma NeighborSymmetric(sites: seq<Site>, dist: seq<seq<real>>, cutoff: real, includeIndex: bool, includeImage: bool, i: nat, j: nat, k: nat)
    requires IsDistanceMatrix(dist, |sites|) && Symmetric(dist) && i < |dist|
    requires k < |NeighborIndices(dist[i], cutoff)| && NeighborIndices(dist[i], cutoff)[k] == j
    ensures AllNeighbors(sites, dist, cutoff, includeIndex, includeImage)[i][k][1] == DistanceEntry(dist[i][j])
    ensures exists k' :: (0 <= k' < |NeighborIndices(dist[j], cutoff)| && NeighborIndices(dist[j], cutoff)[k'] == i &&
      AllNeighbors(sites, dist, cutoff, includeIndex, includeImage)[j][k']
        == Record(sites[i], dist[i][j], i, includeIndex, includeImage))
  {
    RecordAt(sites, dist, cutoff, includeIndex, includeImage, i, k);
    NeighborIndicesExact(dist[i], cutoff, j);
    NeighborComplete(sites, dist, cutoff, includeIndex, includeImage, j, i);
  }

  /**
   * When atom i's own distance is near zero and its distance to every other
   * atom is in the shell, atom i has all the other atoms as neighbours, in
   * ascending order.
   */
  lemma LargeCutoffSelectsAllOthers(sites: seq<Site>, dist: seq<seq<real>>, cutoff: real, i: nat)
    requires IsDistanceMatrix(dist, |sites|) && i < |dist| && dist[i][i] <= SelfTolerance
    requires forall b :: 0 <= b < |dist| && b != i ==> InShell(dist[i][b], cutoff)
    ensures |NeighborIndices(dist[i], cutoff)| == |dist| - 1
    ensures forall k :: 0 <= k < |dist| - 1 ==> NeighborIndices(dist[i], cutoff)[k] == if k < i then k else k + 1
  {
    var n := |dist|;
    var others: seq<nat> := seq(n - 1, k requires 0 <= k < n - 1 => if k < i then k else k + 1);
    forall j: nat ensures j in others <==> j < |dist[i]| && ShellMask(dist[i], cutoff)[j] {
      if j < n && j != i {
        assert others[if j < i then j else j - 1] == j;
      }
    }
    WhereIsUnique(ShellMask(dist[i], cutoff), others);
  }

  /** Two atoms one unit apart: with cutoff 1.5 each is the other's only neighbour. */
  lemma TwoAtomsWithinCutoff(s0: Site, s1: Site, includeIndex: bool, includeImage: bool)
    ensures AllNeighbors([s0, s1], [[0.0, 1.0], [1.0, 0.0]], 1.5, includeIndex, includeImage)
      == [[Record(s1, 1.0, 1, includeIndex, includeImage)], [Record(s0, 1.0, 0, includeIndex, includeImage)]]
  {
    var sites := [s0, s1];
    assert RowNeighbors(sites, [0.0, 1.0], 1.5, includeIndex, includeImage)
      == [Record(s1, 1.0, 1, includeIndex, includeImage)] by {
      TwoAtomIndicesWithin();
      SingleNeighborRow(sites, [0.0, 1.0], 1.5, includeIndex, includeImage, 1);
    }
    assert RowNeighbors(sites, [1.0, 0.0], 1.5, includeIndex, includeImage)
      == [Record(s0, 1.0, 0, includeIndex, includeImage)] by {
      TwoAtomIndicesWithin();
      SingleNeighborRow(sites, [1.0, 0.0], 1.5, includeIndex, includeImage, 0);
    }
    TwoRows(sites, [[0.0, 1.0], [1.0, 0.0]], 1.5, includeIndex, includeImage);
  }

  /** The same two atoms with cutoff 0.5: both lists are empty. */
  lemma TwoAtomsBeyondCutoff(s0: Site, s1: Site, includeIndex: bool, includeImage: bool)
    ensures AllNeighbors([s0, s1], [[0.0, 1.0], [1.0, 0.0]], 0.5, includeIndex, includeImage) == [[], []]
  {
    var sites := [s0, s1];
    TwoAtomRowsBeyond(sites, includeIndex, includeImage);
    TwoRows(sites, [[0.0, 1.0], [1.0, 0.0]], 0.5, includeIndex, includeImage);
  }

  /** Both rows of the two-atom matrix give empty lists at cutoff 0.5. */
  lemma TwoAtomRowsBeyond(sites: seq<Site>, includeIndex: bool, includeImage: bool)
    requires |sites| == 2
    ensures RowNeighbors(sites, [0.0, 1.0], 0.5, includeIndex, includeImage) == []
    ensures RowNeighbors(sites, [1.0, 0.0], 0.5, includeIndex, includeImage) == []
  {
    TwoAtomIndicesBeyond();
    EmptyRow(sites, [0.0, 1.0], 0.5, includeIndex, includeImage);
    EmptyRow(sites, [1.0, 0.0], 0.5, includeIndex, includeImage);
  }

  /** A two-atom matrix has two neighbour lists, one per row. */
  lemma TwoRows(sites: seq<Site>, dist: seq<seq<real>>, cutoff: real, includeIndex: bool, includeImage: bool)
    requires IsDistanceMatrix(dist, |sites|) && |sites| == 2
    ensures AllNeighbors(sites, dist, cutoff, includeIndex, includeImage)
      == [RowNeighbors(sites, dist[0], cutoff, includeIndex, includeImage),
          RowNeighbors(sites, dist[1], cutoff, includeIndex, includeImage)]
  {
  }

  /** A row with no selected index has an empty neighbour list. */
  lemma EmptyRow(sites: seq<Site>, row: seq<real>, cutoff: real, includeIndex: bool, includeImage: bool)
    requires |row| == |sites| && NeighborIndices(row, cutoff) == []
    ensures RowNeighbors(sites, row, cutoff, includeIndex, includeImage) == []
  {
  }

  /** The selected indices of the two rows of the two-atom matrix, cutoff 1.5. */
  lemma TwoAtomIndicesWithin()
    ensures NeighborIndices([0.0, 1.0], 1.5) == [1] && NeighborIndices([1.0, 0.0], 1.5) == [0]
  {
    var m0, m1 := ShellMask([0.0, 1.0], 1.5), ShellMask([1.0, 0.0], 1.5);
    assert m0 == [false, true] && m1 == [true, false];
    assert Where(m0[..1]) == [] && Where(m1[..1]) == [0];
  }

  /** The selected indices of the two rows of the two-atom matrix, cutoff 0.5. */
  lemma TwoAtomIndicesBeyond()
    ensures NeighborIndices([0.0, 1.0], 0.5) == [] && NeighborIndices([1.0, 0.0], 0.5) == []
  {
    var m0, m1 := ShellMask([0.0, 1.0], 0.5), ShellMask([1.0, 0.0], 0.5);
    assert m0 == [false, false] && m1 == [false, false];
    assert Where(m0[..1]) == [] && Where(m1[..1]) == [];
  }

  /** A row with exactly one selected index has exactly that record. */
  lemma SingleNeighborRow(sites: seq<Site>, row: seq<real>, cutoff: real, includeIndex: bool, includeImage: bool, j: nat)
    requires |row| == |sites| && j < |sites|
    requires NeighborIndices(row, cutoff) == [j]
    ensures RowNeighbors(sites, row, cutoff, includeIndex, includeImage) == [Record(sites[j], row[j], j, includeIndex, includeImage)]
  {
  }

  /**
   * Records follow atom order, not distance order: here atom 0's farther
   * neighbour (atom 1, at 2.0) comes before its nearer one (atom 2, at 1.0).
   */
  lemma OrderIsByAtomNotDistance(s0: Site, s1: Site, s2: Site)
    ensures AllNeighbors([s0, s1, s2], [[0.0, 2.0, 1.0], [2.0, 0.0, 1.5], [1.0, 1.5, 0.0]], 3.0, false, false)[0]
      == [[SiteEntry(s1), DistanceEntry(2.0)], [SiteEntry(s2), DistanceEntry(1.0)]]
  {
    var sites, dist := [s0, s1, s2], [[0.0, 2.0, 1.0], [2.0, 0.0, 1.5], [1.0, 1.5, 0.0]];
    FarBeforeNearIndices();
    var row := RowNeighbors(sites, dist[0], 3.0, false, false);
    assert row[0] == Record(s1, 2.0, 1, false, false) == [SiteEntry(s1), DistanceEntry(2.0)];
    assert row[1] == Record(s2, 1.0, 2, false, false) == [SiteEntry(s2), DistanceEntry(1.0)];
  }

  /** The selected indices of the first row of the three-atom matrix. */
  lemma FarBeforeNearIndices()
    ensures NeighborIndices([0.0, 2.0, 1.0], 3.0) == [1, 2]
  {
    var m := ShellMask([0.0, 2.0, 1.0], 3.0);
    assert m == [false, true, true];
    WhereIsUnique(m, [1, 2]);
  }
}
