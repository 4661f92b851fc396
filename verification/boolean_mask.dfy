/**
 * The two numpy primitives the neighbour search is built from, over sequences:
 * `np.where(mask)[0]` (the positions where a boolean mask is true) and boolean
 * indexing `row[mask]` (the elements of a row where the mask is true).
 * Both keep the order of the row; the lemmas here pin them down completely.
 */
module BooleanMask {

  /** Every element is smaller than the one after it. */
  predicate StrictlyIncreasing(s: seq<nat>) {
    forall k1, k2 :: 0 <= k1 < k2 < |s| ==> s[k1] < s[k2]
  }

  /** Positions of the true entries of `mask`, ascending (`np.where(mask)[0]`). */
  function Where(mask: seq<bool>): (inds: seq<nat>)
    ensures forall k :: 0 <= k < |inds| ==> inds[k] < |mask| && mask[inds[k]]
    ensures forall j :: 0 <= j < |mask| && mask[j] ==> j in inds
    ensures StrictlyIncreasing(inds)
  {
    if mask == [] then []
    else
      var last := |mask| - 1;
      Where(mask[..last]) + (if mask[last] then [last] else [])
  }

  /** Elements of `row` where `mask` is true, in row order (`row[mask]`). */
  function Compress<T>(row: seq<T>, mask: seq<bool>): (picked: seq<T>)
    requires |mask| == |row|
  {
    if row == [] then []
    else
      var last := |row| - 1;
      Compress(row[..last], mask[..last]) + (if mask[last] then [row[last]] else [])
  }

  /**
   * `row[mask]` and `np.where(mask)[0]` are aligned: the k-th picked value is
   * the row's entry at the k-th true position.
   */
  lemma {:induction false} CompressAlignsWithWhere<T>(row: seq<T>, mask: seq<bool>)
    requires |mask| == |row|
    ensures |Compress(row, mask)| == |Where(mask)|
    ensures forall k :: 0 <= k < |Where(mask)| ==> Compress(row, mask)[k] == row[Where(mask)[k]]
  {
    if row != [] {
      var last := |row| - 1;
      var rowInit, maskInit := row[..last], mask[..last];
      CompressAlignsWithWhere(rowInit, maskInit);
      var w, c := Where(maskInit), Compress(rowInit, maskInit);
      assert Where(mask) == w + (if mask[last] then [last] else []);
      assert Compress(row, mask) == c + (if mask[last] then [row[last]] else []);
      forall k | 0 <= k < |w| ensures c[k] == row[w[k]] {
        assert rowInit[w[k]] == row[w[k]];
      }
    }
  }

  /**
   * `Where` is the only strictly increasing sequence whose members are exactly
   * the true positions of the mask.
   */
  lemma {:induction false} WhereIsUnique(mask: seq<bool>, s: seq<nat>)
    requires StrictlyIncreasing(s)
    requires forall j: nat :: j in s <==> j < |mask| && mask[j]
    ensures s == Where(mask)
  {
    var w := Where(mask);
    forall j: nat ensures j in s <==> j in w {
      if j in w {
        var k :| 0 <= k < |w| && w[k] == j;
      }
    }
    SameMembersSameSequence(s, w);
  }

  /** Two strictly increasing sequences with the same members are equal. */
  lemma {:induction false} SameMembersSameSequence(a: seq<nat>, b: seq<nat>)
    requires StrictlyIncreasing(a) && StrictlyIncreasing(b)
    requires forall j: nat :: j in a <==> j in b
    ensures a == b
  {
    // Neither can be empty while the other is not.
    assert a != [] ==> a[0] in b;
    assert b != [] ==> b[0] in a;
    if a != [] && b != [] {
      var la, lb := |a| - 1, |b| - 1;
      SameLast(a, b);
      var m := a[la];
      DropLastMembers(a);
      DropLastMembers(b);
      forall j: nat ensures j in a[..la] <==> j in b[..lb] {
        assert j in a <==> j in b;
      }
      SameMembersSameSequence(a[..la], b[..lb]);
      assert a == a[..la] + [m];
      assert b == b[..lb] + [m];
    }
  }

  /** The last element of each is the largest member of the common set. */
  lemma SameLast(a: seq<nat>, b: seq<nat>)
    requires StrictlyIncreasing(a) && StrictlyIncreasing(b) && a != [] && b != []
    requires forall j: nat :: j in a <==> j in b
    ensures a[|a| - 1] == b[|b| - 1]
  {
    LastIsLargest(a);
    LastIsLargest(b);
    assert a[|a| - 1] in b && b[|b| - 1] in a;
  }

  /** The last element of a strictly increasing sequence is its largest. */
  lemma LastIsLargest(s: seq<nat>)
    requires StrictlyIncreasing(s) && s != []
    ensures forall j :: j in s ==> j <= s[|s| - 1]
  {
  }

  /** Dropping the last element removes exactly that member. */
  lemma DropLastMembers(s: seq<nat>)
    requires StrictlyIncreasing(s) && s != []
    ensures StrictlyIncreasing(s[..|s| - 1])
    ensures forall j: nat :: j in s[..|s| - 1] <==> j in s && j != s[|s| - 1]
  {
    var last := |s| - 1;
    forall j: nat | j in s && j != s[last] ensures j in s[..last] {
      var k :| 0 <= k < |s| && s[k] == j;
      assert s[..last][k] == j;
    }
  }

  /** A strictly increasing sequence holds each of its members exactly once. */
  lemma {:induction false} StrictlyIncreasingOccurrences(s: seq<nat>, x: nat)
    requires StrictlyIncreasing(s)
    ensures multiset(s)[x] == if x in s then 1 else 0
  {
    if s != [] {
      var last := |s| - 1;
      assert s == s[..last] + [s[last]];
      StrictlyIncreasingOccurrences(s[..last], x);
      assert s[last] !in s[..last];
      assert x in s <==> x in s[..last] || x == s[last];
    }
  }

  /** Each true position of the mask occurs exactly once in `Where(mask)`, the others never. */
  lemma WhereOccurrences(mask: seq<bool>, j: nat)
    ensures multiset(Where(mask))[j] == if j < |mask| && mask[j] then 1 else 0
  {
    StrictlyIncreasingOccurrences(Where(mask), j);
  }
}
