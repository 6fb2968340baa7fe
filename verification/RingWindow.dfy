/**
 Positions in a ring: the `k`-th item ever put into a ring of `depth` places lies at `At(k, depth)`,
 and `depth` items in a row, a window, never share a place.
 */
module RingWindows {
  import opened Machine

  function At(k: nat, depth: nat): (i: nat)
    requires depth > 0
    ensures i < depth
  {
    k % depth
  }

  predicate InWindow(k: nat, from: nat, depth: nat) {
    from <= k < from + depth
  }

  /** Two items of one window share a place only if they are the same. */
  lemma WindowApart(depth: nat, from: nat, j: nat, k: nat)
    requires InWindow(j, from, depth) && InWindow(k, from, depth) && j != k
    ensures At(j, depth) != At(k, depth)
  {
    var q := j / depth - k / depth;
    assert j == depth * (j / depth) + j % depth && k == depth * (k / depth) + k % depth;
    assert depth * (j / depth) - depth * (k / depth) == depth * q;
    MulOrder(depth, q, 1);
    MulOrder(depth, -1, q);
  }

  lemma RemainderIs(a: nat, b: nat, q: nat, r: nat)
    requires r < b && a == b * q + r
    ensures a % b == r
  {
    var d := a / b - q;
    assert a == b * (a / b) + a % b;
    assert b * (a / b) - b * q == b * d;
    MulOrder(b, d, 1);
    MulOrder(b, -1, d);
  }

  /** Taking the place of a place, of the next place, or a whole ring further changes nothing. */
  lemma AtIdempotent(depth: nat, k: nat)
    requires depth > 0
    ensures At(At(k, depth), depth) == At(k, depth)
    ensures At(At(k, depth) + 1, depth) == At(k + 1, depth)
    ensures At(k + depth, depth) == At(k, depth)
  {
    var q, r := k / depth, k % depth;
    assert k == depth * q + r;
    RemainderIs(r, depth, 0, r);
    RemainderIs(k + depth, depth, q + 1, r);
    if r + 1 < depth {
      RemainderIs(r + 1, depth, 0, r + 1);
      RemainderIs(k + 1, depth, q, r + 1);
    } else {
      RemainderIs(r + 1, depth, 1, 0);
      RemainderIs(k + 1, depth, q + 1, 0);
    }
  }

  /** Replacing the place of item `i` leaves every other place of the window alone. */
  lemma Replaced<T>(depth: nat, places: seq<T>, from: nat, i: nat, place: T)
    requires |places| == depth && InWindow(i, from, depth)
    ensures forall k: nat {:trigger At(k, depth)} :: InWindow(k, from, depth) ==>
              places[At(i, depth) := place][At(k, depth)] == if k == i then place else places[At(k, depth)]
  {
    forall k: nat | InWindow(k, from, depth) && k != i
      ensures At(k, depth) != At(i, depth)
    {
      WindowApart(depth, from, k, i);
    }
  }

  /** Every place belongs to one item of the window. */
  lemma ItemAt(depth: nat, from: nat, i: nat) returns (k: nat)
    requires i < depth
    ensures InWindow(k, from, depth) && At(k, depth) == i
  {
    var q, r := from / depth, from % depth;
    assert from == depth * q + r;
    if r <= i {
      k := from + i - r;
      RemainderIs(k, depth, q, i);
    } else {
      k := from + depth - r + i;
      RemainderIs(k, depth, q + 1, i);
    }
  }
}
