/** First-minimum selection, the loop shared by GameManager's nearest-tile
    search and GlobalRangeTurret's nearest-enemy search: scan in order, keep
    the current best, and replace it only on a strictly smaller distance, so
    the earliest of several equally near candidates wins. */
module Selection {

  /** Points on the integer grid; the game's float positions become these. */
  datatype Pos = Pos(x: int, y: int)

  /** Squared Euclidean distance. It orders points exactly as the Euclidean
      distance does, so a strict `<` scan selects the same candidate. */
  function SqDist(a: Pos, b: Pos): (d: nat)
    ensures d == 0 <==> a == b
  {
    var dx := a.x - b.x;
    var dy := a.y - b.y;
    assert dx * dx >= 0 && dy * dy >= 0;
    assert dx != 0 ==> dx * dx > 0;
    assert dy != 0 ==> dy * dy > 0;
    dx * dx + dy * dy
  }

  /** `k` is the earliest index holding the minimum of `ds`. */
  predicate IsFirstMin(ds: seq<nat>, k: nat)
  {
    && k < |ds|
    && (forall j :: 0 <= j < |ds| ==> ds[k] <= ds[j])
    && (forall j :: 0 <= j < k ==> ds[k] < ds[j])
  }

  /** The scan from index `i` on, with `best` the winner among `ds[..i]`. */
  function ScanFrom(ds: seq<nat>, i: nat, best: nat): (k: nat)
    requires best < i <= |ds|
    requires forall j :: 0 <= j < i ==> ds[best] <= ds[j]
    requires forall j :: 0 <= j < best ==> ds[best] < ds[j]
    ensures IsFirstMin(ds, k)
    decreases |ds| - i
  {
    if i == |ds| then best
    else if ds[i] < ds[best] then ScanFrom(ds, i + 1, i)
    else ScanFrom(ds, i + 1, best)
  }

  /** The index the source's loop ends on. The first candidate always beats
      the initial infinite distance, so the scan starts with it as best. The
      result is the one and only earliest minimum. */
  function FirstMin(ds: seq<nat>): (k: nat)
    requires |ds| > 0
    ensures IsFirstMin(ds, k)
    ensures forall m :: IsFirstMin(ds, m) <==> m == k
  {
    ScanFrom(ds, 1, 0)
  }
}
