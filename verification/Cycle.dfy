/** What the round-robin schedulers share: the pointers they move, the slots conduits are bound to, and
    positions on a ring of `n` slots. */
module Cycle {

  datatype Item<T> = Null | Ptr(value: T)

  /** A conduit is known by its number. */
  datatype Slot = Unbound | Bound(conduit: nat)

  function Succ(i: nat, n: nat): (j: nat)
    requires i < n
    ensures j < n
  {
    if i + 1 == n then 0 else i + 1
  }

  /** The slot `d` steps after `start`. */
  function Pos(start: nat, d: nat, n: nat): (i: nat)
    requires start < n && d < n
    ensures i < n
  {
    if start + d < n then start + d else start + d - n
  }

  /** How many steps lead from `start` to `i`. */
  function Dist(start: nat, i: nat, n: nat): (d: nat)
    requires start < n && i < n
    ensures d < n && Pos(start, d, n) == i
  {
    if start <= i then i - start else i + n - start
  }

  lemma PosDist(start: nat, d: nat, n: nat)
    requires start < n && d < n
    ensures Dist(start, Pos(start, d, n), n) == d
  {
  }

  lemma PosSucc(start: nat, d: nat, n: nat)
    requires start < n && d < n
    ensures Succ(Pos(start, d, n), n) == if d + 1 < n then Pos(start, d + 1, n) else start
  {
  }

  /** Moving the start just past a slot that comes before `i` brings it closer to `i`. */
  lemma Closer(start: nat, d: nat, i: nat, n: nat)
    requires start < n && i < n && d < Dist(start, i, n)
    ensures Dist(Succ(Pos(start, d, n), n), i, n) == Dist(start, i, n) - d - 1
  {
  }
}
