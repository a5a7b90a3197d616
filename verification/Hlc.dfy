/**
 Hybrid logical clocks (packages/peer-client/src/sync.ts, lines 9-35).

 A stamp orders first by physical milliseconds, then by a counter, then by the
 identifier of the node that took it. Clock readings are parameters: nothing here
 assumes that a physical clock moves forward.
 */
module Hlc {
  import opened Wrappers
  import opened Strings

  datatype HLC = HLC(ts: int, counter: int, node: string)

  function Max(a: int, b: int): int {
    if a < b then b else a
  }

  /** `createHLC`: the next stamp of a node; it advances the clock the node already has. */
  function Create(node: string, existing: Option<HLC>, now: int): (r: HLC)
    ensures r.node == node && now <= r.ts
    ensures existing.Some? ==> Advances(existing.value, r)
    ensures existing.None? ==> r.ts == now && r.counter == 0
  {
    match existing
    case None => HLC(now, 0, node)
    case Some(e) =>
      var ts := Max(now, e.ts);
      HLC(ts, if ts == e.ts then e.counter + 1 else 0, node)
  }

  /** `mergeHLC`: the clock after hearing of a stamp; it advances both. */
  function Merge(local: HLC, remote: HLC, node: string, now: int): (r: HLC)
    ensures r.node == node && now <= r.ts
    ensures Advances(local, r) && Advances(remote, r)
  {
    var maxTs := Max(now, Max(local.ts, remote.ts));
    var counter :=
      if maxTs == local.ts && maxTs == remote.ts then Max(local.counter, remote.counter) + 1
      else if maxTs == local.ts then local.counter + 1
      else if maxTs == remote.ts then remote.counter + 1
      else 0;
    HLC(maxTs, counter, node)
  }

  /** `compareHLC`: negative, zero or positive. */
  function Compare(a: HLC, b: HLC): int {
    if a.ts != b.ts then a.ts - b.ts
    else if a.counter != b.counter then a.counter - b.counter
    else if StringLess(a.node, b.node) then -1
    else if StringLess(b.node, a.node) then 1
    else 0
  }

  /** The strict order on stamps. */
  predicate Less(a: HLC, b: HLC) {
    Compare(a, b) < 0
  }

  /** `b` is later than `a` whatever their node identifiers are. */
  predicate Advances(a: HLC, b: HLC) {
    a.ts < b.ts || (a.ts == b.ts && a.counter < b.counter)
  }

  // ---- The order is total ----

  /** `compareHLC` is antisymmetric, and zero only on equal stamps. */
  lemma CompareTotal(a: HLC, b: HLC)
    ensures Compare(a, b) < 0 <==> Compare(b, a) > 0
    ensures Compare(a, b) == 0 <==> a == b
  {
    StringLessTrichotomy(a.node, b.node);
    StringLessTrichotomy(b.node, a.node);
  }

  /** `compareHLC` is transitive; with CompareTotal it is a total order. */
  lemma CompareTransitive(a: HLC, b: HLC, c: HLC)
    requires Compare(a, b) <= 0 && Compare(b, c) <= 0
    ensures Compare(a, c) <= 0
    ensures Compare(a, c) == 0 ==> a == b == c
  {
    CompareTotal(a, b);
    CompareTotal(b, c);
    CompareTotal(a, c);
    if StringLess(a.node, b.node) && StringLess(b.node, c.node) {
      StringLessTransitive(a.node, b.node, c.node);
    }
  }

  /** Later time wins; at one time the greater counter wins; with both equal the greater node
      identifier wins, by the first character in which two identifiers differ. */
  lemma WhoWins(a: HLC, b: HLC, p: string, x: char, s: string, y: char, t: string)
    requires a.node == p + [x] + s && b.node == p + [y] + t && x < y
    ensures a.ts > b.ts ==> Compare(a, b) > 0
    ensures a.ts == b.ts && a.counter > b.counter ==> Compare(a, b) > 0
    ensures a.ts == b.ts && a.counter == b.counter ==> Compare(a, b) < 0 && Compare(b, a) > 0
  {
    FirstDifferenceDecides(p, x, s, y, t);
    FirstDifferenceDecides(p, y, t, x, s);
  }

  // ---- What the two clock steps compute ----

  /** `createHLC` takes the least stamp, from the clock reading on, that advances the clock. */
  lemma CreateIsLeast(node: string, e: HLC, now: int, x: HLC)
    requires Advances(e, x) && now <= x.ts && 0 <= x.counter
    ensures !Advances(x, Create(node, Some(e), now))
  {
  }

  /** `mergeHLC` takes the least stamp, from the clock reading on, that advances both clocks. */
  lemma MergeIsLeast(local: HLC, remote: HLC, node: string, now: int, x: HLC)
    requires Advances(local, x) && Advances(remote, x) && now <= x.ts && 0 <= x.counter
    ensures !Advances(x, Merge(local, remote, node, now))
  {
  }
}
