/**
 * A found flight plan: the city names along it, its total cost and time,
 * and the tag ('T' for time, 'C' for cost) that decides how it compares.
 */
module Results {

  datatype PathResult = PathResult(path: seq<string>, totalCost: int, totalTime: int, sortBy: char)

  /** Integer.compare: -1, 0 or 1 as x is below, equal to or above y. */
  function Compare(x: int, y: int): (c: int)
    ensures c == -1 || c == 0 || c == 1
    ensures c < 0 <==> x < y
    ensures c == 0 <==> x == y
    ensures c > 0 <==> x > y
  {
    if x < y then -1 else if x == y then 0 else 1
  }

  /** The value a result is ranked by under tag: cost for 'C', time for 'T' and for every other tag. */
  function KeyBy(tag: char, r: PathResult): int {
    if tag == 'C' then r.totalCost else r.totalTime
  }

  /** The ranking value of a result under its own tag. */
  function Key(r: PathResult): int {
    KeyBy(r.sortBy, r)
  }

  /**
   * compareTo: reads only the receiver's tag. 'T' compares times, 'C'
   * compares costs, any other tag falls back to times.
   */
  function CompareTo(self: PathResult, other: PathResult): (c: int)
    ensures self.sortBy == 'T' ==> (c < 0 <==> self.totalTime < other.totalTime) && (c == 0 <==> self.totalTime == other.totalTime)
    ensures self.sortBy == 'C' ==> (c < 0 <==> self.totalCost < other.totalCost) && (c == 0 <==> self.totalCost == other.totalCost)
    ensures self.sortBy != 'T' && self.sortBy != 'C' ==>
      (c < 0 <==> self.totalTime < other.totalTime) && (c == 0 <==> self.totalTime == other.totalTime)
  {
    if self.sortBy == 'T' then Compare(self.totalTime, other.totalTime)
    else if self.sortBy == 'C' then Compare(self.totalCost, other.totalCost)
    else Compare(self.totalTime, other.totalTime)
  }

  /**
   * For two results with the same tag, compareTo is the comparison of
   * their keys: negative, zero or positive exactly as the keys are, and
   * antisymmetric in sign.
   */
  lemma CompareToByKey(x: PathResult, y: PathResult)
    requires x.sortBy == y.sortBy
    ensures CompareTo(x, y) < 0 <==> Key(x) < Key(y)
    ensures CompareTo(x, y) == 0 <==> Key(x) == Key(y)
    ensures CompareTo(x, y) > 0 <==> CompareTo(y, x) < 0
  {
  }

  /** setSortBy: only the tag changes; path, cost and time stay as they were. */
  function SetSortBy(r: PathResult, sortBy: char): (r': PathResult)
    ensures r'.sortBy == sortBy
    ensures r'.path == r.path && r'.totalCost == r.totalCost && r'.totalTime == r.totalTime
  {
    r.(sortBy := sortBy)
  }

  /** Every result carries the tag `tag`. */
  predicate Tagged(s: seq<PathResult>, tag: char) {
    forall k :: 0 <= k < |s| ==> s[k].sortBy == tag
  }

  /** All results carry the same tag: the first one's, if any. */
  predicate SameTag(s: seq<PathResult>) {
    s == [] || Tagged(s, s[0].sortBy)
  }
}
