/** The halving search of the standard algorithms on sorted ranges: std::lower_bound and std::upper_bound. */
module Search {

  /** The first position of a partitioned range where `p` fails. */
  method PartitionPoint<T>(s: seq<T>, first: nat, last: nat, p: T -> bool) returns (k: nat)
    requires first <= last <= |s|
    requires forall i, j :: first <= i < j < last && p(s[j]) ==> p(s[i])
    ensures first <= k <= last
    ensures forall i :: first <= i < k ==> p(s[i])
    ensures forall i :: k <= i < last ==> !p(s[i])
  {
    k := first;
    var len := last - first;
    while len > 0
      invariant 0 <= len && first <= k && k + len <= last
      invariant forall i :: first <= i < k ==> p(s[i])
      invariant forall i :: k + len <= i < last ==> !p(s[i])
      decreases len
    {
      var half := len / 2;
      if p(s[k + half]) {
        k, len := k + half + 1, len - half - 1;
      } else {
        len := half;
      }
    }
  }
}
