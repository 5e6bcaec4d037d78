/**
 * include/dottorrent/announce_url_list.hpp: the tiered tracker list, whose searches halve a sorted range, and its
 * nested form. The standard algorithms it calls are the halving search of `Search.PartitionPoint`.
 */
module AnnounceList {
  import opened Ordering
  import opened Search
  import opened Trackers

  // ---- The nested form -----------------------------------------------------------------------------------------

  function Tier(urls: seq<string>, tier: nat): seq<AnnounceUrl> {
    seq(|urls|, i requires 0 <= i < |urls| => AnnounceUrl(urls[i], tier))
  }

  /** The entries of a nested list, tier by tier. */
  function Flat(tiers: seq<seq<string>>): seq<AnnounceUrl> {
    if tiers == [] then [] else Flat(tiers[..|tiers| - 1]) + Tier(tiers[|tiers| - 1], |tiers| - 1)
  }

  lemma FlatLast(tiers: seq<seq<string>>, last: seq<string>)
    ensures Flat(tiers + [last]) == Flat(tiers) + Tier(last, |tiers|)
  {
    assert (tiers + [last])[..|tiers|] == tiers;
  }

  lemma FlatOpen(tiers: seq<seq<string>>, current: seq<string>, url: string)
    ensures Flat(tiers + [current + [url]]) == Flat(tiers + [current]) + [AnnounceUrl(url, |tiers|)]
  {
    hide Flat;
    FlatLast(tiers, current);
    FlatLast(tiers, current + [url]);
    assert Tier(current + [url], |tiers|) == Tier(current, |tiers|) + [AnnounceUrl(url, |tiers|)];
  }

  lemma {:induction false} FlatTiers(tiers: seq<seq<string>>, e: AnnounceUrl)
    requires e in Flat(tiers)
    ensures e.tier < |tiers| && e.url in tiers[e.tier]
  {
    var n := |tiers| - 1;
    if e in Flat(tiers[..n]) {
      FlatTiers(tiers[..n], e);
    } else {
      assert e in Tier(tiers[n], n);
    }
  }

  /** Consecutive entries of an ordered gap-free list are in the same tier or in adjacent ones, from tier 0 on. */
  lemma NextTier(s: seq<AnnounceUrl>, k: nat)
    requires Ordered(s) && GapFree(s) && k < |s|
    ensures s[k].tier <= TierCount(s[..k])
    ensures k > 0 ==> s[k - 1].tier <= s[k].tier
  {
    TierOrder(s);
    TiersBelowCount(s, s[k]);
    if s[k].tier > 0 {
      var t := s[k].tier - 1;
      assert HasTier(s, t);
      var j :| 0 <= j < |s| && s[j].tier == t;
      assert s[..k][j] == s[j];
      TiersBelowCount(s[..k], s[j]);
    }
  }

  class AnnounceUrlList {
    var list: seq<AnnounceUrl>

    constructor ()
      ensures list == []
    {
      list := [];
    }

    /** The range of the entries of one tier. */
    method GetTier(tier: nat) returns (first: nat, last: nat)
      requires Ordered(list)
      ensures first <= last <= |list|
      ensures forall i :: 0 <= i < |list| ==> (first <= i < last <==> list[i].tier == tier)
      ensures forall i :: 0 <= i < |list| ==> (i < first <==> list[i].tier < tier)
    {
      TierOrder(list);
      first := PartitionPoint(list, 0, |list|, (e: AnnounceUrl) => e.tier < tier);
      last := PartitionPoint(list, first, |list|, (e: AnnounceUrl) => e.tier <= tier);
    }

    method GetTierBegin(tier: nat) returns (first: nat)
      requires Ordered(list)
      ensures first <= |list|
      ensures forall i :: 0 <= i < |list| ==> (i < first <==> list[i].tier < tier)
    {
      TierOrder(list);
      first := PartitionPoint(list, 0, |list|, (e: AnnounceUrl) => e.tier < tier);
    }

    method Clear()
      modifies this
      ensures list == []
    {
      list := [];
    }

    method TierSize(tier: nat) returns (n: nat)
      requires Ordered(list)
      ensures n > 0 <==> HasTier(list, tier)
    {
      var first, last := GetTier(tier);
      n := last - first;
      if n > 0 {
        assert list[first] in list;
      }
    }

    method Insert(a: AnnounceUrl)
      requires Ordered(list) && a.tier <= TierCount(list)
      modifies this
      ensures list == Inserted(old(list), a)
    {
      OrderedAgainst(list, a);
      hide Before;
      var k := PartitionPoint(list, 0, |list|, (e: AnnounceUrl) => !Before(a, e));
      InsertedAtBound(list, a, k);
      list := list[..k] + [a] + list[k..];
    }

    /** Searching the URL in the tier only comes to the same place. */
    method Emplace(url: string, tier: nat)
      requires Ordered(list) && tier <= TierCount(list)
      modifies this
      ensures list == Inserted(old(list), AnnounceUrl(url, tier))
    {
      var first, last := GetTier(tier);
      var a := AnnounceUrl(url, tier);
      OrderedAgainst(list, a);
      var k := PartitionPoint(list, first, last, (e: AnnounceUrl) => !Less(url, e.url));
      InsertedAtBound(list, a, k);
      list := list[..k] + [a] + list[k..];
    }

    /** Erases one position; the position after it comes back. */
    method EraseAt(pos: nat) returns (next: nat)
      requires Ordered(list) && pos <= |list|
      modifies this
      ensures next == pos
      ensures list == if pos == |old(list)| then old(list) else Erased(old(list), pos)
    {
      next := pos;
      if pos == |list| {
        return;
      }
      ghost var before := list;
      var tier := list[pos].tier;
      WithoutOrdered(list, pos);
      TiersAround(list, pos);
      list := list[..pos] + list[pos + 1..];
      if pos < |list| && list[pos].tier != tier {
        var first := GetTierBegin(tier);
        assert first <= pos;
        if list[first].tier != tier {
          TierIsGone(list, tier, first);
          LowerTiers(pos, tier);
          return;
        }
      }
      NothingToClose(before, pos);
    }

    /** Moves the entries from `pos` on one tier down. */
    method LowerTiers(pos: nat, ghost gone: nat)
      requires pos <= |list|
      requires forall i :: 0 <= i < pos ==> list[i].tier <= gone
      requires forall i :: pos <= i < |list| ==> list[i].tier > gone
      modifies this
      ensures list == SettleAll(old(list), gone)
    {
      var i := pos;
      while i < |list|
        invariant pos <= i <= |list| == |old(list)|
        invariant forall j :: 0 <= j < i ==> list[j] == Settled(old(list)[j], gone)
        invariant forall j :: i <= j < |list| ==> list[j] == old(list)[j]
      {
        list := list[i := AnnounceUrl(list[i].url, list[i].tier - 1)];
        i := i + 1;
      }
    }

    /** Linear search for a URL. */
    method Find(url: string) returns (k: nat)
      ensures k == FindUrl(list, url)
    {
      k := 0;
      while k < |list| && list[k].url != url
        invariant k <= |list|
        invariant forall i :: 0 <= i < k ==> list[i].url != url
      {
        k := k + 1;
      }
    }

    /** Searches an entry among those of its tier. */
    method FindAnnounce(a: AnnounceUrl) returns (k: nat)
      requires Ordered(list)
      ensures k == FindEntry(list, a)
    {
      var first, last := GetTier(a.tier);
      k := first;
      while k < last && list[k] != a
        invariant first <= k <= last
        invariant forall i :: first <= i < k ==> list[i] != a
      {
        k := k + 1;
      }
      if k == last {
        k := |list|;
        assert a !in list;
      }
    }

    method EraseAnnounce(a: AnnounceUrl)
      requires Ordered(list)
      modifies this
      ensures list == RemovedEntry(old(list), a)
    {
      var k := FindAnnounce(a);
      if k < |list| {
        var _ := EraseAt(k);
      }
    }

    /** One binary search per tier finds a URL exactly when the linear search does. */
    method Contains(url: string) returns (found: bool)
      requires Ordered(list)
      ensures found <==> HasUrl(list, url)
      ensures found <==> FindUrl(list, url) < |list|
    {
      hide FindUrl;
      var tier := 0;
      while tier <= TierCount(list)
        invariant forall e :: e in list && e.tier < tier ==> e.url != url
      {
        var first, last := GetTier(tier);
        UrlOrder(list, first, last, tier);
        BelowOrder(list, first, last, url);
        hide Ordered, Less;
        var k := PartitionPoint(list, first, last, (e: AnnounceUrl) => Less(e.url, url));
        var present := k < last && !Less(url, list[k].url);
        SearchDecides(list, first, last, k, url);
        if present {
          assert list[k] in list;
          return true;
        }
        tier := tier + 1;
      }
      forall e | e in list ensures e.url != url {
        TiersBelowCount(list, e);
      }
      return false;
    }

    /** The serialised form: one pass that opens a new tier whenever the tier changes. */
    method Nest() returns (tiers: seq<seq<string>>)
      requires Ordered(list) && GapFree(list)
      ensures Flat(tiers) == list
      ensures NoEmptyTier(tiers)
    {
      tiers := [];
      if list != [] {
        var current: seq<string> := [];
        var k := 0;
        NestStart(list);
        while k < |list|
          invariant k <= |list|
          invariant Nested(list, k, tiers, current)
        {
          hide Ordered, GapFree, Nested;
          NestStep(list, k, tiers, current);
          if |tiers| != list[k].tier {
            tiers := tiers + [current];
            current := [];
          }
          current := current + [list[k].url];
          k := k + 1;
        }
        tiers := tiers + [current];
      }
    }
  }

  // ---- The nesting pass ----------------------------------------------------------------------------------------

  ghost predicate NoEmptyTier(tiers: seq<seq<string>>) {
    forall t :: 0 <= t < |tiers| ==> tiers[t] != []
  }

  /** The first k entries are in the closed tiers and the current one, which is the tier of the last of them. */
  ghost predicate Nested(s: seq<AnnounceUrl>, k: nat, tiers: seq<seq<string>>, current: seq<string>)
    requires k <= |s|
  {
    && Flat(tiers + [current]) == s[..k]
    && NoEmptyTier(tiers)
    && (if k == 0 then tiers == [] && current == [] else s[k - 1].tier == |tiers| && current != [])
  }

  lemma NestStart(s: seq<AnnounceUrl>)
    ensures Nested(s, 0, [], [])
  {
    FlatLast([], []);
    var none: seq<seq<string>> := [];
    assert none + [[]] == [[]] && Flat(none) == [];
  }

  lemma NestStep(s: seq<AnnounceUrl>, k: nat, tiers: seq<seq<string>>, current: seq<string>)
    requires Ordered(s) && GapFree(s) && k < |s| && Nested(s, k, tiers, current)
    ensures if |tiers| == s[k].tier then Nested(s, k + 1, tiers, current + [s[k].url])
            else Nested(s, k + 1, tiers + [current], [] + [s[k].url])
  {
    NextTier(s, k);
    hide Ordered, GapFree, Flat;
    assert s[..k + 1] == s[..k] + [s[k]];
    if |tiers| == s[k].tier {
      FlatOpen(tiers, current, s[k].url);
    } else {
      NestNewTier(s, k, tiers, current);
    }
  }

  lemma NestNewTier(s: seq<AnnounceUrl>, k: nat, tiers: seq<seq<string>>, current: seq<string>)
    requires k < |s| && Nested(s, k, tiers, current) && |tiers| != s[k].tier
    requires s[k].tier <= TierCount(s[..k]) && (k > 0 ==> s[k - 1].tier <= s[k].tier)
    ensures Nested(s, k + 1, tiers + [current], [] + [s[k].url])
  {
    hide Flat;
    assert k > 0 ==> s[..k][|s[..k]| - 1] == s[k - 1];
    FlatLast(tiers + [current], []);
    assert s[..k] + Tier([], |tiers| + 1) == s[..k];
    FlatOpen(tiers + [current], [], s[k].url);
    assert s[..k + 1] == s[..k] + [s[k]];
  }

  // ---- Steps of the methods ------------------------------------------------------------------------------------

  lemma TiersAround(s: seq<AnnounceUrl>, pos: nat)
    requires Ordered(s) && pos < |s|
    ensures forall i :: 0 <= i < pos ==> Without(s, pos)[i].tier <= s[pos].tier
    ensures forall i :: pos <= i < |s| - 1 ==> Without(s, pos)[i].tier >= s[pos].tier
  {
    TierOrder(s);
  }

  /** The lower bound of a tier that holds another tier: the tier is empty. */
  lemma TierIsGone(s: seq<AnnounceUrl>, tier: nat, first: nat)
    requires Ordered(s) && first < |s| && s[first].tier != tier
    requires forall i :: 0 <= i < |s| ==> (i < first <==> s[i].tier < tier)
    ensures forall i :: 0 <= i < |s| ==> s[i].tier != tier
    ensures !HasTier(s, tier)
  {
    TierOrder(s);
  }

  lemma NothingToClose(s: seq<AnnounceUrl>, pos: nat)
    requires Ordered(s) && pos < |s|
    requires pos < |s| - 1 ==> exists i :: 0 <= i < |s| - 1 && Without(s, pos)[i].tier == s[pos].tier
    ensures Erased(s, pos) == Without(s, pos)
  {
    var w := Without(s, pos);
    TiersAround(s, pos);
    if pos < |s| - 1 {
      var i :| 0 <= i < |w| && w[i].tier == s[pos].tier;
      assert w[i] in w;
    }
  }

  lemma TierOrder(s: seq<AnnounceUrl>)
    requires Ordered(s)
    ensures forall i, j :: 0 <= i < j < |s| ==> s[i].tier <= s[j].tier
  {
    forall i, j | 0 <= i < j < |s| ensures s[i].tier <= s[j].tier {
      assert !Before(s[j], s[i]);
    }
  }

  lemma OrderedAgainst(s: seq<AnnounceUrl>, a: AnnounceUrl)
    requires Ordered(s)
    ensures forall i, j :: 0 <= i < j < |s| && !Before(a, s[j]) ==> !Before(a, s[i])
  {
    hide Before;
    forall i, j | 0 <= i < j < |s| && !Before(a, s[j]) ensures !Before(a, s[i]) {
      NotBeforeTransitive(s[i], s[j], a);
    }
  }

  lemma UrlOrder(s: seq<AnnounceUrl>, first: nat, last: nat, tier: nat)
    requires Ordered(s) && first <= last <= |s|
    requires forall i :: first <= i < last ==> s[i].tier == tier
    ensures forall i, j :: first <= i < j < last ==> !Less(s[j].url, s[i].url)
  {
    hide Less;
    forall i, j | first <= i < j < last ensures !Less(s[j].url, s[i].url) {
      assert !Before(s[j], s[i]);
    }
  }

  lemma BelowOrder(s: seq<AnnounceUrl>, first: nat, last: nat, url: string)
    requires first <= last <= |s|
    requires forall i, j :: first <= i < j < last ==> !Less(s[j].url, s[i].url)
    ensures forall i, j :: first <= i < j < last && Less(s[j].url, url) ==> Less(s[i].url, url)
  {
    hide Less;
    forall i, j | first <= i < j < last && Less(s[j].url, url) ensures Less(s[i].url, url) {
      LessTotal(s[i].url, s[j].url);
      if Less(s[i].url, s[j].url) {
        LessTransitive(s[i].url, s[j].url, url);
      }
    }
  }

  lemma SearchDecides(s: seq<AnnounceUrl>, first: nat, last: nat, k: nat, url: string)
    requires first <= k <= last <= |s|
    requires forall i, j :: first <= i < j < last ==> !Less(s[j].url, s[i].url)
    requires forall i :: first <= i < k ==> Less(s[i].url, url)
    requires forall i :: k <= i < last ==> !Less(s[i].url, url)
    ensures k < last && !Less(url, s[k].url) ==> s[k].url == url
    ensures !(k < last && !Less(url, s[k].url)) ==> forall i :: first <= i < last ==> s[i].url != url
  {
    LessIrreflexive(url);
    if k < last {
      LessTotal(s[k].url, url);
    }
  }
}
