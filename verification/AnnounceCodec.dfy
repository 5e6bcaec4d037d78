/**
 * The trackers of a metafile: adding and removing them (src/metafile.cpp:26-63), and reading the announce keys of a
 * torrent (src/metafile_parsing.cpp:15-68).
 */
module AnnounceCodec {
  import opened Options
  import opened Ordering
  import opened Trackers
  import opened AnnounceList

  // ---- Reading as a function of the list -----------------------------------------------------------------------

  datatype Outcome = Done(list: seq<AnnounceUrl>) | ContractFailed

  /** Adding entries one after the other, each in its tier or not at all. */
  ghost function AddAll(s: seq<AnnounceUrl>, es: seq<AnnounceUrl>): Outcome {
    if es == [] then Done(s)
    else
      var before := AddAll(s, es[..|es| - 1]);
      var e := es[|es| - 1];
      if before.Done? && e.tier <= TierCount(before.list) then Done(Added(before.list, e)) else ContractFailed
  }

  /** The `announce` key after the list. */
  ghost function ReadAnnounce(s: seq<AnnounceUrl>, announce: Option<string>): seq<AnnounceUrl> {
    if announce.None? then s else Apply(s, AnnounceKey(announce.value))
  }

  ghost function ReadTrackers(s: seq<AnnounceUrl>, tiers: seq<seq<string>>, announce: Option<string>): Outcome {
    match AddAll(s, Flat(tiers))
    case ContractFailed => ContractFailed
    case Done(r) => Done(ReadAnnounce(r, announce))
  }

  lemma AddNext(s: seq<AnnounceUrl>, es: seq<AnnounceUrl>, e: AnnounceUrl)
    ensures AddAll(s, es + [e]) ==
            if AddAll(s, es).Done? && e.tier <= TierCount(AddAll(s, es).list) then Done(Added(AddAll(s, es).list, e))
            else ContractFailed
  {
    assert (es + [e])[..|es|] == es;
  }

  /** What an empty list has become after n entries. */
  ghost function After(es: seq<AnnounceUrl>, n: nat): Outcome
    requires n <= |es|
  {
    AddAll([], es[..n])
  }

  lemma AfterNext(es: seq<AnnounceUrl>, k: nat)
    requires k < |es|
    ensures After(es, k + 1) ==
            if After(es, k).Done? && es[k].tier <= TierCount(After(es, k).list)
            then Done(Added(After(es, k).list, es[k])) else ContractFailed
  {
    assert es[..k + 1] == es[..k] + [es[k]];
    AddNext([], es[..k], es[k]);
  }

  lemma AfterAll(es: seq<AnnounceUrl>)
    ensures After(es, |es|) == AddAll([], es)
    ensures After(es, 0) == Done([])
  {
    assert es[..|es|] == es;
  }

  lemma {:induction false} FailureStays(s: seq<AnnounceUrl>, es: seq<AnnounceUrl>, more: seq<AnnounceUrl>)
    requires AddAll(s, es).ContractFailed?
    ensures AddAll(s, es + more).ContractFailed?
  {
    if more == [] {
      assert es + more == es;
    } else {
      FailureStays(s, es, more[..|more| - 1]);
      assert (es + more)[..|es + more| - 1] == es + more[..|more| - 1];
    }
  }

  lemma {:induction false} FlatPrefix(tiers: seq<seq<string>>, t: nat) returns (more: seq<AnnounceUrl>)
    requires t <= |tiers|
    ensures Flat(tiers) == Flat(tiers[..t]) + more
  {
    if t == |tiers| {
      assert tiers[..t] == tiers;
      more := [];
    } else {
      var rest := FlatPrefix(tiers[..|tiers| - 1], t);
      assert tiers[..|tiers| - 1][..t] == tiers[..t];
      more := rest + Tier(tiers[|tiers| - 1], |tiers| - 1);
    }
  }

  class Metafile {
    const trackers: AnnounceUrlList

    constructor ()
      ensures fresh(trackers) && trackers.list == []
    {
      trackers := new AnnounceUrlList();
    }

    method AddTracker(a: AnnounceUrl)
      requires Inv(trackers.list) && a.tier <= TierCount(trackers.list)
      modifies trackers
      ensures trackers.list == Added(old(trackers.list), a)
      ensures Inv(trackers.list)
    {
      AddedKeeps(trackers.list, a);
      InsertedOrdered(trackers.list, a);
      hide Ordered, GapFree, Unique, Erased, Inserted;
      var k := trackers.Find(a.url);
      if k < |trackers.list| {
        if trackers.list[k].tier != a.tier {
          var was := trackers.list[k];
          InsertedMembers(trackers.list, a);
          trackers.Insert(a);
          assert was in trackers.list;
          trackers.EraseAnnounce(was);
        }
      } else {
        trackers.Insert(a);
      }
    }

    /** Without a tier the URL goes to a new last tier. */
    method AddTrackerUrl(url: string, tier: Option<nat>)
      requires Inv(trackers.list) && (tier.Some? ==> tier.value <= TierCount(trackers.list))
      modifies trackers
      ensures trackers.list == Apply(old(trackers.list), if tier.Some? then AddTo(url, tier.value) else AddLast(url))
      ensures Inv(trackers.list)
    {
      AddTracker(AnnounceUrl(url, if tier.Some? then tier.value else TierCount(trackers.list)));
    }

    /** Removes a URL, or only the entry it has in one tier. */
    method RemoveTracker(url: string, tier: Option<nat>)
      requires Inv(trackers.list)
      modifies trackers
      ensures forall was :: was in old(trackers.list) && was.url == url && (tier.Some? ==> was.tier == tier.value) ==>
                TakenOut(old(trackers.list), was, trackers.list)
      ensures (forall was :: was in old(trackers.list) && was.url == url ==> tier.Some? && was.tier != tier.value) ==>
                trackers.list == old(trackers.list)
      ensures trackers.list
                == Apply(old(trackers.list), if tier.Some? then RemoveFrom(url, tier.value) else Remove(url))
      ensures Inv(trackers.list)
    {
      ApplyKeeps(trackers.list, if tier.Some? then RemoveFrom(url, tier.value) else Remove(url));
      RemovalOf(trackers.list, url, tier);
      hide Ordered, GapFree, Unique, Erased, TakenOut;
      if tier.None? {
        var k := trackers.Find(url);
        if k < |trackers.list| {
          var _ := trackers.EraseAt(k);
        }
      } else {
        trackers.EraseAnnounce(AnnounceUrl(url, tier.value));
      }
    }

    /** Empties the list and refills it behind a new first tier. */
    method Prepend(url: string)
      requires Inv(trackers.list) && !HasUrl(trackers.list, url)
      modifies trackers
      ensures trackers.list == Prepended(old(trackers.list), url)
    {
      var entries := trackers.list;
      ghost var after := Prepended(entries, url);
      PrependedKeeps(entries, url);
      RefillFirst(entries, url);
      hide Inv, Inserted, HasUrl, Prepended, TierCount, Ordered;
      trackers.Clear();
      trackers.Insert(AnnounceUrl(url, 0));
      var i := 0;
      while i < |entries|
        invariant i <= |entries|
        invariant trackers.list == after[..i + 1]
      {
        RefillNext(entries, url, i);
        trackers.Insert(AnnounceUrl(entries[i].url, entries[i].tier + 1));
        i := i + 1;
      }
      assert after[..|after|] == after;
    }

    /** The `announce` key: a new URL is put in front, in a tier of its own. */
    method ParseAnnounceUrl(url: string)
      requires Inv(trackers.list)
      modifies trackers
      ensures trackers.list == Apply(old(trackers.list), AnnounceKey(url))
      ensures Inv(trackers.list)
    {
      ApplyKeeps(trackers.list, AnnounceKey(url));
      hide Ordered, Unique, Inserted, Prepended, Added;
      var duplicate := trackers.Contains(url);
      if !duplicate {
        var n := trackers.TierSize(0);
        if n >= 1 {
          Prepend(url);
        } else {
          NoTierZero(trackers.list, url);
          AddTracker(AnnounceUrl(url, 0));
        }
      }
    }

    /** One tier of the nested list. */
    method ParseTier(tiers: seq<seq<string>>, tier: nat, ghost before: seq<AnnounceUrl>) returns (ok: bool)
      requires Inv(trackers.list) && tier < |tiers|
      requires AddAll(before, Flat(tiers[..tier])) == Done(trackers.list)
      modifies trackers
      ensures ok ==> Inv(trackers.list) && AddAll(before, Flat(tiers[..tier + 1])) == Done(trackers.list)
      ensures !ok ==> AddAll(before, Flat(tiers)).ContractFailed?
    {
      hide Inv, Added, AddAll, Flat, FlatPart, TierCount;
      var item := 0;
      FlatTier(tiers, tier);
      while item < |tiers[tier]|
        invariant item <= |tiers[tier]|
        invariant Inv(trackers.list)
        invariant AddAll(before, FlatPart(tiers, tier, item)) == Done(trackers.list)
      {
        var a := AnnounceUrl(tiers[tier][item], tier);
        FlatItem(tiers, tier, item);
        AddNext(before, FlatPart(tiers, tier, item), a);
        if tier > TierCount(trackers.list) {
          FailsEarly(before, tiers, tier, item + 1);
          return false;
        }
        AddTracker(a);
        item := item + 1;
      }
      return true;
    }

    method ParseAnnounceList(tiers: seq<seq<string>>) returns (ok: bool)
      requires Inv(trackers.list)
      modifies trackers
      ensures ok <==> AddAll(old(trackers.list), Flat(tiers)).Done?
      ensures ok ==> AddAll(old(trackers.list), Flat(tiers)) == Done(trackers.list) && Inv(trackers.list)
    {
      ghost var before := trackers.list;
      hide Inv, AddAll, Flat;
      AddNone(before);
      assert tiers[..0] == [];
      var tier := 0;
      while tier < |tiers|
        invariant tier <= |tiers|
        invariant Inv(trackers.list)
        invariant AddAll(before, Flat(tiers[..tier])) == Done(trackers.list)
      {
        var parsed := ParseTier(tiers, tier, before);
        if !parsed {
          return false;
        }
        tier := tier + 1;
      }
      assert tiers[..tier] == tiers;
      return true;
    }

    /** `parse_announce`: the nested list tier by tier, then the single URL; false is a failed contract. */
    method ParseAnnounce(announceList: Option<seq<seq<string>>>, announce: Option<string>) returns (ok: bool)
      requires Inv(trackers.list)
      modifies trackers
      ensures ok <==> ReadTrackers(old(trackers.list), announceList.UnwrapOr([]), announce).Done?
      ensures ok ==> trackers.list == ReadTrackers(old(trackers.list), announceList.UnwrapOr([]), announce).list
      ensures ok ==> Inv(trackers.list)
    {
      AddNone(trackers.list);
      hide Inv, AddAll, Flat, Apply;
      ok := true;
      if announceList.Some? {
        ok := ParseAnnounceList(announceList.value);
      }
      if ok && announce.Some? {
        ParseAnnounceUrl(announce.value);
      }
    }
  }

  lemma RemovalOf(s: seq<AnnounceUrl>, url: string, tier: Option<nat>)
    requires Inv(s)
    ensures var r := Apply(s, if tier.Some? then RemoveFrom(url, tier.value) else Remove(url));
            && (forall was :: was in s && was.url == url && (tier.Some? ==> was.tier == tier.value) ==>
                  TakenOut(s, was, r))
            && ((forall was :: was in s && was.url == url ==> tier.Some? && was.tier != tier.value) ==> r == s)
  {
    hide TakenOut, Removed, RemovedEntry;
    if tier.Some? {
      RemovedTrackerEntry(s, AnnounceUrl(url, tier.value));
    } else {
      RemovedTracker(s, url);
    }
  }

  lemma RefillFirst(s: seq<AnnounceUrl>, url: string)
    ensures |Prepended(s, url)| == |s| + 1
    ensures Ordered([]) && Inserted([], AnnounceUrl(url, 0)) == Prepended(s, url)[..1]
  {
  }

  lemma RefillNext(s: seq<AnnounceUrl>, url: string, i: nat)
    requires Inv(Prepended(s, url)) && i < |s|
    ensures var so := Prepended(s, url)[..i + 1];
            var e := AnnounceUrl(s[i].url, s[i].tier + 1);
            Ordered(so) && e.tier <= TierCount(so) && Inserted(so, e) == Prepended(s, url)[..i + 2]
  {
    assert Prepended(s, url)[i + 1] == AnnounceUrl(s[i].url, s[i].tier + 1);
    hide Prepended;
    AppendNext(Prepended(s, url), i + 1);
  }

  // ---- Steps of the reader -------------------------------------------------------------------------------------

  lemma AddNone(s: seq<AnnounceUrl>)
    ensures AddAll(s, Flat([])) == Done(s)
  {
  }

  /** The entries of the first tiers and of a part of the next. */
  ghost function FlatPart(tiers: seq<seq<string>>, tier: nat, item: nat): seq<AnnounceUrl>
    requires tier < |tiers| && item <= |tiers[tier]|
  {
    Flat(tiers[..tier]) + Tier(tiers[tier][..item], tier)
  }

  lemma FlatTier(tiers: seq<seq<string>>, tier: nat)
    requires tier < |tiers|
    ensures FlatPart(tiers, tier, 0) == Flat(tiers[..tier])
    ensures FlatPart(tiers, tier, |tiers[tier]|) == Flat(tiers[..tier + 1])
  {
    assert tiers[..tier + 1] == tiers[..tier] + [tiers[tier]];
    FlatLast(tiers[..tier], tiers[tier]);
    assert tiers[tier][..|tiers[tier]|] == tiers[tier];
  }

  lemma FlatItem(tiers: seq<seq<string>>, tier: nat, item: nat)
    requires tier < |tiers| && item < |tiers[tier]|
    ensures FlatPart(tiers, tier, item + 1) == FlatPart(tiers, tier, item) + [AnnounceUrl(tiers[tier][item], tier)]
  {
    assert Tier(tiers[tier][..item + 1], tier)
      == Tier(tiers[tier][..item], tier) + [AnnounceUrl(tiers[tier][item], tier)];
  }

  lemma FailsEarly(s: seq<AnnounceUrl>, tiers: seq<seq<string>>, tier: nat, item: nat)
    requires tier < |tiers| && item <= |tiers[tier]|
    requires AddAll(s, FlatPart(tiers, tier, item)).ContractFailed?
    ensures AddAll(s, Flat(tiers)).ContractFailed?
  {
    var more := FlatPrefix(tiers, tier + 1);
    FlatTier(tiers, tier);
    var part := FlatPart(tiers, tier, item);
    var rest := Tier(tiers[tier][item..], tier);
    assert part + rest == FlatPart(tiers, tier, |tiers[tier]|);
    assert Flat(tiers) == part + (rest + more);
    hide Flat, AddAll;
    FailureStays(s, part, rest + more);
  }

  /** In an ordered list each entry goes behind the ones before it. */
  lemma AppendNext(s: seq<AnnounceUrl>, k: nat)
    requires Ordered(s) && GapFree(s) && k < |s|
    ensures Ordered(s[..k]) && Inserted(s[..k], s[k]) == s[..k + 1]
    ensures s[k].tier <= TierCount(s[..k])
  {
    NextTier(s, k);
    forall i | 0 <= i < k ensures !Before(s[k], s[..k][i]) {
    }
    InsertedAtBound(s[..k], s[k], k);
    assert s[..k + 1] == s[..k][..k] + [s[k]] + s[..k][k..];
  }

  lemma HasFirstTier(s: seq<AnnounceUrl>)
    requires GapFree(s) && s != []
    ensures HasTier(s, 0)
  {
    assert 0 < TierCount(s);
  }

  /** Without gaps only the empty list has no tier 0. */
  lemma NoTierZero(s: seq<AnnounceUrl>, url: string)
    requires GapFree(s) && !HasTier(s, 0)
    ensures s == []
    ensures Added(s, AnnounceUrl(url, 0)) == Prepended(s, url)
  {
    if s != [] {
      HasFirstTier(s);
    }
  }

  // ---- The round trip ------------------------------------------------------------------------------------------

  lemma {:induction false} ReadBack(s: seq<AnnounceUrl>, n: nat)
    requires Inv(s) && n <= |s|
    ensures After(s, n) == Done(s[..n])
  {
    hide After, AddAll;
    if n == 0 {
      AfterAll(s);
    } else {
      var k := n - 1;
      ReadBack(s, k);
      AppendNext(s, k);
      NewUrl(s, k);
      hide Inv, Added, Inserted, TierCount, Ordered;
      AfterNext(s, k);
    }
  }

  lemma NewUrl(s: seq<AnnounceUrl>, k: nat)
    requires Unique(s) && k < |s|
    ensures Added(s[..k], s[k]) == Inserted(s[..k], s[k])
  {
    hide Inserted;
    forall j | 0 <= j < k ensures s[..k][j].url != s[k].url {
    }
  }

  /**
   * Writing the nested list and the first URL and reading both into an empty metafile gives the same list, and no
   * contract fails on the way. `Nest` writes tiers with `Flat(tiers) == s`.
   */
  lemma TrackersRoundTrip(s: seq<AnnounceUrl>, tiers: seq<seq<string>>)
    requires Inv(s) && Flat(tiers) == s
    ensures ReadTrackers([], tiers, if s == [] then None else Some(s[0].url)) == Done(s)
  {
    assert s[..|s|] == s;
    ReadBack(s, |s|);
    AfterAll(s);
    FirstIsThere(s);
  }

  lemma FirstIsThere(s: seq<AnnounceUrl>)
    ensures ReadAnnounce(s, if s == [] then None else Some(s[0].url)) == s
  {
    hide Prepended;
  }
}
