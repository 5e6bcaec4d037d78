/**
 * Which nested announce lists the parser reads into an empty metafile (src/metafile_parsing.cpp:24-36). Every entry
 * goes to the tier of its position in the nested list. A URL that was listed before moves there, and when it was the
 * last one left where it was, the tiers above close up, so that a later tier can be one too high.
 */
module AnnounceAcceptance {
  import opened Options
  import opened Trackers
  import opened AnnounceList
  import opened AnnounceCodec

  // ---- Conditions on the nested list ---------------------------------------------------------------------------

  /** No empty tier in front of a tier with entries. */
  ghost predicate NoHole(tiers: seq<seq<string>>) {
    forall i, j :: 0 <= i < j < |tiers| && tiers[j] != [] ==> tiers[i] != []
  }

  ghost predicate TierSorted(es: seq<AnnounceUrl>) {
    forall i, j :: 0 <= i < j < |es| ==> es[i].tier <= es[j].tier
  }

  /** Entry p is the last of the first n entries with its URL. */
  ghost predicate Latest(es: seq<AnnounceUrl>, n: nat, p: nat)
    requires n <= |es|
  {
    p < n && forall q :: p < q < n ==> es[q].url != es[p].url
  }

  /**
   * The entries fall into groups of consecutive ones, which end where a tier of the nested list ends and after every
   * entry that closes a tier. The group of entry k is counted from 0.
   */
  ghost function Group(es: seq<AnnounceUrl>, k: nat): nat
    requires k < |es|
    decreases k, 0
  {
    if k == 0 then 0
    else Group(es, k - 1) + if es[k].tier != es[k - 1].tier || Closes(es, k - 1) then 1 else 0
  }

  /** The URL of entry k was listed in an earlier group, all other URLs of which have moved on before. */
  ghost predicate Closes(es: seq<AnnounceUrl>, k: nat)
    requires k < |es|
    decreases k, 1
  {
    exists p: nat ::
      p < k && Latest(es, k, p) && es[p].url == es[k].url && Group(es, p) < Group(es, k) && OnlyOne(es, k, p)
  }

  /** Entry p is the only one left in its group after the first k entries. */
  ghost predicate OnlyOne(es: seq<AnnounceUrl>, k: nat, p: nat)
    requires p < k < |es|
    decreases k, 0
  {
    forall q: nat :: q < k && Latest(es, k, q) && Group(es, q) == Group(es, p) ==> q == p
  }

  /** The last entry of no tier that another one follows closes a tier. */
  ghost predicate NoTierLost(es: seq<AnnounceUrl>) {
    forall k :: 0 < k < |es| && es[k].tier != es[k - 1].tier ==> !Closes(es, k - 1)
  }

  /** Entry k follows in the same tier, or in the next one when no tier was closed just before. */
  ghost predicate Fits(es: seq<AnnounceUrl>, k: nat)
    requires k < |es|
  {
    if k == 0 then es[0].tier == 0
    else es[k].tier == es[k - 1].tier || (es[k].tier == es[k - 1].tier + 1 && !Closes(es, k - 1))
  }

  ghost predicate AllFit(es: seq<AnnounceUrl>, n: nat)
    requires n <= |es|
  {
    forall k: nat :: k < n ==> Fits(es, k)
  }

  lemma {:induction false} GroupGrows(es: seq<AnnounceUrl>, p: nat, q: nat)
    requires p <= q < |es|
    ensures Group(es, p) <= Group(es, q)
  {
    if p < q {
      GroupGrows(es, p, q - 1);
    }
  }

  lemma {:induction false} LatestWithUrl(es: seq<AnnounceUrl>, n: nat, j: nat) returns (p: nat)
    requires j < n <= |es|
    ensures Latest(es, n, p) && es[p].url == es[j].url
    decreases n - j
  {
    if q: nat :| j < q < n && es[q].url == es[j].url {
      p := LatestWithUrl(es, n, q);
    } else {
      p := j;
    }
  }

  // ---- Where a list has its URLs -------------------------------------------------------------------------------

  /** The tier of a URL. */
  ghost function TierOf(s: seq<AnnounceUrl>, url: string): nat {
    if FindUrl(s, url) < |s| then s[FindUrl(s, url)].tier else 0
  }

  lemma TierOfEntry(s: seq<AnnounceUrl>, e: AnnounceUrl)
    requires Unique(s) && e in s
    ensures TierOf(s, e.url) == e.tier && HasUrl(s, e.url)
  {
    var k := FindUrl(s, e.url);
    var i: nat :| i < |s| && s[i] == e;
    hide FindUrl;
    assert i == k;
  }

  lemma EntryOfUrl(s: seq<AnnounceUrl>, url: string)
    requires Unique(s) && HasUrl(s, url)
    ensures FindUrl(s, url) < |s| && AnnounceUrl(url, TierOf(s, url)) in s
  {
    var e :| e in s && e.url == url;
    var i: nat :| i < |s| && s[i] == e;
    var k := FindUrl(s, url);
    hide FindUrl;
    assert k <= i && s[k] in s;
  }

  /** The URL is alone in its tier, which is not the one it moves to. */
  ghost predicate LeavesTier(s: seq<AnnounceUrl>, a: AnnounceUrl) {
    && HasUrl(s, a.url) && TierOf(s, a.url) != a.tier
    && forall e :: e in s && e.tier == TierOf(s, a.url) ==> e.url == a.url
  }

  /** A tier after the one that a moved URL left is closed up. */
  function Shifted(tier: nat, gone: nat, closed: bool): nat {
    if closed && tier > gone then tier - 1 else tier
  }

  /** Where an added or moved URL and the others are. */
  lemma AddedTierOf(s: seq<AnnounceUrl>, a: AnnounceUrl, url: string)
    requires Inv(s) && a.tier <= TierCount(s)
    ensures HasUrl(Added(s, a), url) <==> url == a.url || HasUrl(s, url)
    ensures url == a.url || HasUrl(s, url) ==>
              TierOf(Added(s, a), url)
              == Shifted(if url == a.url then a.tier else TierOf(s, url), TierOf(s, a.url), LeavesTier(s, a))
  {
    AddedKeeps(s, a);
    InsertedMembers(s, a);
    var r := Added(s, a);
    hide Ordered, GapFree, Erased, Inserted;
    if !HasUrl(s, a.url) {
      NewTierOf(s, a, url);
    } else {
      EntryOfUrl(s, a.url);
      var was := s[FindUrl(s, a.url)];
      if was.tier == a.tier {
        assert r == s;
      } else {
        MovedTierOf(s, a, url);
      }
    }
  }

  lemma NewTierOf(s: seq<AnnounceUrl>, a: AnnounceUrl, url: string)
    requires Unique(s) && !HasUrl(s, a.url) && Unique(Added(s, a))
    ensures HasUrl(Added(s, a), url) <==> url == a.url || HasUrl(s, url)
    ensures url == a.url || HasUrl(s, url) ==>
              TierOf(Added(s, a), url) == if url == a.url then a.tier else TierOf(s, url)
  {
    NotFound(s, a.url);
    InsertedMembers(s, a);
    var r := Added(s, a);
    assert r == Inserted(s, a);
    hide Inserted, Added, Unique, FindUrl, TierOf;
    if HasUrl(s, url) {
      EntryOfUrl(s, url);
      TierOfEntry(r, AnnounceUrl(url, TierOf(s, url)));
    }
    TierOfEntry(r, a);
    if HasUrl(r, url) && url != a.url {
      var e :| e in r && e.url == url;
      assert e in s;
    }
  }

  lemma NotFound(s: seq<AnnounceUrl>, url: string)
    ensures FindUrl(s, url) == |s| <==> !HasUrl(s, url)
  {
    var k := FindUrl(s, url);
    hide FindUrl;
    if k < |s| {
      assert s[k] in s;
    }
  }

  lemma MovedTierOf(s: seq<AnnounceUrl>, a: AnnounceUrl, url: string)
    requires Inv(s) && Inv(Added(s, a)) && HasUrl(s, a.url) && TierOf(s, a.url) != a.tier
    ensures HasUrl(Added(s, a), url) <==> url == a.url || HasUrl(s, url)
    ensures url == a.url || HasUrl(s, url) ==>
              TierOf(Added(s, a), url)
              == Shifted(if url == a.url then a.tier else TierOf(s, url), TierOf(s, a.url), LeavesTier(s, a))
  {
    EntryOfUrl(s, a.url);
    var k := FindUrl(s, a.url);
    AloneIsLeaving(s, a);
    if url == a.url {
      MovedTracker(s, a, k, a);
      hide Inv, Added;
      TierOfEntry(Added(s, a), AfterMove(s, s[k], a));
    } else if HasUrl(s, url) {
      EntryOfUrl(s, url);
      var e := AnnounceUrl(url, TierOf(s, url));
      MovedTracker(s, a, k, e);
      hide Inv, Added;
      TierOfEntry(Added(s, a), AfterMove(s, s[k], e));
    } else if HasUrl(Added(s, a), url) {
      MovedUrls(s, a, k, url);
    }
  }

  lemma AloneIsLeaving(s: seq<AnnounceUrl>, a: AnnounceUrl)
    requires Inv(s) && HasUrl(s, a.url) && TierOf(s, a.url) != a.tier
    ensures FindUrl(s, a.url) < |s| && s[FindUrl(s, a.url)] == AnnounceUrl(a.url, TierOf(s, a.url))
    ensures AloneInTier(s, s[FindUrl(s, a.url)]) <==> LeavesTier(s, a)
  {
    EntryOfUrl(s, a.url);
    var was := s[FindUrl(s, a.url)];
    hide FindUrl, Unique, Ordered, GapFree;
    forall e | e in s && e.tier == was.tier ensures e.url == a.url <==> e == was {
    }
  }

  /** A move brings no URL that was not there. */
  lemma MovedUrls(s: seq<AnnounceUrl>, a: AnnounceUrl, k: nat, url: string)
    requires k == FindUrl(s, a.url) < |s| && s[k].tier != a.tier && url != a.url && HasUrl(Added(s, a), url)
    ensures HasUrl(s, url)
  {
    InsertedMembers(s, a);
    var t := Inserted(s, a);
    assert s[k] in s;
    var pos := FindEntry(t, s[k]);
    var w := Without(t, pos);
    hide Inserted, FindEntry, FindUrl, Without;
    var e :| e in Added(s, a) && e.url == url;
    if !HasTier(w, t[pos].tier) {
      var i: nat :| i < |w| && SettleAll(w, t[pos].tier)[i] == e;
      assert w[i] in w && w[i].url == url;
      WithoutMembers(t, pos, w[i]);
    } else {
      WithoutMembers(t, pos, e);
    }
  }

  /** How many tiers there are then. */
  lemma AddedTierCount(s: seq<AnnounceUrl>, a: AnnounceUrl)
    requires Inv(s) && a.tier <= TierCount(s) <= a.tier + 1
    ensures TierCount(Added(s, a)) == a.tier + 1 - if LeavesTier(s, a) then 1 else 0
  {
    InsertedMembers(s, a);
    InsertedOrdered(s, a);
    InsertedGapFree(s, a);
    NotFound(s, a.url);
    if HasUrl(s, a.url) {
      EntryOfUrl(s, a.url);
      var k := FindUrl(s, a.url);
      if s[k].tier != a.tier {
        AloneIsLeaving(s, a);
        MovedLeavesAlone(s, a, k);
        hide Inserted, Ordered, GapFree, Unique, Erased, TierCount, FindEntry;
        ErasedKeeps(Inserted(s, a), FindEntry(Inserted(s, a), s[k]));
      } else {
        TiersBelowCount(s, s[k]);
      }
    }
  }

  // ---- What the reader has after some entries ------------------------------------------------------------------

  /** The URLs so far are listed, in tiers that stand as their groups do. */
  ghost predicate Placed(es: seq<AnnounceUrl>, n: nat, s: seq<AnnounceUrl>)
    requires n <= |es|
  {
    && (forall url :: HasUrl(s, url) <==> exists p: nat :: p < n && es[p].url == url)
    && (forall p: nat, q: nat :: Latest(es, n, p) && Latest(es, n, q) ==>
          (TierOf(s, es[p].url) < TierOf(s, es[q].url) <==> Group(es, p) < Group(es, q)))
  }

  /** The last entry is in the last tier, and that is its own unless it closed a tier. */
  ghost predicate Topped(es: seq<AnnounceUrl>, n: nat, s: seq<AnnounceUrl>)
    requires n <= |es|
  {
    if n == 0 then TierCount(s) == 0
    else
      && TierCount(s) == es[n - 1].tier + (if Closes(es, n - 1) then 0 else 1)
      && (!Closes(es, n - 1) ==> TierOf(s, es[n - 1].url) == es[n - 1].tier)
  }

  ghost predicate Tracks(es: seq<AnnounceUrl>, n: nat, s: seq<AnnounceUrl>)
    requires n <= |es|
  {
    Inv(s) && Placed(es, n, s) && Topped(es, n, s)
  }

  lemma UrlTierBelow(s: seq<AnnounceUrl>, url: string)
    requires Inv(s) && HasUrl(s, url)
    ensures TierOf(s, url) < TierCount(s)
  {
    EntryOfUrl(s, url);
    TiersBelowCount(s, AnnounceUrl(url, TierOf(s, url)));
  }

  lemma LatestIsListed(es: seq<AnnounceUrl>, n: nat, s: seq<AnnounceUrl>, p: nat)
    requires n <= |es| && Placed(es, n, s) && Latest(es, n, p)
    ensures HasUrl(s, es[p].url)
  {
  }

  /** Before entry n is read: its tier holds the entries of its group, and no entry is above. */
  lemma CurrentGroup(es: seq<AnnounceUrl>, n: nat, s: seq<AnnounceUrl>, q: nat)
    requires n < |es| && Tracks(es, n, s) && Fits(es, n) && Latest(es, n, q)
    ensures Group(es, q) <= Group(es, n) && TierOf(s, es[q].url) <= es[n].tier
    ensures TierOf(s, es[q].url) == es[n].tier <==> Group(es, q) == Group(es, n)
  {
    hide Inv, TierOf, TierCount, Closes;
    GroupGrows(es, q, n - 1);
    LatestIsListed(es, n, s, q);
    UrlTierBelow(s, es[q].url);
    assert Latest(es, n, n - 1);
    assert TierOf(s, es[q].url) < TierOf(s, es[n - 1].url) <==> Group(es, q) < Group(es, n - 1);
  }

  lemma ReachOf(es: seq<AnnounceUrl>, n: nat, s: seq<AnnounceUrl>)
    requires TierSorted(es) && n < |es| && Tracks(es, n, s)
    ensures es[n].tier <= TierCount(s) <==> Fits(es, n)
    ensures Fits(es, n) ==> TierCount(s) <= es[n].tier + 1
  {
    hide Inv, Placed, Closes, TierCount;
  }

  /** Entry n leaves a tier exactly when it closes one. */
  lemma LeavesIsCloses(es: seq<AnnounceUrl>, n: nat, s: seq<AnnounceUrl>)
    requires n < |es| && Tracks(es, n, s) && Fits(es, n)
    ensures LeavesTier(s, es[n]) <==> Closes(es, n)
  {
    hide Ordered, GapFree, Unique, Topped, Fits, TierOf, Group;
    var a := es[n];
    if HasUrl(s, a.url) {
      var j: nat :| j < n && es[j].url == a.url;
      var p := LatestWithUrl(es, n, j);
      CurrentGroup(es, n, s, p);
      if OnlyOne(es, n, p) {
        forall e | e in s && e.tier == TierOf(s, a.url) ensures e.url == a.url {
          AloneInGroup(es, n, s, p, e);
        }
      } else {
        var q: nat :| q < n && Latest(es, n, q) && Group(es, q) == Group(es, p) && q != p;
        SharesTier(es, n, s, p, q);
      }
      LatestUnique(es, n, p);
    }
  }

  lemma LatestUnique(es: seq<AnnounceUrl>, n: nat, p: nat)
    requires n <= |es| && Latest(es, n, p)
    ensures forall q: nat :: Latest(es, n, q) && es[q].url == es[p].url ==> q == p
  {
  }

  lemma AloneInGroup(es: seq<AnnounceUrl>, n: nat, s: seq<AnnounceUrl>, p: nat, e: AnnounceUrl)
    requires n < |es| && Inv(s) && Placed(es, n, s) && p < n && Latest(es, n, p) && OnlyOne(es, n, p)
    requires e in s && e.tier == TierOf(s, es[p].url)
    ensures e.url == es[p].url
  {
    hide Ordered, GapFree, TierOf, Group;
    TierOfEntry(s, e);
    var j: nat :| j < n && es[j].url == e.url;
    var q := LatestWithUrl(es, n, j);
    assert TierOf(s, es[p].url) < TierOf(s, es[q].url) <==> Group(es, p) < Group(es, q);
    assert TierOf(s, es[q].url) < TierOf(s, es[p].url) <==> Group(es, q) < Group(es, p);
  }

  lemma SharesTier(es: seq<AnnounceUrl>, n: nat, s: seq<AnnounceUrl>, p: nat, q: nat)
    requires n < |es| && Inv(s) && Placed(es, n, s) && Latest(es, n, p) && Latest(es, n, q)
    requires Group(es, q) == Group(es, p) && q != p
    ensures exists e :: e in s && e.tier == TierOf(s, es[p].url) && e.url != es[p].url
  {
    hide Ordered, GapFree, TierOf, Group;
    assert TierOf(s, es[p].url) < TierOf(s, es[q].url) <==> Group(es, p) < Group(es, q);
    assert TierOf(s, es[q].url) < TierOf(s, es[p].url) <==> Group(es, q) < Group(es, p);
    EntryOfUrl(s, es[q].url);
    var e := AnnounceUrl(es[q].url, TierOf(s, es[q].url));
    assert e in s && es[q].url != es[p].url;
  }

  /** One more entry. */
  lemma TracksNext(es: seq<AnnounceUrl>, n: nat, s: seq<AnnounceUrl>)
    requires TierSorted(es) && n < |es| && Tracks(es, n, s) && Fits(es, n)
    ensures Tracks(es, n + 1, Added(s, es[n]))
  {
    hide Inv, Added, TierOf, Closes, TierCount, LeavesTier;
    var a := es[n];
    var r := Added(s, a);
    ReachOf(es, n, s);
    AddedKeeps(s, a);
    LeavesIsCloses(es, n, s);
    AddedTierCount(s, a);
    AddedTierOf(s, a, a.url);
    assert Topped(es, n + 1, r);
    PlacedNext(es, n, s);
  }

  lemma PlacedNext(es: seq<AnnounceUrl>, n: nat, s: seq<AnnounceUrl>)
    requires n < |es| && Tracks(es, n, s) && Fits(es, n) && es[n].tier <= TierCount(s)
    ensures Placed(es, n + 1, Added(s, es[n]))
  {
    hide Added, TierOf, Group, Closes, TierCount, LeavesTier, Inv, Topped, Fits;
    var a := es[n];
    var r := Added(s, a);
    forall url ensures HasUrl(r, url) <==> exists p: nat :: p < n + 1 && es[p].url == url {
      AddedTierOf(s, a, url);
      assert es[n].url == a.url;
    }
    forall p: nat, q: nat | Latest(es, n + 1, p) && Latest(es, n + 1, q)
      ensures TierOf(r, es[p].url) < TierOf(r, es[q].url) <==> Group(es, p) < Group(es, q)
    {
      PairPlaced(es, n, s, p, q);
    }
  }

  /** Where an entry read before is after one more. */
  lemma OldPlaced(es: seq<AnnounceUrl>, n: nat, s: seq<AnnounceUrl>, p: nat)
    requires n < |es| && Tracks(es, n, s) && Fits(es, n) && es[n].tier <= TierCount(s)
    requires p < n && Latest(es, n + 1, p)
    ensures Latest(es, n, p) && Group(es, p) <= Group(es, n) && TierOf(s, es[p].url) <= es[n].tier
    ensures TierOf(s, es[p].url) == es[n].tier <==> Group(es, p) == Group(es, n)
    ensures TierOf(Added(s, es[n]), es[p].url)
         == Shifted(TierOf(s, es[p].url), TierOf(s, es[n].url), LeavesTier(s, es[n]))
    ensures LeavesTier(s, es[n]) ==> TierOf(s, es[p].url) != TierOf(s, es[n].url)
  {
    assert Latest(es, n, p) && es[p].url != es[n].url;
    CurrentGroup(es, n, s, p);
    LatestIsListed(es, n, s, p);
    hide Added, TierOf, Group, Topped, Fits, Placed, Ordered, GapFree;
    AddedTierOf(s, es[n], es[p].url);
    EntryOfUrl(s, es[p].url);
  }

  lemma ShiftKeepsOrder(tp: nat, tq: nat, gp: nat, gq: nat, gone: nat, closed: bool)
    requires tp < tq <==> gp < gq
    requires closed ==> tp != gone && tq != gone
    ensures Shifted(tp, gone, closed) < Shifted(tq, gone, closed) <==> gp < gq
  {
  }

  lemma ShiftKeepsLast(tp: nat, tn: nat, gp: nat, gn: nat, gone: nat, closed: bool)
    requires gp <= gn && tp <= tn && (tp == tn <==> gp == gn)
    requires closed ==> tp != gone < tn
    ensures Shifted(tp, gone, closed) <= Shifted(tn, gone, closed)
    ensures Shifted(tp, gone, closed) < Shifted(tn, gone, closed) <==> gp < gn
  {
  }

  lemma NewPlaced(es: seq<AnnounceUrl>, n: nat, s: seq<AnnounceUrl>)
    requires n < |es| && Tracks(es, n, s) && es[n].tier <= TierCount(s)
    ensures TierOf(Added(s, es[n]), es[n].url)
         == Shifted(es[n].tier, TierOf(s, es[n].url), LeavesTier(s, es[n]))
  {
    hide Added, TierOf, LeavesTier, Placed, Topped;
    AddedTierOf(s, es[n], es[n].url);
  }

  /** An entry read before and the new one. */
  lemma OldAndNew(es: seq<AnnounceUrl>, n: nat, s: seq<AnnounceUrl>, p: nat)
    requires n < |es| && Tracks(es, n, s) && Fits(es, n) && es[n].tier <= TierCount(s)
    requires p < n && Latest(es, n + 1, p)
    ensures Group(es, p) <= Group(es, n)
    ensures TierOf(Added(s, es[n]), es[p].url) <= TierOf(Added(s, es[n]), es[n].url)
    ensures TierOf(Added(s, es[n]), es[p].url) < TierOf(Added(s, es[n]), es[n].url) <==> Group(es, p) < Group(es, n)
  {
    hide *;
    OldPlaced(es, n, s, p);
    NewPlaced(es, n, s);
    GoneBelow(es, n, s);
    ShiftKeepsLast(TierOf(s, es[p].url), es[n].tier, Group(es, p), Group(es, n), TierOf(s, es[n].url),
                   LeavesTier(s, es[n]));
  }

  lemma SoFar(es: seq<AnnounceUrl>, n: nat, p: nat)
    requires n < |es| && Latest(es, n + 1, p)
    ensures p <= n
  {
  }

  lemma PairPlaced(es: seq<AnnounceUrl>, n: nat, s: seq<AnnounceUrl>, p: nat, q: nat)
    requires n < |es| && Tracks(es, n, s) && Fits(es, n) && es[n].tier <= TierCount(s)
    requires Latest(es, n + 1, p) && Latest(es, n + 1, q)
    ensures TierOf(Added(s, es[n]), es[p].url) < TierOf(Added(s, es[n]), es[q].url) <==> Group(es, p) < Group(es, q)
  {
    hide *;
    SoFar(es, n, p);
    SoFar(es, n, q);
    if p < n && q < n {
      OldPlaced(es, n, s, p);
      OldPlaced(es, n, s, q);
      OldPair(es, n, s, p, q);
      ShiftKeepsOrder(TierOf(s, es[p].url), TierOf(s, es[q].url), Group(es, p), Group(es, q), TierOf(s, es[n].url),
                      LeavesTier(s, es[n]));
    } else if p < n {
      OldAndNew(es, n, s, p);
    } else if q < n {
      OldAndNew(es, n, s, q);
    }
  }

  lemma OldPair(es: seq<AnnounceUrl>, n: nat, s: seq<AnnounceUrl>, p: nat, q: nat)
    requires n <= |es| && Tracks(es, n, s) && Latest(es, n, p) && Latest(es, n, q)
    ensures TierOf(s, es[p].url) < TierOf(s, es[q].url) <==> Group(es, p) < Group(es, q)
  {
  }

  /** A tier that is left is below the one moved to. */
  lemma GoneBelow(es: seq<AnnounceUrl>, n: nat, s: seq<AnnounceUrl>)
    requires n < |es| && Tracks(es, n, s) && Fits(es, n)
    ensures LeavesTier(s, es[n]) ==> TierOf(s, es[n].url) < es[n].tier
  {
    hide TierOf, Group, Topped, Fits, Ordered, GapFree, Unique;
    if LeavesTier(s, es[n]) {
      var j: nat :| j < n && es[j].url == es[n].url;
      var p := LatestWithUrl(es, n, j);
      CurrentGroup(es, n, s, p);
    }
  }

  lemma TracksNothing(es: seq<AnnounceUrl>)
    ensures Tracks(es, 0, [])
  {
    EmptyInv();
  }

  /** The reader gets through the first n entries exactly when they all fit. */
  lemma {:induction false} ReadsThrough(es: seq<AnnounceUrl>, n: nat)
    requires TierSorted(es) && n <= |es|
    ensures After(es, n).Done? <==> AllFit(es, n)
    ensures After(es, n).Done? ==> Tracks(es, n, After(es, n).list)
  {
    hide After, TierSorted, Added, TierCount, Fits, Tracks;
    if n == 0 {
      AfterAll(es);
      TracksNothing(es);
    } else {
      var k := n - 1;
      ReadsThrough(es, k);
      AfterNext(es, k);
      if After(es, k).Done? {
        ReachOf(es, k, After(es, k).list);
        if Fits(es, k) {
          TracksNext(es, k, After(es, k).list);
        }
      }
    }
  }

  // ---- Holes ---------------------------------------------------------------------------------------------------

  lemma {:induction false} FlatHasTier(tiers: seq<seq<string>>, t: nat)
    ensures HasTier(Flat(tiers), t) <==> t < |tiers| && tiers[t] != []
  {
    if tiers != [] {
      var n := |tiers| - 1;
      FlatHasTier(tiers[..n], t);
      var last := Tier(tiers[n], n);
      if t == n && tiers[n] != [] {
        assert last[0] in Flat(tiers);
      }
      if t < n && tiers[t] != [] {
        var e :| e in Flat(tiers[..n]) && e.tier == t;
        assert e in Flat(tiers);
      }
      if HasTier(Flat(tiers), t) {
        var e :| e in Flat(tiers) && e.tier == t;
        assert e in Flat(tiers[..n]) || e in last;
      }
    }
  }

  lemma {:induction false} FlatTierSorted(tiers: seq<seq<string>>)
    ensures TierSorted(Flat(tiers))
  {
    if tiers != [] {
      var init := tiers[..|tiers| - 1];
      FlatTierSorted(init);
      forall e | e in Flat(init) ensures e.tier < |init| {
        FlatTiers(init, e);
      }
    }
  }

  lemma GapFreeIsNoHole(tiers: seq<seq<string>>)
    ensures GapFree(Flat(tiers)) <==> NoHole(tiers)
  {
    var es := Flat(tiers);
    FlatTierSorted(tiers);
    forall t: nat ensures HasTier(es, t) <==> t < |tiers| && tiers[t] != [] {
      FlatHasTier(tiers, t);
    }
    if es != [] {
      LastTier(tiers);
    }
    hide Flat;
    if GapFree(es) {
      forall i, j | 0 <= i < j < |tiers| && tiers[j] != [] ensures tiers[i] != [] {
        assert HasTier(es, j);
        BelowLast(es, j);
        assert HasTier(es, i);
      }
    }
  }

  lemma LastTier(tiers: seq<seq<string>>)
    requires Flat(tiers) != []
    ensures HasTier(Flat(tiers), TierCount(Flat(tiers)) - 1)
  {
    var es := Flat(tiers);
    assert es[|es| - 1] in es;
  }

  lemma BelowLast(es: seq<AnnounceUrl>, t: nat)
    requires TierSorted(es) && HasTier(es, t)
    ensures t < TierCount(es)
  {
    var k :| 0 <= k < |es| && es[k].tier == t;
    assert k < |es| - 1 ==> es[k].tier <= es[|es| - 1].tier;
  }

  /** Without holes the tiers start at 0 and go up one at a time, and only then. */
  ghost predicate Steps(es: seq<AnnounceUrl>) {
    forall k: nat :: k < |es| ==> Step(es, k)
  }

  ghost predicate Step(es: seq<AnnounceUrl>, k: nat)
    requires k < |es|
  {
    es[k].tier <= if k == 0 then 0 else es[k - 1].tier + 1
  }

  lemma {:induction false} StepsLeaveNoGap(es: seq<AnnounceUrl>)
    requires TierSorted(es) && Steps(es)
    ensures GapFree(es)
  {
    if es != [] {
      var n := |es| - 1;
      var init := es[..n];
      assert Step(es, n);
      forall k: nat | k < n ensures Step(init, k) {
        assert Step(es, k);
      }
      StepsLeaveNoGap(init);
      assert es == init + [es[n]];
      forall t: nat | t < TierCount(es) ensures HasTier(es, t) {
        if t == es[n].tier {
          assert es[n] in es;
        } else {
          assert HasTier(init, t);
          var e :| e in init && e.tier == t;
        }
      }
    }
  }

  lemma NoGapSteps(es: seq<AnnounceUrl>)
    requires TierSorted(es) && GapFree(es)
    ensures Steps(es)
  {
    forall k: nat | k < |es| ensures Step(es, k) {
      if es[k].tier > 0 {
        var t := es[k].tier - 1;
        assert es[k] in es;
        BelowLast(es, es[k].tier);
        assert HasTier(es, t);
        var j :| 0 <= j < |es| && es[j].tier == t;
      }
    }
  }

  lemma FitIsSteps(es: seq<AnnounceUrl>)
    requires TierSorted(es)
    ensures AllFit(es, |es|) <==> Steps(es) && NoTierLost(es)
  {
    hide Closes;
    if Steps(es) && NoTierLost(es) {
      forall k: nat | k < |es| ensures Fits(es, k) {
        assert Step(es, k);
      }
    }
    if AllFit(es, |es|) {
      forall k: nat | k < |es| ensures Step(es, k) {
        assert Fits(es, k);
      }
      forall k | 0 < k < |es| && es[k].tier != es[k - 1].tier ensures !Closes(es, k - 1) {
        assert Fits(es, k);
      }
    }
  }

  // ---- The main results ----------------------------------------------------------------------------------------

  /**
   * A nested list is accepted exactly when no empty tier comes before a tier with entries, and no tier that another one
   * follows ends with a URL that is the last one left of an earlier group.
   */
  lemma AcceptedExactly(tiers: seq<seq<string>>)
    ensures AddAll([], Flat(tiers)).Done? <==> NoHole(tiers) && NoTierLost(Flat(tiers))
  {
    var es := Flat(tiers);
    FlatTierSorted(tiers);
    GapFreeIsNoHole(tiers);
    hide Flat, NoHole, NoTierLost, AllFit, Steps, GapFree;
    ReadsThrough(es, |es|);
    AfterAll(es);
    FitIsSteps(es);
    if Steps(es) {
      StepsLeaveNoGap(es);
    }
    if GapFree(es) {
      NoGapSteps(es);
    }
  }

  /** No URL is in two tiers; it may be in one tier twice. */
  ghost predicate OneTierEach(es: seq<AnnounceUrl>) {
    forall i, j :: 0 <= i < j < |es| && es[i].url == es[j].url ==> es[i].tier == es[j].tier
  }

  /** Then nothing ever moves. */
  lemma {:induction false} NothingCloses(es: seq<AnnounceUrl>, k: nat)
    requires TierSorted(es) && OneTierEach(es) && k < |es|
    ensures !Closes(es, k)
    decreases k, 1
  {
    hide Group;
    if Closes(es, k) {
      var p: nat :| p < k && es[p].url == es[k].url && Group(es, p) < Group(es, k);
      SameGroup(es, p, k);
    }
  }

  lemma {:induction false} SameGroup(es: seq<AnnounceUrl>, p: nat, k: nat)
    requires TierSorted(es) && OneTierEach(es) && p <= k < |es| && es[p].tier == es[k].tier
    ensures Group(es, p) == Group(es, k)
    decreases k, 0
  {
    hide Closes;
    if p < k {
      NothingCloses(es, k - 1);
      SameGroup(es, p, k - 1);
    }
  }

  /** The list r has exactly the first n entries. */
  ghost predicate Holds(r: seq<AnnounceUrl>, es: seq<AnnounceUrl>, n: nat)
    requires n <= |es|
  {
    Inv(r) && forall e :: e in r <==> e in es[..n]
  }

  lemma {:induction false} ReadAsWritten(es: seq<AnnounceUrl>, n: nat)
    requires OneTierEach(es) && n <= |es| && After(es, n).Done?
    ensures Holds(After(es, n).list, es, n)
  {
    hide After, Added, Inv;
    if n == 0 {
      AfterAll(es);
      EmptyInv();
    } else {
      AfterNext(es, n - 1);
      ReadAsWritten(es, n - 1);
      HoldsNext(es, n - 1, After(es, n - 1).list);
    }
  }

  lemma HoldsNext(es: seq<AnnounceUrl>, k: nat, r: seq<AnnounceUrl>)
    requires OneTierEach(es) && k < |es| && Holds(r, es, k) && es[k].tier <= TierCount(r)
    ensures Holds(Added(r, es[k]), es, k + 1)
  {
    AddedKeeps(r, es[k]);
    InsertedMembers(r, es[k]);
    var j := FindUrl(r, es[k].url);
    assert es[..k + 1] == es[..k] + [es[k]];
    hide Inv, Inserted, FindUrl;
    if j < |r| {
      assert r[j] in r && r[j] in es[..k];
      assert r[j].tier == es[k].tier;
    }
  }

  /** A list with no URL in two tiers is accepted exactly when it has no hole, and read as its entries. */
  lemma OneTierEachAccepted(tiers: seq<seq<string>>)
    requires OneTierEach(Flat(tiers))
    ensures AddAll([], Flat(tiers)).Done? <==> NoHole(tiers)
    ensures NoHole(tiers) ==>
              var r := AddAll([], Flat(tiers)).list; Inv(r) && forall e :: e in r <==> e in Flat(tiers)
  {
    var es := Flat(tiers);
    AcceptedExactly(tiers);
    FlatTierSorted(tiers);
    AfterAll(es);
    hide Flat, NoHole, Closes, After;
    forall k | 0 < k < |es| && es[k].tier != es[k - 1].tier ensures !Closes(es, k - 1) {
      NothingCloses(es, k - 1);
    }
    if NoHole(tiers) {
      ReadAsWritten(es, |es|);
      assert es[..|es|] == es;
    }
  }

  // ---- A repeated tier -----------------------------------------------------------------------------------------

  lemma OneUrlTier(tiers: seq<seq<string>>, t: nat, url: string)
    requires t < |tiers| && tiers[t] == [url]
    ensures Flat(tiers[..t + 1]) == Flat(tiers[..t]) + [AnnounceUrl(url, t)]
  {
    assert tiers[..t + 1] == tiers[..t] + [[url]];
    FlatLast(tiers[..t], [url]);
    hide Flat;
    assert Tier([url], t) == [AnnounceUrl(url, t)];
  }

  lemma TierFollows(tiers: seq<seq<string>>, t: nat) returns (more: seq<AnnounceUrl>)
    requires t < |tiers| && tiers[t] != []
    ensures Flat(tiers) == Flat(tiers[..t]) + more && more != [] && more[0].tier == t
  {
    var rest := FlatPrefix(tiers, t + 1);
    assert tiers[..t + 1] == tiers[..t] + [tiers[t]];
    FlatLast(tiers[..t], tiers[t]);
    more := Tier(tiers[t], t) + rest;
  }

  lemma EarlierTiers(tiers: seq<seq<string>>, t: nat)
    requires t <= |tiers|
    ensures forall e :: e in Flat(tiers[..t]) ==> e.tier < t
  {
    forall e | e in Flat(tiers[..t]) ensures e.tier < t {
      FlatTiers(tiers[..t], e);
    }
  }

  /** The entry after the only one of a tier, with the same URL, closes that tier. */
  lemma RepeatCloses(es: seq<AnnounceUrl>, k: nat)
    requires 0 < k < |es| && es[k].url == es[k - 1].url && es[k].tier != es[k - 1].tier
    requires k > 1 ==> es[k - 2].tier != es[k - 1].tier
    ensures Closes(es, k)
  {
    var p: nat := k - 1;
    forall q: nat | q < k && Latest(es, k, q) && Group(es, q) == Group(es, p) ensures q == p {
      if q < p {
        GroupGrows(es, q, k - 2);
      }
    }
    assert OnlyOne(es, k, p);
    assert Latest(es, k, p) && es[p].url == es[k].url && Group(es, p) < Group(es, k);
  }

  /**
   * Well-formed lists are rejected: a tier of one URL, repeated as the whole next tier, closes up, and a tier with
   * entries after it is one too high.
   */
  lemma RepeatedTierFails(tiers: seq<seq<string>>, t: nat, url: string)
    requires t + 2 < |tiers| && tiers[t] == tiers[t + 1] == [url] && tiers[t + 2] != []
    ensures AddAll([], Flat(tiers)).ContractFailed?
  {
    var before := Flat(tiers[..t]);
    OneUrlTier(tiers, t, url);
    OneUrlTier(tiers, t + 1, url);
    var more := TierFollows(tiers, t + 2);
    EarlierTiers(tiers, t);
    AcceptedExactly(tiers);
    var es := Flat(tiers);
    hide Flat, Closes, NoHole;
    var k := |before| + 1;
    assert es == before + [AnnounceUrl(url, t)] + [AnnounceUrl(url, t + 1)] + more;
    assert k > 1 ==> es[k - 2] in before;
    RepeatCloses(es, k);
    assert es[k + 1] == more[0];
  }
}
