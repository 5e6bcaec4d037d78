/**
 * Announce lists as values: what each operation of include/dottorrent/announce_url_list.hpp and src/metafile.cpp makes
 * of a list, and what every operation keeps.
 */
module Trackers {
  import opened Options
  import opened Ordering

  datatype AnnounceUrl = AnnounceUrl(url: string, tier: nat)

  predicate Before(a: AnnounceUrl, b: AnnounceUrl) {
    a.tier < b.tier || (a.tier == b.tier && Less(a.url, b.url))
  }

  lemma BeforeTotal(a: AnnounceUrl, b: AnnounceUrl)
    ensures Before(a, b) || a == b || Before(b, a)
    ensures Before(a, b) ==> !Before(b, a)
  {
    LessTotal(a.url, b.url);
    if Less(a.url, b.url) {
      LessAsymmetric(a.url, b.url);
    }
  }

  lemma NotBeforeTransitive(a: AnnounceUrl, b: AnnounceUrl, c: AnnounceUrl)
    requires !Before(b, a) && !Before(c, b)
    ensures !Before(c, a)
  {
    LessTotal(a.url, b.url);
    LessTotal(b.url, c.url);
    if Less(a.url, b.url) && Less(b.url, c.url) {
      LessTransitive(a.url, b.url, c.url);
    }
    if Less(c.url, a.url) {
      LessAsymmetric(c.url, a.url);
    }
  }

  // ---- The invariant -------------------------------------------------------------------------------------------

  /** Sorted by tier, and by URL within a tier. */
  ghost predicate Ordered(s: seq<AnnounceUrl>) {
    forall i, j :: 0 <= i < j < |s| ==> !Before(s[j], s[i])
  }

  function TierCount(s: seq<AnnounceUrl>): nat {
    if s == [] then 0 else s[|s| - 1].tier + 1
  }

  ghost predicate HasTier(s: seq<AnnounceUrl>, tier: nat) {
    exists e :: e in s && e.tier == tier
  }

  /** Tiers are contiguous from 0. */
  ghost predicate GapFree(s: seq<AnnounceUrl>) {
    forall t: nat :: t < TierCount(s) ==> HasTier(s, t)
  }

  ghost predicate HasUrl(s: seq<AnnounceUrl>, url: string) {
    exists e :: e in s && e.url == url
  }

  ghost predicate Unique(s: seq<AnnounceUrl>) {
    forall i, j :: 0 <= i < j < |s| ==> s[i].url != s[j].url
  }

  ghost predicate Inv(s: seq<AnnounceUrl>) {
    Ordered(s) && GapFree(s) && Unique(s)
  }

  /** In an ordered list the last tier is the highest. */
  lemma TiersBelowCount(s: seq<AnnounceUrl>, e: AnnounceUrl)
    requires Ordered(s) && e in s
    ensures e.tier < TierCount(s)
  {
    var k :| 0 <= k < |s| && s[k] == e;
    if k < |s| - 1 {
      assert !Before(s[|s| - 1], s[k]);
    }
  }

  /** A tier bound on an ordered list that is reached is its tier count. */
  lemma CountIs(s: seq<AnnounceUrl>, n: nat)
    requires Ordered(s)
    requires forall e :: e in s ==> e.tier < n
    requires n > 0 ==> HasTier(s, n - 1)
    ensures TierCount(s) == n
  {
    if s != [] {
      assert s[|s| - 1] in s;
    }
    if n > 0 {
      var e :| e in s && e.tier == n - 1;
      TiersBelowCount(s, e);
    }
  }

  // ---- Insertion -----------------------------------------------------------------------------------------------

  function Inserted(s: seq<AnnounceUrl>, a: AnnounceUrl): seq<AnnounceUrl> {
    if s == [] || Before(a, s[0]) then [a] + s else [s[0]] + Inserted(s[1..], a)
  }

  /** Inserting at the upper bound. */
  lemma {:induction false} InsertedAtBound(s: seq<AnnounceUrl>, a: AnnounceUrl, k: nat)
    requires k <= |s| && (forall i :: 0 <= i < k ==> !Before(a, s[i])) && (k < |s| ==> Before(a, s[k]))
    ensures Inserted(s, a) == s[..k] + [a] + s[k..]
  {
    if k == 0 {
      assert s[..0] + [a] + s[0..] == [a] + s;
    } else {
      InsertedAtBound(s[1..], a, k - 1);
      assert s[..k] == [s[0]] + s[1..][..k - 1] && s[k..] == s[1..][k - 1..];
    }
  }

  lemma {:induction false} InsertedBag(s: seq<AnnounceUrl>, a: AnnounceUrl)
    ensures multiset(Inserted(s, a)) == multiset(s) + multiset{a}
  {
    if s != [] && !Before(a, s[0]) {
      InsertedBag(s[1..], a);
      assert s == [s[0]] + s[1..];
    }
  }

  lemma InsertedMembers(s: seq<AnnounceUrl>, a: AnnounceUrl)
    ensures forall e :: e in Inserted(s, a) <==> e == a || e in s
  {
    InsertedBag(s, a);
    forall e ensures e in Inserted(s, a) <==> e == a || e in s {
      assert e in Inserted(s, a) <==> e in multiset(Inserted(s, a));
      assert e in s <==> e in multiset(s);
    }
  }

  lemma {:induction false} InsertedOrdered(s: seq<AnnounceUrl>, a: AnnounceUrl)
    requires Ordered(s)
    ensures Ordered(Inserted(s, a))
  {
    hide Before;
    if s == [] {
    } else if Before(a, s[0]) {
      forall j | 0 <= j < |s| ensures !Before(s[j], a) {
        BeforeTotal(a, s[0]);
        if j > 0 {
          NotBeforeTransitive(a, s[0], s[j]);
        }
      }
    } else {
      InsertedOrdered(s[1..], a);
      InsertedMembers(s[1..], a);
      var t := Inserted(s[1..], a);
      forall j | 0 <= j < |t| ensures !Before(t[j], s[0]) {
        assert t[j] in t;
      }
    }
  }

  /** A tier that exists or is the next one leaves no gap. */
  lemma InsertedGapFree(s: seq<AnnounceUrl>, a: AnnounceUrl)
    requires Ordered(s) && GapFree(s) && a.tier <= TierCount(s)
    ensures GapFree(Inserted(s, a))
    ensures TierCount(Inserted(s, a)) == if a.tier == TierCount(s) then a.tier + 1 else TierCount(s)
  {
    InsertedOrdered(s, a);
    InsertedMembers(s, a);
    var n := if a.tier == TierCount(s) then a.tier + 1 else TierCount(s);
    var r := Inserted(s, a);
    hide Inserted, Before;
    forall e | e in r ensures e.tier < n {
      if e in s {
        TiersBelowCount(s, e);
      }
    }
    forall t: nat | t < n ensures HasTier(r, t) {
      if t < TierCount(s) {
        assert HasTier(s, t);
      } else {
        assert a in r;
      }
    }
    CountIs(r, n);
  }

  lemma {:induction false} InsertedUnique(s: seq<AnnounceUrl>, a: AnnounceUrl)
    requires Unique(s) && !HasUrl(s, a.url)
    ensures Unique(Inserted(s, a))
  {
    hide Before;
    if s != [] && !Before(a, s[0]) {
      assert s[0] in s && s[0].url != a.url;
      InsertedUnique(s[1..], a);
      InsertedMembers(s[1..], a);
      var t := Inserted(s[1..], a);
      forall j | 0 <= j < |t| ensures t[j].url != s[0].url {
        assert t[j] in t;
      }
    }
  }

  // ---- Erasure -------------------------------------------------------------------------------------------------

  function Without(s: seq<AnnounceUrl>, pos: nat): seq<AnnounceUrl>
    requires pos < |s|
  {
    s[..pos] + s[pos + 1..]
  }

  /** An entry after the tier `gone` was closed up. */
  function Settled(e: AnnounceUrl, gone: nat): AnnounceUrl {
    AnnounceUrl(e.url, if e.tier > gone then e.tier - 1 else e.tier)
  }

  function SettleAll(s: seq<AnnounceUrl>, gone: nat): seq<AnnounceUrl> {
    seq(|s|, i requires 0 <= i < |s| => Settled(s[i], gone))
  }

  /** The list without one entry; when that was the last of its tier, the tiers above close up. */
  ghost function Erased(s: seq<AnnounceUrl>, pos: nat): seq<AnnounceUrl>
    requires pos < |s|
  {
    if HasTier(Without(s, pos), s[pos].tier) then Without(s, pos) else SettleAll(Without(s, pos), s[pos].tier)
  }

  lemma WithoutOrdered(s: seq<AnnounceUrl>, pos: nat)
    requires pos < |s| && Ordered(s)
    ensures Ordered(Without(s, pos))
  {
    var w := Without(s, pos);
    forall i, j | 0 <= i < j < |w| ensures !Before(w[j], w[i]) {
      assert w[i] == s[if i < pos then i else i + 1] && w[j] == s[if j < pos then j else j + 1];
    }
  }

  lemma WithoutMembers(s: seq<AnnounceUrl>, pos: nat, e: AnnounceUrl)
    requires pos < |s|
    ensures e in Without(s, pos) ==> e in s
    ensures e in s && e != s[pos] ==> e in Without(s, pos)
  {
    if e in s && e != s[pos] {
      var k :| 0 <= k < |s| && s[k] == e;
      assert Without(s, pos)[if k < pos then k else k - 1] == e;
    }
  }

  lemma SettleMembers(s: seq<AnnounceUrl>, gone: nat, e: AnnounceUrl)
    requires e in s
    ensures Settled(e, gone) in SettleAll(s, gone)
  {
    var k :| 0 <= k < |s| && s[k] == e;
    assert SettleAll(s, gone)[k] == Settled(e, gone);
  }

  lemma SettleOrdered(s: seq<AnnounceUrl>, gone: nat)
    requires Ordered(s) && !HasTier(s, gone)
    ensures Ordered(SettleAll(s, gone))
  {
    var r := SettleAll(s, gone);
    forall i, j | 0 <= i < j < |r| ensures !Before(r[j], r[i]) {
      assert !Before(s[j], s[i]) && s[i] in s && s[j] in s;
      assert s[i].tier != gone && s[j].tier != gone;
    }
  }

  lemma WithoutGapFree(s: seq<AnnounceUrl>, pos: nat)
    requires pos < |s| && Ordered(s) && GapFree(s) && HasTier(Without(s, pos), s[pos].tier)
    ensures GapFree(Without(s, pos)) && TierCount(Without(s, pos)) == TierCount(s)
  {
    var w := Without(s, pos);
    WithoutOrdered(s, pos);
    hide Before, Without;
    forall t: nat | t < TierCount(s) ensures HasTier(w, t) {
      assert HasTier(s, t);
      var e :| e in s && e.tier == t;
      WithoutMembers(s, pos, e);
    }
    forall e | e in w ensures e.tier < TierCount(s) {
      WithoutMembers(s, pos, e);
      TiersBelowCount(s, e);
    }
    CountIs(w, TierCount(s));
  }

  lemma SettleGapFree(s: seq<AnnounceUrl>, pos: nat)
    requires pos < |s| && Ordered(s) && GapFree(s) && !HasTier(Without(s, pos), s[pos].tier)
    ensures Ordered(SettleAll(Without(s, pos), s[pos].tier))
    ensures GapFree(SettleAll(Without(s, pos), s[pos].tier))
    ensures TierCount(SettleAll(Without(s, pos), s[pos].tier)) == TierCount(s) - 1
  {
    var w := Without(s, pos);
    var gone := s[pos].tier;
    var r := SettleAll(w, gone);
    WithoutOrdered(s, pos);
    SettleOrdered(w, gone);
    TiersBelowCount(s, s[pos]);
    var n := TierCount(s) - 1;
    hide Before, Without, TierCount, Ordered;
    forall t: nat | t < n ensures HasTier(r, t) {
      var was := if t < gone then t else t + 1;
      assert HasTier(s, was);
      var e :| e in s && e.tier == was;
      WithoutMembers(s, pos, e);
      SettleMembers(w, gone, e);
    }
    forall e | e in r ensures e.tier < n {
      var k :| 0 <= k < |r| && r[k] == e;
      SettledBelow(s, pos, k);
    }
    CountIs(r, n);
  }

  lemma SettledBelow(s: seq<AnnounceUrl>, pos: nat, k: nat)
    requires pos < |s| && Ordered(s) && !HasTier(Without(s, pos), s[pos].tier) && k < |Without(s, pos)|
    ensures Settled(Without(s, pos)[k], s[pos].tier).tier < TierCount(s) - 1
  {
    var e := Without(s, pos)[k];
    TiersBelowCount(s, s[pos]);
    assert e in Without(s, pos);
    WithoutMembers(s, pos, e);
    TiersBelowCount(s, e);
  }

  /** Erasing keeps the list ordered and gap-free. */
  lemma ErasedKeeps(s: seq<AnnounceUrl>, pos: nat)
    requires pos < |s| && Ordered(s) && GapFree(s)
    ensures Ordered(Erased(s, pos)) && GapFree(Erased(s, pos))
    ensures TierCount(Erased(s, pos)) == TierCount(s) - if HasTier(Without(s, pos), s[pos].tier) then 0 else 1
  {
    hide Ordered, GapFree, TierCount;
    if HasTier(Without(s, pos), s[pos].tier) {
      WithoutOrdered(s, pos);
      WithoutGapFree(s, pos);
    } else {
      SettleGapFree(s, pos);
    }
  }

  /** Which entries are left, and in which tiers. */
  lemma ErasedTiers(s: seq<AnnounceUrl>, pos: nat, e: AnnounceUrl)
    requires pos < |s| && e in s && e != s[pos]
    ensures (if HasTier(Without(s, pos), s[pos].tier) then e else Settled(e, s[pos].tier)) in Erased(s, pos)
  {
    WithoutMembers(s, pos, e);
    SettleMembers(Without(s, pos), s[pos].tier, e);
  }

  // ---- Adding and removing trackers ----------------------------------------------------------------------------

  /** The first entry with a URL, or the end. */
  function FindUrl(s: seq<AnnounceUrl>, url: string): (k: nat)
    ensures k <= |s| && (k < |s| ==> s[k].url == url)
    ensures forall i :: 0 <= i < k ==> s[i].url != url
  {
    if s == [] || s[0].url == url then 0 else 1 + FindUrl(s[1..], url)
  }

  lemma FindsUrl(s: seq<AnnounceUrl>, url: string)
    ensures FindUrl(s, url) < |s| <==> HasUrl(s, url)
  {
    var k := FindUrl(s, url);
    if k < |s| {
      assert s[k] in s;
    }
  }

  function FindEntry(s: seq<AnnounceUrl>, a: AnnounceUrl): (k: nat)
    ensures k <= |s| && (k < |s| ==> s[k] == a)
    ensures k < |s| <==> a in s
    ensures forall i :: 0 <= i < k ==> s[i] != a
  {
    if s == [] || s[0] == a then 0 else 1 + FindEntry(s[1..], a)
  }

  /** `add_tracker`: a URL that is there already moves to the new tier. */
  ghost function Added(s: seq<AnnounceUrl>, a: AnnounceUrl): seq<AnnounceUrl> {
    var k := FindUrl(s, a.url);
    if k == |s| then Inserted(s, a)
    else if s[k].tier == a.tier then s
    else
      InsertedMembers(s, a);
      assert s[k] in s;
      Erased(Inserted(s, a), FindEntry(Inserted(s, a), s[k]))
  }

  /** `remove_tracker` by URL */
  ghost function Removed(s: seq<AnnounceUrl>, url: string): seq<AnnounceUrl> {
    if FindUrl(s, url) == |s| then s else Erased(s, FindUrl(s, url))
  }

  /** `remove_tracker` by URL and tier */
  ghost function RemovedEntry(s: seq<AnnounceUrl>, a: AnnounceUrl): seq<AnnounceUrl> {
    if FindEntry(s, a) == |s| then s else Erased(s, FindEntry(s, a))
  }

  lemma {:induction false} InsertedSplit(s: seq<AnnounceUrl>, a: AnnounceUrl) returns (k: nat)
    ensures k <= |s| && Inserted(s, a) == s[..k] + [a] + s[k..]
  {
    if s == [] || Before(a, s[0]) {
      k := 0;
    } else {
      k := InsertedSplit(s[1..], a);
      k := k + 1;
      assert s == [s[0]] + s[1..];
    }
  }

  lemma ErasedUnique(s: seq<AnnounceUrl>, pos: nat)
    requires pos < |s| && Unique(Without(s, pos))
    ensures Unique(Erased(s, pos))
  {
  }

  lemma WithoutUnique(s: seq<AnnounceUrl>, pos: nat)
    requires pos < |s|
    requires forall i, j :: 0 <= i < j < |s| && i != pos && j != pos ==> s[i].url != s[j].url
    ensures Unique(Without(s, pos))
  {
    var w := Without(s, pos);
    forall i, j | 0 <= i < j < |w| ensures w[i].url != w[j].url {
      assert w[i] == s[if i < pos then i else i + 1] && w[j] == s[if j < pos then j else j + 1];
    }
  }

  /** Moving a URL: the old entry, at `pos`, is the only other one with that URL. */
  lemma MovedAt(s: seq<AnnounceUrl>, a: AnnounceUrl, k: nat, b: nat, t: seq<AnnounceUrl>, pos: nat)
    requires Unique(s) && k < |s| && s[k].url == a.url && b <= |s| && t == s[..b] + [a] + s[b..]
    requires pos == if k < b then k else k + 1
    ensures Unique(Without(t, pos))
  {
    forall i, j | 0 <= i < j < |t| && i != pos && j != pos ensures t[i].url != t[j].url {
      var ii := if i == b then k else if i < b then i else i - 1;
      var jj := if j == b then k else if j < b then j else j - 1;
      assert t[i].url == s[ii].url && t[j].url == s[jj].url && ii != jj;
    }
    WithoutUnique(t, pos);
  }

  lemma MovedFrom(s: seq<AnnounceUrl>, a: AnnounceUrl, k: nat, b: nat, t: seq<AnnounceUrl>)
    requires Unique(s) && k < |s| && s[k].url == a.url && s[k].tier != a.tier
    requires b <= |s| && t == s[..b] + [a] + s[b..]
    ensures FindEntry(t, s[k]) == if k < b then k else k + 1
  {
    var pos := FindEntry(t, s[k]);
    var kk := if k < b then k else k + 1;
    hide FindEntry;
    assert t[kk] == s[k];
    PlaceOfMoved(s, a, k, b, t, pos);
  }

  lemma PlaceOfMoved(s: seq<AnnounceUrl>, a: AnnounceUrl, k: nat, b: nat, t: seq<AnnounceUrl>, pos: nat)
    requires Unique(s) && k < |s| && s[k] != a && b <= |s| && t == s[..b] + [a] + s[b..]
    requires pos < |t| && t[pos] == s[k]
    ensures pos == if k < b then k else k + 1
  {
    assert pos != b;
    var i := if pos < b then pos else pos - 1;
    assert t[pos] == s[i];
  }

  lemma MovedUnique(s: seq<AnnounceUrl>, a: AnnounceUrl, k: nat)
    requires Unique(s) && k < |s| && s[k].url == a.url && s[k].tier != a.tier
    ensures s[k] in Inserted(s, a)
    ensures Unique(Without(Inserted(s, a), FindEntry(Inserted(s, a), s[k])))
  {
    InsertedMembers(s, a);
    var t := Inserted(s, a);
    var b := InsertedSplit(s, a);
    hide Inserted, Unique, Without;
    MovedFrom(s, a, k, b, t);
    MovedAt(s, a, k, b, t, FindEntry(t, s[k]));
  }

  /** Adding or moving a tracker keeps the invariant. */
  lemma AddedKeeps(s: seq<AnnounceUrl>, a: AnnounceUrl)
    requires Inv(s) && a.tier <= TierCount(s)
    ensures Inv(Added(s, a))
  {
    var k := FindUrl(s, a.url);
    InsertedMembers(s, a);
    InsertedOrdered(s, a);
    InsertedGapFree(s, a);
    hide Inserted, Ordered, GapFree, Erased;
    if k == |s| {
      hide Unique;
      InsertedUnique(s, a);
    } else if s[k].tier != a.tier {
      hide Unique;
      MovedUnique(s, a, k);
      ErasedKeeps(Inserted(s, a), FindEntry(Inserted(s, a), s[k]));
      ErasedUnique(Inserted(s, a), FindEntry(Inserted(s, a), s[k]));
    }
  }

  lemma ErasedInv(s: seq<AnnounceUrl>, pos: nat)
    requires pos < |s| && Inv(s)
    ensures Inv(Erased(s, pos))
  {
    hide Ordered, GapFree, Erased;
    ErasedKeeps(s, pos);
    WithoutUnique(s, pos);
    ErasedUnique(s, pos);
  }

  /** Whether moving the URL of `was` away from its tier leaves that tier empty. */
  ghost predicate AloneInTier(s: seq<AnnounceUrl>, was: AnnounceUrl) {
    forall e :: e in s && e.tier == was.tier ==> e == was
  }

  /** Where an entry is after `was` moved: tiers above an emptied one close up. */
  ghost function AfterMove(s: seq<AnnounceUrl>, was: AnnounceUrl, e: AnnounceUrl): AnnounceUrl {
    if AloneInTier(s, was) then Settled(e, was.tier) else e
  }

  /** Moving a tracker: it is in the tier asked for and the others where they were, up to an emptied tier closing up. */
  lemma MovedTracker(s: seq<AnnounceUrl>, a: AnnounceUrl, k: nat, e: AnnounceUrl)
    requires Inv(s) && k < |s| && s[k].url == a.url && s[k].tier != a.tier
    requires e == a || (e in s && e != s[k])
    ensures AfterMove(s, s[k], e) in Added(s, a)
  {
    assert FindUrl(s, a.url) == k;
    InsertedMembers(s, a);
    var t := Inserted(s, a);
    var pos := FindEntry(t, s[k]);
    MovedLeavesAlone(s, a, k);
    hide Inserted, Inv, FindUrl, FindEntry;
    ErasedTiers(t, pos, e);
  }

  lemma MovedLeavesAlone(s: seq<AnnounceUrl>, a: AnnounceUrl, k: nat)
    requires Unique(s) && k < |s| && s[k].url == a.url && s[k].tier != a.tier
    ensures s[k] in Inserted(s, a)
    ensures HasTier(Without(Inserted(s, a), FindEntry(Inserted(s, a), s[k])), s[k].tier) <==> !AloneInTier(s, s[k])
  {
    InsertedMembers(s, a);
    var t := Inserted(s, a);
    var pos := FindEntry(t, s[k]);
    hide Inserted, FindEntry, Erased;
    var w := Without(t, pos);
    if HasTier(w, s[k].tier) {
      var e :| e in w && e.tier == s[k].tier;
      WithoutMembers(t, pos, e);
      OldIsGone(s, a, k);
      assert e in s && e != s[k];
    }
    if !AloneInTier(s, s[k]) {
      var e :| e in s && e.tier == s[k].tier && e != s[k];
      WithoutMembers(t, pos, e);
    }
  }

  lemma OldIsGone(s: seq<AnnounceUrl>, a: AnnounceUrl, k: nat)
    requires Unique(s) && k < |s| && s[k].url == a.url && s[k].tier != a.tier
    ensures s[k] in Inserted(s, a)
    ensures s[k] !in Without(Inserted(s, a), FindEntry(Inserted(s, a), s[k]))
  {
    InsertedMembers(s, a);
    var t := Inserted(s, a);
    MovedUnique(s, a, k);
    hide Inserted, FindEntry, Without, Unique;
    var w := Without(t, FindEntry(t, s[k]));
    WithoutMembers(t, FindEntry(t, s[k]), a);
    if s[k] in w {
      OneEntryPerUrl(w, a, s[k]);
    }
  }

  lemma OneEntryPerUrl(s: seq<AnnounceUrl>, e: AnnounceUrl, f: AnnounceUrl)
    requires Unique(s) && e in s && f in s && e.url == f.url
    ensures e == f
  {
    var i :| 0 <= i < |s| && s[i] == e;
    var j :| 0 <= j < |s| && s[j] == f;
    assert i == j;
  }

  // ---- What is left after a removal ---------------------------------------------------------------------------

  /** Without an entry the others are left, and its tier is empty exactly when it was alone there. */
  lemma WithoutEntry(s: seq<AnnounceUrl>, pos: nat)
    requires pos < |s| && Unique(s)
    ensures forall e :: e in Without(s, pos) <==> e in s && e.url != s[pos].url
    ensures HasTier(Without(s, pos), s[pos].tier) <==> !AloneInTier(s, s[pos])
  {
    var w := Without(s, pos);
    forall e ensures e in w <==> e in s && e.url != s[pos].url {
      WithoutMembers(s, pos, e);
      if e in w {
        var k :| 0 <= k < |w| && w[k] == e;
        assert e == s[if k < pos then k else k + 1];
      }
    }
    hide Without, Unique;
    if !AloneInTier(s, s[pos]) {
      var e :| e in s && e.tier == s[pos].tier && e != s[pos];
      WithoutMembers(s, pos, e);
    }
  }

  lemma SettledFrom(s: seq<AnnounceUrl>, gone: nat, f: AnnounceUrl)
    requires f in SettleAll(s, gone)
    ensures exists e :: e in s && f == Settled(e, gone)
  {
    var k :| 0 <= k < |s| && SettleAll(s, gone)[k] == f;
    assert s[k] in s;
  }

  /**
   * The result of taking `was` out: one entry less, none with its URL, and every other URL in its old tier, or one
   * lower when it was above a tier that `was` was alone in.
   */
  ghost predicate TakenOut(s: seq<AnnounceUrl>, was: AnnounceUrl, r: seq<AnnounceUrl>) {
    && |r| == |s| - 1 && !HasUrl(r, was.url)
    && (forall e :: e in s && e.url != was.url ==>
          AnnounceUrl(e.url, if AloneInTier(s, was) && e.tier > was.tier then e.tier - 1 else e.tier) in r)
    && (forall f :: f in r ==> exists e :: e in s && e.url != was.url && f.url == e.url)
  }

  lemma ErasedIsTakenOut(s: seq<AnnounceUrl>, pos: nat)
    requires pos < |s| && Unique(s)
    ensures TakenOut(s, s[pos], Erased(s, pos))
  {
    var w, was := Without(s, pos), s[pos];
    WithoutEntry(s, pos);
    assert |w| == |s| - 1;
    hide Without, HasTier, AloneInTier, Unique;
    var r := Erased(s, pos);
    forall e | e in s && e.url != was.url
      ensures AnnounceUrl(e.url, if AloneInTier(s, was) && e.tier > was.tier then e.tier - 1 else e.tier) in r
    {
      if AloneInTier(s, was) {
        SettleMembers(w, was.tier, e);
      }
    }
    forall f | f in r
      ensures exists e :: e in s && e.url != was.url && f.url == e.url
    {
      if AloneInTier(s, was) {
        SettledFrom(w, was.tier, f);
      }
    }
  }

  /** Removing a URL takes its entry out, in whatever tier, and changes nothing when there is none. */
  lemma RemovedTracker(s: seq<AnnounceUrl>, url: string)
    requires Unique(s)
    ensures !HasUrl(Removed(s, url), url)
    ensures !HasUrl(s, url) ==> Removed(s, url) == s
    ensures forall was :: was in s && was.url == url ==> TakenOut(s, was, Removed(s, url))
  {
    hide Erased, TakenOut;
    var k := FindUrl(s, url);
    if k < |s| {
      ErasedIsTakenOut(s, k);
      TakenOutUrl(s, s[k], Removed(s, url));
      forall was | was in s && was.url == url
        ensures was == s[k]
      {
        OneEntryPerUrl(s, was, s[k]);
      }
    }
  }

  lemma TakenOutUrl(s: seq<AnnounceUrl>, was: AnnounceUrl, r: seq<AnnounceUrl>)
    requires TakenOut(s, was, r)
    ensures !HasUrl(r, was.url)
  {
  }

  /** Removing a URL from a tier takes it out of that tier, and changes nothing when it is in another or in none. */
  lemma RemovedTrackerEntry(s: seq<AnnounceUrl>, a: AnnounceUrl)
    requires Unique(s)
    ensures a in s ==> TakenOut(s, a, RemovedEntry(s, a))
    ensures a !in s ==> RemovedEntry(s, a) == s
  {
    hide Erased, TakenOut;
    if a in s {
      ErasedIsTakenOut(s, FindEntry(s, a));
    }
  }

  /** A new URL joins the others; all entries are left as they are. */
  lemma NewTracker(s: seq<AnnounceUrl>, a: AnnounceUrl)
    requires !HasUrl(s, a.url)
    ensures multiset(Added(s, a)) == multiset(s) + multiset{a}
  {
    InsertedBag(s, a);
    FindsUrl(s, a.url);
  }

  /** A URL that is there already is moved, not doubled. */
  lemma MovedCount(s: seq<AnnounceUrl>, a: AnnounceUrl)
    requires Unique(s) && HasUrl(s, a.url)
    ensures |Added(s, a)| == |s|
    ensures a in s ==> Added(s, a) == s
  {
    hide HasUrl, FindUrl, FindEntry, Inserted, Erased, HasTier;
    FindsUrl(s, a.url);
    InsertedLength(s, a);
    InsertedMembers(s, a);
    var k := FindUrl(s, a.url);
    if a in s {
      OneEntryPerUrl(s, a, s[k]);
    } else {
      assert s[k] in s;
      ErasedLength(Inserted(s, a), FindEntry(Inserted(s, a), s[k]));
    }
  }

  lemma InsertedLength(s: seq<AnnounceUrl>, a: AnnounceUrl)
    ensures |Inserted(s, a)| == |s| + 1
  {
    InsertedBag(s, a);
    assert |Inserted(s, a)| == |multiset(Inserted(s, a))|;
  }

  lemma ErasedLength(s: seq<AnnounceUrl>, pos: nat)
    requires pos < |s|
    ensures |Erased(s, pos)| == |s| - 1
  {
  }

  /** The entries left after a move, other than the moved one, are old ones, in a tier below the count. */
  lemma MovedBelow(s: seq<AnnounceUrl>, a: AnnounceUrl, k: nat, f: AnnounceUrl)
    requires Inv(s) && k < |s| && s[k].url == a.url && s[k].tier < a.tier == TierCount(s)
    requires f in Added(s, a) && f.url != a.url
    ensures f.tier < if AloneInTier(s, s[k]) then TierCount(s) - 1 else TierCount(s)
  {
    assert FindUrl(s, a.url) == k;
    InsertedMembers(s, a);
    MovedLeavesAlone(s, a, k);
    var t := Inserted(s, a);
    var pos := FindEntry(t, s[k]);
    var w := Without(t, pos);
    hide Inserted, FindUrl, FindEntry, Without, HasTier, TierCount;
    var e := f;
    if AloneInTier(s, s[k]) {
      SettledFrom(w, s[k].tier, f);
      e :| e in w && f == Settled(e, s[k].tier);
    }
    WithoutMembers(t, pos, e);
    TiersBelowCount(s, e);
  }

  /** Without a tier a URL ends up in the last one, and alone there. */
  lemma LastTracker(s: seq<AnnounceUrl>, url: string) returns (tier: nat)
    requires Inv(s)
    ensures AnnounceUrl(url, tier) in Apply(s, AddLast(url))
    ensures forall f :: f in Apply(s, AddLast(url)) && f.url != url ==> f.tier < tier
  {
    hide Inv, Added, FindUrl, TierCount;
    if FindUrl(s, url) < |s| {
      tier := LastMoved(s, url);
    } else {
      tier := TierCount(s);
      LastNew(s, AnnounceUrl(url, tier));
    }
  }

  lemma LastNew(s: seq<AnnounceUrl>, a: AnnounceUrl)
    requires Inv(s) && FindUrl(s, a.url) == |s| && a.tier == TierCount(s)
    ensures a in Added(s, a) && forall f :: f in Added(s, a) && f.url != a.url ==> f.tier < a.tier
  {
    hide Inv, TierCount, Inserted, FindUrl;
    InsertedMembers(s, a);
    forall f | f in s
      ensures f.tier < a.tier
    {
      OldTierBelow(s, f);
    }
  }

  lemma LastMoved(s: seq<AnnounceUrl>, url: string) returns (tier: nat)
    requires Inv(s) && FindUrl(s, url) < |s|
    ensures AnnounceUrl(url, tier) in Added(s, AnnounceUrl(url, TierCount(s)))
    ensures forall f :: f in Added(s, AnnounceUrl(url, TierCount(s))) && f.url != url ==> f.tier < tier
  {
    hide Inv, TierCount, FindUrl, Added, AloneInTier;
    var a, k := AnnounceUrl(url, TierCount(s)), FindUrl(s, url);
    OldTierBelow(s, s[k]);
    tier := if AloneInTier(s, s[k]) then a.tier - 1 else a.tier;
    MovedTracker(s, a, k, a);
    forall f | f in Added(s, a) && f.url != url
      ensures f.tier < tier
    {
      MovedBelow(s, a, k, f);
    }
  }

  lemma OldTierBelow(s: seq<AnnounceUrl>, e: AnnounceUrl)
    requires Inv(s) && e in s
    ensures e.tier < TierCount(s)
  {
    TiersBelowCount(s, e);
  }

  // ---- The announce key ----------------------------------------------------------------------------------------

  function Raised(s: seq<AnnounceUrl>): seq<AnnounceUrl> {
    seq(|s|, i requires 0 <= i < |s| => AnnounceUrl(s[i].url, s[i].tier + 1))
  }

  /** A URL that is not in the list yet gets a tier of its own in front of the others. */
  function Prepended(s: seq<AnnounceUrl>, url: string): seq<AnnounceUrl> {
    [AnnounceUrl(url, 0)] + Raised(s)
  }

  lemma PrependedKeeps(s: seq<AnnounceUrl>, url: string)
    requires Inv(s) && !HasUrl(s, url)
    ensures Inv(Prepended(s, url))
  {
    var r := Prepended(s, url);
    forall i, j | 0 <= i < j < |r| ensures !Before(r[j], r[i]) && r[i].url != r[j].url {
      assert r[j] == AnnounceUrl(s[j - 1].url, s[j - 1].tier + 1) && s[j - 1] in s;
      if i > 0 {
        assert !Before(s[j - 1], s[i - 1]);
      }
    }
    PrependedGapFree(s, url);
  }

  lemma PrependedGapFree(s: seq<AnnounceUrl>, url: string)
    requires GapFree(s)
    ensures GapFree(Prepended(s, url))
  {
    var r := Prepended(s, url);
    assert TierCount(r) == TierCount(s) + 1;
    forall t: nat | t < TierCount(r) ensures HasTier(r, t) {
      if t == 0 {
        assert r[0] in r;
      } else {
        assert HasTier(s, t - 1);
        var k :| 0 <= k < |s| && s[k].tier == t - 1;
        assert r[k + 1] in r;
      }
    }
  }

  /** A URL that is not listed gets tier 0 for itself, and every other entry moves one tier down. */
  lemma AnnouncedFirst(s: seq<AnnounceUrl>, url: string)
    requires !HasUrl(s, url)
    ensures var r := Apply(s, AnnounceKey(url));
            && |r| == |s| + 1 && r[0] == AnnounceUrl(url, 0)
            && (forall e :: e in s ==> AnnounceUrl(e.url, e.tier + 1) in r)
            && (forall f :: f in r[1..] ==> f.tier > 0)
  {
    hide HasUrl, FindUrl;
    FindsUrl(s, url);
    assert Prepended(s, url)[1..] == Raised(s);
    forall e | e in s
      ensures AnnounceUrl(e.url, e.tier + 1) in Prepended(s, url)
    {
      var k :| 0 <= k < |s| && s[k] == e;
      assert Raised(s)[k] == AnnounceUrl(e.url, e.tier + 1);
    }
  }

  /** A listed URL changes nothing when it is announced. */
  lemma AnnouncedAgain(s: seq<AnnounceUrl>, url: string)
    requires HasUrl(s, url)
    ensures Apply(s, AnnounceKey(url)) == s
  {
    FindsUrl(s, url);
  }

  // ---- Runs ----------------------------------------------------------------------------------------------------

  datatype Op =
    | AddTo(url: string, tier: nat)
    | AddLast(url: string)
    | Remove(url: string)
    | RemoveFrom(url: string, tier: nat)
    | AnnounceKey(url: string)
    | Clear

  /** What the callers of `add_tracker` have to respect. */
  predicate Allowed(s: seq<AnnounceUrl>, op: Op) {
    op.AddTo? ==> op.tier <= TierCount(s)
  }

  ghost function Apply(s: seq<AnnounceUrl>, op: Op): seq<AnnounceUrl> {
    match op
    case AddTo(url, tier) => Added(s, AnnounceUrl(url, tier))
    case AddLast(url) => Added(s, AnnounceUrl(url, TierCount(s)))
    case Remove(url) => Removed(s, url)
    case RemoveFrom(url, tier) => RemovedEntry(s, AnnounceUrl(url, tier))
    case AnnounceKey(url) => if FindUrl(s, url) < |s| then s else Prepended(s, url)
    case Clear => []
  }

  ghost predicate AllowedRun(s: seq<AnnounceUrl>, ops: seq<Op>)
    decreases |ops|
  {
    ops != [] ==> Allowed(s, ops[0]) && AllowedRun(Apply(s, ops[0]), ops[1..])
  }

  ghost function Run(s: seq<AnnounceUrl>, ops: seq<Op>): seq<AnnounceUrl>
    decreases |ops|
  {
    if ops == [] then s else Run(Apply(s, ops[0]), ops[1..])
  }

  lemma ApplyKeeps(s: seq<AnnounceUrl>, op: Op)
    requires Inv(s) && Allowed(s, op)
    ensures Inv(Apply(s, op))
  {
    hide Inv, Added, Erased, Prepended;
    match op
    case AddTo(url, tier) => AddedKeeps(s, AnnounceUrl(url, tier));
    case AddLast(url) => AddedKeeps(s, AnnounceUrl(url, TierCount(s)));
    case Remove(url) => if FindUrl(s, url) < |s| { ErasedInv(s, FindUrl(s, url)); }
    case RemoveFrom(url, tier) =>
      if FindEntry(s, AnnounceUrl(url, tier)) < |s| { ErasedInv(s, FindEntry(s, AnnounceUrl(url, tier))); }
    case AnnounceKey(url) => if FindUrl(s, url) == |s| { PrependedKeeps(s, url); }
    case Clear => EmptyInv();
  }

  lemma EmptyInv()
    ensures Inv([])
  {
  }

  /** Every run of tracker operations from the empty list keeps it sorted, gap-free and without duplicates. */
  lemma {:induction false} RunKeeps(s: seq<AnnounceUrl>, ops: seq<Op>)
    requires Inv(s) && AllowedRun(s, ops)
    ensures Inv(Run(s, ops))
    decreases |ops|
  {
    hide Inv, Apply, Allowed;
    if ops != [] {
      ApplyKeeps(s, ops[0]);
      RunKeeps(Apply(s, ops[0]), ops[1..]);
    }
  }
}
