/** Rule-based dispatch recommendations.  Each asset's aggregates over the current
    view are checked against two threshold rules, in a fixed order; every fired rule
    emits one entry; the entries are stable-sorted by priority and cut to six. */
module Recommend {

  const CompositeThreshold: real := 80.0
  const CustomerThreshold: real := 10000.0
  const DamageThreshold: real := 70.0
  const CrewEtaThreshold: real := 45.0
  /** At most this many recommendations are shown. */
  const MaxRecommendations: nat := 6

  const DispatchAction: string := "Dispatch nearest crew; backfeed & partial load-shed; UAV recon"
  const RerouteAction: string := "Re-route standby crew; pre-position spares"

  /** Per-asset means over the current view (the grouping itself is an input here). */
  datatype Aggregate = Aggregate(assetId: string, comp: real, dmg: real, out: real, crew: real, cust: real)

  /** The values a recommendation cites as its reason; the text formatting is not modelled. */
  datatype Why =
    | CompositeAndCustomers(composite: real, customers: int)
    | DamageAndCrewEta(damage: real, crewEta: real)

  datatype Recommendation = Recommendation(asset: string, priority: int, action: string, why: Why)

  /** Priority-1 rule: high composite and many customers affected. */
  predicate DispatchRule(a: Aggregate)
  {
    a.comp > CompositeThreshold && a.cust > CustomerThreshold
  }

  /** Priority-2 rule: heavy damage and a slow crew. */
  predicate RerouteRule(a: Aggregate)
  {
    a.dmg > DamageThreshold && a.crew > CrewEtaThreshold
  }

  /** Truncation toward zero of a real, as an integer conversion does. */
  function TruncateToInt(x: real): (n: int)
    ensures x >= 0.0 ==> n as real <= x < n as real + 1.0
    ensures x < 0.0 ==> n as real - 1.0 < x <= n as real
  {
    if x >= 0.0 then x.Floor else -((-x).Floor)
  }

  function DispatchFor(a: Aggregate): Recommendation
  {
    Recommendation(a.assetId, 1, DispatchAction, CompositeAndCustomers(a.comp, TruncateToInt(a.cust)))
  }

  function RerouteFor(a: Aggregate): Recommendation
  {
    Recommendation(a.assetId, 2, RerouteAction, DamageAndCrewEta(a.dmg, a.crew))
  }

  /** The entries one asset emits, priority-1 rule first. */
  function Fired(a: Aggregate): seq<Recommendation>
  {
    (if DispatchRule(a) then [DispatchFor(a)] else []) + (if RerouteRule(a) then [RerouteFor(a)] else [])
  }

  /** All entries emitted for the assets, in asset order. */
  function Emitted(grp: seq<Aggregate>): seq<Recommendation>
  {
    if |grp| == 0 then [] else Emitted(grp[..|grp| - 1]) + Fired(grp[|grp| - 1])
  }

  /** What one asset emits: both rules are independent, and when both fire the
      priority-1 entry comes first. */
  lemma FiredCases(a: Aggregate)
    ensures DispatchRule(a) && RerouteRule(a) ==> Fired(a) == [DispatchFor(a), RerouteFor(a)]
    ensures DispatchRule(a) && !RerouteRule(a) ==> Fired(a) == [DispatchFor(a)]
    ensures !DispatchRule(a) && RerouteRule(a) ==> Fired(a) == [RerouteFor(a)]
    ensures !DispatchRule(a) && !RerouteRule(a) ==> Fired(a) == []
  {}

  /** The emission loop's step: one more asset appends what it fires. */
  lemma EmittedSnoc(grp: seq<Aggregate>, k: nat)
    requires k < |grp|
    ensures Emitted(grp[..k + 1]) == Emitted(grp[..k]) + Fired(grp[k])
  {
    assert grp[..k + 1][..k] == grp[..k];
  }

  /** Every entry an asset fires names that asset. */
  lemma FiredAsset(a: Aggregate, rec: Recommendation)
    requires rec in Fired(a)
    ensures rec.asset == a.assetId
  {}

  /** Emission is asset by asset: the entries of earlier assets precede those of later ones. */
  lemma {:induction false} EmittedAppend(a: seq<Aggregate>, b: seq<Aggregate>)
    ensures Emitted(a + b) == Emitted(a) + Emitted(b)
    decreases |b|
  {
    if |b| == 0 {
      assert a + b == a;
    } else {
      var b' := b[..|b| - 1];
      assert (a + b)[..|a + b| - 1] == a + b';
      assert (a + b)[|a + b| - 1] == b[|b| - 1];
      EmittedAppend(a, b');
    }
  }

  /** Every emitted entry was fired by some asset, and every fired entry is emitted. */
  lemma {:induction false} EmittedMembers(grp: seq<Aggregate>, rec: Recommendation)
    ensures rec in Emitted(grp) <==> exists j :: 0 <= j < |grp| && rec in Fired(grp[j])
    decreases |grp|
  {
    if |grp| > 0 {
      var init := grp[..|grp| - 1];
      EmittedMembers(init, rec);
      if rec in Emitted(grp) && rec !in Fired(grp[|grp| - 1]) {
        var j :| 0 <= j < |init| && rec in Fired(init[j]);
        assert grp[j] == init[j];
      }
      if exists j :: 0 <= j < |grp| && rec in Fired(grp[j]) {
        var j :| 0 <= j < |grp| && rec in Fired(grp[j]);
        if j < |grp| - 1 {
          assert init[j] == grp[j];
        }
      }
    }
  }

  /** Asset identifiers are unique, as grouping by asset makes them. */
  ghost predicate DistinctAssets(grp: seq<Aggregate>)
  {
    forall i, j :: 0 <= i < j < |grp| ==> grp[i].assetId != grp[j].assetId
  }

  /** With unique asset identifiers, an entry naming an asset was fired by that asset. */
  lemma EmittedFor(grp: seq<Aggregate>, j: nat, rec: Recommendation)
    requires DistinctAssets(grp) && j < |grp|
    requires rec in Emitted(grp) && rec.asset == grp[j].assetId
    ensures rec in Fired(grp[j])
  {
    EmittedMembers(grp, rec);
    var k :| 0 <= k < |grp| && rec in Fired(grp[k]);
    FiredAsset(grp[k], rec);
    assert k == j;
  }

  /** A priority-1 entry is emitted for an asset exactly when its mean composite
      exceeds 80 and its mean customer impact exceeds 10000. */
  lemma EmittedDispatchIff(grp: seq<Aggregate>, j: nat)
    requires DistinctAssets(grp) && j < |grp|
    ensures (exists rec :: rec in Emitted(grp) && rec.asset == grp[j].assetId && rec.priority == 1)
            <==> DispatchRule(grp[j])
  {
    var a := grp[j];
    if DispatchRule(a) {
      assert DispatchFor(a) in Fired(a);
      EmittedMembers(grp, DispatchFor(a));
    }
    forall rec | rec in Emitted(grp) && rec.asset == a.assetId && rec.priority == 1
      ensures DispatchRule(a)
    {
      EmittedFor(grp, j, rec);
    }
  }

  /** A priority-2 entry is emitted for an asset exactly when its mean damage
      exceeds 70 and its mean crew ETA exceeds 45 minutes. */
  lemma EmittedRerouteIff(grp: seq<Aggregate>, j: nat)
    requires DistinctAssets(grp) && j < |grp|
    ensures (exists rec :: rec in Emitted(grp) && rec.asset == grp[j].assetId && rec.priority == 2)
            <==> RerouteRule(grp[j])
  {
    var a := grp[j];
    if RerouteRule(a) {
      assert RerouteFor(a) in Fired(a);
      EmittedMembers(grp, RerouteFor(a));
    }
    forall rec | rec in Emitted(grp) && rec.asset == a.assetId && rec.priority == 2
      ensures RerouteRule(a)
    {
      EmittedFor(grp, j, rec);
    }
  }

  // ---------------------------------------------------------------------------
  // Stable sort by priority

  ghost predicate SortedByPriority(s: seq<Recommendation>)
  {
    forall i, j :: 0 <= i <= j < |s| ==> s[i].priority <= s[j].priority
  }

  /** The entries of a given priority, in their order. */
  function WithPriority(s: seq<Recommendation>, p: int): seq<Recommendation>
  {
    if |s| == 0 then [] else (if s[0].priority == p then [s[0]] else []) + WithPriority(s[1..], p)
  }

  /** The entries of priority p are exactly the entries of s that have priority p. */
  lemma {:induction false} WithPriorityMembers(s: seq<Recommendation>, p: int)
    ensures forall x :: x in WithPriority(s, p) <==> x in s && x.priority == p
  {
    if |s| > 0 {
      WithPriorityMembers(s[1..], p);
      assert forall x :: x in s <==> x == s[0] || x in s[1..];
    }
  }

  lemma {:induction false} WithPriorityAppend(a: seq<Recommendation>, b: seq<Recommendation>, p: int)
    ensures WithPriority(a + b, p) == WithPriority(a, p) + WithPriority(b, p)
  {
    if |a| == 0 {
      assert a + b == b;
    } else {
      assert (a + b)[1..] == a[1..] + b;
      assert (a + b)[0] == a[0];
      WithPriorityAppend(a[1..], b, p);
      var head := if a[0].priority == p then [a[0]] else [];
      assert WithPriority(a + b, p) == head + WithPriority(a[1..] + b, p);
      assert WithPriority(a, p) == head + WithPriority(a[1..], p);
    }
  }

  /** Puts x before the first entry whose priority is not smaller than its own. */
  function Insert(x: Recommendation, t: seq<Recommendation>): seq<Recommendation>
  {
    if |t| == 0 || x.priority <= t[0].priority then [x] + t
    else [t[0]] + Insert(x, t[1..])
  }

  /** Stable insertion sort by priority: the specification of the library sort. */
  function SortByPriority(s: seq<Recommendation>): seq<Recommendation>
  {
    if |s| == 0 then [] else Insert(s[0], SortByPriority(s[1..]))
  }

  lemma {:induction false} InsertPermutes(x: Recommendation, t: seq<Recommendation>)
    ensures multiset(Insert(x, t)) == multiset([x] + t)
    ensures |Insert(x, t)| == |t| + 1
  {
    if |t| > 0 && x.priority > t[0].priority {
      InsertPermutes(x, t[1..]);
      assert t == [t[0]] + t[1..];
    }
  }

  lemma {:induction false} InsertSorted(x: Recommendation, t: seq<Recommendation>)
    requires SortedByPriority(t)
    ensures SortedByPriority(Insert(x, t))
  {
    if |t| > 0 && x.priority > t[0].priority {
      InsertSorted(x, t[1..]);
      InsertPermutes(x, t[1..]);
      var r := Insert(x, t[1..]);
      forall y | y in r ensures t[0].priority <= y.priority {
        assert y in multiset(r);
        assert y == x || y in t[1..];
      }
      forall i | 0 <= i < |r| ensures t[0].priority <= r[i].priority {
        assert r[i] in r;
      }
    }
  }

  lemma {:induction false} InsertStable(x: Recommendation, t: seq<Recommendation>, p: int)
    ensures WithPriority(Insert(x, t), p) == WithPriority([x] + t, p)
  {
    if |t| > 0 && x.priority > t[0].priority {
      InsertStable(x, t[1..], p);
      WithPriorityAppend([t[0]], Insert(x, t[1..]), p);
      WithPriorityAppend([x], t[1..], p);
      WithPriorityAppend([t[0]], t[1..], p);
      WithPriorityAppend([x], t, p);
      assert [t[0]] + t[1..] == t;
      assert WithPriority([x], p) == [] || WithPriority([t[0]], p) == [];
    }
  }

  /** The sort result is sorted by priority and is a permutation of its input. */
  lemma {:induction false} SortByPrioritySortedPermutation(s: seq<Recommendation>)
    ensures SortedByPriority(SortByPriority(s))
    ensures multiset(SortByPriority(s)) == multiset(s)
    ensures |SortByPriority(s)| == |s|
  {
    if |s| > 0 {
      SortByPrioritySortedPermutation(s[1..]);
      InsertSorted(s[0], SortByPriority(s[1..]));
      InsertPermutes(s[0], SortByPriority(s[1..]));
      assert s == [s[0]] + s[1..];
    }
  }

  /** The sort is stable: the entries of each priority keep their relative order. */
  lemma {:induction false} SortByPriorityStable(s: seq<Recommendation>, p: int)
    ensures WithPriority(SortByPriority(s), p) == WithPriority(s, p)
  {
    if |s| > 0 {
      SortByPriorityStable(s[1..], p);
      InsertStable(s[0], SortByPriority(s[1..]), p);
      WithPriorityAppend([s[0]], SortByPriority(s[1..]), p);
      WithPriorityAppend([s[0]], s[1..], p);
      assert s == [s[0]] + s[1..];
    }
  }

  lemma {:induction false} InsertAfterSmaller(x: Recommendation, a: seq<Recommendation>, b: seq<Recommendation>)
    requires forall y :: y in a ==> y.priority < x.priority
    requires |b| == 0 || x.priority <= b[0].priority
    ensures Insert(x, a + b) == a + [x] + b
  {
    if |a| == 0 {
      assert a + b == b;
    } else {
      assert (a + b)[1..] == a[1..] + b;
      assert (a + b)[0] == a[0];
      InsertAfterSmaller(x, a[1..], b);
    }
  }

  /** Inserting a priority-1 entry in front of priority-1 entries followed by
      priority-2 entries puts it first. */
  lemma InsertHighest(x: Recommendation, a: seq<Recommendation>, b: seq<Recommendation>)
    requires x.priority == 1
    requires forall y :: y in a ==> y.priority == 1
    requires forall y :: y in b ==> y.priority == 2
    ensures Insert(x, a + b) == ([x] + a) + b
  {
    if |a| > 0 {
      assert (a + b)[0] == a[0] && a[0] in a;
    } else if |b| > 0 {
      assert a + b == b && b[0] in b;
    }
  }

  /** Inserting a priority-2 entry into priority-1 entries followed by priority-2
      entries puts it between the two groups. */
  lemma InsertLowest(x: Recommendation, a: seq<Recommendation>, b: seq<Recommendation>)
    requires x.priority == 2
    requires forall y :: y in a ==> y.priority == 1
    requires forall y :: y in b ==> y.priority == 2
    ensures Insert(x, a + b) == a + ([x] + b)
  {
    if |b| > 0 {
      assert b[0] in b;
    }
    InsertAfterSmaller(x, a, b);
  }

  /** Every entry of the priority-p selection has priority p. */
  lemma {:induction false} WithPriorityOnly(s: seq<Recommendation>, p: int)
    ensures forall y :: y in WithPriority(s, p) ==> y.priority == p
  {
    if |s| > 0 {
      WithPriorityOnly(s[1..], p);
    }
  }

  lemma SortByPriorityCons(x: Recommendation, rest: seq<Recommendation>)
    ensures SortByPriority([x] + rest) == Insert(x, SortByPriority(rest))
  {
    assert ([x] + rest)[0] == x && ([x] + rest)[1..] == rest;
  }

  lemma WithPriorityCons(x: Recommendation, rest: seq<Recommendation>, p: int)
    ensures WithPriority([x] + rest, p) == (if x.priority == p then [x] else []) + WithPriority(rest, p)
  {
    assert ([x] + rest)[0] == x && ([x] + rest)[1..] == rest;
  }

  /** Step of SortTwoPriorities for a priority-1 entry put in front. */
  lemma SortTwoPrioritiesStepHigh(x: Recommendation, rest: seq<Recommendation>)
    requires x.priority == 1
    requires SortByPriority(rest) == WithPriority(rest, 1) + WithPriority(rest, 2)
    ensures SortByPriority([x] + rest) == WithPriority([x] + rest, 1) + WithPriority([x] + rest, 2)
  {
    SortByPriorityCons(x, rest);
    WithPriorityCons(x, rest, 1);
    WithPriorityCons(x, rest, 2);
    WithPriorityOnly(rest, 1);
    WithPriorityOnly(rest, 2);
    InsertHighest(x, WithPriority(rest, 1), WithPriority(rest, 2));
  }

  /** Step of SortTwoPriorities for a priority-2 entry put in front. */
  lemma SortTwoPrioritiesStepLow(x: Recommendation, rest: seq<Recommendation>)
    requires x.priority == 2
    requires SortByPriority(rest) == WithPriority(rest, 1) + WithPriority(rest, 2)
    ensures SortByPriority([x] + rest) == WithPriority([x] + rest, 1) + WithPriority([x] + rest, 2)
  {
    SortByPriorityCons(x, rest);
    WithPriorityCons(x, rest, 1);
    WithPriorityCons(x, rest, 2);
    WithPriorityOnly(rest, 1);
    WithPriorityOnly(rest, 2);
    InsertLowest(x, WithPriority(rest, 1), WithPriority(rest, 2));
  }

  /** With priorities 1 and 2 only, the stable sort lists every priority-1 entry in
      emission order, then every priority-2 entry in emission order. */
  lemma {:induction false} SortTwoPriorities(s: seq<Recommendation>)
    requires forall x :: x in s ==> x.priority == 1 || x.priority == 2
    ensures SortByPriority(s) == WithPriority(s, 1) + WithPriority(s, 2)
  {
    if |s| > 0 {
      assert s[0] in s;
      assert forall y :: y in s[1..] ==> y in s;
      SortTwoPriorities(s[1..]);
      if s[0].priority == 1 {
        SortTwoPrioritiesStepHigh(s[0], s[1..]);
      } else {
        SortTwoPrioritiesStepLow(s[0], s[1..]);
      }
      assert s == [s[0]] + s[1..];
    }
  }

  /** A prefix of a sorted list is sorted. */
  lemma SortedPrefix(s: seq<Recommendation>, n: nat)
    requires SortedByPriority(s) && n <= |s|
    ensures SortedByPriority(s[..n])
  {}

  /** The first MaxRecommendations entries of a list. */
  function Top(s: seq<Recommendation>): (r: seq<Recommendation>)
    ensures |r| <= MaxRecommendations
    ensures |r| == if |s| <= MaxRecommendations then |s| else MaxRecommendations
    ensures r <= s
  {
    if |s| <= MaxRecommendations then s else s[..MaxRecommendations]
  }

  /** The recommendation pass of one refresh: emit per asset, then stable-sort by
      priority and keep the first six. */
  method Recommend(grp: seq<Aggregate>) returns (recs: seq<Recommendation>)
    ensures recs == Top(SortByPriority(Emitted(grp)))
    ensures |recs| <= MaxRecommendations
    ensures |recs| == if |Emitted(grp)| <= MaxRecommendations then |Emitted(grp)| else MaxRecommendations
    ensures SortedByPriority(recs)
  {
    recs := [];
    var k := 0;
    while k < |grp|
      invariant k <= |grp|
      invariant recs == Emitted(grp[..k])
    {
      var a := grp[k];
      EmittedSnoc(grp, k);
      if DispatchRule(a) {
        recs := recs + [DispatchFor(a)];
      }
      if RerouteRule(a) {
        recs := recs + [RerouteFor(a)];
      }
      k := k + 1;
    }
    assert grp[..|grp|] == grp;
    SortByPrioritySortedPermutation(recs);
    var sorted := SortByPriority(recs);
    if |sorted| <= MaxRecommendations {
      recs := sorted;
    } else {
      SortedPrefix(sorted, MaxRecommendations);
      recs := sorted[..MaxRecommendations];
    }
  }
}
