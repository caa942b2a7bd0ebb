/** The review screen's state logic: the map from analysis id to the
    reviewer's decision, the operations that change it, the counts shown
    above the list, and the choice of changes sent for download. */
module Review {
  import opened Results
  import opened Analyses

  datatype Decision = Accepted | Rejected

  /** The `decisions` state: analysis id to decision. */
  type Decisions = map<string, Decision>

  // ---- changing decisions ------------------------------------------------

  /** `handleDecision`; `None` is the reset button's `null`. */
  function HandleDecision(d: Decisions, id: string, choice: Option<Decision>): (r: Decisions)
    ensures choice.None? ==> id !in r
    ensures choice.Some? ==> id in r && r[id] == choice.value
    ensures forall k :: k != id ==> (k in r <==> k in d)
    ensures forall k :: k != id && k in d ==> r[k] == d[k]
  {
    match choice
    case None => d - {id}
    case Some(v) => d[id := v]
  }

  /** Some analysis with id `k` offers a deletion. */
  predicate DeletionId(list: seq<Analysis>, k: string)
  {
    exists i :: 0 <= i < |list| && list[i].id == k && HasDeletion(list[i])
  }

  /** The `forEach` of `handleAcceptAll` / `handleRejectAll`: a fresh map
      that gives `v` to every analysis offering a deletion. */
  function DecideAll(list: seq<Analysis>, v: Decision): (r: Decisions)
    ensures forall k :: k in r <==> DeletionId(list, k)
    ensures forall k :: k in r ==> r[k] == v
  {
    if |list| == 0 then map[]
    else
      var init := DecideAll(list[..|list| - 1], v);
      var a := list[|list| - 1];
      assert forall k :: DeletionId(list[..|list| - 1], k) ==> DeletionId(list, k);
      if HasDeletion(a) then init[a.id := v] else init
  }

  function AcceptAll(list: seq<Analysis>): Decisions
  {
    DecideAll(list, Accepted)
  }

  function RejectAll(list: seq<Analysis>): Decisions
  {
    DecideAll(list, Rejected)
  }

  /** What the reviewer can do on the results screen. The decision buttons
      of an analysis are drawn only when it offers a deletion; a new
      analysis and "start over" both clear the map. */
  datatype Event =
    | Decide(index: nat, choice: Option<Decision>)
    | AcceptAllEvent
    | RejectAllEvent
    | Clear

  function Handle(list: seq<Analysis>, d: Decisions, e: Event): Decisions
  {
    match e
    case Decide(index, choice) =>
      if index < |list| && HasDeletion(list[index]) then HandleDecision(d, list[index].id, choice) else d
    case AcceptAllEvent => AcceptAll(list)
    case RejectAllEvent => RejectAll(list)
    case Clear => map[]
  }

  /** Every decided id belongs to an analysis that offers a deletion. */
  predicate Consistent(list: seq<Analysis>, d: Decisions)
  {
    forall k :: k in d ==> DeletionId(list, k)
  }

  /** Every event keeps the map consistent with the analyses on screen. */
  lemma HandleConsistent(list: seq<Analysis>, d: Decisions, e: Event)
    requires Consistent(list, d)
    ensures Consistent(list, Handle(list, d, e))
  {
    match e
    case Decide(index, choice) =>
      if index < |list| && HasDeletion(list[index]) {
        assert DeletionId(list, list[index].id);
      }
    case _ =>
  }

  // ---- counts ------------------------------------------------------------

  /** The ids decided `v`. */
  function DecidedIds(d: Decisions, v: Decision): set<string>
  {
    set k | k in d && d[k] == v
  }

  /** `Object.values(decisions).filter(d => d === v).length`. */
  function CountDecided(d: Decisions, v: Decision): nat
  {
    |DecidedIds(d, v)|
  }

  /** `analyses.filter(a => a.redline.delete).length`. */
  function CountWithDeletion(list: seq<Analysis>): (n: nat)
    ensures n <= |list|
  {
    if |list| == 0 then 0
    else CountWithDeletion(list[..|list| - 1]) + (if HasDeletion(list[|list| - 1]) then 1 else 0)
  }

  /** The pending count shown in the summary; an `int`, as JavaScript would
      happily show a negative one. */
  function Pending(list: seq<Analysis>, d: Decisions): int
  {
    CountWithDeletion(list) - CountDecided(d, Accepted) - CountDecided(d, Rejected)
  }

  /** The ids of the analyses offering a deletion. */
  function DeletionIds(list: seq<Analysis>): (r: set<string>)
    ensures forall k :: k in r <==> DeletionId(list, k)
    ensures |r| <= CountWithDeletion(list)
  {
    if |list| == 0 then {}
    else
      var init := DeletionIds(list[..|list| - 1]);
      var a := list[|list| - 1];
      assert forall k :: DeletionId(list[..|list| - 1], k) ==> DeletionId(list, k);
      if HasDeletion(a) then init + {a.id} else init
  }

  /** Accepted and rejected together are the decided ids. */
  lemma DecidedSplit(d: Decisions)
    ensures CountDecided(d, Accepted) + CountDecided(d, Rejected) == |d.Keys|
  {
    var acc, rej := DecidedIds(d, Accepted), DecidedIds(d, Rejected);
    assert acc + rej == d.Keys;
    assert acc * rej == {};
  }

  lemma SubsetCardinality(a: set<string>, b: set<string>)
    requires a <= b
    ensures |a| <= |b|
  {
    assert b == a + (b - a);
  }

  /** With a consistent map the pending count is never negative. */
  lemma PendingNonNegative(list: seq<Analysis>, d: Decisions)
    requires Consistent(list, d)
    ensures Pending(list, d) >= 0
  {
    DecidedSplit(d);
    SubsetCardinality(d.Keys, DeletionIds(list));
  }

  /** After accept-all nothing is pending when the ids are distinct. */
  lemma AcceptAllLeavesNothingPending(list: seq<Analysis>)
    requires forall i, j :: 0 <= i < j < |list| ==> list[i].id != list[j].id
    ensures Pending(list, AcceptAll(list)) == 0
  {
    var d := AcceptAll(list);
    DecidedSplit(d);
    assert DecidedIds(d, Rejected) == {};
    assert d.Keys == DeletionIds(list);
    DistinctDeletionIds(list);
  }

  /** With distinct ids, every analysis offering a deletion adds one id. */
  lemma {:induction false} DistinctDeletionIds(list: seq<Analysis>)
    requires forall i, j :: 0 <= i < j < |list| ==> list[i].id != list[j].id
    ensures |DeletionIds(list)| == CountWithDeletion(list)
  {
    if |list| > 0 {
      var init := list[..|list| - 1];
      var a := list[|list| - 1];
      DistinctDeletionIds(init);
      forall i | 0 <= i < |init| ensures init[i].id != a.id {
        assert init[i] == list[i];
      }
    }
  }

  // ---- severity counts ---------------------------------------------------

  /** The object `reduce` builds in `SummaryStats`: severity to count, in
      first-seen order (a JavaScript object keeps string keys that are not
      array indices, as severities are, in insertion order). */
  type Tally = seq<(string, nat)>

  /** `acc[key] = (acc[key] || 0) + 1`. */
  function Bump(t: Tally, key: string): (r: Tally)
    decreases |t|
  {
    if |t| == 0 then [(key, 1)]
    else if t[0].0 == key then [(key, t[0].1 + 1)] + t[1..]
    else [t[0]] + Bump(t[1..], key)
  }

  /** `counts[key] || 0`. */
  function Lookup(t: Tally, key: string): nat
  {
    if |t| == 0 then 0 else if t[0].0 == key then t[0].1 else Lookup(t[1..], key)
  }

  /** The sum of the counts. */
  function Total(t: Tally): nat
  {
    if |t| == 0 then 0 else t[0].1 + Total(t[1..])
  }

  /** No key is listed twice. */
  predicate DistinctKeys(t: Tally)
  {
    forall i, j :: 0 <= i < j < |t| ==> t[i].0 != t[j].0
  }

  /** One more `key` adds one to its count and to the total, and keeps the
      keys distinct. */
  lemma {:induction false} BumpCounts(t: Tally, key: string)
    requires DistinctKeys(t)
    ensures DistinctKeys(Bump(t, key))
    ensures Total(Bump(t, key)) == Total(t) + 1
    ensures forall k :: Lookup(Bump(t, key), k) == Lookup(t, k) + (if k == key then 1 else 0)
    decreases |t|
  {
    if |t| > 0 && t[0].0 != key {
      BumpCounts(t[1..], key);
      var r := Bump(t, key);
      forall i, j | 0 <= i < j < |r| ensures r[i].0 != r[j].0 {
        if i == 0 {
          BumpKeys(t[1..], key, r[j].0);
        }
      }
    } else if |t| > 0 {
      var r := Bump(t, key);
      assert r[1..] == t[1..];
      assert forall i :: 0 < i < |r| ==> r[i] == t[i];
    }
  }

  /** The keys after a bump are the old keys and `key`. */
  lemma {:induction false} BumpKeys(t: Tally, key: string, k: string)
    requires exists i :: 0 <= i < |Bump(t, key)| && Bump(t, key)[i].0 == k
    ensures k == key || exists i :: 0 <= i < |t| && t[i].0 == k
    decreases |t|
  {
    if |t| > 0 && t[0].0 != key {
      var r := Bump(t, key);
      var i :| 0 <= i < |r| && r[i].0 == k;
      if i > 0 {
        assert Bump(t[1..], key)[i - 1].0 == k;
        BumpKeys(t[1..], key, k);
        if k != key {
          var j :| 0 <= j < |t[1..]| && t[1..][j].0 == k;
          assert t[j + 1].0 == k;
        }
      }
    } else if |t| > 0 {
      var r := Bump(t, key);
      var i :| 0 <= i < |r| && r[i].0 == k;
      if i > 0 {
        assert t[i].0 == k;
      }
    }
  }

  /** The severity counts of the summary cards. */
  function SeverityTally(list: seq<Analysis>): Tally
  {
    if |list| == 0 then [] else Bump(SeverityTally(list[..|list| - 1]), list[|list| - 1].severity)
  }

  /** Each card shows the number of analyses with its severity, and the
      counts of all severities add up to the number of analyses. */
  lemma {:induction false} SeverityTallyCounts(list: seq<Analysis>)
    ensures DistinctKeys(SeverityTally(list))
    ensures Total(SeverityTally(list)) == |list|
    ensures forall sev :: Lookup(SeverityTally(list), sev) == CountSeverity(list, sev)
  {
    if |list| > 0 {
      SeverityTallyCounts(list[..|list| - 1]);
      BumpCounts(SeverityTally(list[..|list| - 1]), list[|list| - 1].severity);
    }
  }

  // ---- what is sent for download -----------------------------------------

  /** `decisions[a.id] === v`. */
  predicate IsDecided(d: Decisions, a: Analysis, v: Decision)
  {
    a.id in d && d[a.id] == v
  }

  /** `analyses.filter(a => decisions[a.id] === v)`. */
  function WithDecision(list: seq<Analysis>, d: Decisions, v: Decision): (r: seq<Analysis>)
    ensures |r| <= |list|
  {
    if |list| == 0 then []
    else WithDecision(list[..|list| - 1], d, v) + (if IsDecided(d, list[|list| - 1], v) then [list[|list| - 1]] else [])
  }

  /** The filter keeps every copy of an analysis decided `v` and no copy of
      any other. */
  lemma {:induction false} WithDecisionCounts(list: seq<Analysis>, d: Decisions, v: Decision)
    ensures forall a :: multiset(WithDecision(list, d, v))[a] == (if IsDecided(d, a, v) then multiset(list)[a] else 0)
  {
    if |list| > 0 {
      var init := list[..|list| - 1];
      var a := list[|list| - 1];
      WithDecisionCounts(init, d, v);
      assert list == init + [a];
    }
  }

  /** `acceptedAnalyses` and `rejectedAnalyses`. */
  function AcceptedAnalyses(list: seq<Analysis>, d: Decisions): seq<Analysis>
  {
    WithDecision(list, d, Accepted)
  }

  function RejectedAnalyses(list: seq<Analysis>, d: Decisions): seq<Analysis>
  {
    WithDecision(list, d, Rejected)
  }

  /** No analysis is listed both as accepted and as rejected. */
  lemma AcceptedRejectedDisjoint(list: seq<Analysis>, d: Decisions, a: Analysis)
    ensures !(a in AcceptedAnalyses(list, d) && a in RejectedAnalyses(list, d))
  {
    WithDecisionCounts(list, d, Accepted);
    WithDecisionCounts(list, d, Rejected);
    assert a in AcceptedAnalyses(list, d) <==> multiset(AcceptedAnalyses(list, d))[a] > 0;
    assert a in RejectedAnalyses(list, d) <==> multiset(RejectedAnalyses(list, d))[a] > 0;
  }

  /** `.map(a => a.id)`. */
  function Ids(list: seq<Analysis>): (r: seq<string>)
    ensures |r| == |list|
    ensures forall i :: 0 <= i < |list| ==> r[i] == list[i].id
  {
    if |list| == 0 then [] else Ids(list[..|list| - 1]) + [list[|list| - 1].id]
  }

  /** `r` is `list` at the strictly increasing positions `idx`. */
  predicate PicksAt(r: seq<Analysis>, list: seq<Analysis>, idx: seq<nat>)
  {
    && |idx| == |r|
    && (forall k :: 0 <= k < |idx| ==> idx[k] < |list| && r[k] == list[idx[k]])
    && (forall k, l :: 0 <= k < l < |idx| ==> idx[k] < idx[l])
  }

  /** Positions into a prefix are positions into the whole list. */
  lemma PicksAtWiden(r: seq<Analysis>, list: seq<Analysis>, idx: seq<nat>)
    requires |list| > 0 && PicksAt(r, list[..|list| - 1], idx)
    ensures PicksAt(r, list, idx)
    ensures forall k :: 0 <= k < |idx| ==> idx[k] < |list| - 1
  {
  }

  /** Keeping the last element extends the positions by the last index. */
  lemma PicksAtSnoc(r: seq<Analysis>, list: seq<Analysis>, idx: seq<nat>)
    requires |list| > 0 && PicksAt(r, list, idx)
    requires forall k :: 0 <= k < |idx| ==> idx[k] < |list| - 1
    ensures PicksAt(r + [list[|list| - 1]], list, idx + [|list| - 1])
  {
  }

  /** Every position `p` below `n` that is decided `v` appears in `idx`. */
  predicate Covers(list: seq<Analysis>, d: Decisions, v: Decision, idx: seq<nat>, n: nat)
  {
    forall p: nat :: p < n && p < |list| && IsDecided(d, list[p], v) ==> p in idx
  }

  lemma CoversSnoc(list: seq<Analysis>, d: Decisions, v: Decision, idx: seq<nat>)
    requires |list| > 0 && Covers(list[..|list| - 1], d, v, idx, |list| - 1)
    ensures IsDecided(d, list[|list| - 1], v) ==> Covers(list, d, v, idx + [|list| - 1], |list|)
    ensures !IsDecided(d, list[|list| - 1], v) ==> Covers(list, d, v, idx, |list|)
  {
    var init := list[..|list| - 1];
    forall p: nat | p < |list| - 1 && IsDecided(d, list[p], v) ensures p in idx {
      assert init[p] == list[p];
    }
  }

  /** The filter keeps analyses in screen order, and keeps every analysis
      decided `v`. */
  lemma {:induction false} WithDecisionInOrder(list: seq<Analysis>, d: Decisions, v: Decision)
    ensures exists idx: seq<nat> :: PicksAt(WithDecision(list, d, v), list, idx) && Covers(list, d, v, idx, |list|)
  {
    if |list| == 0 {
      assert PicksAt(WithDecision(list, d, v), list, []) && Covers(list, d, v, [], 0);
    } else {
      var init := list[..|list| - 1];
      var a := list[|list| - 1];
      var r0 := WithDecision(init, d, v);
      WithDecisionInOrder(init, d, v);
      var idx: seq<nat> :| PicksAt(r0, init, idx) && Covers(init, d, v, idx, |init|);
      PicksAtWiden(r0, list, idx);
      CoversSnoc(list, d, v, idx);
      if IsDecided(d, a, v) {
        PicksAtSnoc(r0, list, idx);
        assert PicksAt(WithDecision(list, d, v), list, idx + [|list| - 1]);
      } else {
        assert PicksAt(WithDecision(list, d, v), list, idx);
      }
    }
  }

  /** An analysis is listed under a decision exactly when it is on screen
      and decided that way. */
  lemma WithDecisionMembers(list: seq<Analysis>, d: Decisions, v: Decision)
    ensures forall a :: a in WithDecision(list, d, v) <==> a in list && IsDecided(d, a, v)
  {
    WithDecisionCounts(list, d, v);
    forall a ensures a in WithDecision(list, d, v) <==> a in list && IsDecided(d, a, v) {
      assert a in WithDecision(list, d, v) <==> multiset(WithDecision(list, d, v))[a] > 0;
      assert a in list <==> multiset(list)[a] > 0;
    }
  }

  /** The download in `handleDownloadRedline`: no request when nothing is
      accepted, otherwise the accepted ids in the order of the analyses. */
  function DownloadRequest(list: seq<Analysis>, d: Decisions): (r: Option<seq<string>>)
    ensures r.None? <==> forall i :: 0 <= i < |list| ==> !IsDecided(d, list[i], Accepted)
    ensures r.Some? ==> forall i :: 0 <= i < |r.value| ==> r.value[i] in d && d[r.value[i]] == Accepted
  {
    var accepted := AcceptedAnalyses(list, d);
    WithDecisionMembers(list, d, Accepted);
    var ids := Ids(accepted);
    if |ids| == 0 then None
    else
      assert forall i :: 0 <= i < |ids| ==> accepted[i] in accepted && ids[i] == accepted[i].id;
      Some(ids)
  }

  /** `ids` are the ids of `list` at the strictly increasing positions `idx`. */
  predicate IdsAt(ids: seq<string>, list: seq<Analysis>, idx: seq<nat>)
  {
    && |idx| == |ids|
    && (forall k :: 0 <= k < |idx| ==> idx[k] < |list| && ids[k] == list[idx[k]].id)
    && (forall k, l :: 0 <= k < l < |idx| ==> idx[k] < idx[l])
  }

  /** The download sends the ids of the accepted analyses in screen order,
      and leaves out none of them. */
  lemma DownloadRequestInOrder(list: seq<Analysis>, d: Decisions)
    requires DownloadRequest(list, d).Some?
    ensures exists idx: seq<nat> ::
              IdsAt(DownloadRequest(list, d).value, list, idx) && Covers(list, d, Accepted, idx, |list|)
  {
    var accepted := AcceptedAnalyses(list, d);
    WithDecisionInOrder(list, d, Accepted);
    var idx: seq<nat> :| PicksAt(accepted, list, idx) && Covers(list, d, Accepted, idx, |list|);
    assert IdsAt(DownloadRequest(list, d).value, list, idx);
  }
}
