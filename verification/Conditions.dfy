/** The status diff that every reconciler repeats: decide, ignoring timestamps and the
    order of conditions, whether a stored status must be written again. */
module Conditions {
  import opened Common
  import opened GatewayApi

  /** The first condition of a type, where the inner loop stops. */
  function FindCondition(stored: seq<Condition>, kind: string): Option<Condition> {
    if stored == [] then None
    else if stored[0].kind == kind then Some(stored[0])
    else FindCondition(stored[1..], kind)
  }

  /** What is compared: all fields, or all but the message. */
  function Compared(withMessage: bool): Condition -> Condition {
    (c: Condition) => if withMessage then c else c.(message := "")
  }

  predicate Current(stored: seq<Condition>, c: Condition, withMessage: bool) {
    match FindCondition(stored, c.kind)
    case None => false
    case Some(d) => Compared(withMessage)(d) == Compared(withMessage)(c)
  }

  /** The two inner loops of the diff. */
  method ConditionsChanged(stored: seq<Condition>, computed: seq<Condition>, withMessage: bool) returns (updated: bool)
    ensures updated <==> exists c :: c in computed && !Current(stored, c, withMessage)
  {
    updated := false;
    for j := 0 to |computed|
      invariant !updated && forall i :: 0 <= i < j ==> Current(stored, computed[i], withMessage)
    {
      var matched := false;
      assert stored[0..] == stored;
      for k := 0 to |stored|
        invariant !matched
        invariant FindCondition(stored[k..], computed[j].kind) == FindCondition(stored, computed[j].kind)
      {
        if stored[k].kind == computed[j].kind {
          if stored[k].status == computed[j].status &&
             stored[k].observedGeneration == computed[j].observedGeneration &&
             stored[k].reason == computed[j].reason &&
             (!withMessage || stored[k].message == computed[j].message) {
            matched := true;
          }
          break;
        }
      }
      assert matched <==> Current(stored, computed[j], withMessage);
      if !matched {
        assert computed[j] in computed;
        updated := true;
        break;
      }
    }
  }

  ghost predicate DistinctKinds(cs: seq<Condition>) {
    forall i, j :: 0 <= i < j < |cs| ==> cs[i].kind != cs[j].kind
  }

  /** Equal up to order and the uncompared fields. */
  ghost predicate SameConditions(stored: seq<Condition>, computed: seq<Condition>, withMessage: bool) {
    multiset(MapSeq(Compared(withMessage), stored)) == multiset(MapSeq(Compared(withMessage), computed))
  }

  // ----- counting

  lemma {:induction false} DistinctCounts<T>(s: seq<T>)
    requires forall i, j :: 0 <= i < j < |s| ==> s[i] != s[j]
    ensures forall x :: multiset(s)[x] <= 1
    decreases |s|
  {
    if s == [] {
    } else {
      var n := |s| - 1;
      DistinctCounts(s[..n]);
      assert s == s[..n] + [s[n]];
      assert s[n] !in s[..n];
    }
  }

  lemma RepeatedCounts<T>(s: seq<T>, i: nat, j: nat)
    requires i < j < |s| && s[i] == s[j]
    ensures multiset(s)[s[i]] >= 2
  {
    assert s == s[..i] + [s[i]] + s[i + 1..j] + [s[j]] + s[j + 1..];
  }

  lemma SubMultisetSameSize<T>(a: multiset<T>, b: multiset<T>)
    requires a <= b && |a| == |b|
    ensures a == b
  {
    assert b == a + (b - a);
    assert |b - a| == 0;
  }

  lemma {:induction false} FindConditionUnique(stored: seq<Condition>, i: nat)
    requires i < |stored| && forall j :: 0 <= j < i ==> stored[j].kind != stored[i].kind
    ensures FindCondition(stored, stored[i].kind) == Some(stored[i])
    decreases i
  {
    if i == 0 {
    } else {
      FindConditionUnique(stored[1..], i - 1);
    }
  }

  lemma {:induction false} FindConditionMember(stored: seq<Condition>, kind: string)
    ensures FindCondition(stored, kind).Some? ==>
              FindCondition(stored, kind).value in stored && FindCondition(stored, kind).value.kind == kind
    decreases |stored|
  {
    if stored == [] {
    } else {
      FindConditionMember(stored[1..], kind);
    }
  }

  lemma AllCurrentIsPermutation(stored: seq<Condition>, computed: seq<Condition>, withMessage: bool)
    requires DistinctKinds(computed) && |stored| == |computed|
    requires forall c :: c in computed ==> Current(stored, c, withMessage)
    ensures SameConditions(stored, computed, withMessage)
  {
    var s, c := MapSeq(Compared(withMessage), stored), MapSeq(Compared(withMessage), computed);
    assert forall i :: 0 <= i < |c| ==> c[i].kind == computed[i].kind;
    DistinctCounts(c);
    forall x | x in c ensures x in s {
      var i :| 0 <= i < |c| && c[i] == x;
      assert computed[i] in computed;
      FindConditionMember(stored, computed[i].kind);
      var d := FindCondition(stored, computed[i].kind).value;
      var k :| 0 <= k < |stored| && stored[k] == d;
      assert s[k] == x;
    }
    forall x ensures multiset(c)[x] <= multiset(s)[x] {
      assert x in c <==> x in multiset(c);
      assert x in s <==> x in multiset(s);
    }
    SubMultisetSameSize(multiset(c), multiset(s));
  }

  lemma PermutationIsAllCurrent(stored: seq<Condition>, computed: seq<Condition>, withMessage: bool, j: nat)
    requires DistinctKinds(computed) && SameConditions(stored, computed, withMessage)
    requires j < |computed|
    ensures Current(stored, computed[j], withMessage)
  {
    var s, c := MapSeq(Compared(withMessage), stored), MapSeq(Compared(withMessage), computed);
    assert forall i :: 0 <= i < |c| ==> c[i].kind == computed[i].kind;
    assert forall i :: 0 <= i < |s| ==> s[i].kind == stored[i].kind;
    DistinctCounts(c);
    assert c[j] in multiset(c) && c[j] in multiset(s);
    var k: nat :| k < |s| && s[k] == c[j];
    forall i: nat | i < k ensures stored[i].kind != stored[k].kind {
      if stored[i].kind == stored[k].kind {
        assert s[i] in multiset(s) && s[i] in multiset(c);
        var m :| 0 <= m < |c| && c[m] == s[i];
        assert m == j;
        RepeatedCounts(s, i, k);
      }
    }
    FindConditionUnique(stored, k);
  }

  /** The pigeonhole fact behind the diff: with as many stored as computed conditions,
      and computed ones of distinct types, the loops find no change exactly when the
      stored conditions are a permutation of the computed ones. */
  lemma NoChangeIffPermutation(stored: seq<Condition>, computed: seq<Condition>, withMessage: bool)
    requires DistinctKinds(computed) && |stored| == |computed|
    ensures (forall c :: c in computed ==> Current(stored, c, withMessage)) <==>
            SameConditions(stored, computed, withMessage)
  {
    if forall c :: c in computed ==> Current(stored, c, withMessage) {
      AllCurrentIsPermutation(stored, computed, withMessage);
    }
    if SameConditions(stored, computed, withMessage) {
      forall c | c in computed ensures Current(stored, c, withMessage) {
        var j: nat :| j < |computed| && computed[j] == c;
        PermutationIsAllCurrent(stored, computed, withMessage, j);
      }
    }
  }

  /** The fields the diff compares. */
  predicate SameFields(d: Condition, c: Condition, withMessage: bool) {
    && d.kind == c.kind && d.status == c.status
    && d.observedGeneration == c.observedGeneration && d.reason == c.reason
    && (withMessage ==> d.message == c.message)
  }

  lemma ComparedIff(d: Condition, c: Condition, withMessage: bool)
    ensures Compared(withMessage)(d) == Compared(withMessage)(c) <==> SameFields(d, c, withMessage)
  {
  }

  /** A computed condition that no stored one equals in these fields is a change. */
  lemma ChangedCondition(stored: seq<Condition>, computed: seq<Condition>, withMessage: bool, c: Condition)
    requires c in computed && forall d :: d in stored ==> !SameFields(d, c, withMessage)
    ensures !SameConditions(stored, computed, withMessage)
  {
    var s, t := MapSeq(Compared(withMessage), stored), MapSeq(Compared(withMessage), computed);
    if SameConditions(stored, computed, withMessage) {
      var i :| 0 <= i < |computed| && computed[i] == c;
      assert t[i] in multiset(t) && t[i] in multiset(s);
      var j :| 0 <= j < |s| && s[j] == t[i];
      ComparedIff(stored[j], c, withMessage);
    }
  }

  /** Equal in these fields position by position is no change. */
  lemma UnchangedConditions(stored: seq<Condition>, computed: seq<Condition>, withMessage: bool)
    requires |stored| == |computed|
    requires forall i :: 0 <= i < |computed| ==> SameFields(stored[i], computed[i], withMessage)
    ensures SameConditions(stored, computed, withMessage)
  {
    forall i | 0 <= i < |computed| ensures Compared(withMessage)(stored[i]) == Compared(withMessage)(computed[i]) {
      ComparedIff(stored[i], computed[i], withMessage);
    }
    assert MapSeq(Compared(withMessage), stored) == MapSeq(Compared(withMessage), computed);
  }

  // ----- parent and ancestor statuses

  ghost predicate EntryInSync(stored: RouteParentStatus, computed: RouteParentStatus) {
    && stored.parentRef == computed.parentRef
    && stored.controllerName == computed.controllerName
    && SameConditions(stored.conditions, computed.conditions, true)
  }

  ghost predicate EntriesInSync(stored: seq<RouteParentStatus>, computed: seq<RouteParentStatus>) {
    |stored| == |computed| && forall i :: 0 <= i < |computed| ==> EntryInSync(stored[i], computed[i])
  }

  lemma EntriesInSyncReflexive(a: seq<RouteParentStatus>)
    ensures EntriesInSync(a, a)
  {
  }

  lemma EntriesInSyncSymmetric(a: seq<RouteParentStatus>, b: seq<RouteParentStatus>)
    requires EntriesInSync(a, b)
    ensures EntriesInSync(b, a)
  {
  }

  lemma EntriesInSyncTransitive(a: seq<RouteParentStatus>, b: seq<RouteParentStatus>, c: seq<RouteParentStatus>)
    requires EntriesInSync(a, b) && EntriesInSync(b, c)
    ensures EntriesInSync(a, c)
  {
    forall i | 0 <= i < |c| ensures EntryInSync(a[i], c[i]) {
      assert EntryInSync(a[i], b[i]) && EntryInSync(b[i], c[i]);
    }
  }

  /** Statuses in sync with one another are in sync with the same computed ones. */
  lemma EntriesInSyncAlike(a: seq<RouteParentStatus>, b: seq<RouteParentStatus>, c: seq<RouteParentStatus>)
    requires EntriesInSync(a, b)
    ensures EntriesInSync(a, c) <==> EntriesInSync(b, c)
  {
    EntriesInSyncSymmetric(a, b);
    if EntriesInSync(a, c) {
      EntriesInSyncTransitive(b, a, c);
    }
    if EntriesInSync(b, c) {
      EntriesInSyncTransitive(a, b, c);
    }
  }

  lemma SameConditionsSameLength(stored: seq<Condition>, computed: seq<Condition>, withMessage: bool)
    requires SameConditions(stored, computed, withMessage)
    ensures |stored| == |computed|
  {
    assert |multiset(MapSeq(Compared(withMessage), stored))| == |multiset(MapSeq(Compared(withMessage), computed))|;
  }

  /** The diff of route parents and of policy ancestors: entry by entry in order,
      conditions in any order. */
  method EntriesChanged(stored: seq<RouteParentStatus>, computed: seq<RouteParentStatus>) returns (updated: bool)
    requires forall p :: p in computed ==> DistinctKinds(p.conditions)
    ensures updated <==> !EntriesInSync(stored, computed)
  {
    updated := false;
    if |stored| != |computed| {
      updated := true;
    } else {
      for i := 0 to |computed|
        invariant !updated && forall j :: 0 <= j < i ==> EntryInSync(stored[j], computed[j])
      {
        assert computed[i] in computed;
        if SameConditions(stored[i].conditions, computed[i].conditions, true) {
          SameConditionsSameLength(stored[i].conditions, computed[i].conditions, true);
        }
        if stored[i].parentRef != computed[i].parentRef ||
           stored[i].controllerName != computed[i].controllerName ||
           |stored[i].conditions| != |computed[i].conditions| {
          updated := true;
          break;
        }
        NoChangeIffPermutation(stored[i].conditions, computed[i].conditions, true);
        updated := ConditionsChanged(stored[i].conditions, computed[i].conditions, true);
        if updated {
          break;
        }
      }
    }
  }

  /** Another reference, another controller or a changed condition makes the diff write. */
  lemma ChangedEntry(stored: seq<RouteParentStatus>, computed: seq<RouteParentStatus>, i: nat)
    requires i < |computed|
    requires |stored| != |computed| || stored[i].parentRef != computed[i].parentRef ||
             stored[i].controllerName != computed[i].controllerName ||
             exists c :: c in computed[i].conditions &&
                         forall d :: d in stored[i].conditions ==> !SameFields(d, c, true)
    ensures !EntriesInSync(stored, computed)
  {
    if |stored| == |computed| && EntryInSync(stored[i], computed[i]) {
      var c :| c in computed[i].conditions && forall d :: d in stored[i].conditions ==> !SameFields(d, c, true);
      ChangedCondition(stored[i].conditions, computed[i].conditions, true, c);
    }
  }

  /** What an in-sync entry says, its computed form says. */
  lemma InSyncMember(stored: seq<Condition>, computed: seq<Condition>, c: Condition)
    requires SameConditions(stored, computed, true)
    ensures c in stored <==> c in computed
  {
    var s, t := MapSeq(Compared(true), stored), MapSeq(Compared(true), computed);
    assert s == stored && t == computed;
    assert c in multiset(s) <==> c in multiset(t);
  }
}
