/**
 The bounded entitlement cache of an organization service: an ordered dictionary, oldest use first.
 */
module EntitlementCache {

  const MAX_ENTRIES: nat := 32

  datatype Entry<E> = Entry(key: E, entitled: bool)

  /** One call: the entitlement asked for, and what the database would answer at that moment. */
  datatype Call<E> = Call(entitlement: E, answer: bool)

  function Keys<E>(cache: seq<Entry<E>>): (ks: seq<E>)
    ensures |ks| == |cache| && forall i :: 0 <= i < |ks| ==> ks[i] == cache[i].key
  {
    seq(|cache|, i requires 0 <= i < |cache| => cache[i].key)
  }

  ghost predicate Distinct<T>(s: seq<T>) {
    forall i, j :: 0 <= i < j < |s| ==> s[i] != s[j]
  }

  function Remove<T(==)>(s: seq<T>, x: T): seq<T> {
    if s == [] then [] else (if s[0] == x then [] else [s[0]]) + Remove(s[1..], x)
  }

  function RemoveKey<E(==)>(cache: seq<Entry<E>>, e: E): seq<Entry<E>> {
    if cache == [] then [] else (if cache[0].key == e then [] else [cache[0]]) + RemoveKey(cache[1..], e)
  }

  function Lookup<E(==)>(cache: seq<Entry<E>>, e: E): bool
    requires e in Keys(cache)
  {
    if cache[0].key == e then cache[0].entitled
    else
      assert cache[0].key == Keys(cache)[0] && Keys(cache[1..]) == Keys(cache)[1..];
      Lookup(cache[1..], e)
  }

  /** The cache and the reply after one call. */
  function Access<E(==)>(cache: seq<Entry<E>>, c: Call<E>): (seq<Entry<E>>, bool) {
    if c.entitlement in Keys(cache) then
      var entitled := Lookup(cache, c.entitlement);
      (RemoveKey(cache, c.entitlement) + [Entry(c.entitlement, entitled)], entitled)
    else
      var kept := if |cache| >= MAX_ENTRIES then cache[1..] else cache;
      (kept + [Entry(c.entitlement, c.answer)], c.answer)
  }

  class OrgService<E(==)> {
    var cache: seq<Entry<E>>

    constructor ()
      ensures cache == []
    {
      cache := [];
    }

    /** `answer` is what `is_org_entitled` returns, if it is asked at all. */
    method HasEntitlement(e: E, answer: bool) returns (entitled: bool)
      modifies this
      ensures (cache, entitled) == Access(old(cache), Call(e, answer))
    {
      var i := 0;
      while i < |cache| && cache[i].key != e
        invariant 0 <= i <= |cache|
        invariant forall j :: 0 <= j < i ==> cache[j].key != e
      {
        i := i + 1;
      }
      FindsFirst(cache, e, i);
      if i < |cache| {
        entitled := cache[i].entitled;
        cache := RemoveKey(cache, e) + [Entry(e, entitled)];
        return;
      }
      entitled := answer;
      if |cache| >= MAX_ENTRIES {
        cache := cache[1..];
      }
      cache := cache + [Entry(e, entitled)];
    }
  }

  lemma {:induction false} FindsFirst<E>(cache: seq<Entry<E>>, e: E, i: nat)
    requires i <= |cache| && forall j :: 0 <= j < i ==> cache[j].key != e
    requires i < |cache| ==> cache[i].key == e
    ensures e in Keys(cache) <==> i < |cache|
    ensures i < |cache| ==> e in Keys(cache) && Lookup(cache, e) == cache[i].entitled
  {
    if i < |cache| {
      assert Keys(cache)[i] == e;
      if i > 0 {
        FindsFirst(cache[1..], e, i - 1);
      }
    }
  }

  // ---- the cache against the call history

  function Run<E(==)>(calls: seq<Call<E>>): seq<Entry<E>> {
    if calls == [] then [] else Access(Run(calls[..|calls| - 1]), calls[|calls| - 1]).0
  }

  /** The reply to the last call of a history. */
  function Reply<E(==)>(calls: seq<Call<E>>): bool
    requires calls != []
  {
    Access(Run(calls[..|calls| - 1]), calls[|calls| - 1]).1
  }

  function Requested<E>(calls: seq<Call<E>>): (es: seq<E>)
    ensures |es| == |calls| && forall i :: 0 <= i < |es| ==> es[i] == calls[i].entitlement
  {
    seq(|calls|, i requires 0 <= i < |calls| => calls[i].entitlement)
  }

  /** The distinct members of a history, each at the place of its last use. */
  function LastUses<E(==)>(es: seq<E>): seq<E> {
    if es == [] then [] else (if es[0] in es[1..] then [] else [es[0]]) + LastUses(es[1..])
  }

  function Latest<T>(s: seq<T>, n: nat): seq<T> {
    if |s| <= n then s else s[|s| - n..]
  }

  lemma {:induction false} LastUsesMembers<E>(es: seq<E>)
    ensures Distinct(LastUses(es)) && forall e :: e in LastUses(es) <==> e in es
  {
    if es != [] {
      LastUsesMembers(es[1..]);
      assert es == [es[0]] + es[1..];
    }
  }

  lemma {:induction false} RemoveFacts<T>(s: seq<T>, x: T)
    ensures x !in s ==> Remove(s, x) == s
    ensures Distinct(s) && x in s ==> |Remove(s, x)| == |s| - 1
    ensures forall y :: y in Remove(s, x) <==> y in s && y != x
  {
    if s != [] {
      RemoveFacts(s[1..], x);
      assert s == [s[0]] + s[1..];
      if Distinct(s) && s[0] == x {
        assert forall j :: 0 <= j < |s| - 1 ==> s[1..][j] == s[j + 1];
        assert x !in s[1..];
      }
    }
  }

  lemma {:induction false} RemoveConcat<T>(a: seq<T>, b: seq<T>, x: T)
    ensures Remove(a + b, x) == Remove(a, x) + Remove(b, x)
  {
    if a == [] {
      assert a + b == b;
    } else {
      assert (a + b)[1..] == a[1..] + b;
      RemoveConcat(a[1..], b, x);
    }
  }

  /** One more use moves a member to the end. */
  lemma {:induction false} LastUsesSnoc<E>(es: seq<E>, e: E)
    ensures LastUses(es + [e]) == Remove(LastUses(es), e) + [e]
  {
    var s := es + [e];
    if es == [] {
      assert s[1..] == [];
    } else {
      assert s[1..] == es[1..] + [e];
      LastUsesSnoc(es[1..], e);
      var rest := LastUses(es[1..]);
      if es[0] in es[1..] {
        var k :| 0 <= k < |es[1..]| && es[1..][k] == es[0];
        assert s[1..][k] == es[0];
        assert LastUses(s) == LastUses(s[1..]) && LastUses(es) == rest;
      } else {
        assert es[0] in s[1..] <==> es[0] == e;
        RemoveConcat([es[0]], rest, e);
        assert Remove([es[0]], e) == if es[0] == e then [] else [es[0]];
      }
    }
  }

  lemma {:induction false} KeysOfRemove<E>(cache: seq<Entry<E>>, e: E)
    ensures Keys(RemoveKey(cache, e)) == Remove(Keys(cache), e)
  {
    if cache != [] {
      KeysOfRemove(cache[1..], e);
      assert Keys(cache)[1..] == Keys(cache[1..]);
      var head := if cache[0].key == e then [] else [cache[0]];
      assert Keys(head + RemoveKey(cache[1..], e)) == Keys(head) + Keys(RemoveKey(cache[1..], e));
    }
  }

  /** The latest `n` of a sequence that ends in `back` are `back`, when it fills `n` or is all of it. */
  lemma LatestIsBack<T>(front: seq<T>, back: seq<T>, n: nat)
    requires |back| == n || (|back| < n && front == [])
    ensures Latest(front + back, n) == back
  {
  }

  lemma SplitDistinct<T>(front: seq<T>, back: seq<T>)
    requires Distinct(front + back)
    ensures Distinct(front) && Distinct(back) && forall x :: x in back ==> x !in front
  {
    var s := front + back;
    assert forall i :: 0 <= i < |front| ==> front[i] == s[i];
    assert forall i :: 0 <= i < |back| ==> back[i] == s[|front| + i];
  }

  lemma HitStep<E>(front: seq<E>, kept: seq<E>, e: E, n: nat)
    requires Distinct(front + kept) && e in kept
    requires |kept| == n || (|kept| < n && front == [])
    ensures Latest(Remove(front + kept, e) + [e], n) == Remove(kept, e) + [e]
  {
    SplitDistinct(front, kept);
    RemoveConcat(front, kept, e);
    RemoveFacts(kept, e);
    var back := Remove(kept, e) + [e];
    assert Remove(front + kept, e) + [e] == Remove(front, e) + back;
    LatestIsBack(Remove(front, e), back, n);
  }

  lemma MissStep<E>(front: seq<E>, kept: seq<E>, e: E, n: nat)
    requires Distinct(front + kept) && e !in kept && n > 0
    requires |kept| == n || (|kept| < n && front == [])
    ensures Latest(Remove(front + kept, e) + [e], n) == (if |kept| >= n then kept[1..] else kept) + [e]
  {
    RemoveConcat(front, kept, e);
    RemoveFacts(kept, e);
    if |kept| < n {
      assert Remove(front + kept, e) + [e] == [] + (kept + [e]);
      LatestIsBack([], kept + [e], n);
    } else {
      var front', back := Remove(front, e) + kept[..1], kept[1..] + [e];
      assert Remove(front + kept, e) + [e] == front' + back;
      LatestIsBack(front', back, n);
    }
  }

  /** Moving a member to the end commutes with keeping the latest `n`. */
  lemma LatestStep<E>(uses: seq<E>, e: E, n: nat)
    requires Distinct(uses) && n > 0
    ensures Latest(Remove(uses, e) + [e], n) ==
              if e in Latest(uses, n) then Remove(Latest(uses, n), e) + [e]
              else (if |Latest(uses, n)| >= n then Latest(uses, n)[1..] else Latest(uses, n)) + [e]
  {
    var kept := Latest(uses, n);
    var front := uses[..|uses| - |kept|];
    assert uses == front + kept;
    if e in kept {
      HitStep(front, kept, e, n);
    } else {
      MissStep(front, kept, e, n);
    }
  }

  lemma AccessKeys<E>(cache: seq<Entry<E>>, c: Call<E>)
    ensures Keys(Access(cache, c).0) ==
              if c.entitlement in Keys(cache) then Remove(Keys(cache), c.entitlement) + [c.entitlement]
              else (if |cache| >= MAX_ENTRIES then Keys(cache)[1..] else Keys(cache)) + [c.entitlement]
  {
    KeysOfRemove(cache, c.entitlement);
    if |cache| >= MAX_ENTRIES {
      assert Keys(cache[1..]) == Keys(cache)[1..];
    }
  }

  /** After any history the cache holds, in order, exactly the latest min(32, d) of the d distinct
      entitlements requested, ordered by last use. */
  lemma {:induction false} CacheIsLatest<E>(calls: seq<Call<E>>)
    ensures Keys(Run(calls)) == Latest(LastUses(Requested(calls)), 32)
  {
    if calls != [] {
      var front, last := calls[..|calls| - 1], calls[|calls| - 1];
      CacheIsLatest(front);
      var uses := LastUses(Requested(front));
      assert Requested(calls) == Requested(front) + [last.entitlement];
      LastUsesMembers(Requested(front));
      LastUsesSnoc(Requested(front), last.entitlement);
      LatestStep(uses, last.entitlement, MAX_ENTRIES);
      AccessKeys(Run(front), last);
    }
  }

  lemma {:induction false} LookupHolds<E>(cache: seq<Entry<E>>, e: E, truth: E -> bool)
    requires forall x :: x in cache ==> x.entitled == truth(x.key)
    ensures e in Keys(cache) ==> Lookup(cache, e) == truth(e)
    ensures forall x :: x in RemoveKey(cache, e) ==> x in cache
  {
    if cache != [] {
      assert cache[0] in cache && Keys(cache[1..]) == Keys(cache)[1..];
      assert forall x :: x in cache[1..] ==> x in cache;
      LookupHolds(cache[1..], e, truth);
    }
  }

  /** While the database's answers do not change, every reply - cached or not - is the true answer. */
  lemma {:induction false} RepliesAreTrue<E>(calls: seq<Call<E>>, truth: E -> bool)
    requires forall c :: c in calls ==> c.answer == truth(c.entitlement)
    ensures forall x :: x in Run(calls) ==> x.entitled == truth(x.key)
    ensures calls != [] ==> Reply(calls) == truth(calls[|calls| - 1].entitlement)
  {
    if calls != [] {
      var front, last := calls[..|calls| - 1], calls[|calls| - 1];
      assert last in calls && forall c :: c in front ==> c in calls;
      RepliesAreTrue(front, truth);
      LookupHolds(Run(front), last.entitlement, truth);
    }
  }

  /** A call asks the database exactly when its entitlement is not among the latest 32 distinct ones. */
  lemma MissesExactly<E>(calls: seq<Call<E>>, c: Call<E>)
    ensures c.entitlement !in Latest(LastUses(Requested(calls)), 32) ==> Reply(calls + [c]) == c.answer
    ensures c.entitlement in Latest(LastUses(Requested(calls)), 32) ==>
              Reply(calls + [c]) == Reply(calls + [Call(c.entitlement, !c.answer)])
  {
    CacheIsLatest(calls);
    assert (calls + [c])[..|calls|] == calls;
    assert (calls + [Call(c.entitlement, !c.answer)])[..|calls|] == calls;
  }
}
