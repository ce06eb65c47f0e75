/** Helpers shared by every module: options, Go's string tests, and one
    order-preserving flattening operator for which the loop and fusion laws are
    proved once. */
module Common {

  datatype Option<+T> = None | Some(value: T)

  /** Dereferences an optional value, falling back to the type's zero value. */
  function ValueOf<T>(o: Option<T>, zero: T): T {
    match o
    case None => zero
    case Some(v) => v
  }

  predicate HasPrefix(s: string, prefix: string) {
    prefix <= s
  }

  predicate HasSuffix(s: string, suffix: string) {
    |suffix| <= |s| && s[|s| - |suffix|..] == suffix
  }

  lemma HasPrefixIff(s: string, prefix: string)
    ensures HasPrefix(s, prefix) <==> exists rest :: s == prefix + rest
  {
    if HasPrefix(s, prefix) {
      assert s == prefix + s[|prefix|..];
    }
  }

  lemma HasSuffixIff(s: string, suffix: string)
    ensures HasSuffix(s, suffix) <==> exists start :: s == start + suffix
  {
    if HasSuffix(s, suffix) {
      assert s == s[..|s| - |suffix|] + suffix;
    }
    if start :| s == start + suffix {
      assert s[|start|..] == suffix;
    }
  }

  predicate EndsWithSlash(s: string) {
    |s| > 0 && s[|s| - 1] == '/'
  }

  /** Appends `f(x)` for every `x` of `s`, in order: the meaning of a loop that
      appends to a slice. */
  function FlatMap<A, B>(f: A -> seq<B>, s: seq<A>): seq<B> {
    if s == [] then [] else FlatMap(f, s[..|s| - 1]) + f(s[|s| - 1])
  }

  lemma FlatMapStep<A, B>(f: A -> seq<B>, s: seq<A>, i: nat)
    requires i < |s|
    ensures FlatMap(f, s[..i + 1]) == FlatMap(f, s[..i]) + f(s[i])
  {
    assert s[..i + 1][..i] == s[..i];
  }

  /** The same, after what earlier loops have appended. */
  lemma FlatMapStepAfter<A, B>(before: seq<B>, f: A -> seq<B>, s: seq<A>, i: nat)
    requires i < |s|
    ensures before + FlatMap(f, s[..i + 1]) == before + FlatMap(f, s[..i]) + f(s[i])
  {
    FlatMapStep(f, s, i);
  }

  lemma {:induction false} FlatMapAppend<A, B>(f: A -> seq<B>, s: seq<A>, t: seq<A>)
    ensures FlatMap(f, s + t) == FlatMap(f, s) + FlatMap(f, t)
    decreases |t|
  {
    if t == [] {
      assert s + t == s;
    } else {
      var n := |t| - 1;
      FlatMapAppend(f, s, t[..n]);
      assert (s + t)[..|s + t| - 1] == s + t[..n];
      assert (s + t)[|s + t| - 1] == t[n];
    }
  }

  lemma FlatMapOne<A, B>(f: A -> seq<B>, x: A)
    ensures FlatMap(f, [x]) == f(x)
  {
  }

  lemma {:induction false} FlatMapMember<A, B>(f: A -> seq<B>, s: seq<A>, y: B)
    ensures y in FlatMap(f, s) <==> exists x :: x in s && y in f(x)
    decreases |s|
  {
    if s == [] {
    } else {
      var n := |s| - 1;
      FlatMapMember(f, s[..n], y);
      assert forall x :: x in s <==> x in s[..n] || x == s[n];
    }
  }

  /** The first element appended by the loop comes from the first `x` that
      appends anything. */
  lemma {:induction false} FlatMapFirst<A, B>(f: A -> seq<B>, s: seq<A>, i: nat)
    requires i < |s| && FlatMap(f, s[..i]) == [] && f(s[i]) != []
    ensures FlatMap(f, s) != [] && FlatMap(f, s)[0] == f(s[i])[0]
  {
    FlatMapStep(f, s, i);
    FlatMapAppend(f, s[..i + 1], s[i + 1..]);
    assert s == s[..i + 1] + s[i + 1..];
  }

  /** Applies `f` to every element. */
  function MapSeq<A, B>(f: A -> B, s: seq<A>): (r: seq<B>)
    ensures |r| == |s|
    ensures forall i :: 0 <= i < |s| ==> r[i] == f(s[i])
  {
    seq(|s|, i requires 0 <= i < |s| => f(s[i]))
  }

  lemma MapSeqStep<A, B>(f: A -> B, s: seq<A>, i: nat)
    requires i < |s|
    ensures MapSeq(f, s[..i + 1]) == MapSeq(f, s[..i]) + [f(s[i])]
  {
  }

  /** A loop over compiled pieces mirrors a loop over source pieces, when it does so
      piece by piece: pieces given as lists. */
  lemma {:induction false} MirrorFlatMap<A, B, C, D>(
      f: B -> seq<C>, g: A -> seq<B>, m: D -> C, h: A -> seq<D>, s: seq<A>)
    requires forall x :: x in s ==> FlatMap(f, g(x)) == MapSeq(m, h(x))
    ensures FlatMap(f, FlatMap(g, s)) == MapSeq(m, FlatMap(h, s))
    decreases |s|
  {
    if s == [] {
    } else {
      var n := |s| - 1;
      MirrorFlatMap(f, g, m, h, s[..n]);
      FlatMapAppend(f, FlatMap(g, s[..n]), g(s[n]));
    }
  }

  /** The same, for pieces compiled one to one. */
  lemma {:induction false} MirrorMap<A, B, C, D>(
      f: B -> seq<C>, g: A -> B, m: D -> C, h: A -> seq<D>, s: seq<A>)
    requires forall x :: x in s ==> f(g(x)) == MapSeq(m, h(x))
    ensures FlatMap(f, MapSeq(g, s)) == MapSeq(m, FlatMap(h, s))
    decreases |s|
  {
    if s == [] {
    } else {
      var n := |s| - 1;
      MirrorMap(f, g, m, h, s[..n]);
      assert MapSeq(g, s)[..n] == MapSeq(g, s[..n]);
    }
  }

  /** A loop that appends one element each time is a map. */
  lemma {:induction false} FlatMapSingles<A, B>(f: A -> seq<B>, m: A -> B, s: seq<A>)
    requires forall x :: x in s ==> f(x) == [m(x)]
    ensures FlatMap(f, s) == MapSeq(m, s)
    decreases |s|
  {
    if s == [] {
    } else {
      FlatMapSingles(f, m, s[..|s| - 1]);
    }
  }

  /** Two appending loops over one list agree up to `m` when their pieces do. */
  lemma {:induction false} MapFlatMapAgree<A, B, C>(m: B -> C, g1: A -> seq<B>, g2: A -> seq<B>, s: seq<A>)
    requires forall x :: x in s ==> MapSeq(m, g1(x)) == MapSeq(m, g2(x))
    ensures MapSeq(m, FlatMap(g1, s)) == MapSeq(m, FlatMap(g2, s))
    decreases |s|
  {
    if s == [] {
    } else {
      var n := |s| - 1;
      MapFlatMapAgree(m, g1, g2, s[..n]);
      MapSeqAppend(m, FlatMap(g1, s[..n]), g1(s[n]));
      MapSeqAppend(m, FlatMap(g2, s[..n]), g2(s[n]));
    }
  }

  lemma MapSeqAppend<A, B>(m: A -> B, s: seq<A>, t: seq<A>)
    ensures MapSeq(m, s + t) == MapSeq(m, s) + MapSeq(m, t)
  {
  }

  /** Number of elements of `s` with property `p`. */
  function Count<A>(p: A -> bool, s: seq<A>): nat {
    if s == [] then 0 else Count(p, s[..|s| - 1]) + (if p(s[|s| - 1]) then 1 else 0)
  }

  lemma CountStep<A>(p: A -> bool, s: seq<A>, i: nat)
    requires i < |s|
    ensures Count(p, s[..i + 1]) == Count(p, s[..i]) + (if p(s[i]) then 1 else 0)
  {
    assert s[..i + 1][..i] == s[..i];
  }

  lemma {:induction false} CountAppend<A>(p: A -> bool, s: seq<A>, t: seq<A>)
    ensures Count(p, s + t) == Count(p, s) + Count(p, t)
    decreases |t|
  {
    if t == [] {
      assert s + t == s;
    } else {
      CountAppend(p, s, t[..|t| - 1]);
      assert (s + t)[..|s + t| - 1] == s + t[..|t| - 1];
    }
  }

  function RemoveAt<A>(s: seq<A>, k: nat): (r: seq<A>)
    requires k < |s|
    ensures |r| == |s| - 1
  {
    s[..k] + s[k + 1..]
  }

  lemma RemoveAtMultiset<A>(s: seq<A>, k: nat)
    requires k < |s|
    ensures multiset(s) == multiset(RemoveAt(s, k)) + multiset{s[k]}
  {
    assert s == s[..k] + [s[k]] + s[k + 1..];
  }

  lemma RemoveAtCount<A>(p: A -> bool, s: seq<A>, k: nat)
    requires k < |s|
    ensures Count(p, s) == Count(p, RemoveAt(s, k)) + (if p(s[k]) then 1 else 0)
  {
    var before, after := s[..k], s[k + 1..];
    calc {
      Count(p, s);
      { CountAppend(p, s[..k + 1], after); assert s == s[..k + 1] + after; }
      Count(p, s[..k + 1]) + Count(p, after);
      { CountStep(p, s, k); }
      Count(p, before) + (if p(s[k]) then 1 else 0) + Count(p, after);
      { CountAppend(p, before, after); }
      Count(p, before + after) + (if p(s[k]) then 1 else 0);
    }
  }

  lemma {:induction false} CountPermutation<A>(p: A -> bool, s: seq<A>, t: seq<A>)
    requires multiset(s) == multiset(t)
    ensures Count(p, s) == Count(p, t)
    decreases |s|
  {
    if s == [] {
      assert |multiset(t)| == 0;
    } else {
      var n := |s| - 1;
      assert s[n] in multiset(t);
      var k :| 0 <= k < |t| && t[k] == s[n];
      RemoveAtMultiset(s, n);
      RemoveAtMultiset(t, k);
      assert multiset(RemoveAt(s, n)) == multiset(s) - multiset{s[n]} == multiset(RemoveAt(t, k));
      CountPermutation(p, RemoveAt(s, n), RemoveAt(t, k));
      RemoveAtCount(p, s, n);
      RemoveAtCount(p, t, k);
    }
  }

  lemma {:induction false} CountMonotone<A>(p: A -> bool, q: A -> bool, s: seq<A>)
    requires forall x :: x in s && p(x) ==> q(x)
    ensures Count(p, s) <= Count(q, s)
    decreases |s|
  {
    if s == [] {
    } else {
      CountMonotone(p, q, s[..|s| - 1]);
    }
  }

  /** Then the counts are equal exactly when the wider property adds nothing. */
  lemma {:induction false} CountEqualIff<A>(p: A -> bool, q: A -> bool, s: seq<A>)
    requires forall x :: x in s && p(x) ==> q(x)
    ensures Count(p, s) == Count(q, s) <==> forall x :: x in s && q(x) ==> p(x)
    decreases |s|
  {
    if s == [] {
    } else {
      var n := |s| - 1;
      CountMonotone(p, q, s[..n]);
      CountEqualIff(p, q, s[..n]);
      assert forall x :: x in s <==> x in s[..n] || x == s[n];
    }
  }

  /** `s` lists the values of `m`, each key once, in some order: what ranging over
      a Go map yields. */
  ghost predicate Enumerates<K(!new), V>(s: seq<V>, m: map<K, V>) {
    exists ks: seq<K> :: EnumeratesVia(s, m, ks)
  }

  ghost predicate EnumeratesVia<K(!new), V>(s: seq<V>, m: map<K, V>, ks: seq<K>) {
    && |ks| == |s|
    && (forall i, j :: 0 <= i < j < |ks| ==> ks[i] != ks[j])
    && (forall k :: k in ks <==> k in m)
    && (forall i :: 0 <= i < |s| ==> s[i] == m[ks[i]])
  }

  /** Two listings of one map are permutations of each other. */
  lemma EnumerationsPermute<K(!new), V>(s: seq<V>, t: seq<V>, m: map<K, V>)
    requires Enumerates(s, m) && Enumerates(t, m)
    ensures multiset(s) == multiset(t)
  {
    var ks :| EnumeratesVia(s, m, ks);
    var kt :| EnumeratesVia(t, m, kt);
    EnumerationsPermuteVia(s, ks, t, kt, m);
  }

  lemma {:induction false} EnumerationsPermuteVia<K(!new), V>(s: seq<V>, ks: seq<K>, t: seq<V>, kt: seq<K>,
                                                              m: map<K, V>)
    requires EnumeratesVia(s, m, ks) && EnumeratesVia(t, m, kt)
    ensures multiset(s) == multiset(t)
    decreases |s|
  {
    if s == [] {
      assert forall i :: 0 <= i < |kt| ==> kt[i] in ks;
    } else {
      var n := |s| - 1;
      assert ks[n] in m && ks[n] in kt;
      var j :| 0 <= j < |kt| && kt[j] == ks[n];
      EnumeratesWithout(s, ks, n, m);
      EnumeratesWithout(t, kt, j, m);
      EnumerationsPermuteVia(RemoveAt(s, n), RemoveAt(ks, n), RemoveAt(t, j), RemoveAt(kt, j), m - {ks[n]});
      RemoveAtMultiset(s, n);
      RemoveAtMultiset(t, j);
    }
  }

  lemma EnumeratesWithout<K(!new), V>(s: seq<V>, ks: seq<K>, i: nat, m: map<K, V>)
    requires EnumeratesVia(s, m, ks) && i < |s|
    ensures EnumeratesVia(RemoveAt(s, i), m - {ks[i]}, RemoveAt(ks, i))
  {
  }

  /** Two listings of one map have the same elements. */
  lemma EnumerationsAgree<K(!new), V>(s: seq<V>, t: seq<V>, m: map<K, V>)
    requires Enumerates(s, m) && Enumerates(t, m)
    ensures forall v :: v in s <==> v in t
  {
    EnumerationsPermute(s, t, m);
    assert forall v :: v in s <==> v in multiset(s);
    assert forall v :: v in t <==> v in multiset(t);
  }

  lemma EnumerationValues<K(!new), V>(s: seq<V>, m: map<K, V>, v: V)
    requires Enumerates(s, m)
    ensures v in s <==> exists k :: k in m && m[k] == v
  {
    var ks :| EnumeratesVia(s, m, ks);
    if v in s {
      var i :| 0 <= i < |s| && s[i] == v;
      assert ks[i] in m;
    }
    if k :| k in m && m[k] == v {
      var i :| 0 <= i < |ks| && ks[i] == k;
      assert s[i] == v;
    }
  }

  /** Every map has a listing. */
  lemma {:induction false} SomeListing<K(!new), V>(m: map<K, V>) returns (s: seq<V>, ks: seq<K>)
    ensures EnumeratesVia(s, m, ks)
    decreases |m|
  {
    if m == map[] {
      s, ks := [], [];
    } else {
      var k :| k in m;
      var m' := m - {k};
      assert m.Keys == m'.Keys + {k};
      s, ks := SomeListing(m');
      s, ks := ListingCons(s, ks, m, k);
    }
  }

  lemma ListingCons<K(!new), V>(s: seq<V>, ks: seq<K>, m: map<K, V>, k: K) returns (s': seq<V>, ks': seq<K>)
    requires k in m && EnumeratesVia(s, m - {k}, ks)
    ensures EnumeratesVia(s', m, ks') && s' == [m[k]] + s && ks' == [k] + ks
  {
    s', ks' := [m[k]] + s, [k] + ks;
    assert forall i :: 0 <= i < |ks| ==> ks[i] in ks;
    forall x ensures x in ks' <==> x in m {
      assert x in ks' <==> x == k || x in ks;
    }
  }

  /** Some listing starts at any chosen key. */
  lemma ListingFrom<K(!new), V>(m: map<K, V>, k: K) returns (s: seq<V>)
    requires k in m
    ensures Enumerates(s, m) && s != [] && s[0] == m[k]
  {
    var ks;
    s, ks := SomeListing(m - {k});
    s, ks := ListingCons(s, ks, m, k);
  }

  lemma {:induction false} FlatMapAgree<A, B>(f: A -> seq<B>, g: A -> seq<B>, s: seq<A>)
    requires forall x :: x in s ==> f(x) == g(x)
    ensures FlatMap(f, s) == FlatMap(g, s)
    decreases |s|
  {
    if s == [] {
    } else {
      FlatMapAgree(f, g, s[..|s| - 1]);
    }
  }

  /** A loop that appends nothing for any element appends nothing. */
  lemma {:induction false} FlatMapNone<A, B>(f: A -> seq<B>, s: seq<A>)
    requires forall x :: x in s ==> f(x) == []
    ensures FlatMap(f, s) == []
    decreases |s|
  {
    if s == [] {
    } else {
      FlatMapNone(f, s[..|s| - 1]);
    }
  }

  /** A loop that appends for one position only appends that piece. */
  lemma {:induction false} FlatMapAlone<A, B>(f: A -> seq<B>, s: seq<A>, i: nat)
    requires i < |s| && forall j :: 0 <= j < |s| && j != i ==> f(s[j]) == []
    ensures FlatMap(f, s) == f(s[i])
    decreases |s|
  {
    var n := |s| - 1;
    var before := s[..n];
    if i == n {
      forall x | x in before ensures f(x) == [] {
        var j :| 0 <= j < n && s[j] == x;
      }
      FlatMapNone(f, before);
    } else {
      assert before[i] == s[i] && f(s[n]) == [];
      FlatMapAlone(f, before, i);
    }
  }
}
