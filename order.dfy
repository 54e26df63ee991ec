// Orders and collections shared by the theme's PHP: the order that
// sort(..., SORT_NATURAL) and strnatcasecmp put keys in, array_unique
// (first occurrence kept), and string-keyed PHP arrays whose entries keep
// their insertion order.

module Order {
  import opened Strings

  function Elems<T>(s: seq<T>): set<T> { set x | x in s }

  lemma InElems<T>(s: seq<T>, i: int)
    requires 0 <= i < |s|
    ensures s[i] in Elems(s)
  {
  }

  predicate Distinct<T(==)>(s: seq<T>) { forall i, j :: 0 <= i < j < |s| ==> s[i] != s[j] }

  // ---------------------------------------------------------------------
  // Key order: code-point lexicographic order, the stand-in for natural order

  predicate Less(a: string, b: string)
  {
    if a == [] then b != []
    else if b == [] then false
    else a[0] < b[0] || (a[0] == b[0] && Less(a[1..], b[1..]))
  }

  lemma {:induction false} LessIrreflexive(a: string)
    ensures !Less(a, a)
  {
    if a != [] { LessIrreflexive(a[1..]); }
  }

  lemma {:induction false} LessTransitive(a: string, b: string, c: string)
    requires Less(a, b) && Less(b, c)
    ensures Less(a, c)
  {
    if a != [] && b != [] && c != [] && a[0] == b[0] == c[0] {
      LessTransitive(a[1..], b[1..], c[1..]);
    }
  }

  lemma {:induction false} LessTotal(a: string, b: string)
    ensures a == b || Less(a, b) || Less(b, a)
  {
    if a != [] && b != [] && a[0] == b[0] {
      LessTotal(a[1..], b[1..]);
      if a[1..] == b[1..] { assert a == [a[0]] + a[1..] && b == [b[0]] + b[1..]; }
    }
  }

  lemma {:induction false} LessAsymmetric(a: string, b: string)
    ensures !(Less(a, b) && Less(b, a))
  {
    if a != [] && b != [] && a[0] == b[0] { LessAsymmetric(a[1..], b[1..]); }
  }

  predicate Sorted(s: seq<string>) { forall i, j :: 0 <= i < j < |s| ==> Less(s[i], s[j]) }

  lemma SortedDistinct(s: seq<string>)
    requires Sorted(s)
    ensures Distinct(s)
  {
    forall i, j | 0 <= i < j < |s| ensures s[i] != s[j] {
      if s[i] == s[j] { LessIrreflexive(s[i]); }
    }
  }

  /** Inserting x into a sorted duplicate-free list. */
  function Insert(s: seq<string>, x: string): (r: seq<string>)
    requires Sorted(s)
    ensures Sorted(r) && Elems(r) == Elems(s) + {x}
  {
    if s == [] then [x]
    else if x == s[0] then s
    else if Less(x, s[0]) then
      AllAbove(s, x);
      SortedCons(x, s);
      [x] + s
    else
      LessTotal(x, s[0]);
      var t := Insert(s[1..], x);
      ElemsCons(s);
      TailAbove(s, x, t);
      SortedCons(s[0], t);
      [s[0]] + t
  }

  lemma ElemsCons<T>(s: seq<T>)
    requires s != []
    ensures Elems(s) == {s[0]} + Elems(s[1..])
  {
    assert s == [s[0]] + s[1..];
  }

  lemma ElemsSnoc<T>(s: seq<T>)
    requires s != []
    ensures Elems(s) == Elems(s[..|s| - 1]) + {s[|s| - 1]}
  {
    assert s == s[..|s| - 1] + [s[|s| - 1]];
  }

  /** x put in front of a sorted list of larger strings keeps it sorted. */
  lemma SortedCons(x: string, t: seq<string>)
    requires Sorted(t) && forall j :: 0 <= j < |t| ==> Less(x, t[j])
    ensures Sorted([x] + t) && Elems([x] + t) == {x} + Elems(t)
  {
    var r := [x] + t;
    forall i, j | 0 <= i < j < |r| ensures Less(r[i], r[j]) {
      assert r[j] == t[j - 1];
      if i > 0 { assert r[i] == t[i - 1]; }
    }
  }

  lemma AllAbove(s: seq<string>, x: string)
    requires Sorted(s) && s != [] && Less(x, s[0])
    ensures forall j :: 0 <= j < |s| ==> Less(x, s[j])
  {
    forall j | 0 <= j < |s| ensures Less(x, s[j]) { if j > 0 { LessTransitive(x, s[0], s[j]); } }
  }

  lemma TailAbove(s: seq<string>, x: string, t: seq<string>)
    requires Sorted(s) && s != [] && Less(s[0], x) && Elems(t) == Elems(s[1..]) + {x}
    ensures forall j :: 0 <= j < |t| ==> Less(s[0], t[j])
  {
    forall j | 0 <= j < |t| ensures Less(s[0], t[j]) {
      assert t[j] in Elems(t);
      if t[j] != x {
        var k :| 0 <= k < |s[1..]| && s[1..][k] == t[j];
        assert s[k + 1] == t[j];
      }
    }
  }

  /** sort(array_unique(s)) with SORT_NATURAL: the distinct elements of s, in order. */
  function SortUnique(s: seq<string>): (r: seq<string>)
    ensures Sorted(r) && Elems(r) == Elems(s)
  {
    if s == [] then []
    else
      ElemsSnoc(s);
      Insert(SortUnique(s[..|s| - 1]), s[|s| - 1])
  }

  /** A sorted list is determined by its elements. */
  lemma {:induction false} SortedUnique(a: seq<string>, b: seq<string>)
    requires Sorted(a) && Sorted(b) && Elems(a) == Elems(b)
    ensures a == b
  {
    if a != [] && b != [] {
      if a[0] != b[0] {
        assert a[0] in Elems(b);
        assert b[0] in Elems(a);
        LessAsymmetric(a[0], b[0]);
      }
      SortedDistinct(a);
      SortedDistinct(b);
      assert Elems(a[1..]) == Elems(a) - {a[0]} by { assert a == [a[0]] + a[1..]; }
      assert Elems(b[1..]) == Elems(b) - {b[0]} by { assert b == [b[0]] + b[1..]; }
      SortedUnique(a[1..], b[1..]);
      assert a == [a[0]] + a[1..] && b == [b[0]] + b[1..];
    } else if a != [] {
      InElems(a, 0);
    } else if b != [] {
      InElems(b, 0);
    }
  }

  /** Sorting an already sorted duplicate-free list changes nothing. */
  lemma SortUniqueOfSorted(s: seq<string>)
    requires Sorted(s)
    ensures SortUnique(s) == s
  {
    SortedUnique(SortUnique(s), s);
  }

  // ---------------------------------------------------------------------
  // array_values(array_unique(s)): first occurrences, in order

  function Dedup<T(==)>(s: seq<T>): (r: seq<T>)
    ensures Distinct(r) && Elems(r) == Elems(s)
  {
    if s == [] then []
    else
      var d := Dedup(s[..|s| - 1]);
      assert s == s[..|s| - 1] + [s[|s| - 1]];
      if s[|s| - 1] in d then d
      else
        assert Elems(d + [s[|s| - 1]]) == Elems(d) + {s[|s| - 1]};
        d + [s[|s| - 1]]
  }

  /** Later elements never disturb earlier ones: the result for a prefix is a prefix of the result. */
  lemma {:induction false} DedupPrefix<T>(s: seq<T>, k: nat)
    requires k <= |s|
    ensures |Dedup(s[..k])| <= |Dedup(s)| && Dedup(s[..k]) == Dedup(s)[..|Dedup(s[..k])|]
    decreases |s| - k
  {
    if k < |s| {
      assert s[..k + 1][..k] == s[..k];
      DedupPrefix(s, k + 1);
    } else {
      assert s[..k] == s;
    }
  }

  /** A list without duplicates is its own array_unique. */
  lemma {:induction false} DedupOfDistinct<T>(s: seq<T>)
    requires Distinct(s)
    ensures Dedup(s) == s
  {
    if s != [] {
      var p := s[..|s| - 1];
      DedupOfDistinct(p);
      assert s[|s| - 1] !in p;
      assert s == p + [s[|s| - 1]];
    }
  }

  /** array_filter with a predicate, order kept. */
  function Filter<T>(s: seq<T>, keep: T -> bool): (r: seq<T>)
    ensures Elems(r) == set x | x in s && keep(x)
    ensures |r| <= |s|
  {
    if s == [] then []
    else
      var rest := Filter(s[1..], keep);
      assert Elems(s) == {s[0]} + Elems(s[1..]) by { assert s == [s[0]] + s[1..]; }
      assert Elems([s[0]] + rest) == {s[0]} + Elems(rest);
      if keep(s[0]) then [s[0]] + rest else rest
  }

  /** Filtering keeps a list whose every element is kept unchanged. */
  lemma {:induction false} FilterAllKept<T>(s: seq<T>, keep: T -> bool)
    requires forall i :: 0 <= i < |s| ==> keep(s[i])
    ensures Filter(s, keep) == s
  {
    if s != [] {
      FilterAllKept(s[1..], keep);
      assert s == [s[0]] + s[1..];
    }
  }

  lemma {:induction false} FilterDistinct<T>(s: seq<T>, keep: T -> bool)
    requires Distinct(s)
    ensures Distinct(Filter(s, keep))
  {
    if s != [] {
      FilterDistinct(s[1..], keep);
      assert s[0] !in Elems(s[1..]);
      var rest := Filter(s[1..], keep);
      assert s[0] !in Elems(rest);
      if keep(s[0]) {
        assert Filter(s, keep) == [s[0]] + rest;
      }
    }
  }

  /** Filtering a concatenation filters each part, in order. */
  lemma {:induction false} FilterAppend<T>(a: seq<T>, b: seq<T>, keep: T -> bool)
    ensures Filter(a + b, keep) == Filter(a, keep) + Filter(b, keep)
  {
    if a == [] {
      assert a + b == b;
    } else {
      assert (a + b)[1..] == a[1..] + b;
      FilterAppend(a[1..], b, keep);
    }
  }

  /** Filtering a list with one more element at the end. */
  lemma {:induction false} FilterSnoc<T>(s: seq<T>, x: T, keep: T -> bool)
    ensures Filter(s + [x], keep) == Filter(s, keep) + (if keep(x) then [x] else [])
  {
    if s == [] {
      assert [x][1..] == [];
    } else {
      assert (s + [x])[1..] == s[1..] + [x];
      FilterSnoc(s[1..], x, keep);
    }
  }

  // ---------------------------------------------------------------------
  // String-keyed PHP arrays: ordered entries, one per key

  type Assoc<V> = seq<(string, V)>

  function Keys<V>(a: Assoc<V>): seq<string> { seq(|a|, i requires 0 <= i < |a| => a[i].0) }

  function Get<V>(a: Assoc<V>, k: string): (r: Option<V>)
    ensures r.Some? <==> k in Keys(a)
  {
    if a == [] then None
    else if a[0].0 == k then
      assert Keys(a)[0] == k;
      Some(a[0].1)
    else
      assert Keys(a) == [a[0].0] + Keys(a[1..]);
      Get(a[1..], k)
  }

  lemma KeysCons<V>(kv: (string, V), t: Assoc<V>)
    ensures Keys([kv] + t) == [kv.0] + Keys(t)
    ensures forall k :: Get([kv] + t, k) == if kv.0 == k then Some(kv.1) else Get(t, k)
  {
    assert ([kv] + t)[1..] == t;
  }

  /** $a[$k] = $v: an existing key keeps its position, a new key goes last. */
  function Put<V>(a: Assoc<V>, k: string, v: V): (r: Assoc<V>)
    ensures Keys(r) == if k in Keys(a) then Keys(a) else Keys(a) + [k]
    ensures Get(r, k) == Some(v)
    ensures forall k' :: k' != k ==> Get(r, k') == Get(a, k')
  {
    if a == [] then [(k, v)]
    else
      KeysCons(a[0], a[1..]);
      assert a == [a[0]] + a[1..];
      if a[0].0 == k then
        KeysCons((k, v), a[1..]);
        [(k, v)] + a[1..]
      else
        var t := Put(a[1..], k, v);
        KeysCons(a[0], t);
        [a[0]] + t
  }

  /** ksort: the entries of a, one per key, in key order. */
  function KSort<V>(a: Assoc<V>): (r: Assoc<V>)
    ensures Sorted(Keys(r)) && Elems(Keys(r)) == Elems(Keys(a))
    ensures forall k :: Get(r, k) == Get(a, k)
  {
    var ks := SortUnique(Keys(a));
    assert forall i :: 0 <= i < |ks| ==> ks[i] in Elems(ks);
    var r := seq(|ks|, i requires 0 <= i < |ks| => (ks[i], Get(a, ks[i]).value));
    assert Keys(r) == ks;
    SortedDistinct(ks);
    assert forall k :: Get(r, k) == Get(a, k) by {
      forall k ensures Get(r, k) == Get(a, k) {
        GetOfDistinct(r, k);
        if k in Keys(a) {
          assert k in Elems(ks);
          var i :| 0 <= i < |ks| && ks[i] == k;
          assert r[i].0 == k;
        } else {
          assert k !in Elems(ks);
        }
      }
    }
    r
  }

  /** ksort depends only on what each key maps to, not on the entries' order. */
  lemma KSortCongruent<V>(a: Assoc<V>, b: Assoc<V>)
    requires forall k :: Get(a, k) == Get(b, k)
    ensures KSort(a) == KSort(b)
  {
    assert Elems(Keys(a)) == Elems(Keys(b)) by {
      forall k ensures k in Elems(Keys(a)) <==> k in Elems(Keys(b)) {
        assert Get(a, k) == Get(b, k);
      }
    }
    SortedUnique(SortUnique(Keys(a)), SortUnique(Keys(b)));
  }

  /** With distinct keys, lookup finds the entry at the key's position. */
  lemma {:induction false} GetOfDistinct<V>(a: Assoc<V>, k: string)
    requires Distinct(Keys(a))
    ensures forall i :: 0 <= i < |a| && a[i].0 == k ==> Get(a, k) == Some(a[i].1)
  {
    if a != [] {
      assert Keys(a[1..]) == Keys(a)[1..];
      GetOfDistinct(a[1..], k);
      forall i | 0 <= i < |a| && a[i].0 == k ensures Get(a, k) == Some(a[i].1) {
        if i > 0 {
          assert Keys(a)[i] == k && Keys(a)[0] == a[0].0;
          assert a[1..][i - 1] == a[i];
        }
      }
    }
  }

  /** Lookup in a with one entry appended: the earlier entry for the key, if any, wins. */
  lemma {:induction false} GetSnoc<V>(a: Assoc<V>, kv: (string, V), k: string)
    ensures Get(a + [kv], k) == if Get(a, k).Some? then Get(a, k) else if kv.0 == k then Some(kv.1) else None
  {
    if a != [] {
      assert (a + [kv])[1..] == a[1..] + [kv];
      GetSnoc(a[1..], kv, k);
    }
  }

  /** In an array with distinct keys, the last key is not among the earlier ones. */
  lemma KeysSnocDistinct<V>(a: Assoc<V>, kv: (string, V))
    requires Distinct(Keys(a + [kv]))
    ensures Distinct(Keys(a)) && kv.0 !in Keys(a)
  {
    var ks := Keys(a + [kv]);
    assert forall i :: 0 <= i < |a| ==> ks[i] == Keys(a)[i];
    assert ks[|a|] == kv.0;
  }

  /** Put never duplicates a key. */
  lemma PutDistinct<V>(a: Assoc<V>, k: string, v: V)
    requires Distinct(Keys(a))
    ensures Distinct(Keys(Put(a, k, v)))
  {
    if k !in Keys(a) {
      var ks := Keys(a) + [k];
      assert forall i :: 0 <= i < |Keys(a)| ==> ks[i] == Keys(a)[i];
    }
  }

  /** Put keeps a property every entry has, when the new entry has it too. */
  lemma {:induction false} PutAll<V>(a: Assoc<V>, k: string, v: V, P: ((string, V)) -> bool)
    requires forall i :: 0 <= i < |a| ==> P(a[i])
    requires P((k, v))
    ensures forall i :: 0 <= i < |Put(a, k, v)| ==> P(Put(a, k, v)[i])
  {
    if a != [] && a[0].0 != k {
      PutAll(a[1..], k, v, P);
      var t := Put(a[1..], k, v);
      assert Put(a, k, v) == [a[0]] + t;
    }
  }

  /** Every entry found by Get is an entry of the array. */
  lemma {:induction false} GetEntry<V>(a: Assoc<V>, k: string) returns (j: nat)
    requires k in Keys(a)
    ensures j < |a| && a[j] == (k, Get(a, k).value)
  {
    if a[0].0 == k {
      j := 0;
    } else {
      assert Keys(a) == [a[0].0] + Keys(a[1..]);
      var j' := GetEntry(a[1..], k);
      j := j' + 1;
    }
  }

  /** ksort keeps a property every entry has. */
  lemma KSortAll<V>(a: Assoc<V>, P: ((string, V)) -> bool)
    requires forall i :: 0 <= i < |a| ==> P(a[i])
    ensures forall i :: 0 <= i < |KSort(a)| ==> P(KSort(a)[i])
  {
    var r := KSort(a);
    SortedDistinct(Keys(r));
    forall i | 0 <= i < |r| ensures P(r[i]) {
      var k := r[i].0;
      assert Keys(r)[i] == k;
      GetOfDistinct(r, k);
      assert k in Elems(Keys(r));
      var j := GetEntry(a, k);
    }
  }

  /** Successive $a[$k] = $v assignments, in order. */
  function PutEach<V>(a: Assoc<V>, kvs: seq<(string, V)>): Assoc<V>
  {
    if kvs == [] then a
    else
      var last := kvs[|kvs| - 1];
      Put(PutEach(a, kvs[..|kvs| - 1]), last.0, last.1)
  }

  lemma PutEachSnoc<V>(a: Assoc<V>, kvs: seq<(string, V)>, kv: (string, V))
    ensures PutEach(a, kvs + [kv]) == Put(PutEach(a, kvs), kv.0, kv.1)
  {
    assert (kvs + [kv])[..|kvs|] == kvs;
  }

  /** Successive assignments compose. */
  lemma {:induction false} PutEachAppend<V>(a: Assoc<V>, x: seq<(string, V)>, y: seq<(string, V)>)
    ensures PutEach(PutEach(a, x), y) == PutEach(a, x + y)
  {
    if y == [] {
      AppendEmpty(x, y);
    } else {
      var init := y[..|y| - 1];
      var last := y[|y| - 1];
      PutEachAppend(a, x, init);
      AppendSnoc([], y);
      PutEachSnoc(PutEach(a, x), init, last);
      AppendSnoc(x, y);
      PutEachSnoc(a, x + init, last);
    }
  }

  /** The position of the first element of s that satisfies P. */
  function FirstIndex<T>(s: seq<T>, P: T -> bool): (r: Option<nat>)
    ensures r.Some? ==> r.value < |s| && P(s[r.value])
    ensures r.Some? ==> forall j :: 0 <= j < r.value ==> !P(s[j])
    ensures r.None? ==> forall j :: 0 <= j < |s| ==> !P(s[j])
  {
    if s == [] then None
    else if P(s[0]) then Some(0)
    else
      match FirstIndex(s[1..], P)
      case None => None
      case Some(i) => Some(i + 1)
  }

  lemma AppendAssoc<T>(a: seq<T>, b: seq<T>, c: seq<T>)
    ensures a + b + c == a + (b + c)
  {
  }

  /** Some element among the first n satisfies P exactly when one among the first n - 1 does or element n - 1 does. */
  lemma ExistsUpTo<T>(s: seq<T>, n: nat, P: T -> bool)
    requires 0 < n <= |s|
    ensures (exists i :: 0 <= i < n && P(s[i])) <==> (exists i :: 0 <= i < n - 1 && P(s[i])) || P(s[n - 1])
  {
  }

  lemma TakeAll<T>(s: seq<T>)
    ensures s[..|s|] == s
  {
  }

  lemma AppendEmpty<T>(a: seq<T>, b: seq<T>)
    requires b == []
    ensures a + b == a
  {
  }

  /** Each of three joined sequences can be sliced back out. */
  lemma ThreeParts<T>(a: seq<T>, b: seq<T>, c: seq<T>)
    ensures (a + b + c)[..|a|] == a
    ensures (a + b + c)[|a|..|a| + |b|] == b
    ensures (a + b + c)[|a + b + c| - |c|..] == c
  {
  }

  /** x is in a non-empty s exactly when it is in all but the last element, or is the last. */
  lemma InSnoc<T>(s: seq<T>, x: T)
    requires s != []
    ensures x in s <==> x in s[..|s| - 1] || x == s[|s| - 1]
  {
    assert s == s[..|s| - 1] + [s[|s| - 1]];
  }

  /** A non-empty b splits into all but its last element, then that element. */
  lemma AppendSnoc<T>(a: seq<T>, b: seq<T>)
    requires b != []
    ensures a + b == (a + b[..|b| - 1]) + [b[|b| - 1]]
  {
  }

  lemma {:induction false} PutEachAll<V>(a: Assoc<V>, kvs: seq<(string, V)>, P: ((string, V)) -> bool)
    requires forall i :: 0 <= i < |a| ==> P(a[i])
    requires forall i :: 0 <= i < |kvs| ==> P(kvs[i])
    ensures forall i :: 0 <= i < |PutEach(a, kvs)| ==> P(PutEach(a, kvs)[i])
  {
    if kvs != [] {
      var p := kvs[..|kvs| - 1];
      PutEachAll(a, p, P);
      PutAll(PutEach(a, p), kvs[|kvs| - 1].0, kvs[|kvs| - 1].1, P);
    }
  }

  /** A key none of the assignments touches keeps its value. */
  lemma {:induction false} PutEachOutside<V>(a: Assoc<V>, kvs: seq<(string, V)>, k: string)
    requires forall i :: 0 <= i < |kvs| ==> kvs[i].0 != k
    ensures Get(PutEach(a, kvs), k) == Get(a, k)
  {
    if kvs != [] {
      PutEachOutside(a, kvs[..|kvs| - 1], k);
    }
  }

  /** A key some assignment touches holds the value of the last such assignment. */
  lemma {:induction false} PutEachInside<V>(a: Assoc<V>, kvs: seq<(string, V)>, j: nat)
    requires j < |kvs|
    requires forall l :: j < l < |kvs| ==> kvs[l].0 != kvs[j].0
    ensures Get(PutEach(a, kvs), kvs[j].0) == Some(kvs[j].1)
  {
    if j < |kvs| - 1 {
      var p := kvs[..|kvs| - 1];
      assert p[j] == kvs[j];
      PutEachInside(a, p, j);
    }
  }

  /** The last assignment to the key of assignment j. */
  lemma LastAssignment<V>(kvs: seq<(string, V)>, j: nat) returns (l: nat)
    requires j < |kvs|
    ensures j <= l < |kvs| && kvs[l].0 == kvs[j].0
    ensures forall m :: l < m < |kvs| ==> kvs[m].0 != kvs[j].0
  {
    l := |kvs| - 1;
    while kvs[l].0 != kvs[j].0
      invariant j <= l < |kvs|
      invariant forall m :: l < m < |kvs| ==> kvs[m].0 != kvs[j].0
      decreases l
    {
      l := l - 1;
    }
  }

  /** Every assigned key is present afterwards, and so is every key present before. */
  lemma PutEachPresent<V>(a: Assoc<V>, kvs: seq<(string, V)>, k: string)
    requires Get(a, k).Some? || exists j :: 0 <= j < |kvs| && kvs[j].0 == k
    ensures Get(PutEach(a, kvs), k).Some?
  {
    if j :| 0 <= j < |kvs| && kvs[j].0 == k {
      var l := LastAssignment(kvs, j);
      PutEachInside(a, kvs, l);
    } else {
      PutEachOutside(a, kvs, k);
    }
  }

  /** Assigning a new key appends the entry. */
  lemma {:induction false} PutNew<V>(a: Assoc<V>, k: string, v: V)
    requires k !in Keys(a)
    ensures Put(a, k, v) == a + [(k, v)]
  {
    if a != [] {
      KeysCons(a[0], a[1..]);
      assert a == [a[0]] + a[1..];
      PutNew(a[1..], k, v);
    }
  }

  /** Assigning a key the value it already has changes nothing. */
  lemma {:induction false} PutSame<V>(a: Assoc<V>, k: string, v: V)
    requires Get(a, k) == Some(v)
    ensures Put(a, k, v) == a
  {
    KeysCons(a[0], a[1..]);
    assert a == [a[0]] + a[1..];
    if a[0].0 != k {
      PutSame(a[1..], k, v);
    }
  }

  lemma KeysAppend<V>(a: Assoc<V>, b: Assoc<V>)
    ensures Keys(a + b) == Keys(a) + Keys(b)
  {
  }

  /** In a list without repeats, an element outside a slice is not in it. */
  lemma DistinctOutsideSlice<T>(s: seq<T>, i: nat, lo: nat, hi: nat)
    requires Distinct(s) && i < |s| && lo <= hi <= |s| && (i < lo || hi <= i)
    ensures s[i] !in s[lo..hi]
  {
  }

  lemma NotInSlice<T>(s: seq<T>, x: T, lo: nat, hi: nat)
    requires x !in s && lo <= hi <= |s|
    ensures x !in s[lo..hi]
  {
  }

  /** unset($a[$k]): every entry for k goes, the rest keep their order. */
  function Remove<V>(a: Assoc<V>, k: string): (r: Assoc<V>)
    ensures k !in Keys(r)
    ensures forall k' :: k' != k ==> Get(r, k') == Get(a, k')
    ensures k !in Keys(a) ==> r == a
  {
    if a == [] then []
    else
      KeysCons(a[0], a[1..]);
      assert a == [a[0]] + a[1..];
      var t := Remove(a[1..], k);
      KeysCons(a[0], t);
      if a[0].0 == k then t else [a[0]] + t
  }
}
