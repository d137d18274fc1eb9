/**
 * Python's insertion-ordered `dict`, as a sequence of key/value pairs.
 * Assigning to a key already present replaces its value where it stands;
 * assigning to a new key appends it. Both the converter's per-sheet table
 * and every row record are dictionaries of this kind.
 */
module OrderedDict {
  import opened Wrappers

  type Dict<K, V> = seq<(K, V)>

  /** `list(d.keys())` */
  function Keys<K, V>(m: Dict<K, V>): (ks: seq<K>)
    ensures |ks| == |m|
    ensures forall i :: 0 <= i < |m| ==> ks[i] == m[i].0
  {
    seq(|m|, i requires 0 <= i < |m| => m[i].0)
  }

  predicate Unique<K(==)>(ks: seq<K>)
  {
    forall i, j :: 0 <= i < j < |ks| ==> ks[i] != ks[j]
  }

  /** `d.get(k)` */
  function Get<K(==), V>(m: Dict<K, V>, k: K): (r: Option<V>)
    ensures r.Some? <==> k in Keys(m)
  {
    if m == [] then None
    else if m[0].0 == k then Some(m[0].1)
    else
      assert Keys(m[1..]) == Keys(m)[1..];
      Get(m[1..], k)
  }

  /** `d[k] = v`: a new key goes to the end; an existing key keeps its place. */
  function Put<K(==), V>(m: Dict<K, V>, k: K, v: V): (r: Dict<K, V>)
    ensures Keys(r) == if k in Keys(m) then Keys(m) else Keys(m) + [k]
  {
    if m == [] then [(k, v)]
    else if m[0].0 == k then [(k, v)] + m[1..]
    else
      var rest := Put(m[1..], k, v);
      KeysTail(m);
      KeysCons(m[0], rest);
      [m[0]] + rest
  }

  lemma KeysTail<K, V>(m: Dict<K, V>)
    requires m != []
    ensures Keys(m[1..]) == Keys(m)[1..]
  {
  }

  lemma KeysCons<K, V>(p: (K, V), m: Dict<K, V>)
    ensures Keys([p] + m) == [p.0] + Keys(m)
  {
  }

  /** Reading back what was just written, and nothing else disturbed. */
  lemma {:induction false} PutGet<K, V>(m: Dict<K, V>, k: K, v: V, k': K)
    ensures Get(Put(m, k, v), k') == if k' == k then Some(v) else Get(m, k')
  {
    if m != [] && m[0].0 != k {
      PutGet(m[1..], k, v, k');
      assert Put(m, k, v)[1..] == Put(m[1..], k, v);
    } else if m != [] {
      assert Put(m, k, v)[1..] == m[1..];
    }
  }

  /** The assignments `d[k] = v` for each pair of `ps`, in order: the dict
      comprehension `{k: v for k, v in ps}` applied to `m`. */
  function PutAll<K(==), V>(m: Dict<K, V>, ps: seq<(K, V)>): Dict<K, V>
  {
    if ps == [] then m else Put(PutAll(m, ps[..|ps| - 1]), ps[|ps| - 1].0, ps[|ps| - 1].1)
  }

  /** The value of the last pair of `ps` with key `k`. */
  function LastFor<K(==), V>(ps: seq<(K, V)>, k: K): Option<V>
  {
    if ps == [] then None
    else if ps[|ps| - 1].0 == k then Some(ps[|ps| - 1].1)
    else LastFor(ps[..|ps| - 1], k)
  }

  /** Keys of `ks` followed by those of `xs` not seen before, in order of
      first appearance. */
  function AppendNew<K(==)>(ks: seq<K>, xs: seq<K>): seq<K>
  {
    if xs == [] then ks
    else
      var a := AppendNew(ks, xs[..|xs| - 1]);
      if xs[|xs| - 1] in a then a else a + [xs[|xs| - 1]]
  }

  /** After a run of assignments, a key holds the last value assigned to it,
      or what it held before when it was never assigned. */
  lemma {:induction false} PutAllGet<K, V>(m: Dict<K, V>, ps: seq<(K, V)>, k: K)
    ensures Get(PutAll(m, ps), k) == if LastFor(ps, k).Some? then LastFor(ps, k) else Get(m, k)
  {
    if ps != [] {
      var last := ps[|ps| - 1];
      PutGet(PutAll(m, ps[..|ps| - 1]), last.0, last.1, k);
      PutAllGet(m, ps[..|ps| - 1], k);
    }
  }

  /** After a run of assignments the keys are the old ones followed by the
      newly assigned ones in order of first assignment. */
  lemma {:induction false} PutAllKeys<K, V>(m: Dict<K, V>, ps: seq<(K, V)>)
    ensures Keys(PutAll(m, ps)) == AppendNew(Keys(m), Keys(ps))
  {
    if ps != [] {
      var last := ps[|ps| - 1];
      PutAllKeys(m, ps[..|ps| - 1]);
      assert Keys(ps[..|ps| - 1]) == Keys(ps)[..|ps| - 1];
    }
  }

  /** When every assigned key is new, the assignments simply append. */
  lemma {:induction false} PutAllFresh<K, V>(ps: seq<(K, V)>)
    requires Unique(Keys(ps))
    ensures PutAll([], ps) == ps
  {
    if ps != [] {
      var init := ps[..|ps| - 1];
      var last := ps[|ps| - 1];
      assert Keys(init) == Keys(ps)[..|ps| - 1];
      UniqueSplit(Keys(ps));
      PutAllFresh(init);
      PutAppends(init, last.0, last.1);
      assert init + [last] == ps;
    }
  }

  lemma UniqueSplit<K>(ks: seq<K>)
    requires Unique(ks) && ks != []
    ensures Unique(ks[..|ks| - 1]) && ks[|ks| - 1] !in ks[..|ks| - 1]
  {
  }

  lemma {:induction false} PutAppends<K, V>(m: Dict<K, V>, k: K, v: V)
    requires k !in Keys(m)
    ensures Put(m, k, v) == m + [(k, v)]
  {
    if m != [] {
      assert Keys(m[1..]) == Keys(m)[1..];
      PutAppends(m[1..], k, v);
      assert [m[0]] + (m[1..] + [(k, v)]) == m + [(k, v)];
    }
  }

  /** A key assigned at position `i` and never again keeps that value. */
  lemma {:induction false} LastForAt<K, V>(ps: seq<(K, V)>, i: nat)
    requires i < |ps|
    requires forall j :: i < j < |ps| ==> ps[j].0 != ps[i].0
    ensures LastFor(ps, ps[i].0) == Some(ps[i].1)
  {
    if i < |ps| - 1 {
      LastForAt(ps[..|ps| - 1], i);
    }
  }

  /** A key never assigned has no last value. */
  lemma {:induction false} LastForAbsent<K, V>(ps: seq<(K, V)>, k: K)
    requires k !in Keys(ps)
    ensures LastFor(ps, k) == None
  {
    if ps != [] {
      assert Keys(ps[..|ps| - 1]) == Keys(ps)[..|ps| - 1];
      LastForAbsent(ps[..|ps| - 1], k);
    }
  }

  /** Keys without repetitions gain nothing from deduplication. */
  lemma {:induction false} AppendNewUnique<K>(xs: seq<K>)
    requires Unique(xs)
    ensures AppendNew([], xs) == xs
  {
    if xs != [] {
      AppendNewUnique(xs[..|xs| - 1]);
      assert xs[..|xs| - 1] + [xs[|xs| - 1]] == xs;
    }
  }

  /** Deduplication keeps every key exactly once. */
  lemma {:induction false} AppendNewContents<K>(ks: seq<K>, xs: seq<K>)
    requires Unique(ks)
    ensures Unique(AppendNew(ks, xs))
    ensures forall k :: k in AppendNew(ks, xs) <==> k in ks || k in xs
  {
    if xs != [] {
      AppendNewContents(ks, xs[..|xs| - 1]);
      assert forall k :: k in xs <==> k in xs[..|xs| - 1] || k == xs[|xs| - 1];
    }
  }
}
