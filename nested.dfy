/** The Python values that template trees and target trees are made of, and the
    dict operations the pipeline relies on: lookup, item assignment and
    `dict.update`. A dict is an association list kept in insertion order, which
    is the order Python iterates it in. */
module Nested {
  import opened Wrappers

  /** A Python value found in a pattern tree: a string, an integer, a boolean,
      a list (standing for any non-string iterable) or a dict with string keys. */
  datatype Value =
    | Str(s: string)
    | Num(n: int)
    | Flag(b: bool)
    | List(items: seq<Value>)
    | Dict(entries: Entries)
  {
    /** Neither a dict nor a list: `flatten` yields such a value whole. */
    predicate IsAtom() {
      Str? || Num? || Flag?
    }
  }

  /** The items of a dict, in insertion order. */
  type Entries = seq<(string, Value)>

  /** The empty dict `{}`. */
  const EmptyDict: Value := Dict([])

  /** `list(d.keys())` */
  function Keys(es: Entries): (ks: seq<string>)
    ensures |ks| == |es|
    ensures forall i :: 0 <= i < |es| ==> ks[i] == es[i].0
  {
    if es == [] then [] else [es[0].0] + Keys(es[1..])
  }

  /** `list(d.values())` */
  function Values(es: Entries): (vs: seq<Value>)
    ensures |vs| == |es|
    ensures forall i :: 0 <= i < |es| ==> vs[i] == es[i].1
  {
    if es == [] then [] else [es[0].1] + Values(es[1..])
  }

  /** The invariant every Python dict keeps: no key occurs twice. */
  predicate DistinctKeys(es: Entries) {
    forall i, j :: 0 <= i < j < |es| ==> es[i].0 != es[j].0
  }

  /** Every dict inside the value, at any depth, has distinct keys. */
  predicate WellFormed(v: Value)
    decreases v
  {
    match v
    case Dict(es) =>
      DistinctKeys(es) && forall i :: 0 <= i < |es| ==> WellFormed(es[i].1)
    case List(xs) => forall i :: 0 <= i < |xs| ==> WellFormed(xs[i])
    case _ => true
  }

  /** `d.get(k)`: the value stored under `k`, None when `k` is absent. */
  function Get(es: Entries, k: string): (r: Option<Value>)
    ensures r.Some? <==> k in Keys(es)
  {
    if es == [] then None
    else if es[0].0 == k then Some(es[0].1)
    else Get(es[1..], k)
  }

  /** `d.get(k, default)` */
  function GetOr(es: Entries, k: string, default: Value): Value {
    match Get(es, k)
    case Some(v) => v
    case None => default
  }

  /** Item assignment `d[k] = v`: an existing key keeps its position and gets
      the new value, a new key is appended at the end. */
  function Set(es: Entries, k: string, v: Value): Entries
  {
    if es == [] then [(k, v)]
    else if es[0].0 == k then [(k, v)] + es[1..]
    else [es[0]] + Set(es[1..], k, v)
  }

  /** `d.update(u)`: every item of `u`, in order, is assigned into `d`. */
  function ShallowUpdate(d: Entries, u: Entries): Entries
    decreases u
  {
    if u == [] then d else ShallowUpdate(Set(d, u[0].0, u[0].1), u[1..])
  }

  /** The value reached from `v` by indexing with the keys of `path` in turn
      (`v[p0][p1]...`); None when some step does not land on a dict holding
      the key. */
  function At(v: Value, path: seq<string>): Option<Value>
    decreases path
  {
    if path == [] then Some(v)
    else if !v.Dict? then None
    else match Get(v.entries, path[0])
      case None => None
      case Some(child) => At(child, path[1..])
  }

  /** Item assignment stores the value under its key, leaves every other key
      alone, and keeps the key order except for appending a new key. */
  lemma {:induction false} SetGet(es: Entries, k: string, v: Value)
    ensures Get(Set(es, k, v), k) == Some(v)
    ensures forall j :: j != k ==> Get(Set(es, k, v), j) == Get(es, j)
    ensures Keys(Set(es, k, v)) == if k in Keys(es) then Keys(es) else Keys(es) + [k]
  {
    if es != [] && es[0].0 != k {
      SetGet(es[1..], k, v);
      assert Keys(es) == [es[0].0] + Keys(es[1..]);
    }
  }

  /** The keys after item assignment: unchanged, or the new key appended. */
  lemma SetKeys(es: Entries, k: string, v: Value)
    ensures Keys(Set(es, k, v)) == if k in Keys(es) then Keys(es) else Keys(es) + [k]
  {
    SetGet(es, k, v);
  }

  /** Keys of a set of distinct keys keep their distinctness under assignment. */
  lemma {:induction false} SetKeepsDistinct(es: Entries, k: string, v: Value)
    requires DistinctKeys(es)
    ensures DistinctKeys(Set(es, k, v))
  {
    var r := Set(es, k, v);
    SetGet(es, k, v);
    assert Keys(r) == if k in Keys(es) then Keys(es) else Keys(es) + [k];
    forall i, j | 0 <= i < j < |r| ensures r[i].0 != r[j].0 {
      assert Keys(r)[i] == r[i].0 && Keys(r)[j] == r[j].0;
      if j < |es| {
        assert Keys(es)[i] == es[i].0 && Keys(es)[j] == es[j].0;
      } else {
        assert Keys(es)[i] == es[i].0;
      }
    }
  }

  /** Looking up the first key of a dict whose keys are distinct. */
  lemma {:induction false} GetFirst(es: Entries)
    requires es != []
    ensures Get(es, es[0].0) == Some(es[0].1)
    ensures forall k :: k != es[0].0 ==> Get(es, k) == Get(es[1..], k)
    ensures DistinctKeys(es) ==> DistinctKeys(es[1..]) && es[0].0 !in Keys(es[1..])
  {
    if DistinctKeys(es) {
      var ks := Keys(es[1..]);
      forall i | 0 <= i < |ks| ensures ks[i] != es[0].0 {
        assert ks[i] == es[i + 1].0;
      }
    }
  }

  /** The keys of `ks` that are not in `present`, in the order of `ks`, each
      once: the keys that assigning `ks` in turn into a dict with keys `present`
      appends. */
  function NewKeys(present: seq<string>, ks: seq<string>): seq<string>
    decreases ks
  {
    if ks == [] then []
    else if ks[0] in present then NewKeys(present, ks[1..])
    else [ks[0]] + NewKeys(present + [ks[0]], ks[1..])
  }

  /** One more key at the end of `ks` is appended to `NewKeys` exactly when
      it is neither in `present` nor already new. */
  lemma {:induction false} NewKeysSnoc(present: seq<string>, ks: seq<string>, k: string)
    ensures NewKeys(present, ks + [k]) == NewKeys(present, ks) + (if k in present + NewKeys(present, ks) then [] else [k])
    decreases ks
  {
    if ks == [] {
      assert [k][1..] == [] && ks + [k] == [k] && present + [] == present;
    } else {
      var x := ks[0];
      assert (ks + [k])[0] == x && (ks + [k])[1..] == ks[1..] + [k];
      if x in present {
        NewKeysSnoc(present, ks[1..], k);
      } else {
        NewKeysSnoc(present + [x], ks[1..], k);
        assert present + NewKeys(present, ks) == (present + [x]) + NewKeys(present + [x], ks[1..]);
      }
    }
  }

  /** Assigning `k` and then the keys `rest` appends the same new keys as
      assigning the keys `[k] + rest` in turn. */
  lemma SetNewKeys(d: Entries, k: string, v: Value, rest: seq<string>)
    ensures Keys(Set(d, k, v)) + NewKeys(Keys(Set(d, k, v)), rest) == Keys(d) + NewKeys(Keys(d), [k] + rest)
  {
    SetKeys(d, k, v);
    NewKeysCons(Keys(d), k, rest);
  }

  /** `NewKeys` on a list that starts with `k`. */
  lemma NewKeysCons(present: seq<string>, k: string, rest: seq<string>)
    ensures k in present ==> NewKeys(present, [k] + rest) == NewKeys(present, rest)
    ensures k !in present ==>
      present + NewKeys(present, [k] + rest) == (present + [k]) + NewKeys(present + [k], rest)
  {
    var ks := [k] + rest;
    assert ks[0] == k && ks[1..] == rest;
    if k !in present {
      var x := NewKeys(present + [k], rest);
      assert NewKeys(present, ks) == [k] + x;
      assert (present + [k]) + x == present + ([k] + x);
    }
  }

  /** `d.update(u)` keeps `d`'s keys in their positions and appends the keys
      of `u` that `d` lacks, in `u`'s order, each once. */
  lemma {:induction false} ShallowUpdateKeys(d: Entries, u: Entries)
    ensures Keys(ShallowUpdate(d, u)) == Keys(d) + NewKeys(Keys(d), Keys(u))
    decreases u
  {
    if u == [] {
      assert Keys(d) + [] == Keys(d);
    } else {
      assert Keys(u) == [u[0].0] + Keys(u[1..]);
      ShallowUpdateKeys(Set(d, u[0].0, u[0].1), u[1..]);
      SetNewKeys(d, u[0].0, u[0].1, Keys(u[1..]));
    }
  }

  /** `dict.update` with a dict (distinct keys): a key of `u` takes `u`'s value
      wholesale, with no merging of nested dicts; every other key keeps `d`'s
      value; `d`'s keys keep their positions and the keys of `u` that `d`
      lacks come after them, in `u`'s order. */
  lemma {:induction false} ShallowUpdateGet(d: Entries, u: Entries)
    requires DistinctKeys(u)
    ensures forall k :: Get(ShallowUpdate(d, u), k) == if k in Keys(u) then Get(u, k) else Get(d, k)
    ensures |ShallowUpdate(d, u)| >= |d| && Keys(ShallowUpdate(d, u))[..|d|] == Keys(d)
    ensures Keys(ShallowUpdate(d, u)) == Keys(d) + NewKeys(Keys(d), Keys(u))
    decreases u
  {
    ShallowUpdateKeys(d, u);
    assert Keys(ShallowUpdate(d, u))[..|d|] == Keys(d);
    if u != [] {
      var d' := Set(d, u[0].0, u[0].1);
      SetGet(d, u[0].0, u[0].1);
      GetFirst(u);
      ShallowUpdateGet(d', u[1..]);
    }
  }

  /** `{}.update(u)` is a copy of `u`. */
  lemma {:induction false} ShallowUpdateEmpty(u: Entries)
    requires DistinctKeys(u)
    ensures ShallowUpdate([], u) == u
  {
    CopyByUpdate([], u);
  }

  /** Assigning the items of `u` after those of `p` rebuilds `p + u` when no key repeats. */
  lemma {:induction false} CopyByUpdate(p: Entries, u: Entries)
    requires DistinctKeys(p + u)
    ensures ShallowUpdate(p, u) == p + u
    decreases u
  {
    if u != [] {
      var k := u[0].0;
      assert k !in Keys(p) by {
        forall i | 0 <= i < |p| ensures Keys(p)[i] != k {
          assert (p + u)[i].0 == p[i].0 && (p + u)[|p|].0 == k;
        }
      }
      AppendNew(p, k, u[0].1);
      assert (p + [u[0]]) + u[1..] == p + u;
      CopyByUpdate(p + [u[0]], u[1..]);
    }
  }

  /** Assigning an absent key appends it. */
  lemma {:induction false} AppendNew(p: Entries, k: string, v: Value)
    requires k !in Keys(p)
    ensures Set(p, k, v) == p + [(k, v)]
    decreases p
  {
    if p != [] {
      assert Keys(p) == [p[0].0] + Keys(p[1..]);
      AppendNew(p[1..], k, v);
      assert Set(p, k, v) == [p[0]] + (p[1..] + [(k, v)]);
      assert p == [p[0]] + p[1..];
    }
  }
}
