/** The nested-dict toolkit of the pipeline's `lib/utils.py`: flattening a tree
    of patterns into a list of strings, mapping and collapsing nested dicts,
    the report file name of a pattern, the two update variants (key-scoped
    shallow copy-update and in-place recursive update) and boolean join labels. */
module Utils {
  import opened Wrappers
  import opened Nested

  // ---------------------------------------------------------------------------
  // flatten
  // ---------------------------------------------------------------------------

  /** What `flatten`'s generator yields for one item met during the walk: the
      values of a dict and the elements of a list, flattened in order; a
      string, number or boolean is yielded whole (strings are not split). */
  function FlattenItem(v: Value): (r: seq<Value>)
    ensures forall x | x in r :: x.IsAtom()
    decreases v, 0
  {
    match v
    case List(xs) => FlattenSeq(xs)
    case Dict(es) => FlattenEntries(es)
    case _ => [v]
  }

  /** The generator run over a list: each element flattened, in order. */
  function FlattenSeq(xs: seq<Value>): (r: seq<Value>)
    ensures forall x | x in r :: x.IsAtom()
    decreases xs
  {
    if xs == [] then [] else FlattenItem(xs[0]) + FlattenSeq(xs[1..])
  }

  /** The generator run over a dict: each value flattened, in insertion order;
      the keys are not visited. */
  function FlattenEntries(es: Entries): (r: seq<Value>)
    ensures forall x | x in r :: x.IsAtom()
    decreases es
  {
    if es == [] then []
    else
      assert es[0].1 < es[0];
      FlattenItem(es[0].1) + FlattenEntries(es[1..])
  }

  /** Flattening a dict's items distributes over concatenation: the values
      are walked depth first, in insertion order. */
  lemma {:induction false} FlattenEntriesAppend(a: Entries, b: Entries)
    ensures FlattenEntries(a + b) == FlattenEntries(a) + FlattenEntries(b)
    decreases a
  {
    if a == [] {
      assert a + b == b;
    } else {
      assert (a + b)[0] == a[0] && (a + b)[1..] == a[1..] + b;
      FlattenEntriesAppend(a[1..], b);
    }
  }

  /** A dict is walked as the list of its values: the keys play no part. */
  lemma {:induction false} FlattenEntriesValues(es: Entries)
    ensures FlattenEntries(es) == FlattenSeq(Values(es))
    decreases es
  {
    if es != [] {
      FlattenEntriesValues(es[1..]);
      assert Values(es)[1..] == Values(es[1..]);
    }
  }

  /** The characters of a string as one-character strings, which is what
      iterating over a Python string produces. */
  function Chars(s: string): (r: seq<Value>)
    ensures |r| == |s|
    ensures forall i :: 0 <= i < |s| ==> r[i] == Str([s[i]])
  {
    seq(|s|, i requires 0 <= i < |s| => Str([s[i]]))
  }

  /** `flatten(iter, unlist)`. The top-level argument is iterated as Python
      does: a dict over its values, a list over its elements and a bare string
      over its characters; a number or boolean is not iterable (TypeError,
      None here). With `unlist`, a single result is returned bare. */
  function Flatten(v: Value, unlist: bool): (r: Option<Value>)
    ensures r.None? <==> v.Num? || v.Flag?
    ensures r.Some? ==> r.value.IsAtom() || (r.value.List? && forall x | x in r.value.items :: x.IsAtom())
    ensures r.Some? && !unlist ==> r.value.List?
  {
    if v.Num? || v.Flag? then None
    else
      var results := if v.Str? then FlattenSeq(Chars(v.s)) else FlattenItem(v);
      Some(if unlist && |results| == 1 then results[0] else List(results))
  }

  /** `x` is a string, number or boolean reached from `v` through list
      elements and dict values (never through dict keys). */
  ghost predicate Occurs(x: Value, v: Value)
    decreases v
  {
    match v
    case List(xs) => exists i :: 0 <= i < |xs| && Occurs(x, xs[i])
    case Dict(es) => exists i :: 0 <= i < |es| && Occurs(x, es[i].1)
    case _ => x == v
  }

  /** The flattened items are exactly the leaves of the structure: every
      nested string, number or boolean appears, and nothing else (no key, no
      piece of a string). */
  lemma {:induction false} FlattenItemLeaves(x: Value, v: Value)
    ensures x in FlattenItem(v) <==> Occurs(x, v)
    decreases v, 0
  {
    match v
    case List(xs) => FlattenSeqLeaves(x, xs);
    case Dict(es) => FlattenEntriesLeaves(x, es);
    case _ =>
  }

  lemma {:induction false} FlattenSeqLeaves(x: Value, xs: seq<Value>)
    ensures x in FlattenSeq(xs) <==> exists i :: 0 <= i < |xs| && Occurs(x, xs[i])
    decreases xs
  {
    if xs != [] {
      FlattenItemLeaves(x, xs[0]);
      FlattenSeqLeaves(x, xs[1..]);
      if x in FlattenSeq(xs[1..]) {
        var j :| 0 <= j < |xs[1..]| && Occurs(x, xs[1..][j]);
        assert Occurs(x, xs[j + 1]);
      }
      if exists i :: 0 <= i < |xs| && Occurs(x, xs[i]) {
        var i :| 0 <= i < |xs| && Occurs(x, xs[i]);
        if i > 0 {
          assert Occurs(x, xs[1..][i - 1]);
        }
      }
    }
  }

  lemma {:induction false} FlattenEntriesLeaves(x: Value, es: Entries)
    ensures x in FlattenEntries(es) <==> exists i :: 0 <= i < |es| && Occurs(x, es[i].1)
    decreases es
  {
    if es != [] {
      assert es[0].1 < es[0];
      FlattenItemLeaves(x, es[0].1);
      FlattenEntriesLeaves(x, es[1..]);
      if x in FlattenEntries(es[1..]) {
        var j :| 0 <= j < |es[1..]| && Occurs(x, es[1..][j].1);
        assert Occurs(x, es[j + 1].1);
      }
      if exists i :: 0 <= i < |es| && Occurs(x, es[i].1) {
        var i :| 0 <= i < |es| && Occurs(x, es[i].1);
        if i > 0 {
          assert Occurs(x, es[1..][i - 1].1);
        }
      }
    }
  }

  /** Flattening distributes over list concatenation. */
  lemma {:induction false} FlattenSeqAppend(a: seq<Value>, b: seq<Value>)
    ensures FlattenSeq(a + b) == FlattenSeq(a) + FlattenSeq(b)
    decreases a
  {
    if a == [] {
      assert a + b == b;
    } else {
      assert (a + b)[0] == a[0] && (a + b)[1..] == a[1..] + b;
      FlattenSeqAppend(a[1..], b);
    }
  }

  /** A list with no nesting flattens to its own items. */
  lemma {:induction false} FlattenSeqAtoms(xs: seq<Value>)
    requires forall x | x in xs :: x.IsAtom()
    ensures FlattenSeq(xs) == xs
    decreases xs
  {
    if xs != [] {
      assert xs[0] in xs;
      assert FlattenItem(xs[0]) == [xs[0]];
      FlattenSeqAtoms(xs[1..]);
      assert xs == [xs[0]] + xs[1..];
    }
  }

  /** Wrapping a value in a one-key dict or a one-element list does not change
      what it flattens to. */
  lemma FlattenIgnoresNesting(k: string, v: Value)
    ensures FlattenItem(Dict([(k, v)])) == FlattenItem(v)
    ensures FlattenItem(List([v])) == FlattenItem(v)
  {
    assert [(k, v)][1..] == [];
    assert FlattenEntries([(k, v)]) == FlattenItem(v) + [];
    assert [v][1..] == [];
    assert FlattenSeq([v]) == FlattenItem(v) + [];
  }

  /** A bare top-level string is split into its characters, whereas the same
      string inside a list is yielded whole. */
  lemma {:induction false} FlattenTopLevelString(s: string)
    ensures Flatten(Str(s), false) == Some(List(Chars(s)))
    ensures Flatten(List([Str(s)]), false) == Some(List([Str(s)]))
  {
    FlattenSeqAtoms(Chars(s));
    FlattenSeqAtoms([Str(s)]);
  }

  /** `unlist` only acts on the top-level result: with it, exactly one result
      comes back bare and any other number of results as the list returned
      without it. */
  lemma FlattenUnlist(v: Value)
    requires !v.Num? && !v.Flag?
    ensures var items := Flatten(v, false).value.items;
      Flatten(v, true) == Some(if |items| == 1 then items[0] else List(items))
  {
  }

  /** The first assertion of `test_flatten`: the mixed dict and list
      structure yields its seven strings, in insertion order (the test sorts
      them to a..g). */
  lemma FlattenTestMixed()
    ensures Flatten(Dict([
        ("a", Dict([("b", Dict([("c", List([Str("a"), Str("b"), Str("c")]))]))])),
        ("x", List([Str("e"), Str("f"), Str("g")])),
        ("y", Dict([("z", Str("d"))]))
      ]), false)
      == Some(List([Str("a"), Str("b"), Str("c"), Str("e"), Str("f"), Str("g"), Str("d")]))
  {
    var abc := [Str("a"), Str("b"), Str("c")];
    var efg := [Str("e"), Str("f"), Str("g")];
    var a := Dict([("b", Dict([("c", List(abc))]))]);
    var x := List(efg);
    var y := Dict([("z", Str("d"))]);
    FlattenMixedParts(abc, efg);
    ThreeEntries(("a", a), ("x", x), ("y", y));
    assert abc + efg + [Str("d")] == [Str("a"), Str("b"), Str("c"), Str("e"), Str("f"), Str("g"), Str("d")];
  }

  lemma FlattenMixedParts(abc: seq<Value>, efg: seq<Value>)
    requires abc == [Str("a"), Str("b"), Str("c")] && efg == [Str("e"), Str("f"), Str("g")]
    ensures FlattenItem(Dict([("b", Dict([("c", List(abc))]))])) == abc
    ensures FlattenItem(List(efg)) == efg
    ensures FlattenItem(Dict([("z", Str("d"))])) == [Str("d")]
  {
    FlattenIgnoresNesting("b", Dict([("c", List(abc))]));
    FlattenIgnoresNesting("c", List(abc));
    FlattenSeqAtoms(abc);
    FlattenSeqAtoms(efg);
    FlattenIgnoresNesting("z", Str("d"));
  }

  lemma ThreeEntries(e0: (string, Value), e1: (string, Value), e2: (string, Value))
    ensures FlattenEntries([e0, e1, e2]) == FlattenItem(e0.1) + FlattenItem(e1.1) + FlattenItem(e2.1)
  {
    var es := [e0, e1, e2];
    assert es[1..] == [e1, e2] && [e1, e2][1..] == [e2] && [e2][1..] == [];
    assert FlattenEntries([e2]) == FlattenItem(e2.1) + FlattenEntries([]);
    assert FlattenEntries([e1, e2]) == FlattenItem(e1.1) + FlattenEntries([e2]);
    assert FlattenEntries(es) == FlattenItem(e0.1) + FlattenEntries([e1, e2]);
  }

  /** The four `unlist` assertions of `test_flatten`. */
  lemma FlattenTestUnlist()
    ensures Flatten(Str("a"), true) == Some(Str("a"))
    ensures Flatten(List([Str("a")]), true) == Some(Str("a"))
    ensures Flatten(Str("a"), false) == Some(List([Str("a")]))
    ensures Flatten(List([Str("a")]), false) == Some(List([Str("a")]))
  {
    FlattenTopLevelString("a");
    assert Chars("a") == [Str("a")];
  }

  // ---------------------------------------------------------------------------
  // map_nested_dicts
  // ---------------------------------------------------------------------------

  /** `map_nested_dicts(d, func)`: the same dict structure with `func` applied
      to every value that is not a dict (lists included, which are not
      entered). */
  function MapNested(v: Value, f: Value -> Value): (r: Value)
    ensures v.Dict? ==> r.Dict? && Keys(r.entries) == Keys(v.entries)
    decreases v, 0
  {
    match v
    case Dict(es) => Dict(MapEntries(es, f))
    case _ => f(v)
  }

  /** The dict comprehension of `map_nested_dicts` over the items of one dict. */
  function MapEntries(es: Entries, f: Value -> Value): (r: Entries)
    ensures Keys(r) == Keys(es)
    decreases es
  {
    if es == [] then []
    else
      assert es[0].1 < es[0];
      [(es[0].0, MapNested(es[0].1, f))] + MapEntries(es[1..], f)
  }

  lemma {:induction false} GetMapEntries(es: Entries, f: Value -> Value, k: string)
    ensures Get(MapEntries(es, f), k) == match Get(es, k)
      case None => None
      case Some(c) => Some(MapNested(c, f))
    decreases es
  {
    if es != [] && es[0].0 != k {
      GetMapEntries(es[1..], f, k);
    }
  }

  /** Mapping commutes with lookup: whatever `v` holds at a key path, the
      mapped tree holds its mapped form there; at a leaf (a non-dict) that is
      `func` applied to the leaf. */
  lemma {:induction false} MapNestedAt(v: Value, f: Value -> Value, path: seq<string>)
    requires At(v, path).Some?
    ensures At(MapNested(v, f), path) == Some(MapNested(At(v, path).value, f))
    ensures !At(v, path).value.Dict? ==> At(MapNested(v, f), path) == Some(f(At(v, path).value))
    decreases path
  {
    if path != [] {
      GetMapEntries(v.entries, f, path[0]);
      MapNestedAt(Get(v.entries, path[0]).value, f, path[1..]);
    }
  }

  /** Mapping a function that changes no value gives back the same tree. */
  lemma {:induction false} MapNestedIdentity(v: Value, f: Value -> Value)
    requires forall x :: f(x) == x
    ensures MapNested(v, f) == v
    decreases v, 0
  {
    if v.Dict? {
      MapEntriesIdentity(v.entries, f);
    }
  }

  lemma {:induction false} MapEntriesIdentity(es: Entries, f: Value -> Value)
    requires forall x :: f(x) == x
    ensures MapEntries(es, f) == es
    decreases es
  {
    if es != [] {
      assert es[0].1 < es[0];
      MapNestedIdentity(es[0].1, f);
      MapEntriesIdentity(es[1..], f);
    }
  }

  /** The docstring example of `map_nested_dicts`, with `func` behaving as
      `lambda x: x < 3` on integers. */
  lemma MapNestedDocstring(f: Value -> Value)
    requires forall n :: f(Num(n)) == Flag(n < 3)
    ensures MapNested(Dict([("a", Dict([("b", Dict([("target", Num(1)), ("ignore", Num(2))]))])), ("c", Dict([("target", Num(3))]))]), f)
      == Dict([("a", Dict([("b", Dict([("target", Flag(true)), ("ignore", Flag(true))]))])), ("c", Dict([("target", Flag(false))]))])
  {
    var b := [("target", Num(1)), ("ignore", Num(2))];
    MapTwoEntries("target", Num(1), "ignore", Num(2), f);
    assert f(Num(1)) == Flag(true) && f(Num(2)) == Flag(true) && f(Num(3)) == Flag(false);
    MapOneEntry("b", Dict(b), f);
    MapOneEntry("target", Num(3), f);
    MapTwoEntries("a", Dict([("b", Dict(b))]), "c", Dict([("target", Num(3))]), f);
  }

  /** The comprehension over a one-item dict. */
  lemma MapOneEntry(k: string, v: Value, f: Value -> Value)
    ensures MapEntries([(k, v)], f) == [(k, MapNested(v, f))]
  {
    assert [(k, v)][1..] == [];
  }

  /** The comprehension over a two-item dict. */
  lemma MapTwoEntries(k1: string, v1: Value, k2: string, v2: Value, f: Value -> Value)
    ensures MapEntries([(k1, v1), (k2, v2)], f) == [(k1, MapNested(v1, f)), (k2, MapNested(v2, f))]
  {
    assert [(k1, v1), (k2, v2)][1..] == [(k2, v2)];
    MapOneEntry(k2, v2, f);
  }

  // ---------------------------------------------------------------------------
  // extract_nested
  // ---------------------------------------------------------------------------

  /** `extract_nested(d, key)`: a non-dict is returned as is; a dict holding
      `key` is replaced by the value under `key` (its siblings dropped, that
      value not entered); any other dict keeps its keys and has each value
      processed in turn. */
  function ExtractNested(v: Value, key: string): (r: Value)
    ensures v.Dict? && key !in Keys(v.entries) ==> r.Dict? && Keys(r.entries) == Keys(v.entries)
    decreases v, 0
  {
    match v
    case Dict(es) =>
      if key in Keys(es) then Get(es, key).value else Dict(ExtractEntries(es, key))
    case _ => v
  }

  /** The dict comprehension of `extract_nested` over the items of one dict. */
  function ExtractEntries(es: Entries, key: string): (r: Entries)
    ensures Keys(r) == Keys(es)
    decreases es
  {
    if es == [] then []
    else
      assert es[0].1 < es[0];
      [(es[0].0, ExtractNested(es[0].1, key))] + ExtractEntries(es[1..], key)
  }

  lemma {:induction false} GetExtractEntries(es: Entries, key: string, k: string)
    ensures Get(ExtractEntries(es, key), k) == match Get(es, k)
      case None => None
      case Some(c) => Some(ExtractNested(c, key))
    decreases es
  {
    if es != [] && es[0].0 != k {
      GetExtractEntries(es[1..], key, k);
    }
  }

  /** Every dict met along `path` before its end lacks `key`. */
  ghost predicate Avoids(v: Value, path: seq<string>, key: string)
    decreases path
  {
    path == [] ||
    (v.Dict? && key !in Keys(v.entries) &&
     match Get(v.entries, path[0])
     case None => true
     case Some(child) => Avoids(child, path[1..], key))
  }

  /** Along a key path whose dicts all lack `key`, the nesting is kept; what
      sits at the end of the path is collapsed on its own: a dict holding
      `key` becomes the value under `key`, a non-dict stays as it is. */
  lemma {:induction false} ExtractNestedAt(v: Value, key: string, path: seq<string>)
    requires At(v, path).Some? && Avoids(v, path, key)
    ensures At(ExtractNested(v, key), path) == Some(ExtractNested(At(v, path).value, key))
    ensures var x := At(v, path).value;
      if x.Dict? && key in Keys(x.entries) then At(ExtractNested(v, key), path) == Get(x.entries, key)
      else if !x.Dict? then At(ExtractNested(v, key), path) == Some(x)
      else At(ExtractNested(v, key), path).value.Dict?
    decreases path
  {
    if path != [] {
      GetExtractEntries(v.entries, key, path[0]);
      ExtractNestedAt(Get(v.entries, path[0]).value, key, path[1..]);
    }
  }

  /** No dict anywhere in `v` (lists are not entered) holds `key`. */
  ghost predicate KeyFree(v: Value, key: string)
    decreases v
  {
    match v
    case Dict(es) => key !in Keys(es) && forall i :: 0 <= i < |es| ==> KeyFree(es[i].1, key)
    case _ => true
  }

  /** When no dict holds `key`, nothing is collapsed. */
  lemma {:induction false} ExtractNestedKeyFree(v: Value, key: string)
    requires KeyFree(v, key)
    ensures ExtractNested(v, key) == v
    decreases v, 0
  {
    if v.Dict? {
      ExtractEntriesKeyFree(v.entries, key);
    }
  }

  lemma {:induction false} ExtractEntriesKeyFree(es: Entries, key: string)
    requires forall i :: 0 <= i < |es| ==> KeyFree(es[i].1, key)
    ensures ExtractEntries(es, key) == es
    decreases es
  {
    if es != [] {
      assert es[0].1 < es[0];
      ExtractNestedKeyFree(es[0].1, key);
      ExtractEntriesKeyFree(es[1..], key);
    }
  }

  /** The docstring example of `extract_nested`. */
  lemma ExtractNestedDocstring()
    ensures ExtractNested(Dict([("a", Dict([("b", Dict([("target", Num(1)), ("ignore", Num(2))]))])), ("c", Dict([("target", Num(3))]))]), "target")
      == Dict([("a", Dict([("b", Num(1))])), ("c", Num(3))])
  {
    var b := Dict([("target", Num(1)), ("ignore", Num(2))]);
    var c := Dict([("target", Num(3))]);
    assert Keys(b.entries) == ["target", "ignore"];
    assert ExtractNested(b, "target") == Num(1);
    assert Keys(c.entries) == ["target"];
    assert ExtractNested(c, "target") == Num(3);
    var a := [("b", b)];
    assert Keys(a) == ["b"];
    assert ExtractEntries(a, "target") == [("b", Num(1))] by {
      assert a[1..] == [];
    }
    var top := [("a", Dict(a)), ("c", c)];
    assert Keys(top) == ["a", "c"];
    assert top[1..] == [("c", c)] && top[1..][1..] == [];
    assert ExtractEntries(top, "target") == [("a", Dict([("b", Num(1))])), ("c", Num(3))];
  }

  // ---------------------------------------------------------------------------
  // pattern_to_rst_file
  // ---------------------------------------------------------------------------

  /** `s.replace("{", "").replace("}", "")` */
  function RemoveBraces(s: string): string {
    if s == [] then []
    else (if s[0] == '{' || s[0] == '}' then [] else [s[0]]) + RemoveBraces(s[1..])
  }

  /** `os.path.join(a, b)` for two components on POSIX: an absolute `b`
      discards `a`; otherwise a separator is added unless `a` is empty or
      already ends with one. */
  function PosixJoin(a: string, b: string): string {
    if |b| > 0 && b[0] == '/' then b
    else if a == [] || a[|a| - 1] == '/' then a + b
    else a + "/" + b
  }

  /** `pattern_to_rst_file(p)`: a file name without braces, ending in `.rst`. */
  function PatternToRstFile(p: string): (r: string)
    ensures '{' !in r && '}' !in r
    ensures |r| >= 4 && r[|r| - 4..] == ".rst"
  {
    RemoveBracesLeavesNone(p);
    assert '{' !in "reports/" && '}' !in "reports/" && '{' !in ".rst" && '}' !in ".rst";
    PosixJoin("reports", RemoveBraces(p)) + ".rst"
  }

  /** The report file of a pattern is the pattern without braces under
      `reports/`, unless that stripped pattern is absolute, in which case
      `reports` is discarded. */
  lemma PatternToRstFileShape(p: string)
    ensures var q := RemoveBraces(p);
      PatternToRstFile(p) == if |q| > 0 && q[0] == '/' then q + ".rst" else "reports/" + q + ".rst"
  {
    var q := RemoveBraces(p);
    assert "reports"[6] == 's';
    assert PosixJoin("reports", q) == if |q| > 0 && q[0] == '/' then q else "reports/" + q;
  }

  /** Every brace is removed and every other character kept, as often as it
      occurs. Together with `RemoveBracesAppend` this pins the function down:
      a one-character string loses its character exactly when it is a brace. */
  lemma {:induction false} RemoveBracesLeavesNone(s: string)
    ensures '{' !in RemoveBraces(s) && '}' !in RemoveBraces(s)
    ensures forall c :: c != '{' && c != '}' ==> multiset(RemoveBraces(s))[c] == multiset(s)[c]
    decreases s
  {
    if s != [] {
      RemoveBracesLeavesNone(s[1..]);
      assert s == [s[0]] + s[1..];
      assert multiset(s) == multiset([s[0]]) + multiset(s[1..]);
    }
  }

  /** Removing braces works piece by piece, so the kept characters stay in
      their order. */
  lemma {:induction false} RemoveBracesAppend(a: string, b: string)
    ensures RemoveBraces(a + b) == RemoveBraces(a) + RemoveBraces(b)
    decreases a
  {
    if a == [] {
      assert a + b == b;
    } else {
      assert (a + b)[0] == a[0] && (a + b)[1..] == a[1..] + b;
      RemoveBracesAppend(a[1..], b);
    }
  }

  /** A string without braces is left as it is. */
  lemma {:induction false} RemoveBracesNone(s: string)
    requires '{' !in s && '}' !in s
    ensures RemoveBraces(s) == s
    decreases s
  {
    if s != [] {
      RemoveBracesNone(s[1..]);
      assert s == [s[0]] + s[1..];
    }
  }

  /** Braces around placeholder names make no difference to the file name:
      the report file of `a{b}c` is that of `abc`. */
  lemma PatternToRstFileIgnoresBraces(a: string, b: string, c: string)
    ensures PatternToRstFile(a + "{" + b + "}" + c) == PatternToRstFile(a + b + c)
  {
    var x, y := a + "{" + b + "}" + c, a + b + c;
    assert RemoveBraces(x) == RemoveBraces(y) by {
      BracesDropped(a, b, c);
    }
  }

  lemma BracesDropped(a: string, b: string, c: string)
    ensures RemoveBraces(a + "{" + b + "}" + c) == RemoveBraces(a + b + c)
  {
    assert RemoveBraces("{") == [] by { assert "{"[1..] == []; }
    assert RemoveBraces("}") == [] by { assert "}"[1..] == []; }
    RemoveBracesAppend(a, "{");
    RemoveBracesAppend(a + "{", b);
    RemoveBracesAppend(a + "{" + b, "}");
    RemoveBracesAppend(a + "{" + b + "}", c);
    RemoveBracesAppend(a, b);
    RemoveBracesAppend(a + b, c);
  }

  // ---------------------------------------------------------------------------
  // updatecopy
  // ---------------------------------------------------------------------------

  /** The keys of `update_with` that `updatecopy` considers: the given list,
      or all of `update_with`'s keys when `keys` is None. */
  function Scope(keys: Option<seq<string>>, updateWith: Entries): seq<string> {
    match keys
    case Some(ks) => ks
    case None => Keys(updateWith)
  }

  /** What the copy holds under `k` once the keys in `done` have been
      considered: `update_with`'s value when `k` was considered, `update_with`
      has it, and either `override` is set or `orig` lacks `k`; otherwise
      whatever `orig` holds. */
  function CopiedValue(orig: Entries, updateWith: Entries, done: seq<string>, override: bool, k: string)
    : Option<Value>
  {
    if k in done && k in Keys(updateWith) && (override || k !in Keys(orig))
    then Get(updateWith, k)
    else Get(orig, k)
  }

  /** `d` is the copy after the keys in `done` have been considered, and keeps
      `orig`'s keys first, in their order. */
  ghost predicate CopiedSoFar(d: Entries, orig: Entries, updateWith: Entries, done: seq<string>, override: bool) {
    && (forall k :: Get(d, k) == CopiedValue(orig, updateWith, done, override, k))
    && |d| >= |orig| && Keys(d)[..|orig|] == Keys(orig)
  }

  /** A key that `orig` holds is in every copy. */
  lemma CopyHoldsOrigKeys(d: Entries, orig: Entries, k: string)
    requires |d| >= |orig| && Keys(d)[..|orig|] == Keys(orig)
    requires k in Keys(orig)
    ensures k in Keys(d)
  {
    var i :| 0 <= i < |orig| && Keys(orig)[i] == k;
    assert Keys(d)[i] == k;
  }

  /** A turn of the loop that skips key `k` (absent from `update_with`, or
      already present without `override`). */
  lemma UpdateCopySkip(d: Entries, orig: Entries, updateWith: Entries, done: seq<string>, override: bool, k: string)
    requires CopiedSoFar(d, orig, updateWith, done, override)
    requires k !in Keys(updateWith) || (k in Keys(d) && !override)
    ensures CopiedSoFar(d, orig, updateWith, done + [k], override)
  {
    forall j ensures Get(d, j) == CopiedValue(orig, updateWith, done + [k], override, j) {
      assert j in done + [k] <==> j in done || j == k;
    }
  }

  /** A turn of the loop that writes `update_with[k]` into the copy. */
  lemma UpdateCopyWrite(d: Entries, orig: Entries, updateWith: Entries, done: seq<string>, override: bool, k: string)
    requires CopiedSoFar(d, orig, updateWith, done, override)
    requires k in Keys(updateWith) && !(k in Keys(d) && !override)
    ensures CopiedSoFar(Set(d, k, Get(updateWith, k).value), orig, updateWith, done + [k], override)
  {
    var d' := Set(d, k, Get(updateWith, k).value);
    SetGet(d, k, Get(updateWith, k).value);
    assert override || k !in Keys(orig) by {
      if !override && k in Keys(orig) {
        CopyHoldsOrigKeys(d, orig, k);
      }
    }
    UpdateCopyWriteGets(d, d', orig, updateWith, done, override, k);
    assert Keys(d')[..|orig|] == Keys(d)[..|orig|];
  }

  lemma UpdateCopyWriteGets(d: Entries, d': Entries, orig: Entries, updateWith: Entries, done: seq<string>,
                            override: bool, k: string)
    requires forall j :: Get(d, j) == CopiedValue(orig, updateWith, done, override, j)
    requires k in Keys(updateWith) && (override || k !in Keys(orig))
    requires Get(d', k) == Get(updateWith, k) && forall j :: j != k ==> Get(d', j) == Get(d, j)
    ensures forall j :: Get(d', j) == CopiedValue(orig, updateWith, done + [k], override, j)
  {
    forall j ensures Get(d', j) == CopiedValue(orig, updateWith, done + [k], override, j) {
      if j != k {
        assert j in done + [k] <==> j in done;
      }
    }
  }

  /** The keys of `ks` that `es` holds, in the order of `ks`. */
  function Held(ks: seq<string>, es: Entries): seq<string>
    decreases |ks|
  {
    if ks == [] then []
    else Held(ks[..|ks| - 1], es) + (if ks[|ks| - 1] in Keys(es) then [ks[|ks| - 1]] else [])
  }

  /** Writing one more key into a dict whose keys are `present` followed by
      the new keys of `held`: the key order is that of `held + [k]`, whether
      `k` is written or skipped because the dict has it already. */
  lemma HeldKeysStep(d: Entries, present: seq<string>, held: seq<string>, k: string, v: Value)
    requires Keys(d) == present + NewKeys(present, held)
    ensures Keys(Set(d, k, v)) == present + NewKeys(present, held + [k])
    ensures k in Keys(d) ==> Keys(d) == present + NewKeys(present, held + [k])
  {
    var added := NewKeys(present, held);
    NewKeysSnoc(present, held, k);
    SetKeys(d, k, v);
    if k in Keys(d) {
      assert added + [] == added;
    } else {
      assert (present + added) + [k] == present + (added + [k]);
    }
  }

  /** The key order of the copy after the keys in `done` have been
      considered: `orig`'s keys, then the new keys among those of `done`
      that `update_with` holds, in that order. */
  ghost predicate KeysSoFar(d: Entries, orig: Entries, updateWith: Entries, done: seq<string>) {
    Keys(d) == Keys(orig) + NewKeys(Keys(orig), Held(done, updateWith))
  }

  /** A turn of the loop of `updatecopy` keeps the key order. */
  lemma UpdateCopyKeysStep(d: Entries, orig: Entries, updateWith: Entries, done: seq<string>, override: bool,
                           k: string)
    requires KeysSoFar(d, orig, updateWith, done)
    ensures var d' := if k in Keys(updateWith) && !(k in Keys(d) && !override)
                      then Set(d, k, Get(updateWith, k).value) else d;
      KeysSoFar(d', orig, updateWith, done + [k])
  {
    var ks := done + [k];
    assert ks[..|ks| - 1] == done && ks[|ks| - 1] == k;
    if k in Keys(updateWith) {
      assert Held(ks, updateWith) == Held(done, updateWith) + [k];
      HeldKeysStep(d, Keys(orig), Held(done, updateWith), k, Get(updateWith, k).value);
    } else {
      assert Held(ks, updateWith) == Held(done, updateWith) + [];
      assert Held(done, updateWith) + [] == Held(done, updateWith);
    }
  }

  /** `updatecopy(orig, update_with, keys, override)`: a copy of `orig` into
      which the keys in scope that `update_with` holds are written, unless
      `override` is false and the key is already present. `orig` is a value
      here and cannot change. */
  method UpdateCopy(orig: Entries, updateWith: Entries, keys: Option<seq<string>>, override: bool)
    returns (d: Entries)
    ensures forall k :: Get(d, k) == CopiedValue(orig, updateWith, Scope(keys, updateWith), override, k)
    ensures |d| >= |orig| && Keys(d)[..|orig|] == Keys(orig)
    ensures DistinctKeys(orig) ==> DistinctKeys(d)
    ensures Keys(d) == Keys(orig) + NewKeys(Keys(orig), Held(Scope(keys, updateWith), updateWith))
  {
    d := orig;
    var scope := Scope(keys, updateWith);
    assert Keys(orig) + [] == Keys(orig);
    for i := 0 to |scope|
      invariant CopiedSoFar(d, orig, updateWith, scope[..i], override)
      invariant DistinctKeys(orig) ==> DistinctKeys(d)
      invariant KeysSoFar(d, orig, updateWith, scope[..i])
    {
      var k := scope[i];
      assert scope[..i + 1] == scope[..i] + [k];
      UpdateCopyKeysStep(d, orig, updateWith, scope[..i], override, k);
      if k in Keys(updateWith) {
        if k in Keys(d) && !override {
          UpdateCopySkip(d, orig, updateWith, scope[..i], override, k);
          continue;
        }
        UpdateCopyWrite(d, orig, updateWith, scope[..i], override, k);
        if DistinctKeys(d) {
          SetKeepsDistinct(d, k, Get(updateWith, k).value);
        }
        d := Set(d, k, Get(updateWith, k).value);
      } else {
        UpdateCopySkip(d, orig, updateWith, scope[..i], override, k);
      }
    }
    assert scope[..|scope|] == scope;
  }

  /** With every key of `update_with` in scope, `updatecopy` with `override`
      holds, key by key, what `orig.update(update_with)` holds; without
      `override` it holds what `update_with.update(orig)` holds, so `orig`
      wins every clash. */
  lemma UpdateCopyAgainstUpdate(orig: Entries, updateWith: Entries, k: string)
    requires DistinctKeys(orig) && DistinctKeys(updateWith)
    ensures CopiedValue(orig, updateWith, Keys(updateWith), true, k) == Get(ShallowUpdate(orig, updateWith), k)
    ensures CopiedValue(orig, updateWith, Keys(updateWith), false, k) == Get(ShallowUpdate(updateWith, orig), k)
  {
    ShallowUpdateGet(orig, updateWith);
    ShallowUpdateGet(updateWith, orig);
  }

  // ---------------------------------------------------------------------------
  // update_recursive
  // ---------------------------------------------------------------------------

  /** The value `update_recursive(orig, u)` leaves in `orig` (and returns):
      each item of `u` in turn is written into `orig`; a dict value is first
      merged recursively into `orig.get(k, {})`. None stands for the TypeError
      or AttributeError raised when a non-empty update meets a value that is
      not a dict. */
  function UpdatedRecursively(orig: Value, u: Entries): (r: Option<Value>)
    ensures u == [] ==> r == Some(orig)
    ensures r.Some? && u != [] ==> r.value.Dict?
    decreases u
  {
    if u == [] then Some(orig)
    else if !orig.Dict? then None
    else
      var k, v := u[0].0, u[0].1;
      assert u[0].1 < u[0];
      var merged := if v.Dict? then UpdatedRecursively(GetOr(orig.entries, k, EmptyDict), v.entries) else Some(v);
      match merged
      case None => None
      case Some(nv) => UpdatedRecursively(Dict(Set(orig.entries, k, nv)), u[1..])
  }

  /** The shape of `orig` that lets `update_recursive(orig, u)` finish: `orig`
      is a dict whenever `u` is not empty, and the items of `u` fit it. */
  ghost predicate Compatible(orig: Value, u: Entries)
    decreases u, 1
  {
    u == [] || (orig.Dict? && CompatibleItems(orig.entries, u))
  }

  /** Every dict value of `u` fits, in the sense of `Compatible`, what `es`
      holds under its key (an absent key standing for the empty dict). */
  ghost predicate CompatibleItems(es: Entries, u: Entries)
    decreases u, 0
  {
    u == [] ||
    (assert u[0].1 < u[0];
     && (u[0].1.Dict? ==> Compatible(GetOr(es, u[0].0, EmptyDict), u[0].1.entries))
     && CompatibleItems(es, u[1..]))
  }

  /** Whether items fit a dict depends only on what it holds under their keys. */
  lemma {:induction false} CompatibleItemsFrame(es: Entries, es': Entries, u: Entries)
    requires forall j :: j in Keys(u) ==> Get(es, j) == Get(es', j)
    ensures CompatibleItems(es, u) <==> CompatibleItems(es', u)
    decreases u
  {
    if u != [] {
      assert u[0].0 == Keys(u)[0];
      forall j | j in Keys(u[1..]) ensures Get(es, j) == Get(es', j) {
        var i :| 0 <= i < |u[1..]| && Keys(u[1..])[i] == j;
        assert Keys(u)[i + 1] == j;
      }
      CompatibleItemsFrame(es, es', u[1..]);
    }
  }

  /** The value the first item of a non-empty update `u` leaves under its key
      in the dict `orig`. */
  function MergedFirst(orig: Value, u: Entries): Option<Value>
    requires orig.Dict? && u != []
  {
    if u[0].1.Dict? then UpdatedRecursively(GetOr(orig.entries, u[0].0, EmptyDict), u[0].1.entries)
    else Some(u[0].1)
  }

  /** One turn of the loop of `update_recursive`. */
  lemma UpdateStep(orig: Value, u: Entries)
    requires u != [] && UpdatedRecursively(orig, u).Some?
    ensures orig.Dict? && MergedFirst(orig, u).Some?
    ensures UpdatedRecursively(orig, u)
      == UpdatedRecursively(Dict(Set(orig.entries, u[0].0, MergedFirst(orig, u).value)), u[1..])
  {
  }

  /** One turn of the loop of `update_recursive` whose first item merges. */
  lemma MergeStep(orig: Value, u: Entries)
    requires orig.Dict? && u != [] && MergedFirst(orig, u).Some?
    ensures UpdatedRecursively(orig, u)
      == UpdatedRecursively(Dict(Set(orig.entries, u[0].0, MergedFirst(orig, u).value)), u[1..])
  {
  }

  /** The first item of a proper dict and the dict of the remaining items. */
  lemma RestWellFormed(u: Entries)
    requires WellFormed(Dict(u)) && u != []
    ensures WellFormed(u[0].1) && WellFormed(Dict(u[1..]))
    ensures Get(u, u[0].0) == Some(u[0].1) && u[0].0 !in Keys(u[1..])
    ensures forall k :: k != u[0].0 ==> Get(u[1..], k) == Get(u, k)
  {
    GetFirst(u);
    assert u[0] in u;
    var rest := u[1..];
    forall j | 0 <= j < |rest| ensures WellFormed(rest[j].1) {
      assert rest[j] == u[j + 1];
    }
  }

  /** For an update that is a proper dict, `update_recursive` raises exactly
      when `orig` is not compatible with it. */
  lemma {:induction false} UpdateRecursiveSucceeds(orig: Value, u: Entries)
    requires WellFormed(Dict(u))
    ensures UpdatedRecursively(orig, u).Some? <==> Compatible(orig, u)
    decreases u
  {
    if u != [] && orig.Dict? {
      var k, v := u[0].0, u[0].1;
      RestWellFormed(u);
      assert u[0].1 < u[0];
      if v.Dict? {
        UpdateRecursiveSucceeds(GetOr(orig.entries, k, EmptyDict), v.entries);
      }
      var merged := MergedFirst(orig, u);
      if merged.Some? {
        var orig' := Dict(Set(orig.entries, k, merged.value));
        var rest := u[1..];
        UpdateRecursiveSucceeds(orig', rest);
        SetGet(orig.entries, k, merged.value);
        CompatibleItemsFrame(orig.entries, orig'.entries, rest);
        assert UpdatedRecursively(orig, u) == UpdatedRecursively(orig', rest);
        assert Compatible(orig, u) <==> Compatible(orig', rest);
      }
    }
  }

  /** `update_recursive` on a dict: every key of `u` ends up present, and
      keys absent from `u` keep their values. */
  lemma {:induction false} UpdateRecursiveKeys(orig: Value, u: Entries)
    requires orig.Dict? && UpdatedRecursively(orig, u).Some?
    ensures var r := UpdatedRecursively(orig, u).value;
      && r.Dict?
      && (forall k :: k !in Keys(u) ==> Get(r.entries, k) == Get(orig.entries, k))
      && (forall k :: k in Keys(u) ==> k in Keys(r.entries))
    decreases u
  {
    if u != [] {
      UpdateStep(orig, u);
      var k0 := u[0].0;
      var nv := MergedFirst(orig, u).value;
      var orig' := Dict(Set(orig.entries, k0, nv));
      SetGet(orig.entries, k0, nv);
      UpdateRecursiveKeys(orig', u[1..]);
      var r := UpdatedRecursively(orig, u).value;
      forall k | k in Keys(u) ensures k in Keys(r.entries) {
        if k !in Keys(u[1..]) {
          assert Get(r.entries, k) == Get(orig'.entries, k);
        }
      }
      forall k | k !in Keys(u) ensures Get(r.entries, k) == Get(orig.entries, k) {
        assert k != Keys(u)[0];
      }
    }
  }

  /** `update_recursive` keeps the keys of `orig` in their positions; the
      keys of `u` that `orig` lacks come after them, in `u`'s order. */
  lemma {:induction false} UpdateRecursiveKeyOrder(orig: Value, u: Entries)
    requires orig.Dict? && UpdatedRecursively(orig, u).Some?
    ensures var r := UpdatedRecursively(orig, u).value;
      && r.Dict?
      && Keys(r.entries) == Keys(orig.entries) + NewKeys(Keys(orig.entries), Keys(u))
      && |r.entries| >= |orig.entries| && Keys(r.entries)[..|orig.entries|] == Keys(orig.entries)
    decreases u
  {
    if u == [] {
      assert Keys(orig.entries) + [] == Keys(orig.entries);
    } else {
      UpdateStep(orig, u);
      var nv := MergedFirst(orig, u).value;
      assert Keys(u) == [u[0].0] + Keys(u[1..]);
      UpdateRecursiveKeyOrder(Dict(Set(orig.entries, u[0].0, nv)), u[1..]);
      SetNewKeys(orig.entries, u[0].0, nv, Keys(u[1..]));
    }
  }

  /** `update_recursive` keeps a dict a proper dict: no key occurs twice. */
  lemma {:induction false} UpdateRecursiveDistinct(orig: Value, u: Entries)
    requires orig.Dict? && DistinctKeys(orig.entries) && UpdatedRecursively(orig, u).Some?
    ensures DistinctKeys(UpdatedRecursively(orig, u).value.entries)
    decreases u
  {
    if u != [] {
      UpdateStep(orig, u);
      var nv := MergedFirst(orig, u).value;
      SetKeepsDistinct(orig.entries, u[0].0, nv);
      UpdateRecursiveDistinct(Dict(Set(orig.entries, u[0].0, nv)), u[1..]);
    }
  }

  /** The key paths into `u` that overwrite what `orig` holds at `path`: a
      non-dict value of `u` met along the path replaces everything below it. */
  ghost predicate Touched(u: Entries, path: seq<string>)
    decreases path
  {
    |path| > 0 && path[0] in Keys(u) &&
    var w := Get(u, path[0]).value;
    !w.Dict? || Touched(w.entries, path[1..])
  }

  /** Keys of `orig` that `u` does not overwrite keep their values at every
      nesting depth: whatever `orig` holds at a path that `u` does not touch
      is still there afterwards, a leaf unchanged and a dict still a dict
      (holding, by the same lemma one level down, its own untouched keys). */
  lemma {:induction false} UpdateRecursiveKeepsLeaves(orig: Value, u: Entries, path: seq<string>)
    requires WellFormed(Dict(u))
    requires UpdatedRecursively(orig, u).Some?
    requires At(orig, path).Some?
    requires !Touched(u, path)
    ensures var r := At(UpdatedRecursively(orig, u).value, path);
      && r.Some?
      && (!At(orig, path).value.Dict? ==> r == At(orig, path))
      && (At(orig, path).value.Dict? ==> r.value.Dict?)
    decreases u
  {
    if u != [] && path != [] {
      UpdateStep(orig, u);
      RestWellFormed(u);
      var k0 := u[0].0;
      var nv := MergedFirst(orig, u).value;
      var orig' := Dict(Set(orig.entries, k0, nv));
      SetGet(orig.entries, k0, nv);
      assert && At(orig', path).Some?
             && (!At(orig, path).value.Dict? ==> At(orig', path) == At(orig, path))
             && (At(orig, path).value.Dict? ==> At(orig', path).value.Dict?) by {
        if path[0] == k0 {
          var child := Get(orig.entries, k0).value;
          assert u[0].1 < u[0];
          UpdateRecursiveKeepsLeaves(child, u[0].1.entries, path[1..]);
        }
      }
      assert !Touched(u[1..], path) by {
        if path[0] != k0 {
          assert Get(u[1..], path[0]) == Get(u, path[0]);
        }
      }
      UpdateRecursiveKeepsLeaves(orig', u[1..], path);
    } else if u != [] {
      UpdateStep(orig, u);
    }
  }

  /** The value stored under a key of a proper dict is itself well formed. */
  lemma GetWellFormed(u: Entries, k: string)
    requires WellFormed(Dict(u)) && k in Keys(u)
    ensures WellFormed(Get(u, k).value)
    decreases u
  {
    if u[0].0 != k {
      RestWellFormed(u);
      GetWellFormed(u[1..], k);
    }
  }

  /** Under a key whose update value is a mapping, the result holds that
      mapping merged into what `orig` held there (`{}` when absent). */
  lemma {:induction false} UpdateRecursiveGetMerged(orig: Value, u: Entries, k: string)
    requires WellFormed(Dict(u))
    requires UpdatedRecursively(orig, u).Some?
    requires k in Keys(u) && Get(u, k).value.Dict?
    ensures orig.Dict?
    ensures Some(GetOr(UpdatedRecursively(orig, u).value.entries, k, EmptyDict))
      == UpdatedRecursively(GetOr(orig.entries, k, EmptyDict), Get(u, k).value.entries)
    decreases u
  {
    UpdateStep(orig, u);
    RestWellFormed(u);
    var k0 := u[0].0;
    var nv := MergedFirst(orig, u).value;
    var orig' := Dict(Set(orig.entries, k0, nv));
    SetGet(orig.entries, k0, nv);
    var r := UpdatedRecursively(orig, u).value;
    if k == k0 {
      UpdateRecursiveKeys(orig', u[1..]);
      assert Get(r.entries, k0) == Some(nv);
    } else {
      assert Get(u[1..], k) == Get(u, k);
      UpdateRecursiveGetMerged(orig', u[1..], k);
      assert GetOr(orig'.entries, k, EmptyDict) == GetOr(orig.entries, k, EmptyDict);
    }
  }

  /** Keys of `orig` that `u` does not overwrite keep their values at every
      nesting depth: at a path where both `orig` and `u` hold dicts, every
      key the update's dict lacks holds what `orig`'s dict held, so a merged
      dict keeps its untouched entries, subtrees included, and gains no keys
      but the update's. */
  lemma {:induction false} UpdateRecursiveKeepsAtDepth(orig: Value, u: Entries, path: seq<string>, k: string)
    requires WellFormed(Dict(u))
    requires UpdatedRecursively(orig, u).Some?
    requires At(orig, path).Some? && At(orig, path).value.Dict?
    requires At(Dict(u), path).Some? && At(Dict(u), path).value.Dict?
    requires k !in Keys(At(Dict(u), path).value.entries)
    ensures var r := At(UpdatedRecursively(orig, u).value, path);
      && r.Some? && r.value.Dict?
      && Get(r.value.entries, k) == Get(At(orig, path).value.entries, k)
    decreases path
  {
    if path == [] {
      UpdateRecursiveKeys(orig, u);
    } else {
      var p0 := path[0];
      var childU := Get(u, p0).value;
      var childO := Get(orig.entries, p0).value;
      assert childU.Dict?;
      UpdateRecursiveGetMerged(orig, u, p0);
      GetWellFormed(u, p0);
      var r := UpdatedRecursively(orig, u).value;
      assert p0 in Keys(r.entries) by {
        UpdateRecursiveKeys(orig, u);
      }
      UpdateRecursiveKeepsAtDepth(childO, childU.entries, path[1..], k);
      assert At(r, path) == At(Get(r.entries, p0).value, path[1..]);
    }
  }

  /** Merging a proper dict `w` into a dict that holds none of its keys
      appends `w`'s items as they are; in particular a mapping value merged
      into `orig.get(k, {})` for an absent `k` arrives unchanged. */
  lemma {:induction false} UpdateAppends(p: Entries, w: Entries)
    requires WellFormed(Dict(w))
    requires forall k :: k in Keys(w) ==> k !in Keys(p)
    ensures UpdatedRecursively(Dict(p), w) == Some(Dict(p + w))
    decreases w
  {
    if w != [] {
      var p' := p + [w[0]];
      assert p' + w[1..] == p + w by {
        assert w == [w[0]] + w[1..];
      }
      RestWellFormed(w);
      assert UpdatedRecursively(Dict(p), w) == UpdatedRecursively(Dict(p'), w[1..]) by {
        var k0, v0 := w[0].0, w[0].1;
        assert k0 == Keys(w)[0];
        assert MergedFirst(Dict(p), w) == Some(v0) by {
          assert GetOr(p, k0, EmptyDict) == EmptyDict;
          if v0.Dict? {
            assert w[0].1 < w[0];
            UpdateAppends([], v0.entries);
            assert [] + v0.entries == v0.entries;
          }
        }
        MergeStep(Dict(p), w);
        AppendNew(p, k0, v0);
      }
      FreshKeysRest(p, w);
      UpdateAppends(p', w[1..]);
    } else {
      assert p + w == p;
    }
  }

  /** The keys after the first of a proper dict stay fresh once the first is
      appended. */
  lemma FreshKeysRest(p: Entries, w: Entries)
    requires DistinctKeys(w) && w != []
    requires forall k :: k in Keys(w) ==> k !in Keys(p)
    ensures forall k :: k in Keys(w[1..]) ==> k !in Keys(p + [w[0]])
  {
    assert Keys(p + [w[0]]) == Keys(p) + [w[0].0] by {
      assert w[0].0 == Keys(w)[0];
      AppendNew(p, w[0].0, w[0].1);
      SetGet(p, w[0].0, w[0].1);
    }
    forall k | k in Keys(w[1..]) ensures k !in Keys(p + [w[0]]) {
      var i :| 0 <= i < |w[1..]| && Keys(w[1..])[i] == k;
      assert Keys(w)[i + 1] == k;
    }
  }

  /** Every leaf of `u` lands at its own key path: non-dict update values
      overwrite whatever was there (a list included), and dict update values
      create the dicts they need. Where `orig` has nothing at a path of `u`,
      the result holds exactly what `u` holds there, an empty mapping value
      included, because a missing key is merged from `{}`. */
  lemma {:induction false} UpdateRecursivePlacesLeaves(orig: Value, u: Entries, path: seq<string>)
    requires WellFormed(Dict(u))
    requires UpdatedRecursively(orig, u).Some?
    requires At(Dict(u), path).Some?
    requires !At(Dict(u), path).value.Dict? || At(orig, path).None?
    ensures At(UpdatedRecursively(orig, u).value, path) == At(Dict(u), path)
    decreases u
  {
    UpdateStep(orig, u);
    RestWellFormed(u);
    var k0 := u[0].0;
    var nv := MergedFirst(orig, u).value;
    var orig' := Dict(Set(orig.entries, k0, nv));
    SetGet(orig.entries, k0, nv);
    if path[0] == k0 {
      UpdateRecursiveKeys(orig', u[1..]);
      var r := UpdatedRecursively(orig, u).value;
      assert Get(r.entries, k0) == Some(nv);
      if u[0].1.Dict? {
        assert u[0].1 < u[0];
        var child := GetOr(orig.entries, k0, EmptyDict);
        if path[1..] == [] {
          assert k0 !in Keys(orig.entries);
          UpdateAppends([], u[0].1.entries);
          assert [] + u[0].1.entries == u[0].1.entries;
        } else {
          assert At(child, path[1..]).None? || !At(Dict(u), path).value.Dict?;
          UpdateRecursivePlacesLeaves(child, u[0].1.entries, path[1..]);
        }
      }
    } else {
      assert Get(u[1..], path[0]) == Get(u, path[0]);
      assert At(orig', path) == At(orig, path);
      UpdateRecursivePlacesLeaves(orig', u[1..], path);
    }
  }

  /** The docstring of `update_recursive`: the first update changes only
      `'b'`; the second, applied to the result of the first, sees that change
      and replaces the list under `'d'` by an integer; the third repeats the
      second on the already updated dict and leaves it as it is. */
  lemma UpdateRecursiveDocstring()
    ensures var l := List([Num(7), Num(8), Num(9)]);
      var first := UpdatedRecursively(Dict([("a", Dict([("b", Num(1)), ("c", Num(2)), ("d", l)]))]),
                                      [("a", Dict([("b", Num(5))]))]);
      var second := Dict([("a", Dict([("b", Num(5)), ("c", Num(2)), ("d", Num(1))]))]);
      && first == Some(Dict([("a", Dict([("b", Num(5)), ("c", Num(2)), ("d", l)]))]))
      && UpdatedRecursively(first.value, [("a", Dict([("d", Num(1))]))]) == Some(second)
      && UpdatedRecursively(second, [("a", Dict([("d", Num(1))]))]) == Some(second)
  {
    var l := List([Num(7), Num(8), Num(9)]);
    var inner1 := [("b", Num(1)), ("c", Num(2)), ("d", l)];
    var inner2 := [("b", Num(5)), ("c", Num(2)), ("d", l)];
    var inner3 := [("b", Num(5)), ("c", Num(2)), ("d", Num(1))];
    SingleKeyUpdate(Dict(inner1), "b", Num(5), inner2);
    SetLastOfThree(inner2, Num(1), inner3);
    SetLastOfThree(inner3, Num(1), inner3);
    SingleKeyUpdate(Dict(inner2), "d", Num(1), inner3);
    SingleKeyUpdate(Dict(inner3), "d", Num(1), inner3);
    OneKeyNested(inner1, Dict([("b", Num(5))]), inner2);
    OneKeyNested(inner2, Dict([("d", Num(1))]), inner3);
    OneKeyNested(inner3, Dict([("d", Num(1))]), inner3);
  }

  /** Assigning `'d'` in a three-item dict `{'b': .., 'c': .., 'd': ..}`. */
  lemma SetLastOfThree(es: Entries, v: Value, expected: Entries)
    requires |es| == 3 && es[0].0 == "b" && es[1].0 == "c" && es[2].0 == "d"
    requires expected == [es[0], es[1], ("d", v)]
    ensures Set(es, "d", v) == expected
  {
    var tail := es[2..];
    assert tail[1..] == [];
    assert es[1..][1..] == tail;
    assert Set(tail, "d", v) == [("d", v)];
    assert Set(es[1..], "d", v) == [es[1]] + [("d", v)];
  }

  /** Updating a dict with a single non-dict item is assignment. */
  lemma SingleKeyUpdate(orig: Value, k: string, v: Value, expected: Entries)
    requires orig.Dict? && !v.Dict? && Set(orig.entries, k, v) == expected
    ensures UpdatedRecursively(orig, [(k, v)]) == Some(Dict(expected))
  {
    assert [(k, v)][1..] == [];
  }

  /** Updating `{'a': inner}` with `{'a': w}` merges `w` into `inner`. */
  lemma OneKeyNested(inner: Entries, w: Value, expected: Entries)
    requires w.Dict? && UpdatedRecursively(Dict(inner), w.entries) == Some(Dict(expected))
    ensures UpdatedRecursively(Dict([("a", Dict(inner))]), [("a", w)]) == Some(Dict([("a", Dict(expected))]))
  {
    assert [("a", w)][1..] == [];
    assert [("a", Dict(inner))][1..] == [];
    assert GetOr([("a", Dict(inner))], "a", EmptyDict) == Dict(inner);
    assert Set([("a", Dict(inner))], "a", Dict(expected)) == [("a", Dict(expected))];
  }

  /** A Python dict object that the pipeline updates in place. */
  class MutableDict {
    var entries: Entries

    /** A dict holding `es`. */
    constructor (es: Entries)
      ensures entries == es
    {
      entries := es;
    }

    /** `update_recursive(self, u)`: updates this dict in place and returns
      this same object, so a caller that discards the result still sees the
      update through its own reference. */
    method UpdateRecursive(u: Entries) returns (r: MutableDict)
      requires UpdatedRecursively(Dict(entries), u).Some?
      modifies this
      ensures r == this
      ensures Some(Dict(entries)) == UpdatedRecursively(Dict(old(entries)), u)
    {
      var i := 0;
      while i < |u|
        invariant 0 <= i <= |u|
        invariant UpdatedRecursively(Dict(entries), u[i..]) == UpdatedRecursively(Dict(old(entries)), u)
      {
        var k, v := u[i].0, u[i].1;
        assert u[i..][0] == u[i] && u[i..][1..] == u[i + 1..];
        if v.Dict? {
          entries := Set(entries, k, UpdatedRecursively(GetOr(entries, k, EmptyDict), v.entries).value);
        } else {
          entries := Set(entries, k, v);
        }
        i := i + 1;
      }
      r := this;
    }

    /** `self.update(u)`: a shallow update in place. */
    method Update(u: Entries)
      modifies this
      ensures entries == ShallowUpdate(old(entries), u)
    {
      entries := ShallowUpdate(entries, u);
    }
  }

  // ---------------------------------------------------------------------------
  // boolean_labels
  // ---------------------------------------------------------------------------

  /** The default `mapping` of `boolean_labels`. */
  const DefaultConnectors: map<bool, string> := map[true := "AND", false := "NOT"]

  /** The default `strip` of `boolean_labels`. */
  const DefaultStrip: string := "AND_"

  /** The pieces `mapping[x] + '_' + n` for the pairs of `zip(names, idx)`,
      which stops at the shorter list. */
  function Pieces(names: seq<string>, idx: seq<bool>, mapping: map<bool, string>): seq<string>
    requires forall i :: 0 <= i < |names| && i < |idx| ==> idx[i] in mapping
  {
    var n := if |names| < |idx| then |names| else |idx|;
    seq(n, i requires 0 <= i < n => mapping[idx[i]] + "_" + names[i])
  }

  /** `sep.join(pieces)` */
  function Join(pieces: seq<string>, sep: string): string
    decreases pieces
  {
    if pieces == [] then ""
    else if |pieces| == 1 then pieces[0]
    else pieces[0] + sep + Join(pieces[1..], sep)
  }

  /** `s.replace(prefix, '', 1)` when `s.startswith(prefix)`, else `s`: the
      first occurrence of a prefix is the prefix itself. */
  function StripPrefixOnce(s: string, prefix: string): string {
    if prefix <= s then s[|prefix|..] else s
  }

  /** The label `boolean_labels` returns. */
  function BooleanLabel(names: seq<string>, idx: seq<bool>, mapping: map<bool, string>, strip: string): string
    requires forall i :: 0 <= i < |names| && i < |idx| ==> idx[i] in mapping
  {
    StripPrefixOnce(Join(Pieces(names, idx, mapping), "_"), strip)
  }

  /** The label of `boolean_labels(names, idx)` with the default `mapping`
      and `strip`, which map every flag. */
  function DefaultBooleanLabel(names: seq<string>, idx: seq<bool>): string {
    assert forall i :: 0 <= i < |names| && i < |idx| ==> idx[i] in DefaultConnectors by {
      forall i | 0 <= i < |names| && i < |idx| ensures idx[i] in DefaultConnectors {
        if idx[i] {} else {}
      }
    }
    BooleanLabel(names, idx, DefaultConnectors, DefaultStrip)
  }

  /** `boolean_labels(names, idx, mapping, strip)`: the pieces are appended
      to a list in a loop, joined with `_`, and `strip` is removed once from
      the front if the label starts with it. A flag missing from `mapping`
      would raise KeyError; callers must not pass one. */
  method BooleanLabels(names: seq<string>, idx: seq<bool>, mapping: map<bool, string>, strip: string)
    returns (text: string)
    requires forall i :: 0 <= i < |names| && i < |idx| ==> idx[i] in mapping
    ensures text == BooleanLabel(names, idx, mapping, strip)
  {
    var s: seq<string> := [];
    var n := if |names| < |idx| then |names| else |idx|;
    for i := 0 to n
      invariant |s| == i
      invariant forall j :: 0 <= j < i ==> s[j] == mapping[idx[j]] + "_" + names[j]
    {
      s := s + [mapping[idx[i]] + "_" + names[i]];
    }
    assert s == Pieces(names, idx, mapping);
    var joined := Join(s, "_");
    if strip <= joined {
      text := joined[|strip|..];
    } else {
      text := joined;
    }
  }

  /** The connector clauses `_<mapping[x]>_<n>` for the pairs of the zip. */
  ghost function Clauses(names: seq<string>, idx: seq<bool>, mapping: map<bool, string>): string
    requires forall i :: 0 <= i < |names| && i < |idx| ==> idx[i] in mapping
    decreases names
  {
    if names == [] || idx == [] then ""
    else "_" + mapping[idx[0]] + "_" + names[0] + Clauses(names[1..], idx[1..], mapping)
  }

  /** The pieces after the first are those of the remaining pairs. */
  lemma PiecesTail(names: seq<string>, idx: seq<bool>, mapping: map<bool, string>)
    requires forall i :: 0 <= i < |names| && i < |idx| ==> idx[i] in mapping
    requires names != [] && idx != []
    ensures Pieces(names, idx, mapping)[1..] == Pieces(names[1..], idx[1..], mapping)
  {
    var p, q := Pieces(names, idx, mapping), Pieces(names[1..], idx[1..], mapping);
    assert |p[1..]| == |q|;
    forall i | 0 <= i < |q| ensures p[1..][i] == q[i] {
      assert names[1..][i] == names[i + 1] && idx[1..][i] == idx[i + 1];
    }
  }

  /** Joining the pieces puts the first connector and name first, followed by
      one `_<connector>_<name>` clause per further pair, in input order. */
  lemma {:induction false} JoinPieces(names: seq<string>, idx: seq<bool>, mapping: map<bool, string>)
    requires forall i :: 0 <= i < |names| && i < |idx| ==> idx[i] in mapping
    requires names != [] && idx != []
    ensures Join(Pieces(names, idx, mapping), "_")
      == mapping[idx[0]] + "_" + names[0] + Clauses(names[1..], idx[1..], mapping)
    decreases names
  {
    var p := Pieces(names, idx, mapping);
    var first := mapping[idx[0]] + "_" + names[0];
    assert p[0] == first;
    PiecesTail(names, idx, mapping);
    var q := Pieces(names[1..], idx[1..], mapping);
    if names[1..] == [] || idx[1..] == [] {
      assert |p| == 1;
      assert Clauses(names[1..], idx[1..], mapping) == "";
    } else {
      JoinPieces(names[1..], idx[1..], mapping);
      var c := Clauses(names[1..], idx[1..], mapping);
      assert c == "_" + Join(q, "_");
      assert Join(p, "_") == first + "_" + Join(q, "_");
    }
  }

  /** The clauses `_AND_<n>` or `_NOT_<n>` for the pairs of the zip, written
      without the mapping. */
  ghost function DefaultClauses(names: seq<string>, idx: seq<bool>): string
    decreases names
  {
    if names == [] || idx == [] then ""
    else "_" + (if idx[0] then "AND" else "NOT") + "_" + names[0] + DefaultClauses(names[1..], idx[1..])
  }

  /** The default mapping produces the clauses written out above. */
  lemma {:induction false} ClausesDefault(names: seq<string>, idx: seq<bool>)
    requires forall i :: 0 <= i < |names| && i < |idx| ==> idx[i] in DefaultConnectors
    ensures Clauses(names, idx, DefaultConnectors) == DefaultClauses(names, idx)
    decreases names
  {
    if names != [] && idx != [] {
      ClausesDefault(names[1..], idx[1..]);
    }
  }

  /** The strip text comes off a label that starts with it, and a label
      starting with `NOT_` keeps everything. */
  lemma StripDefault(rest: string)
    ensures StripPrefixOnce("AND_" + rest, DefaultStrip) == rest
    ensures StripPrefixOnce("NOT_" + rest, DefaultStrip) == "NOT_" + rest
  {
    assert ("NOT_" + rest)[0] == 'N';
    assert ("AND_" + rest)[..4] == "AND_" && ("AND_" + rest)[4..] == rest;
  }

  /** The joined pieces under the default connectors. */
  lemma JoinDefault(names: seq<string>, idx: seq<bool>)
    requires forall i :: 0 <= i < |names| && i < |idx| ==> idx[i] in DefaultConnectors
    requires names != [] && idx != []
    ensures Join(Pieces(names, idx, DefaultConnectors), "_")
      == (if idx[0] then "AND_" else "NOT_") + (names[0] + DefaultClauses(names[1..], idx[1..]))
  {
    JoinPieces(names, idx, DefaultConnectors);
    ClausesDefault(names[1..], idx[1..]);
    var w := DefaultConnectors[idx[0]];
    assert w == if idx[0] then "AND" else "NOT";
    var c := DefaultClauses(names[1..], idx[1..]);
    assert w + "_" + names[0] + c == (w + "_") + (names[0] + c);
  }

  /** With the default connectors and strip text: empty input gives `""`; a
      leading True flag loses its `AND_`; a leading False flag keeps its
      `NOT_`; every later pair keeps its `_AND_` or `_NOT_` connector. */
  lemma BooleanLabelDefaults(names: seq<string>, idx: seq<bool>)
    ensures DefaultBooleanLabel(names, idx)
      == if names == [] || idx == [] then ""
         else (if idx[0] then "" else "NOT_") + names[0] + DefaultClauses(names[1..], idx[1..])
  {
    if names != [] && idx != [] {
      assert forall i :: 0 <= i < |names| && i < |idx| ==> idx[i] in DefaultConnectors by {
        forall i | 0 <= i < |names| && i < |idx| ensures idx[i] in DefaultConnectors {
          if idx[i] {} else {}
        }
      }
      JoinDefault(names, idx);
      var rest := names[0] + DefaultClauses(names[1..], idx[1..]);
      StripDefault(rest);
      assert DefaultBooleanLabel(names, idx)
        == StripPrefixOnce((if idx[0] then "AND_" else "NOT_") + rest, DefaultStrip);
    }
  }

  /** The docstring example of `boolean_labels`. */
  lemma BooleanLabelDocstring(names: seq<string>, idx: seq<bool>)
    requires names == ["exp1", "exp2", "exp3"] && idx == [true, true, false]
    ensures DefaultBooleanLabel(names, idx) == "exp1_AND_exp2_NOT_exp3"
  {
    BooleanLabelDefaults(names, idx);
    var tail3, flags3 := names[1..][1..], idx[1..][1..];
    assert tail3 == ["exp3"] && flags3 == [false];
    assert DefaultClauses(tail3, flags3) == "_NOT_exp3" by {
      assert tail3[1..] == [];
    }
    assert DefaultClauses(names[1..], idx[1..]) == "_AND_exp2" + "_NOT_exp3" by {
      assert names[1..][0] == "exp2" && idx[1..][0];
    }
  }

  /** `zip` stops at the shorter list, so surplus names or flags are ignored. */
  lemma BooleanLabelZipTruncates(names: seq<string>, idx: seq<bool>, mapping: map<bool, string>, strip: string)
    requires forall i :: 0 <= i < |names| && i < |idx| ==> idx[i] in mapping
    ensures var n := if |names| < |idx| then |names| else |idx|;
      BooleanLabel(names, idx, mapping, strip) == BooleanLabel(names[..n], idx[..n], mapping, strip)
  {
    var n := if |names| < |idx| then |names| else |idx|;
    assert Pieces(names, idx, mapping) == Pieces(names[..n], idx[..n], mapping);
  }
}
