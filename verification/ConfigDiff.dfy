/** The configuration loader's structural diff: which paths of a JSON tree changed between two
    versions of the configuration, and why that list is a sufficient patch. */
module ConfigDiff {
  import opened Basics

  type Key = string
  type Path = seq<Key>

  datatype Num = Whole(i: int) | Fraction(r: real)

  datatype Json =
    | Null
    | Bool(b: bool)
    | Number(n: Num)
    | Str(s: string)
    | Array(elems: seq<Json>)
    | Object(fields: map<Key, Json>)

  // ---------------------------------------------------------------- the order of keys

  /** The lexicographic order of `BTreeSet<&str>`. */
  predicate Leq(a: Key, b: Key) {
    a == [] || (b != [] && (a[0] < b[0] || (a[0] == b[0] && Leq(a[1..], b[1..]))))
  }

  lemma {:induction false} LeqTotal(a: Key, b: Key)
    ensures Leq(a, b) || Leq(b, a)
  {
    if a != [] && b != [] && a[0] == b[0] { LeqTotal(a[1..], b[1..]); }
  }

  lemma {:induction false} LeqAntisymmetric(a: Key, b: Key)
    requires Leq(a, b) && Leq(b, a)
    ensures a == b
  {
    if a != [] && b != [] {
      LeqAntisymmetric(a[1..], b[1..]);
      assert a == [a[0]] + a[1..] && b == [b[0]] + b[1..];
    }
  }

  lemma {:induction false} LeqTransitive(a: Key, b: Key, c: Key)
    requires Leq(a, b) && Leq(b, c)
    ensures Leq(a, c)
  {
    if a != [] && b != [] && c != [] && a[0] == b[0] == c[0] { LeqTransitive(a[1..], b[1..], c[1..]); }
  }

  predicate IsLeast(k: Key, keys: set<Key>) {
    k in keys && forall x <- keys :: Leq(k, x)
  }

  lemma {:induction false} LeastExists(keys: set<Key>)
    requires keys != {}
    ensures exists k :: k in keys && IsLeast(k, keys)
  {
    var x :| x in keys;
    if keys == {x} {
      LeqTotal(x, x);
      assert IsLeast(x, keys);
    } else {
      var rest := keys - {x};
      LeastExists(rest);
      var y :| y in rest && IsLeast(y, rest);
      LeqTotal(x, y);
      LeqTotal(x, x);
      if Leq(x, y) {
        forall z <- keys ensures Leq(x, z) {
          if z != x { assert z in rest; LeqTransitive(x, y, z); }
        }
        assert IsLeast(x, keys);
      } else {
        forall z <- keys ensures Leq(y, z) { assert z == x || z in rest; }
        assert IsLeast(y, keys);
      }
    }
  }

  ghost function Sorted(keys: set<Key>): (ks: seq<Key>)
    ensures forall k :: k in ks <==> k in keys
    ensures forall i, j :: 0 <= i < j < |ks| ==> ks[i] != ks[j]
  {
    if keys == {} then []
    else
      LeastExists(keys);
      var k :| IsLeast(k, keys);
      [k] + Sorted(keys - {k})
  }

  // ---------------------------------------------------------------- the diff

  function Under(k: Key, ps: seq<Path>): seq<Path> {
    seq(|ps|, i requires 0 <= i < |ps| => [k] + ps[i])
  }

  /** The changed paths, as key sequences, in the order in which they are reported. */
  ghost function Diff(old_: Json, new_: Json): seq<Path>
    decreases old_, 1, 0
  {
    if old_.Object? && new_.Object? then DiffKeys(old_, new_, Sorted(old_.fields.Keys + new_.fields.Keys))
    else if old_ == new_ then [] else [[]]
  }

  ghost function DiffAt(old_: Json, new_: Json, k: Key): seq<Path>
    requires old_.Object? && new_.Object?
    decreases old_, 0, 0
  {
    if k in old_.fields && k in new_.fields then Under(k, Diff(old_.fields[k], new_.fields[k])) else [[k]]
  }

  ghost function DiffKeys(old_: Json, new_: Json, ks: seq<Key>): seq<Path>
    requires old_.Object? && new_.Object?
    decreases old_, 0, 1 + |ks|
  {
    if ks == [] then [] else DiffAt(old_, new_, ks[0]) + DiffKeys(old_, new_, ks[1..])
  }

  // ---------------------------------------------------------------- the reported strings

  function Join(prefix: string, key: Key): string {
    if prefix == "" then key else prefix + "." + key
  }

  function RenderFrom(prefix: string, p: Path): string
    decreases p
  {
    if p == [] then prefix else RenderFrom(Join(prefix, p[0]), p[1..])
  }

  function RenderAll(prefix: string, ps: seq<Path>): seq<string> {
    seq(|ps|, i requires 0 <= i < |ps| => RenderFrom(prefix, ps[i]))
  }

  class ConfigLoader {
    var currentConfig: Json
    /** The list the diff pushes its paths to. */
    var out: seq<string>

    constructor (config: Json)
      ensures currentConfig == config
    {
      currentConfig, out := config, [];
    }

    method CollectDiffPaths(prefix: string, old_: Json, new_: Json)
      modifies `out
      ensures out == old(out) + RenderAll(prefix, Diff(old_, new_))
      decreases old_
    {
      hide *;
      RenderDiff(prefix, old_, new_);
      if old_.Object? && new_.Object? {
        var keys := old_.fields.Keys + new_.fields.Keys;
        while keys != {}
          invariant keys <= old_.fields.Keys + new_.fields.Keys
          invariant out + RenderAll(prefix, DiffKeys(old_, new_, Sorted(keys)))
                 == old(out) + RenderAll(prefix, Diff(old_, new_))
          decreases keys
        {
          LeastExists(keys);
          var key :| key in keys && IsLeast(key, keys);
          RenderStep(prefix, old_, new_, key, keys);
          var keyPath := Join(prefix, key);
          if key in old_.fields && key in new_.fields {
            CollectDiffPaths(keyPath, old_.fields[key], new_.fields[key]);
          } else {
            out := out + [keyPath];
          }
          keys := keys - {key};
        }
        RenderNoKeys(prefix, old_, new_);
      } else if old_ != new_ {
        out := out + [prefix];
      }
    }

    /** `parsed` is the configuration read from the file, `None` when reading, parsing or validating failed.
        Reports no change exactly when the trees are equal; otherwise it adopts the new tree. */
    method ReloadConfig(parsed: Option<Json>) returns (changed: Option<Option<seq<string>>>)
      modifies this
      ensures parsed.None? ==> changed.None? && currentConfig == old(currentConfig)
      ensures parsed.Some? ==> changed.Some? && currentConfig == parsed.value
      ensures parsed.Some? ==> (changed.value.None? <==> old(currentConfig) == parsed.value)
      ensures parsed.Some? && changed.value.Some? ==>
        changed.value.value == RenderAll("", Diff(old(currentConfig), parsed.value))
    {
      if parsed.None? { return None; }
      out := [];
      CollectDiffPaths("", currentConfig, parsed.value);
      EmptyDiffMeansEqual(currentConfig, parsed.value);
      if out == [] { return Some(None); }
      currentConfig := parsed.value;
      changed := Some(Some(out));
    }
  }

  lemma DiffStep(old_: Json, new_: Json, k: Key, keys: set<Key>)
    requires old_.Object? && new_.Object? && IsLeast(k, keys)
    ensures DiffKeys(old_, new_, Sorted(keys)) == DiffAt(old_, new_, k) + DiffKeys(old_, new_, Sorted(keys - {k}))
  {
    var h := Sorted(keys)[0];
    assert IsLeast(h, keys);
    LeqAntisymmetric(h, k);
    assert Sorted(keys)[1..] == Sorted(keys - {k});
  }

  lemma RenderDiff(prefix: string, old_: Json, new_: Json)
    ensures RenderAll(prefix, Diff(old_, new_))
         == if old_.Object? && new_.Object?
            then RenderAll(prefix, DiffKeys(old_, new_, Sorted(old_.fields.Keys + new_.fields.Keys)))
            else if old_ == new_ then [] else [prefix]
  {}

  lemma RenderNoKeys(prefix: string, old_: Json, new_: Json)
    requires old_.Object? && new_.Object?
    ensures RenderAll(prefix, DiffKeys(old_, new_, Sorted({}))) == []
  {}

  lemma RenderUnder(prefix: string, k: Key, ps: seq<Path>)
    ensures RenderAll(prefix, Under(k, ps)) == RenderAll(Join(prefix, k), ps)
  {
    forall i | 0 <= i < |ps| ensures RenderFrom(prefix, Under(k, ps)[i]) == RenderFrom(Join(prefix, k), ps[i]) {
      assert ([k] + ps[i])[1..] == ps[i];
    }
  }

  lemma RenderStep(prefix: string, old_: Json, new_: Json, k: Key, keys: set<Key>)
    requires old_.Object? && new_.Object? && IsLeast(k, keys)
    ensures RenderAll(prefix, DiffKeys(old_, new_, Sorted(keys)))
         == (if k in old_.fields && k in new_.fields
             then RenderAll(Join(prefix, k), Diff(old_.fields[k], new_.fields[k]))
             else [Join(prefix, k)])
            + RenderAll(prefix, DiffKeys(old_, new_, Sorted(keys - {k})))
  {
    hide Sorted, DiffKeys, Diff, Under, Join, RenderAll;
    DiffStep(old_, new_, k, keys);
    RenderAllConcat(prefix, DiffAt(old_, new_, k), DiffKeys(old_, new_, Sorted(keys - {k})));
    if k in old_.fields && k in new_.fields {
      RenderUnder(prefix, k, Diff(old_.fields[k], new_.fields[k]));
    } else {
      RenderOne(prefix, k);
    }
  }

  lemma RenderOne(prefix: string, k: Key)
    ensures RenderAll(prefix, [[k]]) == [Join(prefix, k)]
  {
    assert [k][1..] == [];
    assert RenderFrom(prefix, [k]) == Join(prefix, k);
  }

  lemma RenderAllConcat(prefix: string, a: seq<Path>, b: seq<Path>)
    ensures RenderAll(prefix, a + b) == RenderAll(prefix, a) + RenderAll(prefix, b)
  {}

  // ---------------------------------------------------------------- the diff is exact

  /** The subtree at a path, if the path leads anywhere. */
  function Get(t: Json, p: Path): Option<Json>
    decreases p
  {
    if p == [] then Some(t)
    else if t.Object? && p[0] in t.fields then Get(t.fields[p[0]], p[1..])
    else None
  }

  lemma {:induction false} InDiffKeys(old_: Json, new_: Json, ks: seq<Key>, p: Path)
    requires old_.Object? && new_.Object?
    ensures p in DiffKeys(old_, new_, ks) <==> exists k <- ks :: p in DiffAt(old_, new_, k)
  {
    if ks == [] {
    } else {
      var k0, rest := ks[0], ks[1..];
      InDiffKeys(old_, new_, rest, p);
      assert k0 in ks && forall k <- rest :: k in ks;
      assert p in DiffKeys(old_, new_, ks) <==> p in DiffAt(old_, new_, k0) || p in DiffKeys(old_, new_, rest);
      if k :| k in ks && p in DiffAt(old_, new_, k) {
        assert k == k0 || k in rest;
      }
    }
  }

  /** What it means to be reported, one level at a time. */
  lemma InDiff(old_: Json, new_: Json, p: Path)
    ensures p in Diff(old_, new_) <==>
      if old_.Object? && new_.Object? then exists k <- old_.fields.Keys + new_.fields.Keys :: p in DiffAt(old_, new_, k)
      else p == [] && old_ != new_
  {
    if old_.Object? && new_.Object? {
      InDiffKeys(old_, new_, Sorted(old_.fields.Keys + new_.fields.Keys), p);
    }
  }

  lemma InDiffAt(old_: Json, new_: Json, k: Key, p: Path)
    requires old_.Object? && new_.Object?
    ensures p in DiffAt(old_, new_, k) <==>
      && p != [] && p[0] == k
      && if k in old_.fields && k in new_.fields then p[1..] in Diff(old_.fields[k], new_.fields[k]) else p == [k]
  {
    if k in old_.fields && k in new_.fields {
      var ps := Diff(old_.fields[k], new_.fields[k]);
      hide Diff;
      if p in Under(k, ps) {
        var i :| 0 <= i < |ps| && p == [k] + ps[i];
        assert p[1..] == ps[i];
      }
      if p != [] && p[0] == k && p[1..] in ps {
        var i :| 0 <= i < |ps| && ps[i] == p[1..];
        assert Under(k, ps)[i] == p;
      }
    }
  }

  /** At every reported path the two trees differ. */
  lemma {:induction false} DiffIsSound(old_: Json, new_: Json, p: Path)
    requires p in Diff(old_, new_)
    ensures Get(old_, p) != Get(new_, p)
    decreases old_
  {
    InDiff(old_, new_, p);
    hide Diff, DiffAt;
    if old_.Object? && new_.Object? {
      var k :| k in old_.fields.Keys + new_.fields.Keys && p in DiffAt(old_, new_, k);
      InDiffAt(old_, new_, k, p);
      if k in old_.fields && k in new_.fields {
        DiffIsSound(old_.fields[k], new_.fields[k], p[1..]);
      }
    }
  }

  /** Wherever the trees differ, a reported path lies at, above or below. */
  lemma {:induction false} DiffIsComplete(old_: Json, new_: Json, p: Path) returns (q: Path)
    requires Get(old_, p) != Get(new_, p)
    ensures q in Diff(old_, new_) && (q <= p || p <= q)
    decreases old_
  {
    hide Diff, DiffAt;
    if old_.Object? && new_.Object? {
      var k := if p != [] then p[0] else ChangedKey(old_, new_);
      if k in old_.fields && k in new_.fields {
        var tail := if p == [] then [] else p[1..];
        var r := DiffIsComplete(old_.fields[k], new_.fields[k], tail);
        q := [k] + r;
        assert q[1..] == r;
        if p != [] {
          assert p == [k] + tail;
          PrefixUnder(k, r, tail);
          PrefixUnder(k, tail, r);
        }
      } else {
        q := [k];
      }
      InDiffAt(old_, new_, k, q);
    } else {
      q := [];
    }
    InDiff(old_, new_, q);
  }

  ghost function ChangedKey(old_: Json, new_: Json): (k: Key)
    requires old_.Object? && new_.Object? && old_ != new_
    ensures k in old_.fields.Keys + new_.fields.Keys
    ensures k in old_.fields && k in new_.fields ==> old_.fields[k] != new_.fields[k]
  {
    SomeKeyChanged(old_.fields, new_.fields);
    var k :| k in old_.fields.Keys + new_.fields.Keys && !Agree(old_.fields, new_.fields, k);
    k
  }

  predicate Agree(a: map<Key, Json>, b: map<Key, Json>, k: Key) {
    k in a && k in b && a[k] == b[k]
  }

  lemma SomeKeyChanged(a: map<Key, Json>, b: map<Key, Json>)
    requires a != b
    ensures exists k :: k in a.Keys + b.Keys && !Agree(a, b, k)
  {
    if forall k :: k in a.Keys + b.Keys ==> Agree(a, b, k) {
      forall k ensures k in a <==> k in b ensures k in a ==> a[k] == b[k] {
        assert k in a.Keys + b.Keys ==> Agree(a, b, k);
      }
      assert false;
    }
  }

  lemma PrefixUnder(k: Key, a: Path, b: Path)
    ensures a <= b <==> [k] + a <= [k] + b
  {
    if [k] + a <= [k] + b {
      assert ([k] + a)[1..] == a && ([k] + b)[1..] == b;
      assert forall i :: 0 <= i < |a| ==> a[i] == ([k] + a)[i + 1] == ([k] + b)[i + 1] == b[i];
    }
  }

  /** No path is reported exactly when nothing changed. */
  lemma EmptyDiffMeansEqual(old_: Json, new_: Json)
    ensures Diff(old_, new_) == [] <==> old_ == new_
  {
    if old_ == new_ {
      if ps: Path :| ps in Diff(old_, new_) {
        DiffIsSound(old_, new_, ps);
        assert false;
      }
      if Diff(old_, new_) != [] { assert Diff(old_, new_)[0] in Diff(old_, new_); }
    } else {
      var q := DiffIsComplete(old_, new_, []);
    }
  }

  predicate Antichain(ps: seq<Path>) {
    forall i, j :: 0 <= i < |ps| && 0 <= j < |ps| && i != j ==> !(ps[i] <= ps[j])
  }

  lemma DiffAtHead(old_: Json, new_: Json, k: Key)
    requires old_.Object? && new_.Object?
    ensures forall p <- DiffAt(old_, new_, k) :: p != [] && p[0] == k
  {}

  lemma {:induction false} AntichainKeys(old_: Json, new_: Json, ks: seq<Key>)
    requires old_.Object? && new_.Object?
    requires forall i, j :: 0 <= i < j < |ks| ==> ks[i] != ks[j]
    ensures Antichain(DiffKeys(old_, new_, ks))
    ensures forall p <- DiffKeys(old_, new_, ks) :: p != [] && p[0] in ks
    decreases old_, 0, |ks|
  {
    if ks == [] {
    } else {
      var k, a, b := ks[0], DiffAt(old_, new_, ks[0]), DiffKeys(old_, new_, ks[1..]);
      AntichainKeys(old_, new_, ks[1..]);
      DiffAtHead(old_, new_, k);
      assert Antichain(a) by {
        if k in old_.fields && k in new_.fields {
          var ps := Diff(old_.fields[k], new_.fields[k]);
          DiffIsAntichain(old_.fields[k], new_.fields[k]);
          forall i, j | 0 <= i < |a| && 0 <= j < |a| && i != j ensures !(a[i] <= a[j]) {
            PrefixUnder(k, ps[i], ps[j]);
          }
        }
      }
      assert k !in ks[1..];
      hide Antichain, DiffAt;
      JoinAntichains(a, b, k);
    }
  }

  /** Paths that begin with a key and paths that begin with others do not extend each other. */
  lemma JoinAntichains(a: seq<Path>, b: seq<Path>, k: Key)
    requires Antichain(a) && Antichain(b)
    requires forall p <- a :: p != [] && p[0] == k
    requires forall p <- b :: p != [] && p[0] != k
    ensures Antichain(a + b)
  {
    forall i, j | 0 <= i < |a + b| && 0 <= j < |a + b| && i != j ensures !((a + b)[i] <= (a + b)[j]) {
      if i < |a| <= j {
        assert (a + b)[i] == a[i] && (a + b)[j] == b[j - |a|];
        assert a[i] in a && b[j - |a|] in b;
      } else if j < |a| <= i {
        assert (a + b)[j] == a[j] && (a + b)[i] == b[i - |a|];
        assert a[j] in a && b[i - |a|] in b;
      }
    }
  }

  /** No reported path extends another, and none is reported twice. */
  lemma {:induction false} DiffIsAntichain(old_: Json, new_: Json)
    ensures Antichain(Diff(old_, new_))
    decreases old_, 1, 0
  {
    if old_.Object? && new_.Object? {
      AntichainKeys(old_, new_, Sorted(old_.fields.Keys + new_.fields.Keys));
    }
  }

  // ---------------------------------------------------------------- the diff as a patch

  /** `t` with the subtree at `p` replaced by `v`, or removed. */
  function Edit(t: Json, p: Path, v: Option<Json>): Json
    decreases p
  {
    if p == [] then (if v.Some? then v.value else t)
    else if !t.Object? then t
    else if |p| == 1 then Object(if v.Some? then t.fields[p[0] := v.value] else t.fields - {p[0]})
    else if p[0] in t.fields then Object(t.fields[p[0] := Edit(t.fields[p[0]], p[1..], v)])
    else t
  }

  /** Edits `t` at exactly the given paths, one after the other, with what `source` holds there. */
  function Patch(t: Json, ps: seq<Path>, source: Json): Json
    decreases ps
  {
    if ps == [] then t else Patch(Edit(t, ps[0], Get(source, ps[0])), ps[1..], source)
  }

  lemma {:induction false} PatchConcat(t: Json, a: seq<Path>, b: seq<Path>, source: Json)
    ensures Patch(t, a + b, source) == Patch(Patch(t, a, source), b, source)
    decreases a
  {
    if a == [] {
      assert a + b == b;
    } else {
      assert (a + b)[1..] == a[1..] + b;
      PatchConcat(Edit(t, a[0], Get(source, a[0])), a[1..], b, source);
    }
  }

  /** Patching below a key patches the subtree at that key. */
  lemma {:induction false} PatchUnder(t: Json, k: Key, ps: seq<Path>, source: Json)
    requires t.Object? && source.Object? && k in t.fields && k in source.fields
    ensures Patch(t, Under(k, ps), source)
         == Object(t.fields[k := Patch(t.fields[k], ps, source.fields[k])])
    decreases ps
  {
    if ps == [] {
      assert t.fields[k := t.fields[k]] == t.fields;
    } else {
      var p := ps[0];
      assert ([k] + p)[1..] == p;
      assert Under(k, ps)[1..] == Under(k, ps[1..]);
      var v := Get(source.fields[k], p);
      var t1 := Object(t.fields[k := Edit(t.fields[k], p, v)]);
      assert Edit(t, [k] + p, v) == t1;
      PatchUnder(t1, k, ps[1..], source);
      var x := Patch(t1.fields[k], ps[1..], source.fields[k]);
      assert t1.fields[k := x] == t.fields[k := x];
    }
  }

  /** `t` with the entries of `ks` taken from `source` and the others kept. */
  function Overlay(t: map<Key, Json>, ks: seq<Key>, source: map<Key, Json>): map<Key, Json> {
    map k | k in t.Keys + source.Keys && (if k in ks then k in source else k in t)
      :: if k in ks then source[k] else t[k]
  }

  lemma {:induction false} PatchAt(t: Json, old_: Json, new_: Json, k: Key)
    requires t.Object? && old_.Object? && new_.Object? && (k in old_.fields || k in new_.fields)
    requires (k in t.fields <==> k in old_.fields) && (k in t.fields ==> t.fields[k] == old_.fields[k])
    ensures Patch(t, DiffAt(old_, new_, k), new_) == Object(Overlay(t.fields, [k], new_.fields))
    decreases old_, 0, 0
  {
    var overlay := Overlay(t.fields, [k], new_.fields);
    if k in old_.fields && k in new_.fields {
      PatchUnder(t, k, Diff(old_.fields[k], new_.fields[k]), new_);
      DiffIsSufficient(old_.fields[k], new_.fields[k]);
      assert t.fields[k := new_.fields[k]] == overlay;
    } else {
      var v: Option<Json> := if k in new_.fields then Some(new_.fields[k]) else None;
      assert [k][1..] == [] && Get(new_, [k]) == v;
      assert DiffAt(old_, new_, k) == [[k]] && [[k]][1..] == [];
      assert Patch(t, [[k]], new_) == Edit(t, [k], v);
      assert (if v.Some? then t.fields[k := v.value] else t.fields - {k}) == overlay;
    }
  }

  lemma {:induction false} PatchKeys(t: Json, old_: Json, new_: Json, ks: seq<Key>)
    requires t.Object? && old_.Object? && new_.Object?
    requires forall i, j :: 0 <= i < j < |ks| ==> ks[i] != ks[j]
    requires forall k <- ks :: k in old_.fields || k in new_.fields
    requires forall k <- ks ::
      (k in t.fields <==> k in old_.fields) && (k in t.fields ==> t.fields[k] == old_.fields[k])
    ensures Patch(t, DiffKeys(old_, new_, ks), new_) == Object(Overlay(t.fields, ks, new_.fields))
    decreases old_, 0, 1 + |ks|
  {
    if ks == [] {
      assert Overlay(t.fields, ks, new_.fields) == t.fields;
    } else {
      var k, rest := ks[0], ks[1..];
      assert DiffKeys(old_, new_, ks) == DiffAt(old_, new_, k) + DiffKeys(old_, new_, rest);
      assert k in ks && forall x <- rest :: x in ks;
      hide DiffKeys, DiffAt, Patch;
      PatchConcat(t, DiffAt(old_, new_, k), DiffKeys(old_, new_, rest), new_);
      PatchAt(t, old_, new_, k);
      var t1 := Object(Overlay(t.fields, [k], new_.fields));
      PatchKeys(t1, old_, new_, rest);
      OverlayStep(t.fields, ks, new_.fields);
    }
  }

  lemma OverlayStep(t: map<Key, Json>, ks: seq<Key>, source: map<Key, Json>)
    requires ks != []
    ensures Overlay(Overlay(t, [ks[0]], source), ks[1..], source) == Overlay(t, ks, source)
  {
    assert forall x :: x in ks <==> x == ks[0] || x in ks[1..];
  }

  lemma OverlayOfAll(t: map<Key, Json>, ks: seq<Key>, source: map<Key, Json>)
    requires forall k :: k in t || k in source ==> k in ks
    ensures Overlay(t, ks, source) == source
  {}

  /** Replacing or removing in the old tree exactly at the reported paths gives the new tree. */
  lemma {:induction false} DiffIsSufficient(old_: Json, new_: Json)
    ensures Patch(old_, Diff(old_, new_), new_) == new_
    decreases old_, 1, 0
  {
    if old_.Object? && new_.Object? {
      hide Patch, DiffKeys, DiffAt, Sorted, IsLeast, Overlay;
      var ks := Sorted(old_.fields.Keys + new_.fields.Keys);
      PatchKeys(old_, old_, new_, ks);
      OverlayOfAll(old_.fields, ks, new_.fields);
    } else if old_ != new_ {
      assert Diff(old_, new_)[1..] == [];
    }
  }

  // ---------------------------------------------------------------- strings and paths

  /** A key that the dotted notation can express: not empty and without a dot. */
  predicate Proper(k: Key) { k != "" && '.' !in k }

  lemma {:induction false} RenderBehindPrefix(prefix: string, p: Path)
    requires prefix != "" && p != []
    requires forall k <- p :: Proper(k)
    ensures RenderFrom(prefix, p) == prefix + "." + RenderFrom("", p)
    decreases p
  {
    assert Proper(p[0]);
    if |p| > 1 {
      RenderBehindPrefix(prefix + "." + p[0], p[1..]);
      RenderBehindPrefix(p[0], p[1..]);
      assert prefix + "." + p[0] + "." + RenderFrom("", p[1..])
          == prefix + "." + (p[0] + "." + RenderFrom("", p[1..]));
    }
  }

  function BeforeDot(s: string): nat {
    if s == "" || s[0] == '.' then 0 else 1 + BeforeDot(s[1..])
  }

  lemma {:induction false} FirstDot(a: string, x: string)
    requires '.' !in a && (x == "" || x[0] == '.')
    ensures BeforeDot(a + x) == |a|
  {
    if a != "" {
      assert (a + x)[1..] == a[1..] + x;
      FirstDot(a[1..], x);
    } else {
      assert a + x == x;
    }
  }

  lemma SplitAtDot(a: string, x: string, b: string, y: string)
    requires '.' !in a && '.' !in b && a + x == b + y
    requires (x == "" || x[0] == '.') && (y == "" || y[0] == '.')
    ensures a == b && x == y
  {
    FirstDot(a, x);
    FirstDot(b, y);
    assert (a + x)[..|a|] == a && (b + y)[..|b|] == b;
    assert (a + x)[|a|..] == x && (b + y)[|b|..] == y;
  }

  lemma RenderSplits(p: Path) returns (x: string)
    requires p != [] && forall k <- p :: Proper(k)
    ensures RenderFrom("", p) == p[0] + x
    ensures x == if |p| == 1 then "" else "." + RenderFrom("", p[1..])
  {
    assert Proper(p[0]);
    if |p| == 1 {
      x := "";
    } else {
      x := "." + RenderFrom("", p[1..]);
      RenderBehindPrefix(p[0], p[1..]);
      assert p[0] + "." + RenderFrom("", p[1..]) == p[0] + x;
    }
  }

  /** With proper keys a reported string names one path only. */
  lemma {:induction false} RenderIsInjective(p: Path, q: Path)
    requires forall k <- p :: Proper(k)
    requires forall k <- q :: Proper(k)
    requires RenderFrom("", p) == RenderFrom("", q)
    ensures p == q
    decreases p
  {
    if p != [] && q != [] {
      assert Proper(p[0]) && Proper(q[0]);
      hide RenderFrom, Proper;
      var x := RenderSplits(p);
      var y := RenderSplits(q);
      SplitAtDot(p[0], x, q[0], y);
      if |p| > 1 && |q| > 1 {
        assert x[1..] == RenderFrom("", p[1..]) && y[1..] == RenderFrom("", q[1..]);
        RenderIsInjective(p[1..], q[1..]);
      }
      assert p == [p[0]] + p[1..] && q == [q[0]] + q[1..];
    } else if p != [] {
      RenderNotEmpty(p);
    } else if q != [] {
      RenderNotEmpty(q);
    }
  }

  lemma RenderNotEmpty(p: Path)
    requires p != [] && forall k <- p :: Proper(k)
    ensures RenderFrom("", p) != ""
  {
    assert Proper(p[0]);
    if |p| > 1 { RenderBehindPrefix(p[0], p[1..]); }
  }

  /** One side of a dot in a key. */
  ghost predicate PieceOf(h: Key, k: Key) {
    exists i :: 0 <= i < |k| && k[i] == '.' && (h == k[..i] || h == k[i + 1..])
  }

  ghost predicate KeysAmong(p: Path, keys: iset<Key>) {
    forall i :: 0 <= i < |p| ==> p[i] in keys
  }

  /** Every key that is empty or holds a dot takes part in a collision, in which the other keys are its pieces. */
  lemma ImproperKeyCollides(k: Key) returns (p: Path, q: Path)
    requires !Proper(k)
    ensures p != q && k in p && q != [] && RenderFrom("", p) == RenderFrom("", q)
    ensures forall h :: h in p || h in q ==> h == k || PieceOf(h, k)
  {
    if k == "" {
      p, q := ["", ""], [""];
      RenderTwo("", "");
      RenderSingle("");
    } else {
      var i :| 0 <= i < |k| && k[i] == '.';
      var x, y := k[..i], k[i + 1..];
      assert k == x + "." + y && PieceOf(x, k) && PieceOf(y, k);
      RenderSingle(k);
      if x == "" {
        p, q := ["", k], [k];
        RenderTwo("", k);
      } else {
        p, q := [k], [x, y];
        RenderTwo(x, y);
      }
    }
  }

  lemma RenderSingle(k: Key)
    ensures RenderFrom("", [k]) == k
  {
    assert [k][1..] == [];
  }

  lemma RenderTwo(x: Key, y: Key)
    ensures RenderFrom("", [x, y]) == Join(x, y)
  {
    assert [x, y][1..] == [y] && [y][1..] == [];
    assert RenderFrom("", [x, y]) == RenderFrom(x, [y]) == RenderFrom(Join(x, y), []);
  }

  /** A dotted string names one path only, among the paths over some keys. */
  ghost predicate Unambiguous(keys: iset<Key>) {
    forall p: Path, q: Path :: KeysAmong(p, keys) && KeysAmong(q, keys) ==>
      RenderFrom("", p) == RenderFrom("", q) ==> p == q
  }

  /** Among keys that hold the pieces of their keys, dotted strings are unambiguous exactly when no key is empty or
      holds a dot. */
  lemma UnambiguousExactly(keys: iset<Key>)
    requires forall k, h :: k in keys && PieceOf(h, k) ==> h in keys
    ensures Unambiguous(keys) <==> forall k <- keys :: Proper(k)
  {
    if k :| k in keys && !Proper(k) {
      var p, q := ImproperKeyCollides(k);
      hide Proper, RenderFrom, PieceOf;
      assert forall i :: 0 <= i < |p| ==> p[i] in p;
      assert forall i :: 0 <= i < |q| ==> q[i] in q;
      assert KeysAmong(p, keys) && KeysAmong(q, keys);
    } else {
      hide RenderFrom, PieceOf, Proper;
      forall p: Path, q: Path
        | KeysAmong(p, keys) && KeysAmong(q, keys) && RenderFrom("", p) == RenderFrom("", q)
        ensures p == q
      {
        RenderIsInjective(p, q);
      }
    }
  }

  // ---------------------------------------------------------------- the trees of a program's configuration

  /** Every key is proper, as the field names of a serialised record are. */
  predicate ProperTree(t: Json) {
    t.Object? ==> forall k <- t.fields :: Proper(k) && ProperTree(t.fields[k])
  }

  lemma {:induction false} ReportedKeysAreProper(old_: Json, new_: Json, p: Path)
    requires ProperTree(old_) && ProperTree(new_) && p in Diff(old_, new_)
    ensures forall k <- p :: Proper(k)
    decreases old_
  {
    InDiff(old_, new_, p);
    hide Diff, DiffAt, Proper;
    if old_.Object? && new_.Object? {
      var k :| k in old_.fields.Keys + new_.fields.Keys && p in DiffAt(old_, new_, k);
      InDiffAt(old_, new_, k, p);
      if k in old_.fields && k in new_.fields {
        ReportedKeysAreProper(old_.fields[k], new_.fields[k], p[1..]);
        assert p == [k] + p[1..];
      }
    }
  }

  /** So no string is reported twice between such trees, and each names the one path that it was made from. */
  lemma ReportsAreUnambiguous(old_: Json, new_: Json, i: nat, j: nat)
    requires ProperTree(old_) && ProperTree(new_)
    requires i < |Diff(old_, new_)| && j < |Diff(old_, new_)| && i != j
    ensures RenderAll("", Diff(old_, new_))[i] != RenderAll("", Diff(old_, new_))[j]
  {
    var ps := Diff(old_, new_);
    DiffIsAntichain(old_, new_);
    ReportedKeysAreProper(old_, new_, ps[i]);
    ReportedKeysAreProper(old_, new_, ps[j]);
    hide Diff, RenderFrom, Proper, ProperTree;
    if RenderFrom("", ps[i]) == RenderFrom("", ps[j]) { RenderIsInjective(ps[i], ps[j]); }
  }

  // ---------------------------------------------------------------- how paths are written and ordered

  /** The keys with dots between them. */
  function Dotted(p: Path): string
    requires p != []
  {
    if |p| == 1 then p[0] else p[0] + "." + Dotted(p[1..])
  }

  lemma {:induction false} RenderBehind(prefix: string, p: Path)
    requires prefix != "" && p != []
    ensures RenderFrom(prefix, p) == prefix + "." + Dotted(p)
    decreases p
  {
    if |p| == 1 {
      assert RenderFrom(prefix, p) == RenderFrom(Join(prefix, p[0]), []);
    } else {
      RenderBehind(prefix + "." + p[0], p[1..]);
      assert prefix + "." + p[0] + "." + Dotted(p[1..]) == prefix + "." + (p[0] + "." + Dotted(p[1..]));
    }
  }

  /** A path is reported as its keys with dots between them, without the empty keys it begins with. */
  lemma {:induction false} RenderIsDotted(p: Path, empty: nat)
    requires empty <= |p| && (empty < |p| ==> p[empty] != "") && forall i :: 0 <= i < empty ==> p[i] == ""
    ensures RenderFrom("", p) == if empty < |p| then Dotted(p[empty..]) else ""
    decreases p
  {
    if p == [] {
    } else if empty > 0 {
      assert p[empty..] == p[1..][empty - 1..];
      RenderIsDotted(p[1..], empty - 1);
    } else {
      assert p[0..] == p;
      if |p| > 1 { RenderBehind(p[0], p[1..]); }
    }
  }

  /** `a` is before `b` in a dictionary: at the first place where they differ it has ended or has the lower
      character. */
  ghost predicate Before(a: Key, b: Key) {
    exists n: nat :: n <= |a| && n < |b| && a[..n] == b[..n] && (n == |a| || a[n] < b[n])
  }

  lemma SamePrefixSameHead(a: Key, b: Key, n: nat)
    requires 0 < n <= |a| && n <= |b| && a[..n] == b[..n]
    ensures a[0] == b[0]
  {
    assert a[..n][0] == b[..n][0];
  }

  lemma BeforeByHead(a: Key, b: Key)
    requires a != [] && b != [] && a[0] != b[0]
    ensures Before(a, b) <==> a[0] < b[0]
  {
    if a[0] < b[0] { assert a[..0] == b[..0]; }
    if Before(a, b) {
      var n: nat :| n <= |a| && n < |b| && a[..n] == b[..n] && (n == |a| || a[n] < b[n]);
      if n > 0 { SamePrefixSameHead(a, b, n); }
    }
  }

  lemma BeforeByTail(a: Key, b: Key)
    requires a != [] && b != [] && a[0] == b[0]
    ensures Before(a, b) <==> Before(a[1..], b[1..])
  {
    var c, d := a[1..], b[1..];
    if Before(c, d) {
      var n: nat :| n <= |c| && n < |d| && c[..n] == d[..n] && (n == |c| || c[n] < d[n]);
      assert a[..n + 1] == [a[0]] + c[..n] && b[..n + 1] == [b[0]] + d[..n];
    }
    if Before(a, b) {
      var n: nat :| n <= |a| && n < |b| && a[..n] == b[..n] && (n == |a| || a[n] < b[n]);
      assert c[..n - 1] == a[..n][1..] && d[..n - 1] == b[..n][1..];
    }
  }

  /** The order in which keys are visited is that of a dictionary. */
  lemma {:induction false} LeqIsBefore(a: Key, b: Key)
    ensures Leq(a, b) <==> a == b || Before(a, b)
    decreases a
  {
    if a == [] {
      assert b != [] ==> a[..0] == b[..0];
    } else if b != [] {
      hide Before;
      if a[0] == b[0] {
        LeqIsBefore(a[1..], b[1..]);
        BeforeByTail(a, b);
        assert a == [a[0]] + a[1..] && b == [b[0]] + b[1..];
      } else {
        BeforeByHead(a, b);
      }
    }
  }

  ghost predicate InDictionaryOrder(ks: seq<Key>) {
    forall i, j :: 0 <= i < j < |ks| ==> Before(ks[i], ks[j])
  }

  lemma LeastComesFirst(k: Key, rest: seq<Key>, keys: set<Key>)
    requires IsLeast(k, keys) && (forall h <- rest :: h in keys && h != k) && InDictionaryOrder(rest)
    ensures InDictionaryOrder([k] + rest)
  {
    hide Leq, Before;
    forall j | 0 <= j < |rest| ensures Before(k, rest[j]) { LeqIsBefore(k, rest[j]); }
  }

  lemma SortedStep(keys: set<Key>) returns (k: Key)
    requires keys != {}
    ensures IsLeast(k, keys) && Sorted(keys) == [k] + Sorted(keys - {k})
  {
    k := Sorted(keys)[0];
    hide IsLeast;
  }

  lemma {:induction false} SortedIsOrdered(keys: set<Key>)
    ensures InDictionaryOrder(Sorted(keys))
  {
    if keys != {} {
      var k := SortedStep(keys);
      hide InDictionaryOrder, IsLeast, Sorted;
      SortedIsOrdered(keys - {k});
      LeastComesFirst(k, Sorted(keys - {k}), keys);
    }
  }

  /** Where two paths part, the first has the key that is before the other's. */
  ghost predicate PathBefore(p: Path, q: Path) {
    exists n: nat :: n < |p| && n < |q| && p[..n] == q[..n] && Before(p[n], q[n])
  }

  lemma PathBeforeUnder(k: Key, p: Path, q: Path)
    requires PathBefore(p, q)
    ensures PathBefore([k] + p, [k] + q)
  {
    hide Before;
    var n: nat :| n < |p| && n < |q| && p[..n] == q[..n] && Before(p[n], q[n]);
    assert ([k] + p)[..n + 1] == [k] + p[..n] && ([k] + q)[..n + 1] == [k] + q[..n];
    assert ([k] + p)[n + 1] == p[n] && ([k] + q)[n + 1] == q[n];
  }

  lemma PathBeforeHeads(p: Path, q: Path)
    requires p != [] && q != [] && Before(p[0], q[0])
    ensures PathBefore(p, q)
  {
    assert p[..0] == q[..0];
  }

  ghost predicate InKeyOrder(ps: seq<Path>) {
    forall i, j :: 0 <= i < j < |ps| ==> PathBefore(ps[i], ps[j])
  }

  lemma {:induction false} KeysInOrder(old_: Json, new_: Json, ks: seq<Key>)
    requires old_.Object? && new_.Object?
    requires InDictionaryOrder(ks)
    ensures InKeyOrder(DiffKeys(old_, new_, ks))
    decreases old_, 0, |ks|
  {
    hide Before, PathBefore;
    if ks != [] {
      var k, a, b := ks[0], DiffAt(old_, new_, ks[0]), DiffKeys(old_, new_, ks[1..]);
      KeysInOrder(old_, new_, ks[1..]);
      if k in old_.fields && k in new_.fields {
        var ps := Diff(old_.fields[k], new_.fields[k]);
        DiffIsInKeyOrder(old_.fields[k], new_.fields[k]);
        forall i, j | 0 <= i < j < |a| ensures PathBefore(a[i], a[j]) { PathBeforeUnder(k, ps[i], ps[j]); }
      }
      assert DiffKeys(old_, new_, ks) == a + b;
      forall i, j | 0 <= i < |a| && 0 <= j < |b| ensures PathBefore(a[i], b[j]) {
        DiffAtHead(old_, new_, k);
        assert a[i] in a && b[j] in b;
        InDiffKeys(old_, new_, ks[1..], b[j]);
        var h :| h in ks[1..] && b[j] in DiffAt(old_, new_, h);
        DiffAtHead(old_, new_, h);
        PathBeforeHeads(a[i], b[j]);
      }
    }
  }

  /** The changed paths are reported in the order of a dictionary, key by key. */
  lemma {:induction false} DiffIsInKeyOrder(old_: Json, new_: Json)
    ensures InKeyOrder(Diff(old_, new_))
    decreases old_, 1, 0
  {
    if old_.Object? && new_.Object? {
      var keys := old_.fields.Keys + new_.fields.Keys;
      hide InDictionaryOrder, DiffKeys;
      SortedIsOrdered(keys);
      KeysInOrder(old_, new_, Sorted(keys));
    }
  }
}
