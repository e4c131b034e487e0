/** Layered configuration: the deep merge of value trees. */
module ConfigMerge {
  import opened Wrappers

  /** A configuration value: a table, or a leaf of any other kind. */
  datatype Value = Leaf(text: string) | Table(fields: map<string, Value>)

  /** Tables merge key by key; any other pair is decided by the overlay. */
  ghost function Merge(b: Value, o: Value): Value
    decreases o
  {
    if b.Table? && o.Table? then
      Table(map k | k in b.fields.Keys + o.fields.Keys ::
        if k in b.fields && k in o.fields then Merge(b.fields[k], o.fields[k])
        else if k in o.fields then o.fields[k]
        else b.fields[k])
    else o
  }

  /** `merge_toml_values`. The tree is owned by the caller, so the value updated in place is passed in and
      handed back; the order in which the overlay's keys are visited is left open. */
  method MergeTomlValues(base: Value, overlay: Value) returns (r: Value)
    ensures r == Merge(base, overlay)
    decreases overlay
  {
    if !(base.Table? && overlay.Table?) {
      return overlay;
    }
    var fields := base.fields;
    var rest := overlay.fields.Keys;
    while rest != {}
      invariant rest <= overlay.fields.Keys
      invariant fields.Keys == base.fields.Keys + (overlay.fields.Keys - rest)
      invariant forall k :: k in fields ==>
        fields[k] == if k in overlay.fields && k !in rest then Merge(base, overlay).fields[k] else base.fields[k]
    {
      var key :| key in rest;
      if key in fields {
        var merged := MergeTomlValues(fields[key], overlay.fields[key]);
        fields := fields[key := merged];
      } else {
        fields := fields[key := overlay.fields[key]];
      }
      rest := rest - {key};
    }
    r := Table(fields);
  }

  // ----- The merge, path by path -----

  ghost function Lookup(v: Value, path: seq<string>): Option<Value> {
    if path == [] then Some(v)
    else if v.Table? && path[0] in v.fields then Lookup(v.fields[path[0]], path[1..])
    else None
  }

  /** A proper prefix of the path leads to a leaf. */
  ghost predicate LeafAbove(v: Value, path: seq<string>) {
    path != [] && (v.Leaf? || (path[0] in v.fields && LeafAbove(v.fields[path[0]], path[1..])))
  }

  /** At every path: what the overlay has there goes on top of what the base has there; where the overlay
      has nothing the base is kept, unless an overlay leaf replaced a table above. */
  lemma {:induction false} MergeAtPath(b: Value, o: Value, path: seq<string>)
    ensures Lookup(Merge(b, o), path) ==
              if Lookup(o, path).Some? then
                Some(if Lookup(b, path).Some? then Merge(Lookup(b, path).value, Lookup(o, path).value)
                     else Lookup(o, path).value)
              else if LeafAbove(o, path) then None
              else Lookup(b, path)
  {
    if path != [] && b.Table? && o.Table? {
      var k := path[0];
      if k in b.fields && k in o.fields {
        MergeAtPath(b.fields[k], o.fields[k], path[1..]);
        assert Merge(b, o).fields[k] == Merge(b.fields[k], o.fields[k]);
      }
    }
  }

  /** The layer has nothing at the path, and no leaf above it. */
  ghost predicate Silent(v: Value, path: seq<string>) {
    Lookup(v, path).None? && !LeafAbove(v, path)
  }

  /** Layer `i` holds the leaf, and the layers above it do not speak about its path. */
  ghost predicate Decides(layers: seq<Value>, i: nat, path: seq<string>, text: string) {
    && i < |layers|
    && Lookup(layers[i], path) == Some(Leaf(text))
    && forall j :: i < j < |layers| ==> Silent(layers[j], path)
  }

  ghost predicate Decided(layers: seq<Value>, path: seq<string>, text: string) {
    exists i: nat :: Decides(layers, i, path, text)
  }

  lemma LeafOfMerge(b: Value, o: Value, path: seq<string>, text: string)
    ensures Lookup(Merge(b, o), path) == Some(Leaf(text)) <==>
              || Lookup(o, path) == Some(Leaf(text))
              || (Silent(o, path) && Lookup(b, path) == Some(Leaf(text)))
  {
    MergeAtPath(b, o, path);
  }

  /** One more layer on top of a configuration that holds what the lower layers decide. */
  lemma DecidedGrows(layers: seq<Value>, merged: Value, o: Value, path: seq<string>, text: string)
    requires Lookup(merged, path) == Some(Leaf(text)) <==> Decided(layers, path, text)
    ensures Lookup(Merge(merged, o), path) == Some(Leaf(text)) <==> Decided(layers + [o], path, text)
  {
    hide Merge, Lookup, LeafAbove, Silent;
    LeafOfMerge(merged, o, path, text);
    var longer := layers + [o];
    assert Decides(longer, |layers|, path, text) <==> Lookup(o, path) == Some(Leaf(text));
    forall i: nat | i < |layers|
      ensures Decides(longer, i, path, text) <==> Decides(layers, i, path, text) && Silent(o, path)
    {
      assert forall j :: 0 <= j < |layers| ==> longer[j] == layers[j];
      assert longer[|layers|] == o;
    }
    if Decided(layers, path, text) && Silent(o, path) {
      var i: nat :| Decides(layers, i, path, text);
      assert Decides(longer, i, path, text);
    }
  }

  /** `load_layered_from_paths` after reading and parsing: the file over the defaults, the local file over both.
      A setting has the value of the highest layer that speaks about it. */
  method LoadLayered(defaults: Value, base: Value, local: Option<Value>) returns (merged: Value)
    ensures merged == if local.Some? then Merge(Merge(defaults, base), local.value) else Merge(defaults, base)
    ensures var layers := [defaults, base] + if local.Some? then [local.value] else [];
            forall path, text :: Lookup(merged, path) == Some(Leaf(text)) <==> Decided(layers, path, text)
  {
    hide Merge, Lookup, Decides;
    merged := MergeTomlValues(defaults, base);
    ghost var two := merged;
    if local.Some? {
      merged := MergeTomlValues(merged, local.value);
    }
    forall path, text
      ensures Lookup(two, path) == Some(Leaf(text)) <==> Decided([defaults, base], path, text)
      ensures local.Some? ==>
                (Lookup(merged, path) == Some(Leaf(text)) <==> Decided([defaults, base] + [local.value], path, text))
    {
      OneLayer(defaults, path, text);
      DecidedGrows([defaults], defaults, base, path, text);
      assert [defaults] + [base] == [defaults, base];
      if local.Some? {
        DecidedGrows([defaults, base], two, local.value, path, text);
      }
    }
    assert [defaults, base] + [] == [defaults, base];
  }

  lemma OneLayer(v: Value, path: seq<string>, text: string)
    ensures Lookup(v, path) == Some(Leaf(text)) <==> Decided([v], path, text)
  {
    hide Lookup;
    assert Decides([v], 0, path, text) <==> Lookup(v, path) == Some(Leaf(text));
  }

  /** A leaf of the local file decides its path, whatever the other layers hold. */
  lemma LocalLeafWins(defaults: Value, base: Value, local: Value, path: seq<string>, text: string)
    requires Lookup(local, path) == Some(Leaf(text))
    ensures Lookup(Merge(Merge(defaults, base), local), path) == Some(Leaf(text))
  {
    MergeAtPath(Merge(defaults, base), local, path);
  }

  // ----- Repeated and regrouped layers -----

  lemma {:induction false} MergeSelf(v: Value)
    ensures Merge(v, v) == v
    decreases v
  {
    if v.Table? {
      forall k | k in v.fields
        ensures Merge(v.fields[k], v.fields[k]) == v.fields[k]
      {
        MergeSelf(v.fields[k]);
      }
      assert Merge(v, v).fields == v.fields;
    }
  }

  /** Merging the same overlay twice equals merging it once. */
  lemma {:induction false} MergeIsIdempotent(b: Value, o: Value)
    ensures Merge(Merge(b, o), o) == Merge(b, o)
    decreases o
  {
    MergeSelf(o);
    if b.Table? && o.Table? {
      var once := Merge(b, o);
      forall k | k in o.fields
        ensures Merge(once.fields[k], o.fields[k]) == once.fields[k]
      {
        MergeSelf(o.fields[k]);
        if k in b.fields {
          MergeIsIdempotent(b.fields[k], o.fields[k]);
        }
      }
      assert Merge(once, o).fields == once.fields;
    }
  }

  /** Nothing of `x` shows through `c`: wherever both are tables, the keys of `x` are keys of `c`. */
  predicate Covered(x: Value, c: Value)
    decreases c
  {
    x.Table? && c.Table? ==>
      forall k :: k in x.fields ==> k in c.fields && Covered(x.fields[k], c.fields[k])
  }

  lemma {:induction false} CoveredVanishes(x: Value, c: Value)
    ensures Covered(x, c) <==> Merge(x, c) == c
    decreases c
  {
    if x.Table? && c.Table? {
      var m := Merge(x, c);
      forall k | k in x.fields && k in c.fields
        ensures Covered(x.fields[k], c.fields[k]) <==> m.fields[k] == c.fields[k]
      {
        CoveredVanishes(x.fields[k], c.fields[k]);
      }
      if Covered(x, c) {
        assert m.fields == c.fields;
      }
    }
  }

  /** Wherever the middle layer puts a leaf between two tables, the lower table does not show through the upper. */
  predicate Regroupable(a: Value, b: Value, c: Value)
    decreases c
  {
    if a.Table? && b.Table? && c.Table? then
      forall k :: k in a.fields && k in b.fields && k in c.fields ==> Regroupable(a.fields[k], b.fields[k], c.fields[k])
    else if a.Table? && b.Leaf? && c.Table? then Covered(a, c)
    else true
  }

  /** Layering is associative exactly on regroupable layers. */
  lemma {:induction false} MergeAssociativeIff(a: Value, b: Value, c: Value)
    ensures Merge(Merge(a, b), c) == Merge(a, Merge(b, c)) <==> Regroupable(a, b, c)
    decreases c
  {
    if a.Table? && b.Table? && c.Table? {
      var l, r := Merge(Merge(a, b), c), Merge(a, Merge(b, c));
      assert l.fields.Keys == a.fields.Keys + b.fields.Keys + c.fields.Keys == r.fields.Keys;
      forall k | k in l.fields
        ensures k in a.fields && k in b.fields && k in c.fields ==>
                  (l.fields[k] == r.fields[k] <==> Regroupable(a.fields[k], b.fields[k], c.fields[k]))
        ensures !(k in a.fields && k in b.fields && k in c.fields) ==> l.fields[k] == r.fields[k]
      {
        if k in a.fields && k in b.fields && k in c.fields {
          MergeAssociativeIff(a.fields[k], b.fields[k], c.fields[k]);
        }
      }
      if Regroupable(a, b, c) {
        assert l.fields == r.fields;
      }
    } else if a.Table? && b.Leaf? && c.Table? {
      CoveredVanishes(a, c);
    }
  }

  /** It fails in general: a leaf in the middle layer hides the lower table from the left grouping only. */
  lemma LeafBetweenTablesBreaksRegrouping()
    ensures var a := Table(map["refresh" := Table(map["policy" := Leaf("manual_only")])]);
            var b, c := Table(map["refresh" := Leaf("off")]), Table(map["refresh" := Table(map[])]);
            Merge(Merge(a, b), c) != Merge(a, Merge(b, c))
  {
    var refresh := Table(map["policy" := Leaf("manual_only")]);
    var a := Table(map["refresh" := refresh]);
    var b, c := Table(map["refresh" := Leaf("off")]), Table(map["refresh" := Table(map[])]);
    assert "policy" in refresh.fields;
    assert !Regroupable(a.fields["refresh"], b.fields["refresh"], c.fields["refresh"]);
    MergeAssociativeIff(a, b, c);
  }

  /** Two layers agree on which of their shared paths are tables. */
  predicate SameKinds(a: Value, b: Value)
    decreases b
  {
    a.Table? == b.Table? &&
    (a.Table? ==> forall k :: k in a.fields && k in b.fields ==> SameKinds(a.fields[k], b.fields[k]))
  }

  /** In particular layers that agree on the kinds can be regrouped. */
  lemma {:induction false} SameKindsRegroup(a: Value, b: Value, c: Value)
    requires SameKinds(a, b) && SameKinds(b, c)
    ensures Regroupable(a, b, c)
    decreases c
  {
    if a.Table? {
      forall k | k in a.fields && k in b.fields && k in c.fields
        ensures Regroupable(a.fields[k], b.fields[k], c.fields[k])
      {
        SameKindsRegroup(a.fields[k], b.fields[k], c.fields[k]);
      }
    }
  }
}
