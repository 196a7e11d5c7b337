/** The layered settings overlays: a recursive merge in which the later layer wins. */
module DeepMerge {
  import opened Wrappers

  /** A JSON value; `Leaf` stands for any scalar or array, which the merge never opens. */
  datatype Value = Leaf(text: string) | Object(members: map<string, Value>)

  type Path = seq<string>

  function Merge(base: Value, overlay: Value): Value
    decreases overlay
  {
    if base.Object? && overlay.Object? then
      Object(map k | k in base.members.Keys + overlay.members.Keys ::
               if k !in overlay.members then base.members[k]
               else if k in base.members then Merge(base.members[k], overlay.members[k])
               else overlay.members[k])
    else overlay
  }

  /** The merge in place, whatever order the overlay's members come in. */
  method DeepMergeInto(base: Value, overlay: Value) returns (merged: Value)
    ensures merged == Merge(base, overlay)
    decreases overlay
  {
    merged := base;
    if merged.Object? && overlay.Object? {
      var left := overlay.members.Keys;
      while left != {}
        invariant left <= overlay.members.Keys && merged.Object?
        invariant merged.members.Keys == base.members.Keys + (overlay.members.Keys - left)
        invariant forall k :: k in merged.members ==>
                    merged.members[k] == if k in left || k !in overlay.members then base.members[k]
                                         else Merge(base, overlay).members[k]
        decreases left
      {
        var k :| k in left;
        var v := overlay.members[k];
        if k in merged.members && merged.members[k].Object? && v.Object? {
          var owned := DeepMergeInto(merged.members[k], v);
          merged := Object(merged.members[k := owned]);
        } else {
          merged := Object(merged.members[k := v]);
        }
        left := left - {k};
      }
    } else {
      merged := overlay;
    }
  }

  // ---- Values at paths ----

  function Lookup(v: Value, path: Path): Option<Value> {
    if path == [] then Some(v)
    else if v.Object? && path[0] in v.members then Lookup(v.members[path[0]], path[1..])
    else None
  }

  predicate ObjectAt(v: Value, path: Path) { Lookup(v, path).Some? && Lookup(v, path).value.Object? }

  predicate LeafAt(v: Value, path: Path) { Lookup(v, path).Some? && Lookup(v, path).value.Leaf? }

  /** A leaf of `v` stands above the path. */
  ghost predicate Cuts(v: Value, path: Path) { exists n :: 0 <= n < |path| && LeafAt(v, path[..n]) }

  lemma LookupStep(v: Value, k: string, path: Path)
    ensures Lookup(v, [k] + path) == if v.Object? && k in v.members then Lookup(v.members[k], path) else None
  {
    assert ([k] + path)[1..] == path;
  }

  lemma CutsStep(v: Value, path: Path)
    requires path != [] && v.Object?
    ensures Cuts(v, path) <==> path[0] in v.members && Cuts(v.members[path[0]], path[1..])
  {
    forall n | 0 < n < |path| ensures path[..n] == [path[0]] + path[1..][..n - 1] {
    }
    if Cuts(v, path) {
      var n :| 0 <= n < |path| && LeafAt(v, path[..n]);
      LookupStep(v, path[0], path[1..][..n - 1]);
      assert LeafAt(v.members[path[0]], path[1..][..n - 1]);
    }
    if path[0] in v.members && Cuts(v.members[path[0]], path[1..]) {
      var m :| 0 <= m < |path[1..]| && LeafAt(v.members[path[0]], path[1..][..m]);
      LookupStep(v, path[0], path[1..][..m]);
      assert LeafAt(v, path[..m + 1]);
    }
  }

  /**
   * Precedence at every path: the overlay where it has a value, the base where the overlay leaves the
   * path open, nothing under a leaf of the overlay; where both have objects, their merge.
   */
  lemma {:induction false} OverlayWins(base: Value, overlay: Value, path: Path)
    ensures Lookup(Merge(base, overlay), path)
         == if ObjectAt(base, path) && ObjectAt(overlay, path)
            then Some(Merge(Lookup(base, path).value, Lookup(overlay, path).value))
            else if Lookup(overlay, path).Some? then Lookup(overlay, path)
            else if Cuts(overlay, path) then None
            else Lookup(base, path)
    decreases path
  {
    if path != [] {
      var k, rest := path[0], path[1..];
      if overlay.Leaf? {
        assert LeafAt(overlay, path[..0]);
      } else {
        CutsStep(overlay, path);
        if base.Object? && k in base.members && k in overlay.members {
          OverlayWins(base.members[k], overlay.members[k], rest);
        } else if k in overlay.members {
          NoneUnderLeaf(overlay.members[k], rest);
        }
      }
    }
  }

  lemma {:induction false} NoneUnderLeaf(v: Value, path: Path)
    ensures Cuts(v, path) ==> Lookup(v, path).None?
    decreases path
  {
    if path != [] && v.Object? {
      CutsStep(v, path);
      if path[0] in v.members { NoneUnderLeaf(v.members[path[0]], path[1..]); }
    }
  }

  // ---- Algebra ----

  lemma {:induction false} MergeIsIdempotent(v: Value)
    ensures Merge(v, v) == v
  {
    if v.Object? {
      forall k | k in v.members ensures Merge(v.members[k], v.members[k]) == v.members[k] {
        MergeIsIdempotent(v.members[k]);
      }
    }
  }

  /** Applying a layer again, above or below what it went into, changes nothing. */
  lemma {:induction false} MergeAbsorbs(base: Value, overlay: Value)
    ensures Merge(Merge(base, overlay), overlay) == Merge(base, overlay)
    ensures Merge(base, Merge(base, overlay)) == Merge(base, overlay)
    decreases overlay
  {
    MergeIsIdempotent(overlay);
    if base.Object? && overlay.Object? {
      var m := Merge(base, overlay);
      forall k | k in m.members
        ensures k in overlay.members ==> Merge(m.members[k], overlay.members[k]) == m.members[k]
        ensures k in base.members ==> Merge(base.members[k], m.members[k]) == m.members[k]
      {
        if k !in overlay.members {
          MergeIsIdempotent(base.members[k]);
        } else {
          MergeIsIdempotent(overlay.members[k]);
          if k in base.members { MergeAbsorbs(base.members[k], overlay.members[k]); }
        }
      }
      assert Merge(m, overlay).members == m.members;
      assert Merge(base, m).members == m.members;
    }
  }

  /** The upper value decides every member the lower one has. */
  ghost predicate Covers(upper: Value, lower: Value)
    decreases lower
  {
    lower.Object? && upper.Object? ==>
      forall k :: k in lower.members ==> k in upper.members && Covers(upper.members[k], lower.members[k])
  }

  lemma {:induction false} CoveredLayerVanishes(base: Value, overlay: Value)
    ensures Merge(base, overlay) == overlay <==> Covers(overlay, base)
    decreases overlay
  {
    if base.Object? && overlay.Object? {
      var m := Merge(base, overlay);
      forall k | k in base.members && k in overlay.members
        ensures Merge(base.members[k], overlay.members[k]) == overlay.members[k]
           <==> Covers(overlay.members[k], base.members[k])
      {
        CoveredLayerVanishes(base.members[k], overlay.members[k]);
      }
      if m == overlay {
        forall k | k in base.members ensures k in overlay.members && Covers(overlay.members[k], base.members[k]) {
          assert k in m.members;
        }
      }
      if Covers(overlay, base) { assert m.members == overlay.members; }
    }
  }

  /** A middle leaf hides an object below it from the object above, unless the upper one covers the lower. */
  ghost predicate HiddenAt(a: Value, b: Value, c: Value, path: Path) {
    ObjectAt(a, path) && LeafAt(b, path) && ObjectAt(c, path) && !Covers(Lookup(c, path).value, Lookup(a, path).value)
  }

  /** Both groupings of three layers agree exactly when no middle leaf hides anything. */
  lemma {:induction false} MergeAssociatesExactly(a: Value, b: Value, c: Value)
    ensures Merge(Merge(a, b), c) == Merge(a, Merge(b, c)) <==> forall path :: !HiddenAt(a, b, c, path)
    decreases c
  {
    if a.Object? && b.Object? && c.Object? {
      ObjectsAssociate(a, b, c);
    } else {
      if a.Object? && c.Object? {
        CoveredLayerVanishes(a, c);
        if !Covers(c, a) { assert HiddenAt(a, b, c, []); }
      }
      forall path ensures !HiddenAt(a, b, c, path) || (path == [] && HiddenAt(a, b, c, [])) {
      }
    }
  }

  lemma {:induction false} ObjectsAssociate(a: Value, b: Value, c: Value)
    requires a.Object? && b.Object? && c.Object?
    ensures Merge(Merge(a, b), c) == Merge(a, Merge(b, c)) <==> forall path :: !HiddenAt(a, b, c, path)
    decreases c, 0
  {
    var left, right := Merge(Merge(a, b), c), Merge(a, Merge(b, c));
    assert left.members.Keys == right.members.Keys;
    forall k | k in left.members
      ensures left.members[k] == right.members[k] <==> forall path :: !HiddenAt(a, b, c, [k] + path)
    {
      forall path
        ensures HiddenAt(a, b, c, [k] + path)
           <==> && k in a.members && k in b.members && k in c.members
                && HiddenAt(a.members[k], b.members[k], c.members[k], path)
      {
        LookupStep(a, k, path);
        LookupStep(b, k, path);
        LookupStep(c, k, path);
      }
      if k in a.members && k in b.members && k in c.members {
        MergeAssociatesExactly(a.members[k], b.members[k], c.members[k]);
      }
    }
    if left == right {
      forall path ensures !HiddenAt(a, b, c, path) {
        if path != [] {
          assert path == [path[0]] + path[1..];
          if path[0] in left.members { assert !HiddenAt(a, b, c, [path[0]] + path[1..]); }
        }
      }
    }
    if forall path :: !HiddenAt(a, b, c, path) { assert left.members == right.members; }
  }

  /** The lower two layers agree on which of their shared paths are objects. */
  ghost predicate SameShape(a: Value, b: Value) {
    forall path :: Lookup(a, path).Some? && Lookup(b, path).Some? ==> (ObjectAt(a, path) <==> ObjectAt(b, path))
  }

  /** With such layers, detected maps, profile and explicit settings can be folded in either grouping. */
  lemma LayersFoldEitherWay(maps: Value, profile: Value, explicit: Value)
    requires SameShape(maps, profile)
    ensures Merge(maps, Merge(profile, explicit)) == Merge(Merge(maps, profile), explicit)
  {
    MergeAssociatesExactly(maps, profile, explicit);
  }

  /** Without it they cannot: a leaf between two objects erases the lower one in one grouping only. */
  lemma GroupingMatters()
    ensures var a, b, c := Object(map["x" := Leaf("1")]), Leaf("2"), Object(map["y" := Leaf("3")]);
      && HiddenAt(a, b, c, [])
      && Merge(Merge(a, b), c) == Object(map["y" := Leaf("3")])
      && Merge(a, Merge(b, c)) == Object(map["x" := Leaf("1"), "y" := Leaf("3")])
  {
    var a, b, c := Object(map["x" := Leaf("1")]), Leaf("2"), Object(map["y" := Leaf("3")]);
    assert "x" in a.members && "x" !in c.members;
    assert Merge(a, c).members == map["x" := Leaf("1"), "y" := Leaf("3")];
  }
}
