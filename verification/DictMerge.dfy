/**
 The recursive merge of two dictionaries: the second wins, except that two dictionaries under
 the same key are merged in turn.
 */
module DictMerge {
  import opened JsonTrees

  function Merge(a: Json, b: Json, addKeys: bool): (r: Json)
    requires a.Dict? && b.Dict?
    ensures r.Dict?
    decreases b
  {
    Dict(map k | k in a.fields.Keys + (if addKeys then b.fields.Keys else {}) ::
           if k in a.fields && k in b.fields && a.fields[k].Dict? && b.fields[k].Dict? then
             Merge(a.fields[k], b.fields[k], addKeys)
           else if k in b.fields then b.fields[k]
           else a.fields[k])
  }

  // What a value becomes when another one is merged over it.
  function Combined(x: Json, y: Json): Json {
    if x.Dict? && y.Dict? then Merge(x, y, true) else y
  }

  method DictMerge(a: Json, b: Json, addKeys: bool) returns (r: Json)
    requires a.Dict? && b.Dict?
    ensures r == Merge(a, b, addKeys)
    decreases b
  {
    var fields := a.fields;
    var todo := if addKeys then b.fields.Keys else a.fields.Keys * b.fields.Keys;
    ghost var merged := Merge(a, b, addKeys).fields;
    while todo != {}
      invariant todo <= b.fields.Keys && (!addKeys ==> todo <= a.fields.Keys)
      invariant fields.Keys == merged.Keys - (todo - a.fields.Keys)
      invariant forall k <- fields :: fields[k] == if k in todo then a.fields[k] else merged[k]
    {
      var k :| k in todo;
      if k in fields && fields[k].Dict? && b.fields[k].Dict? {
        var below := DictMerge(fields[k], b.fields[k], addKeys);
        fields := fields[k := below];
      } else {
        fields := fields[k := b.fields[k]];
      }
      todo := todo - {k};
    }
    r := Dict(fields);
    assert fields == merged;
  }

  // The dictionary has a leaf above the path.
  ghost predicate LeafAbove(t: Json, q: Path) {
    exists n: nat :: n < |q| && At(t, q[..n]).LeafHere?
  }

  lemma LeafAboveBelow(t: Json, q: Path)
    requires t.Dict? && q != []
    ensures LeafAbove(t, q) <==> q[0] in t.fields && LeafAbove(t.fields[q[0]], q[1..])
  {
    if n: nat :| n < |q| && At(t, q[..n]).LeafHere? {
      assert n > 0 && q[..n][1..] == q[1..][..n - 1];
    }
    if q[0] in t.fields {
      if n: nat :| n < |q[1..]| && At(t.fields[q[0]], q[1..][..n]).LeafHere? {
        assert q[..n + 1][1..] == q[1..][..n];
        assert At(t, q[..n + 1]).LeafHere?;
      }
    }
  }

  // At every path the second dictionary decides where it has something, and where it has a
  // leaf above; everywhere else the first one shows through.
  lemma {:induction false} MergeAtEveryPath(a: Json, b: Json, q: Path)
    requires a.Dict? && b.Dict?
    ensures At(Merge(a, b, true), q) ==
            if At(b, q) != Absent then At(b, q) else if LeafAbove(b, q) then Absent else At(a, q)
    decreases |q|
  {
    if q != [] {
      LeafAboveBelow(b, q);
      var k, rest := q[0], q[1..];
      if k in b.fields {
        if b.fields[k].Leaf? && rest != [] {
          assert At(b.fields[k], rest[..0]).LeafHere?;
        } else if b.fields[k].Dict? {
          if k in a.fields && a.fields[k].Dict? {
            MergeAtEveryPath(a.fields[k], b.fields[k], rest);
          } else if At(b, q) == Absent {
            assert At(b, q) == At(b.fields[k], rest);
            assert rest != [];
          }
        }
      }
    }
  }

  // Without new keys the first dictionary's keys stay, at the top and below merged dictionaries.
  lemma KeysOfMerge(a: Json, b: Json, addKeys: bool)
    requires a.Dict? && b.Dict?
    ensures Merge(a, b, addKeys).fields.Keys == a.fields.Keys + (if addKeys then b.fields.Keys else {})
    ensures forall k :: k in a.fields && k !in b.fields ==> Merge(a, b, addKeys).fields[k] == a.fields[k]
    ensures forall k :: k in a.fields && k in b.fields && (a.fields[k].Leaf? || b.fields[k].Leaf?) ==>
              Merge(a, b, addKeys).fields[k] == b.fields[k]
    ensures forall k :: k in a.fields && k in b.fields && a.fields[k].Dict? && b.fields[k].Dict? ==>
              && Merge(a, b, addKeys).fields[k].Dict?
              && (!addKeys ==> Merge(a, b, addKeys).fields[k].fields.Keys == a.fields[k].fields.Keys)
  {
  }

  // Merging the same dictionary in again changes nothing.
  lemma {:induction false} MergeAbsorbs(a: Json, b: Json, addKeys: bool)
    requires a.Dict? && b.Dict?
    ensures Merge(Merge(a, b, addKeys), b, addKeys) == Merge(a, b, addKeys)
    decreases b
  {
    var m := Merge(a, b, addKeys);
    forall k | k in m.fields ensures Merge(m, b, addKeys).fields[k] == m.fields[k] {
      if k in b.fields && b.fields[k].Dict? {
        if k in a.fields && a.fields[k].Dict? {
          MergeAbsorbs(a.fields[k], b.fields[k], addKeys);
        } else {
          MergeWithItself(b.fields[k], addKeys);
        }
      }
    }
    assert Merge(m, b, addKeys).fields == m.fields;
  }

  lemma {:induction false} MergeWithItself(b: Json, addKeys: bool)
    requires b.Dict?
    ensures Merge(b, b, addKeys) == b
    decreases b
  {
    forall k | k in b.fields && b.fields[k].Dict? ensures Merge(b.fields[k], b.fields[k], addKeys) == b.fields[k] {
      MergeWithItself(b.fields[k], addKeys);
    }
    assert Merge(b, b, addKeys).fields == b.fields;
  }

  // ---- Associativity ----

  // z has every key of x, and where both hold dictionaries under it, z's covers x's.
  ghost predicate Covers(z: Json, x: Json)
    requires z.Dict? && x.Dict?
    decreases x
  {
    forall k <- x.fields ::
      k in z.fields && (x.fields[k].Dict? && z.fields[k].Dict? ==> Covers(z.fields[k], x.fields[k]))
  }

  // Merging over a dictionary shows none of it exactly when it is covered.
  lemma {:induction false} CoveredIsReplaced(x: Json, z: Json)
    requires x.Dict? && z.Dict?
    ensures Merge(x, z, true) == z <==> Covers(z, x)
    decreases x
  {
    var m := Merge(x, z, true);
    forall k | k in x.fields && k in z.fields && x.fields[k].Dict? && z.fields[k].Dict?
      ensures m.fields[k] == z.fields[k] <==> Covers(z.fields[k], x.fields[k])
    {
      CoveredIsReplaced(x.fields[k], z.fields[k]);
    }
    if Covers(z, x) {
      assert m.fields == z.fields;
    } else {
      var k :| k in x.fields &&
               !(k in z.fields && (x.fields[k].Dict? && z.fields[k].Dict? ==> Covers(z.fields[k], x.fields[k])));
      assert k in m.fields && (k in z.fields ==> m.fields[k] != z.fields[k]);
    }
  }

  // Somewhere the middle one puts another value between two dictionaries of which the last
  // does not cover the first.
  ghost predicate Interrupted(x: Json, y: Json, z: Json)
    decreases z
  {
    x.Dict? && z.Dict? &&
    if y.Leaf? then !Covers(z, x)
    else
      exists k :: k in x.fields && k in y.fields && k in z.fields && Interrupted(x.fields[k], y.fields[k], z.fields[k])
  }

  // Merging is associative exactly where it is not interrupted.
  lemma {:induction false} MergeIsAssociativeIff(x: Json, y: Json, z: Json)
    ensures Combined(Combined(x, y), z) == Combined(x, Combined(y, z)) <==> !Interrupted(x, y, z)
    decreases z
  {
    if x.Dict? && y.Leaf? && z.Dict? {
      CoveredIsReplaced(x, z);
    }
    if x.Dict? && y.Dict? && z.Dict? {
      var left, right := Merge(Merge(x, y, true), z, true), Merge(x, Merge(y, z, true), true);
      assert left.fields.Keys == right.fields.Keys;
      forall k | k in left.fields
        ensures left.fields[k] == right.fields[k] <==>
                !(k in x.fields && k in y.fields && k in z.fields && Interrupted(x.fields[k], y.fields[k], z.fields[k]))
      {
        if k in x.fields && k in y.fields && k in z.fields {
          MergeIsAssociativeIff(x.fields[k], y.fields[k], z.fields[k]);
        }
      }
      if left.fields == right.fields {
      } else {
        assert exists k :: k in left.fields && left.fields[k] != right.fields[k];
      }
    }
  }

  // A value between two dictionaries: {k: {a: 1}}, {k: 0}, {k: {b: 2}}.
  lemma MergeIsNotAssociative()
    ensures var x := Dict(map["k" := Dict(map["a" := Leaf("1")])]);
            var y := Dict(map["k" := Leaf("0")]);
            var z := Dict(map["k" := Dict(map["b" := Leaf("2")])]);
            Merge(Merge(x, y, true), z, true) != Merge(x, Merge(y, z, true), true)
  {
    var xk, zk := Dict(map["a" := Leaf("1")]), Dict(map["b" := Leaf("2")]);
    var x, y, z := Dict(map["k" := xk]), Dict(map["k" := Leaf("0")]), Dict(map["k" := zk]);
    assert "a" in xk.fields && "a" !in zk.fields;
    assert Interrupted(x.fields["k"], y.fields["k"], z.fields["k"]);
    assert Interrupted(x, y, z);
    MergeIsAssociativeIff(x, y, z);
  }
}
