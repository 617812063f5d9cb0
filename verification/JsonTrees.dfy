/**
 JSON values as the configuration store and the query builder see them: an object is a
 dictionary that can be walked into, and everything else is a leaf that is only copied.

 Trees are compared by what is found at each path (`At`). `Assign` is the walk that
 sets one path, creating dictionaries on the way; `AssignAtEveryPath` says what it does to
 every path of the tree, and `AssignAllAtEveryPath` lifts that to a whole list of rows.
 */
module JsonTrees {
  import opened Sequences

  datatype Json = Leaf(text: string) | Dict(fields: map<string, Json>)

  type Path = seq<string>

  datatype Row = Row(path: Path, value: Json)

  // What a reader finds at a path.
  datatype Shape = Absent | DictHere | LeafHere(text: string)

  const EMPTY := Dict(map[])

  ghost function At(t: Json, q: Path): Shape {
    if q == [] then
      if t.Dict? then DictHere else LeafHere(t.text)
    else if t.Dict? && q[0] in t.fields then At(t.fields[q[0]], q[1..])
    else Absent
  }

  // Trees that look the same at every path are the same tree.
  lemma {:induction false} SameEverywhere(s: Json, t: Json)
    requires forall q :: At(s, q) == At(t, q)
    ensures s == t
    decreases s
  {
    assert At(s, []) == At(t, []);
    if s.Dict? {
      forall k
        ensures k in s.fields <==> k in t.fields
        ensures k in s.fields ==> s.fields[k] == t.fields[k]
      {
        AtKey(s, k);
        AtKey(t, k);
        assert At(s, [k]) == At(t, [k]);
        if k in s.fields {
          forall q ensures At(s.fields[k], q) == At(t.fields[k], q) {
            AtBelow(s, k, q);
            AtBelow(t, k, q);
            assert At(s, [k] + q) == At(t, [k] + q);
          }
          SameEverywhere(s.fields[k], t.fields[k]);
        }
      }
      assert s.fields == t.fields;
    }
  }

  lemma AtBelow(t: Json, k: string, q: Path)
    requires t.Dict? && k in t.fields
    ensures At(t, [k] + q) == At(t.fields[k], q)
  {
    assert ([k] + q)[1..] == q;
  }

  lemma AtKey(t: Json, k: string)
    requires t.Dict?
    ensures At(t, [k]) == Absent <==> k !in t.fields
  {
    assert [k][1..] == [];
  }

  // The dictionary that the walk steps into under `part`: the one already there, or a new
  // one that replaces a missing or non-dictionary value.
  function Child(t: Json, part: string): (c: Json)
    requires t.Dict?
    ensures c.Dict?
  {
    if part in t.fields && t.fields[part].Dict? then t.fields[part] else EMPTY
  }

  function Assign(t: Json, path: Path, value: Json): (r: Json)
    requires t.Dict? && path != []
    ensures r.Dict?
    decreases |path|
  {
    var below := if |path| == 1 then value else Assign(Child(t, path[0]), path[1..], value);
    Dict(t.fields[path[0] := below])
  }

  // The walk writes the value at its path, leaves dictionaries above it and changes
  // nothing that is not on the way.
  lemma {:induction false} AssignAtEveryPath(t: Json, path: Path, value: Json, q: Path)
    requires t.Dict? && path != []
    ensures At(Assign(t, path, value), q) ==
            if path <= q then At(value, q[|path|..])
            else if q <= path then DictHere
            else At(t, q)
    decreases |path|
  {
    var r := Assign(t, path, value);
    if q == [] {
    } else if q[0] == path[0] {
      assert path <= q <==> path[1..] <= q[1..];
      assert q <= path <==> q[1..] <= path[1..];
      if |path| == 1 {
        assert q[1..] == q[|path|..];
      } else {
        AssignAtEveryPath(Child(t, path[0]), path[1..], value, q[1..]);
        if path <= q {
          assert q[1..][|path[1..]|..] == q[|path|..];
        } else if !(q <= path) {
          assert q[1..] != [];
        }
      }
    } else {
      assert path[0] != q[0];
    }
  }

  function AssignAll(t: Json, rows: seq<Row>): (r: Json)
    requires t.Dict? && forall row <- rows :: row.path != []
    ensures r.Dict?
  {
    if rows == [] then t
    else
      var last := rows[|rows| - 1];
      Assign(AssignAll(t, rows[..|rows| - 1]), last.path, last.value)
  }

  // No row's path runs through another's. A row may be listed twice.
  ghost predicate PrefixFree(rows: seq<Row>) {
    forall r, s :: r in rows && s in rows && r.path <= s.path ==> r == s
  }

  // What is found at q once all rows were assigned: under a row's path its value,
  // above a row's path a dictionary, elsewhere what was there before.
  ghost predicate Overlaid(before: Json, rows: seq<Row>, after: Json, q: Path) {
    && (forall r <- rows :: r.path <= q ==> At(after, q) == At(r.value, q[|r.path|..]))
    && (forall r <- rows :: q <= r.path && q != r.path ==> At(after, q) == DictHere)
    && ((forall r <- rows :: Apart(r.path, q)) ==> At(after, q) == At(before, q))
  }

  lemma {:induction false} AssignAllAtEveryPath(t: Json, rows: seq<Row>, q: Path)
    requires t.Dict? && forall row <- rows :: row.path != []
    requires PrefixFree(rows)
    ensures Overlaid(t, rows, AssignAll(t, rows), q)
    decreases |rows|
  {
    if rows != [] {
      var n := |rows| - 1;
      var last := rows[n];
      var init := rows[..n];
      assert forall r <- rows :: r == last || r in init;
      assert last in rows;
      AssignAllAtEveryPath(t, init, q);
      AssignAtEveryPath(AssignAll(t, init), last.path, last.value, q);
      forall r <- rows
        ensures r.path <= q ==> At(AssignAll(t, rows), q) == At(r.value, q[|r.path|..])
        ensures q <= r.path && q != r.path ==> At(AssignAll(t, rows), q) == DictHere
      {
        if r != last {
          PrefixesOfOnePath(r.path, last.path, q);
        }
      }
    }
  }

  lemma PrefixesOfOnePath(p: Path, p': Path, q: Path)
    ensures p <= q && p' <= q ==> p <= p' || p' <= p
    ensures p <= q && q <= p' ==> p <= p'
  {
  }

  // Whatever the rows do to each other, a path that none of them touches is as before.
  lemma {:induction false} AssignAllOffPaths(t: Json, rows: seq<Row>, q: Path)
    requires t.Dict? && (forall row <- rows :: row.path != []) && forall row <- rows :: Apart(row.path, q)
    ensures At(AssignAll(t, rows), q) == At(t, q)
    decreases |rows|
  {
    if rows != [] {
      var init, last := rows[..|rows| - 1], rows[|rows| - 1];
      assert last in rows && forall r <- init :: r in rows;
      AssignAllOffPaths(t, init, q);
      AssignAtEveryPath(AssignAll(t, init), last.path, last.value, q);
    }
  }

  // And a row that no other one conflicts with has its value at its path.
  lemma {:induction false} AssignAllOwnPath(t: Json, rows: seq<Row>, own: Row, x: Path)
    requires t.Dict? && (forall row <- rows :: row.path != []) && own in rows
    requires forall row <- rows :: row == own || Apart(row.path, own.path)
    ensures At(AssignAll(t, rows), own.path + x) == At(own.value, x)
    decreases |rows|
  {
    var init, last, q := rows[..|rows| - 1], rows[|rows| - 1], own.path + x;
    assert own.path <= q && q[|own.path|..] == x;
    assert last in rows && forall r :: r in rows <==> r in init || r == last;
    AssignAtEveryPath(AssignAll(t, init), last.path, last.value, q);
    if last != own {
      AssignAllOwnPath(t, init, own, x);
      PrefixesOfOnePath(last.path, own.path, q);
      PrefixesOfOnePath(own.path, last.path, q);
      assert q <= last.path ==> own.path <= last.path;
    }
  }

  // The tree does not depend on the order of the rows, nor on rows visited again.
  lemma OrderDoesNotMatter(t: Json, rows: seq<Row>, rows': seq<Row>)
    requires t.Dict? && forall row <- rows :: row.path != []
    requires PrefixFree(rows) && forall r :: r in rows <==> r in rows'
    ensures AssignAll(t, rows) == AssignAll(t, rows')
  {
    var s, s' := AssignAll(t, rows), AssignAll(t, rows');
    forall q ensures At(s, q) == At(s', q) {
      AssignAllAtEveryPath(t, rows, q);
      AssignAllAtEveryPath(t, rows', q);
      if forall r <- rows :: Apart(r.path, q) {
      } else {
        var r :| r in rows && !Apart(r.path, q);
        assert r in rows';
      }
    }
    SameEverywhere(s, s');
  }
}
