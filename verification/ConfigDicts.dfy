/**
 The nested dictionaries of the configuration store as mutable objects, and the walk that
 sets one path in place. A node owns the nodes below it; `Tree` is the JSON value it stands
 for.
 */
module ConfigDicts {
  import opened JsonTrees

  datatype Cell = Text(text: string) | Ref(node: DictNode)

  class DictNode {
    var entries: map<string, Cell>
    ghost var repr: set<DictNode>

    ghost predicate Valid()
      reads this, repr
      decreases repr
    {
      && this in repr
      && (forall k <- entries :: entries[k].Ref? ==> Owns(entries[k].node) && entries[k].node.Valid())
      && (forall j, k :: j in entries && k in entries && j != k && entries[j].Ref? && entries[k].Ref? ==>
                           entries[j].node.repr !! entries[k].node.repr)
    }

    ghost predicate Owns(node: DictNode)
      reads this, repr
    {
      node in repr && node.repr <= repr && this in repr && this !in node.repr
    }

    ghost function Tree(): (t: Json)
      requires Valid()
      reads this, repr
      ensures t.Dict?
      decreases repr
    {
      Dict(map k | k in entries :: if entries[k].Ref? then entries[k].node.Tree() else Leaf(entries[k].text))
    }

    constructor ()
      ensures Valid() && fresh(repr) && Tree() == EMPTY && repr == {this}
    {
      entries, repr := map[], {this};
    }

    // One entry set, to a text or to a dictionary of its own.
    method SetEntry(key: string, value: Cell)
      requires Valid()
      requires value.Ref? ==> value.node.Valid() && value.node.repr !! repr
      modifies this
      ensures Valid() && repr == old(repr) + ReprOf(value)
      ensures entries == old(entries)[key := value]
      ensures value.Ref? ==> value.node.Valid() && value.node.repr == old(value.node.repr)
      ensures Tree() == Dict(old(Tree()).fields[key := old(TreeOf(value))])
    {
      entries := entries[key := value];
      repr := repr + ReprOf(value);
    }

    // The dictionary under `key` has changed, and nothing else of this tree has.
    twostate lemma ChildChanged(key: string)
      requires old(Valid()) && key in entries && entries[key].Ref?
      requires entries == old(entries) && entries[key].node.Valid()
      requires this in repr && this !in entries[key].node.repr && repr == old(repr) + entries[key].node.repr
      requires entries[key].node.repr * old(repr) <= old(entries[key].node.repr)
      requires forall n <- old(repr) - old(entries[key].node.repr) - {this} :: unchanged(n)
      ensures Valid() && Tree() == Dict(old(Tree()).fields[key := entries[key].node.Tree()])
    {
      forall k | k in entries && k != key && entries[k].Ref?
        ensures Owns(entries[k].node) && entries[k].node.Valid()
        ensures entries[k].node.Tree() == old(entries[k].node.Tree())
        ensures entries[k].node.repr == old(entries[k].node.repr)
      {
        var n := entries[k].node;
        assert n in old(n.repr) && old(n.repr) !! old(entries[key].node.repr) && this !in old(n.repr);
        assert old(n.repr) <= old(repr) - old(entries[key].node.repr) - {this};
        assert forall m <- old(n.repr) :: m in old(repr) - old(entries[key].node.repr) - {this} && unchanged(m);
      }
    }

    // The dictionary under `key`, made if there is none.
    method ChildAt(key: string) returns (next: DictNode)
      requires Valid()
      modifies this
      ensures Valid() && fresh(repr - old(repr)) && old(repr) <= repr
      ensures key in entries && entries[key] == Ref(next) && Owns(next) && next.Valid()
      ensures Tree() == Dict(old(Tree()).fields[key := Child(old(Tree()), key)])
      ensures next.Tree() == Child(old(Tree()), key)
    {
      if key in entries && entries[key].Ref? {
        next := entries[key].node;
      } else {
        next := new DictNode();
        SetEntry(key, Ref(next));
      }
      assert Tree().fields[key] == next.Tree();
    }

    // The walk goes on in the dictionary under `key`.
    method AssignBelow(key: string, path: Path, value: Cell)
      requires Valid() && path != [] && key in entries && entries[key].Ref?
      requires value.Ref? ==> value.node.Valid() && value.node.repr !! repr
      modifies repr
      ensures Valid() && fresh(repr - old(repr) - old(ReprOf(value)))
      ensures Tree() == Dict(old(Tree()).fields[key := Assign(old(entries[key].node.Tree()), path, old(TreeOf(value)))])
      decreases |path|, 1
    {
      var next := entries[key].node;
      next.AssignPath(path, value);
      repr := repr + next.repr;
      ChildChanged(key);
    }

    // _assign_path: one dictionary per turn of its loop, and the value at the last one.
    method AssignPath(path: Path, value: Cell)
      requires Valid() && path != []
      requires value.Ref? ==> value.node.Valid() && value.node.repr !! repr
      modifies repr
      ensures Valid() && fresh(repr - old(repr) - old(ReprOf(value)))
      ensures Tree() == Assign(old(Tree()), path, old(TreeOf(value)))
      decreases |path|, 0
    {
      if |path| == 1 {
        SetEntry(path[0], value);
      } else {
        AssignStepwise(Tree(), path, TreeOf(value));
        var _ := ChildAt(path[0]);
        AssignBelow(path[0], path[1..], value);
      }
    }
  }

  // Assigning a path is making sure of the first dictionary and assigning the rest in it.
  lemma AssignStepwise(t: Json, path: Path, value: Json)
    requires t.Dict? && |path| > 1
    ensures var made := t.fields[path[0] := Child(t, path[0])];
            Assign(t, path, value) == Dict(made[path[0] := Assign(Child(t, path[0]), path[1..], value)])
  {
  }

  ghost function ReprOf(c: Cell): set<DictNode>
    reads if c.Ref? then {c.node} else {}
  {
    if c.Ref? then c.node.repr else {}
  }

  ghost function TreeOf(c: Cell): Json
    requires c.Ref? ==> c.node.Valid()
    reads if c.Ref? then {c.node} + c.node.repr else {}
  {
    if c.Ref? then c.node.Tree() else Leaf(c.text)
  }
}
