/** datafield_free (parse.c): a worklist frees every node of a tree exactly once, although
    removing its front element brings the last one to the front. */
module DataFieldFree {
  import opened DynArray

  /** An allocated data field: its children are none for a scalar, the items of an array, or
      the entries of a map. */
  class FieldNode {
    var live: bool
    const kids: seq<FieldNode>
    ghost const tree: set<FieldNode>

    /** tree is this node and the disjoint trees of its children. */
    ghost predicate IsTree()
      decreases tree
    {
      && this in tree
      && (forall i | 0 <= i < |kids| :: kids[i].tree < tree && this !in kids[i].tree && kids[i].IsTree())
      && Apart(kids)
      && tree == {this} + Union(kids)
    }

    constructor (kids: seq<FieldNode>)
      requires Apart(kids) && forall i | 0 <= i < |kids| :: kids[i].IsTree()
      ensures IsTree() && live && this.kids == kids && fresh(this)
    {
      this.kids := kids;
      this.live := true;
      this.tree := {this} + Union(kids);
    }

    /** free(3): only what is allocated may be freed. */
    method Free()
      requires live
      modifies this`live
      ensures !live
    {
      live := false;
    }

    /** Reading a freed node is as bad as freeing it twice. */
    method Kids() returns (k: seq<FieldNode>)
      requires live
      ensures k == kids
    {
      k := kids;
    }
  }

  /** The nodes of several trees. */
  ghost function Union(w: seq<FieldNode>): set<FieldNode> {
    set i, n | 0 <= i < |w| && n in w[i].tree :: n
  }

  ghost predicate Apart(w: seq<FieldNode>) {
    forall i, j | 0 <= i < j < |w| :: w[i].tree !! w[j].tree
  }

  ghost predicate Forest(w: seq<FieldNode>) {
    Apart(w) && forall i | 0 <= i < |w| :: w[i].IsTree()
  }

  /** Taking a tree off the worklist takes its nodes off the union, whatever the order left. */
  lemma TakeFirst(w: seq<FieldNode>)
    requires Forest(w) && w != []
    ensures Forest(WithoutSlot(w, 0)) && Union(WithoutSlot(w, 0)) == Union(w) - w[0].tree
  {
    var n, r := |w| - 1, WithoutSlot(w, 0);
    forall i | 0 <= i < |r|
      ensures r[i] == if i == 0 then w[n] else w[i]
    {
    }
    forall x | x in Union(w) && x !in w[0].tree
      ensures x in Union(r)
    {
      var i :| 0 <= i < |w| && x in w[i].tree;
      assert r[if i == n then 0 else i] == w[i];
    }
  }

  /** Putting the children of a node on the worklist puts its tree without the node there. */
  lemma AddForest(w: seq<FieldNode>, kids: seq<FieldNode>)
    requires Forest(w) && Forest(kids) && Union(w) !! Union(kids)
    ensures Forest(w + kids) && Union(w + kids) == Union(w) + Union(kids)
  {
    var v := w + kids;
    forall i, j | 0 <= i < j < |v|
      ensures v[i].tree !! v[j].tree
    {
      if i < |w| <= j {
        assert v[i].tree <= Union(w) && v[j].tree <= Union(kids) by {
          assert v[j] == kids[j - |w|];
        }
      }
    }
    forall x | x in Union(w) + Union(kids)
      ensures x in Union(v)
    {
      if x in Union(w) {
        var i :| 0 <= i < |w| && x in w[i].tree;
        assert v[i] == w[i];
      } else {
        var i :| 0 <= i < |kids| && x in kids[i].tree;
        assert v[|w| + i] == kids[i];
      }
    }
  }

  /** What holds between two nodes: the trees on the worklist are what is left to free. */
  ghost predicate Pending(root: FieldNode, w: seq<FieldNode>, freed: seq<FieldNode>)
    reads root.tree
  {
    && Forest(w) && Union(w) <= root.tree
    && (forall n | n in Union(w) :: n.live)
    && (forall n | n in root.tree && n !in Union(w) :: !n.live)
    && multiset(freed) == multiset(root.tree - Union(w))
  }

  lemma TreeOnList(root: FieldNode)
    requires root.IsTree()
    ensures Forest([root]) && Union([root]) == root.tree
  {
    assert [root][0] == root;
  }

  lemma KidsForest(n: FieldNode)
    requires n.IsTree()
    ensures Forest(n.kids) && n !in Union(n.kids) && n.tree == {n} + Union(n.kids)
  {
  }

  lemma CountFreed(tree: set<FieldNode>, u: set<FieldNode>, n: FieldNode)
    requires n in u && u <= tree
    ensures multiset(tree - (u - {n})) == multiset(tree - u) + multiset{n}
  {
    assert tree - (u - {n}) == (tree - u) + {n};
  }

  /** The worklist once the front node has been replaced by its children. */
  lemma Replace(root: FieldNode, w: seq<FieldNode>, freed: seq<FieldNode>) returns (next: seq<FieldNode>)
    requires w != [] && Pending(root, w, freed)
    ensures next == WithoutSlot(w, 0) + w[0].kids
    ensures Forest(next) && Union(next) == Union(w) - {w[0]} && w[0] in Union(w)
    ensures w[0].live && multiset(freed + [w[0]]) == multiset(root.tree - Union(next))
  {
    var n := w[0];
    TakeFirst(w);
    KidsForest(n);
    AddForest(WithoutSlot(w, 0), n.kids);
    next := WithoutSlot(w, 0) + n.kids;
    assert n in n.tree;
    CountFreed(root.tree, Union(w), n);
  }

  method PushAll(a: Dyn<FieldNode?>, kids: seq<FieldNode>)
    requires a.Valid()
    modifies a, a.items
    ensures a.Valid() && (a.items == old(a.items) || fresh(a.items))
    ensures a.Contents() == old(a.Contents()) + kids
  {
    var i := 0;
    while i < |kids|
      invariant 0 <= i <= |kids| && a.Valid() && (a.items == old(a.items) || fresh(a.items))
      invariant a.Contents() == old(a.Contents()) + kids[..i]
    {
      a.Add(kids[i]);
      i := i + 1;
    }
  }

  /** Free the front node of the worklist, after putting its children there. */
  method FreeFirst(root: FieldNode, a: Dyn<FieldNode?>, ghost w: seq<FieldNode>, ghost freed: seq<FieldNode>)
      returns (ghost next: seq<FieldNode>, ghost first: FieldNode)
    requires a.Valid() && a.Contents() == w && w != []
    requires Pending(root, w, freed)
    modifies a, a.items, set n | n in root.tree :: n`live
    ensures a.Valid() && (a.items == old(a.items) || fresh(a.items))
    ensures a.Contents() == next
    ensures Pending(root, next, freed + [first]) && Union(next) < Union(w)
  {
    next := Replace(root, w, freed);
    var df := a.GetPos(0);
    var j := a.Remove(df);
    first := df;
    var kids := df.Kids();
    PushAll(a, kids);
    df.Free();
  }

  /** Free a tree; `freed` lists its nodes in the order they are freed. */
  method FreeTree(root: FieldNode) returns (ghost freed: seq<FieldNode>)
    requires root.IsTree() && forall n | n in root.tree :: n.live
    modifies set n | n in root.tree :: n`live
    ensures forall n | n in root.tree :: !n.live
    ensures multiset(freed) == multiset(root.tree)
  {
    var a := new Dyn<FieldNode?>();
    a.Add(root);
    freed := [];
    ghost var w := [root];
    TreeOnList(root);
    assert root.tree - root.tree == {};
    while a.pos > 0
      invariant a.Valid() && fresh(a) && fresh(a.items) && a.Contents() == w
      invariant Pending(root, w, freed)
      decreases Union(w)
    {
      ghost var next, first := FreeFirst(root, a, w, freed);
      w, freed := next, freed + [first];
    }
    assert Union(w) == {};
    assert root.tree - {} == root.tree;
  }
}
