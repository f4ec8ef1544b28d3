/**
 * The abstract shape of the transform store: every registered entity sits in
 * a row and records an optional parent. Rows stand for depth, and an entity's
 * children are the entities one row further down that record it as parent,
 * which is how src/component/transform.rs finds children when it walks or
 * reparents.
 */
module Hierarchy {

  /** An entity handle; only equality matters. */
  type Entity = nat

  datatype Option<T> = None | Some(value: T)

  /** Where an entity sits in the hierarchy: its row and its recorded parent. */
  datatype Node = Node(row: nat, parent: Option<Entity>)

  /** Every registered entity's node, and the number of rows the store holds. */
  datatype Forest = Forest(nodes: map<Entity, Node>, height: nat)

  /** Every row exists, and exactly the row-0 entities have no parent. */
  ghost predicate WellFormed(f: Forest)
  {
    forall e :: e in f.nodes ==>
      f.nodes[e].row < f.height && (f.nodes[e].parent.None? <==> f.nodes[e].row == 0)
  }

  /**
   * Row equals depth: every recorded parent is registered and sits exactly one
   * row above its child.
   */
  ghost predicate Hierarchical(f: Forest)
  {
    && WellFormed(f)
    && forall e {:trigger ParentAbove(f, e)} :: e in f.nodes ==> ParentAbove(f, e)
  }

  /** In a hierarchical forest every entity's parent sits one row above it. */
  lemma ParentRow(f: Forest, e: Entity)
    requires Hierarchical(f) && e in f.nodes
    ensures ParentAbove(f, e)
  {
  }

  /** `e`'s recorded parent, if it has one, is registered one row above it. */
  ghost predicate ParentAbove(f: Forest, e: Entity)
    requires e in f.nodes
  {
    f.nodes[e].parent.Some? ==>
      f.nodes[e].parent.value in f.nodes && f.nodes[f.nodes[e].parent.value].row + 1 == f.nodes[e].row
  }

  /** The entities one row below `x` that record `x` as their parent. */
  ghost function Children(f: Forest, x: Entity): (cs: set<Entity>)
    requires x in f.nodes
    ensures forall c :: c in cs ==> c in f.nodes && f.nodes[c].parent == Some(x)
  {
    set y | y in f.nodes && f.nodes[y].parent == Some(x) && f.nodes[y].row == f.nodes[x].row + 1
  }

  /** `x` together with all entities reachable from it through Children. */
  ghost function Subtree(f: Forest, x: Entity): (s: set<Entity>)
    requires WellFormed(f) && x in f.nodes
    ensures x in s && s <= f.nodes.Keys
    decreases f.height - f.nodes[x].row
  {
    {x} + (set c, d | c in Children(f, x) && d in Subtree(f, c) :: d)
  }

  /** Descendants sit at or below their ancestor's row, strictly below unless equal. */
  lemma {:induction false} SubtreeBelow(f: Forest, x: Entity, d: Entity)
    requires WellFormed(f) && x in f.nodes && d in Subtree(f, x)
    ensures d in f.nodes && f.nodes[d].row >= f.nodes[x].row
    ensures d != x ==> f.nodes[d].row > f.nodes[x].row
    decreases f.height - f.nodes[x].row
  {
    if d != x {
      var c :| c in Children(f, x) && d in Subtree(f, c);
      SubtreeBelow(f, c, d);
    }
  }

  /** A child's subtree is part of its parent's subtree. */
  lemma ChildSubtree(f: Forest, x: Entity, c: Entity)
    requires WellFormed(f) && x in f.nodes && c in Children(f, x)
    ensures Subtree(f, c) <= Subtree(f, x)
  {
  }

  /** Every child of `x` is in `x`'s subtree. */
  lemma ChildrenInSubtree(f: Forest, x: Entity)
    requires WellFormed(f) && x in f.nodes
    ensures Children(f, x) <= Subtree(f, x)
  {
    forall c | c in Children(f, x)
      ensures c in Subtree(f, x)
    {
      ChildSubtree(f, x, c);
    }
  }

  /** Subtrees are closed: the subtree of a descendant is inside the subtree. */
  lemma {:induction false} SubtreeTransitive(f: Forest, x: Entity, y: Entity)
    requires WellFormed(f) && x in f.nodes && y in Subtree(f, x)
    ensures y in f.nodes && Subtree(f, y) <= Subtree(f, x)
    decreases f.height - f.nodes[x].row
  {
    if y != x {
      var c :| c in Children(f, x) && y in Subtree(f, c);
      SubtreeTransitive(f, c, y);
      ChildSubtree(f, x, c);
    }
  }

  /** Every descendant other than the root has its parent, one row up, in the subtree. */
  lemma {:induction false} ParentInSubtree(f: Forest, x: Entity, d: Entity)
    requires WellFormed(f) && x in f.nodes && d in Subtree(f, x) && d != x
    ensures d in f.nodes && f.nodes[d].parent.Some?
    ensures f.nodes[d].parent.value in Subtree(f, x)
    ensures f.nodes[d].parent.value in f.nodes
    ensures f.nodes[f.nodes[d].parent.value].row + 1 == f.nodes[d].row
    decreases f.height - f.nodes[x].row
  {
    var c :| c in Children(f, x) && d in Subtree(f, c);
    if d != c {
      ParentInSubtree(f, c, d);
      ChildSubtree(f, x, c);
    }
  }

  /** Two entities in the same row whose subtrees meet are the same entity. */
  lemma {:induction false} CommonDescendant(f: Forest, a: Entity, b: Entity, d: Entity)
    requires WellFormed(f) && a in f.nodes && b in f.nodes
    requires f.nodes[a].row == f.nodes[b].row
    requires d in Subtree(f, a) && d in Subtree(f, b)
    ensures a == b
    decreases f.nodes[d].row
  {
    SubtreeBelow(f, a, d);
    SubtreeBelow(f, b, d);
    if d != a && d != b {
      ParentInSubtree(f, a, d);
      ParentInSubtree(f, b, d);
      var q := f.nodes[d].parent.value;
      CommonDescendant(f, a, b, q);
    }
  }

  /** Distinct entities of one row have disjoint subtrees. */
  lemma SubtreesDisjoint(f: Forest, a: Entity, b: Entity)
    requires WellFormed(f) && a in f.nodes && b in f.nodes
    requires f.nodes[a].row == f.nodes[b].row && a != b
    ensures Subtree(f, a) !! Subtree(f, b)
  {
    forall d | d in Subtree(f, a) && d in Subtree(f, b)
      ensures false
    {
      CommonDescendant(f, a, b, d);
    }
  }

  /**
   * Removing an entity that has a child leaves that child naming a parent
   * that is no longer registered, so row no longer equals depth.
   */
  lemma RemovalOrphansChildren(f: Forest, e: Entity, c: Entity)
    requires WellFormed(f) && e in f.nodes && c in Children(f, e)
    ensures !Hierarchical(Forest(f.nodes - {e}, f.height))
  {
    var g := Forest(f.nodes - {e}, f.height);
    assert c in g.nodes && !ParentAbove(g, c);
  }

  /**
   * In a hierarchy, removing one entity keeps row equal to depth exactly when
   * that entity has no children.
   */
  lemma RemovalKeepsHierarchy(f: Forest, e: Entity)
    requires Hierarchical(f) && e in f.nodes
    ensures Hierarchical(Forest(f.nodes - {e}, f.height)) <==> Children(f, e) == {}
  {
    var g := Forest(f.nodes - {e}, f.height);
    if Children(f, e) != {} {
      var c :| c in Children(f, e);
      RemovalOrphansChildren(f, e, c);
    } else {
      forall x | x in g.nodes
        ensures ParentAbove(g, x)
      {
        ParentRow(f, x);
        assert x !in Children(f, e);
      }
    }
  }

  /** A new parentless entity in row 0 keeps row equal to depth. */
  lemma NewRootKeepsHierarchy(f: Forest, e: Entity)
    requires Hierarchical(f) && e !in f.nodes && f.height > 0
    ensures Hierarchical(Forest(f.nodes[e := Node(0, None)], f.height))
  {
    var g := Forest(f.nodes[e := Node(0, None)], f.height);
    forall x | x in g.nodes
      ensures ParentAbove(g, x)
    {
      if x != e {
        ParentRow(f, x);
      }
    }
  }

  /** `e` and the entities on its chain of recorded parents, up to row 0. */
  ghost function Ancestors(f: Forest, e: Entity): (s: set<Entity>)
    requires Hierarchical(f) && e in f.nodes
    ensures e in s && s <= f.nodes.Keys
    ensures forall a :: a in s ==> f.nodes[a].row <= f.nodes[e].row
    decreases f.nodes[e].row
  {
    ParentRow(f, e);
    match f.nodes[e].parent
    case None => {e}
    case Some(p) => {e} + Ancestors(f, p)
  }

  /** Ancestry is the reverse of the subtree relation. */
  lemma {:induction false} AncestorsAreAbove(f: Forest, e: Entity, a: Entity)
    requires Hierarchical(f) && e in f.nodes && a in Ancestors(f, e)
    ensures a in f.nodes && e in Subtree(f, a)
    decreases f.nodes[e].row
  {
    ParentRow(f, e);
    if a != e {
      var p := f.nodes[e].parent.value;
      AncestorsAreAbove(f, p, a);
      assert e in Children(f, p);
      SubtreeTransitive(f, a, p);
      ChildSubtree(f, p, e);
    }
  }

  /** An entity whose subtree holds `e` is one of `e`'s ancestors. */
  lemma {:induction false} AboveAreAncestors(f: Forest, e: Entity, a: Entity)
    requires Hierarchical(f) && a in f.nodes && e in Subtree(f, a)
    ensures e in f.nodes && a in Ancestors(f, e)
    decreases f.nodes[e].row
  {
    if e != a {
      ParentInSubtree(f, a, e);
      AboveAreAncestors(f, f.nodes[e].parent.value, a);
    }
  }

  /** One step up the ancestor chain: a root is its own only ancestor; otherwise the parent's chain gains `e`, which it did not hold. */
  lemma AncestorsStep(f: Forest, e: Entity)
    requires Hierarchical(f) && e in f.nodes
    ensures f.nodes[e].parent.None? ==> Ancestors(f, e) == {e}
    ensures f.nodes[e].parent.Some? ==>
              && f.nodes[e].parent.value in f.nodes
              && Ancestors(f, e) == Ancestors(f, f.nodes[e].parent.value) + {e}
              && e !in Ancestors(f, f.nodes[e].parent.value)
  {
    ParentRow(f, e);
  }

  /** `a` is an ancestor of `e` exactly when `e` is in `a`'s subtree. */
  lemma AncestorsIff(f: Forest, e: Entity, a: Entity)
    requires Hierarchical(f) && e in f.nodes && a in f.nodes
    ensures a in Ancestors(f, e) <==> e in Subtree(f, a)
  {
    if a in Ancestors(f, e) {
      AncestorsAreAbove(f, e, a);
    }
    if e in Subtree(f, a) {
      AboveAreAncestors(f, e, a);
    }
  }

  /** The union of the subtrees of the entities in `xs`. */
  ghost function Below(f: Forest, xs: set<Entity>): (s: set<Entity>)
    requires WellFormed(f) && xs <= f.nodes.Keys
    ensures forall d :: d in s ==> d in f.nodes
  {
    set c, d | c in xs && d in Subtree(f, c) :: d
  }

  /** A subtree is its root together with the subtrees of the root's children. */
  lemma SubtreeUnfold(f: Forest, x: Entity)
    requires WellFormed(f) && x in f.nodes
    ensures Subtree(f, x) == {x} + Below(f, Children(f, x))
  {
  }

  /** An entity is not in the subtree of any of its children. */
  lemma RootNotBelowChildren(f: Forest, x: Entity)
    requires WellFormed(f) && x in f.nodes
    ensures x !in Below(f, Children(f, x))
  {
    if x in Below(f, Children(f, x)) {
      var c :| c in Children(f, x) && x in Subtree(f, c);
      SubtreeBelow(f, c, x);
    }
  }

  /** An entity in the last row has no children: its subtree is itself. */
  lemma LastRowLeaf(f: Forest, x: Entity)
    requires WellFormed(f) && x in f.nodes && f.nodes[x].row + 1 >= f.height
    ensures Children(f, x) == {} && Subtree(f, x) == {x}
  {
    assert Below(f, Children(f, x)) == {};
    SubtreeUnfold(f, x);
  }

  /** Adding one entity to `xs` adds exactly its subtree to their union. */
  lemma BelowInsert(f: Forest, xs: set<Entity>, c: Entity)
    requires WellFormed(f) && xs <= f.nodes.Keys && c in f.nodes
    ensures Below(f, xs + {c}) == Below(f, xs) + Subtree(f, c)
  {
    BelowInsertWithin(f, xs, c);
    BelowInsertCovers(f, xs, c);
  }

  /** The union after adding `c` holds nothing beyond the old union and `c`'s subtree. */
  lemma BelowInsertWithin(f: Forest, xs: set<Entity>, c: Entity)
    requires WellFormed(f) && xs <= f.nodes.Keys && c in f.nodes
    ensures Below(f, xs + {c}) <= Below(f, xs) + Subtree(f, c)
  {
    forall d | d in Below(f, xs + {c})
      ensures d in Below(f, xs) + Subtree(f, c)
    {
      var x :| x in xs + {c} && d in Subtree(f, x);
    }
  }

  /** The union after adding `c` holds the old union and `c`'s subtree. */
  lemma BelowInsertCovers(f: Forest, xs: set<Entity>, c: Entity)
    requires WellFormed(f) && xs <= f.nodes.Keys && c in f.nodes
    ensures Below(f, xs) + Subtree(f, c) <= Below(f, xs + {c})
  {
    forall d | d in Below(f, xs) + Subtree(f, c)
      ensures d in Below(f, xs + {c})
    {
      if d in Subtree(f, c) {
        assert c in xs + {c};
      } else {
        var x :| x in xs && d in Subtree(f, x);
        assert x in xs + {c};
      }
    }
  }

  /** The subtrees of entities inside a subtree stay inside it. */
  lemma BelowWithin(f: Forest, x: Entity, xs: set<Entity>)
    requires WellFormed(f) && x in f.nodes && xs <= Subtree(f, x)
    ensures Below(f, xs) <= Subtree(f, x)
  {
    forall d | d in Below(f, xs)
      ensures d in Subtree(f, x)
    {
      var c :| c in xs && d in Subtree(f, c);
      SubtreeTransitive(f, x, c);
    }
  }

  /** The subtrees of other entities of `c`'s row do not meet `c`'s subtree. */
  lemma BelowDisjoint(f: Forest, xs: set<Entity>, c: Entity)
    requires WellFormed(f) && xs <= f.nodes.Keys && c in f.nodes && c !in xs
    requires forall x :: x in xs ==> f.nodes[x].row == f.nodes[c].row
    ensures Below(f, xs) !! Subtree(f, c)
  {
    forall d | d in Below(f, xs) && d in Subtree(f, c)
      ensures false
    {
      var x :| x in xs && d in Subtree(f, x);
      SubtreesDisjoint(f, x, c);
    }
  }

  /** A row shifted by `shift`, never below row 0. */
  function ShiftRow(row: nat, shift: int): nat
  {
    if row + shift < 0 then 0 else row + shift
  }

  /**
   * The nodes of `f` after the entities in `moved` have been relocated for
   * making `root` a child of `newParent`: each moves by the same number of rows
   * as `root` does to land one row below `newParent`, and `root` records
   * `newParent` as its parent. Nothing else changes.
   */
  ghost function MoveRows(f: Forest, moved: set<Entity>, root: Entity, newParent: Entity): (m: map<Entity, Node>)
    requires root in f.nodes && newParent in f.nodes
    ensures m.Keys == f.nodes.Keys
  {
    var shift := f.nodes[newParent].row + 1 - f.nodes[root].row;
    map e | e in f.nodes ::
      if e in moved then
        Node(ShiftRow(f.nodes[e].row, shift), if e == root then Some(newParent) else f.nodes[e].parent)
      else f.nodes[e]
  }

  /** The row an entity of the moving subtree ends up in. */
  function MovedRow(f: Forest, root: Entity, newParent: Entity, e: Entity): int
    requires root in f.nodes && newParent in f.nodes && e in f.nodes
  {
    f.nodes[e].row + f.nodes[newParent].row + 1 - f.nodes[root].row
  }

  /** The parent an entity of the moving subtree ends up with. */
  function MovedParent(f: Forest, root: Entity, newParent: Entity, e: Entity): Option<Entity>
    requires e in f.nodes
  {
    if e == root then Some(newParent) else f.nodes[e].parent
  }

  /** Moving nothing changes nothing. */
  lemma MoveNone(f: Forest, root: Entity, newParent: Entity)
    requires root in f.nodes && newParent in f.nodes
    ensures MoveRows(f, {}, root, newParent) == f.nodes
  {
  }

  /**
   * Moving one more entity updates just that entity's node: it gets the row
   * shifted by the move and, when it is the moved root, the new parent.
   */
  lemma MoveOne(f: Forest, moved: set<Entity>, root: Entity, newParent: Entity, e: Entity,
                row: nat, parent: Option<Entity>)
    requires root in f.nodes && newParent in f.nodes && e in f.nodes
    requires row == MovedRow(f, root, newParent, e) && parent == MovedParent(f, root, newParent, e)
    ensures MoveRows(f, moved + {e}, root, newParent) == MoveRows(f, moved, root, newParent)[e := Node(row, parent)]
  {
  }

  /**
   * Midway through moving `root`'s subtree, after `entity` itself has moved
   * but none of its children: an entity one row below `entity`'s original row
   * that records `entity` as parent is one of `entity`'s original children.
   */
  lemma {:induction false} MovedParentIsChild(f0: Forest, g: map<Entity, Node>, moved: set<Entity>,
                                              root: Entity, newParent: Entity, entity: Entity, x: Entity)
    requires WellFormed(f0) && root in f0.nodes && newParent in f0.nodes
    requires newParent !in Subtree(f0, root) && entity in Subtree(f0, root)
    requires moved <= Subtree(f0, root) && moved !! Subtree(f0, entity)
    requires g == MoveRows(f0, moved + {entity}, root, newParent)
    requires x in g && g[x] == Node(f0.nodes[entity].row + 1, Some(entity))
    ensures x in Children(f0, entity)
  {
    ChildrenInSubtree(f0, entity);
    if x == root && (x in moved || x == entity) {
      assert false;
    } else if x in moved || x == entity {
      ParentInSubtree(f0, root, x);
      assert false;
    }
  }

  /** Midway through the same move, `entity`'s original children have not moved yet. */
  lemma {:induction false} ChildNotYetMoved(f0: Forest, g: map<Entity, Node>, moved: set<Entity>,
                                            root: Entity, newParent: Entity, entity: Entity, c: Entity)
    requires WellFormed(f0) && root in f0.nodes && newParent in f0.nodes && entity in f0.nodes
    requires moved !! Subtree(f0, entity)
    requires g == MoveRows(f0, moved + {entity}, root, newParent)
    requires c in Children(f0, entity)
    ensures c in g && g[c] == f0.nodes[c]
  {
    ChildrenInSubtree(f0, entity);
  }

  /**
   * Midway through the same move, the entities placed one row below
   * `entity`'s original row with `entity` as parent are exactly its original
   * children.
   */
  lemma MidMoveChildren(f0: Forest, g: map<Entity, Node>, moved: set<Entity>,
                        root: Entity, newParent: Entity, entity: Entity, row: nat)
    requires WellFormed(f0) && root in f0.nodes && newParent in f0.nodes
    requires newParent !in Subtree(f0, root) && entity in Subtree(f0, root)
    requires moved <= Subtree(f0, root) && moved !! Subtree(f0, entity)
    requires g == MoveRows(f0, moved + {entity}, root, newParent)
    requires row == f0.nodes[entity].row + 1
    ensures forall x :: x in g && g[x] == Node(row, Some(entity)) <==> x in Children(f0, entity)
  {
    forall x | x in g && g[x] == Node(row, Some(entity))
      ensures x in Children(f0, entity)
    {
      MovedParentIsChild(f0, g, moved, root, newParent, entity, x);
    }
    forall c | c in Children(f0, entity)
      ensures c in g && g[c] == Node(row, Some(entity))
    {
      ChildNotYetMoved(f0, g, moved, root, newParent, entity, c);
    }
  }

  /** The nodes after `root` and its whole subtree have been moved under `newParent`. */
  ghost function Reparented(f: Forest, root: Entity, newParent: Entity): (m: map<Entity, Node>)
    requires WellFormed(f) && root in f.nodes && newParent in f.nodes
    ensures m.Keys == f.nodes.Keys
    ensures m[root] == Node(f.nodes[newParent].row + 1, Some(newParent))
  {
    MoveRows(f, Subtree(f, root), root, newParent)
  }

  /**
   * Whether reparenting never reads past the last row: either the subtree moves
   * down, so the rows it needs are created first, or none of its entities sits
   * in the last row, whose next row would be read for children.
   */
  ghost predicate ReparentInBounds(f: Forest, root: Entity, newParent: Entity)
    requires WellFormed(f) && root in f.nodes && newParent in f.nodes
  {
    || f.nodes[newParent].row + 1 > f.nodes[root].row
    || forall d :: d in Subtree(f, root) ==> f.nodes[d].row + 1 < f.height
  }

  /**
   * The setting of a reparenting: `root` moves under `newParent`, which lies
   * outside its subtree, and no row past the last one is ever read. The rows
   * need not equal depth: an entity orphaned by a removal may be reparented,
   * or may sit elsewhere in the store.
   */
  ghost predicate Reparenting(f: Forest, root: Entity, newParent: Entity)
  {
    && WellFormed(f) && root in f.nodes && newParent in f.nodes
    && newParent !in Subtree(f, root) && ReparentInBounds(f, root, newParent)
  }

  /**
   * Midway through that reparenting: `e`'s subtree is still to be moved, and
   * `moved`, the part of `root`'s subtree moved so far, lies apart from it.
   */
  ghost predicate MovePending(f: Forest, root: Entity, newParent: Entity, moved: set<Entity>, e: Entity)
  {
    && Reparenting(f, root, newParent)
    && e in Subtree(f, root)
    && moved <= Subtree(f, root) && moved !! Subtree(f, e)
  }

  /**
   * Reparenting keeps row equal to depth: the moved subtree keeps its shape one
   * row below the new parent, and no entity outside it had a parent inside it.
   */
  lemma ReparentedIsHierarchical(f: Forest, root: Entity, newParent: Entity, height: nat)
    requires Hierarchical(f) && root in f.nodes && newParent in f.nodes
    requires newParent !in Subtree(f, root)
    requires forall e :: e in Reparented(f, root, newParent) ==> Reparented(f, root, newParent)[e].row < height
    ensures Hierarchical(Forest(Reparented(f, root, newParent), height))
  {
    var sub := Subtree(f, root);
    var g := Forest(Reparented(f, root, newParent), height);
    var shift := f.nodes[newParent].row + 1 - f.nodes[root].row;
    forall e | e in g.nodes
      ensures g.nodes[e].parent.None? <==> g.nodes[e].row == 0
      ensures ParentAbove(g, e)
    {
      assert ParentAbove(f, e);
      if e in sub {
        SubtreeBelow(f, root, e);
        if e != root {
          ParentInSubtree(f, root, e);
          var q := f.nodes[e].parent.value;
          SubtreeBelow(f, root, q);
        }
      } else if f.nodes[e].parent.Some? {
        var q := f.nodes[e].parent.value;
        if q in sub {
          assert e in Children(f, q);
          SubtreeTransitive(f, root, q);
          assert false;
        }
      }
    }
  }

  /**
   * A completed move of `root`'s whole subtree is the reparenting, which keeps
   * row equal to depth when it held before.
   */
  lemma ReparentComplete(f: Forest, root: Entity, newParent: Entity, g: Forest)
    requires Reparenting(f, root, newParent) && WellFormed(g)
    requires g.nodes == MoveRows(f, {} + Subtree(f, root), root, newParent)
    ensures g.nodes == Reparented(f, root, newParent)
    ensures Hierarchical(f) ==> Hierarchical(g)
  {
    assert {} + Subtree(f, root) == Subtree(f, root);
    if Hierarchical(f) {
      ReparentedIsHierarchical(f, root, newParent, g.height);
      assert g == Forest(Reparented(f, root, newParent), g.height);
    }
  }
}
