/**
 * `TransformManager` of src/component/transform.rs: transforms stored in rows
 * by depth, a parallel table of (entity, parent) slots, an index from entity
 * to (row, slot), and the set of entities marked for deferred destruction.
 */
module TransformManagement {
  import opened Math
  import opened Transforms
  import opened Hierarchy

  /** The (entity, optional parent) pair stored beside each transform. */
  datatype Slot = Slot(entity: Entity, parent: Option<Entity>)

  /** Where an entity's transform is stored: row and index within the row. */
  datatype Location = Location(row: nat, slot: nat)

  /**
   * `Vec::swap_remove`: the element at `i` is replaced by the last element and
   * the sequence shrinks by one; every other element keeps its position.
   */
  function SwapRemove<T>(s: seq<T>, i: nat): (r: seq<T>)
    requires i < |s|
    ensures |r| == |s| - 1
    ensures i < |r| ==> r[i] == s[|s| - 1]
    ensures forall k :: 0 <= k < |r| && k != i ==> r[k] == s[k]
  {
    if i == |s| - 1 then s[..i] else s[..i] + [s[|s| - 1]] + s[i + 1..|s| - 1]
  }

  /** Swap-remove takes out exactly the element at `i`. */
  lemma SwapRemovePermutes<T>(s: seq<T>, i: nat)
    requires i < |s|
    ensures multiset(SwapRemove(s, i)) + multiset{s[i]} == multiset(s)
  {
    var last := |s| - 1;
    if i == last {
      assert s == SwapRemove(s, i) + [s[i]];
    } else {
      var front, middle := s[..i], s[i + 1..last];
      assert s == front + [s[i]] + middle + [s[last]];
      assert SwapRemove(s, i) == front + [s[last]] + middle;
      assert multiset(s) == multiset(front) + multiset{s[i]} + multiset(middle) + multiset{s[last]};
    }
  }

  /** Both tables have the same number of rows, and each row the same length. */
  ghost predicate SameShape(ts: seq<seq<Transform>>, es: seq<seq<Slot>>)
  {
    && |ts| == |es| >= 1
    && forall r :: 0 <= r < |es| ==> |ts[r]| == |es[r]|
  }

  /** Every indexed entity's location holds that entity. */
  ghost predicate IndexSound(es: seq<seq<Slot>>, ix: map<Entity, Location>)
  {
    forall e :: e in ix ==>
      ix[e].row < |es| && ix[e].slot < |es[ix[e].row]| && es[ix[e].row][ix[e].slot].entity == e
  }

  /** Slot `i` of row `r` holds an entity indexed at that slot. */
  ghost predicate SlotIndexed(es: seq<seq<Slot>>, ix: map<Entity, Location>, r: nat, i: nat)
    requires r < |es| && i < |es[r]|
  {
    es[r][i].entity in ix && ix[es[r][i].entity] == Location(r, i)
  }

  /** Every slot's entity is indexed at that slot. */
  ghost predicate IndexComplete(es: seq<seq<Slot>>, ix: map<Entity, Location>)
  {
    forall r: nat, i: nat :: r < |es| && i < |es[r]| ==> SlotIndexed(es, ix, r, i)
  }

  /** Exactly the slots of row 0 have no parent. */
  ghost predicate RootsParentless(es: seq<seq<Slot>>)
  {
    forall r, i :: 0 <= r < |es| && 0 <= i < |es[r]| ==> (es[r][i].parent.None? <==> r == 0)
  }

  /** Slots (r, i) and (r', i') of the transform table hold the same object. */
  ghost predicate SameObject(ts: seq<seq<Transform>>, r: nat, i: nat, r': nat, i': nat)
    requires r < |ts| && i < |ts[r]| && r' < |ts| && i' < |ts[r']|
  {
    ts[r][i] == ts[r'][i']
  }

  /** No transform object is stored in two places. */
  ghost predicate DistinctTransforms(ts: seq<seq<Transform>>)
  {
    forall r: nat, i: nat, r': nat, i': nat ::
      (r < |ts| && i < |ts[r]| && r' < |ts| && i' < |ts[r']| && SameObject(ts, r, i, r', i'))
      ==> r == r' && i == i'
  }

  /** The part of the store invariant that locating entities and their children relies on. */
  ghost predicate Located(ts: seq<seq<Transform>>, es: seq<seq<Slot>>, ix: map<Entity, Location>)
  {
    && SameShape(ts, es)
    && IndexSound(es, ix)
    && IndexComplete(es, ix)
    && RootsParentless(es)
  }

  /** The store invariant, on the values of the three tables. */
  ghost predicate Layout(ts: seq<seq<Transform>>, es: seq<seq<Slot>>, ix: map<Entity, Location>)
  {
    && SameShape(ts, es)
    && IndexSound(es, ix)
    && IndexComplete(es, ix)
    && RootsParentless(es)
    && DistinctTransforms(ts)
  }

  /** The hierarchy the tables represent: each entity's row and parent. */
  ghost function TreeOf(es: seq<seq<Slot>>, ix: map<Entity, Location>): (f: Forest)
    requires IndexSound(es, ix) && RootsParentless(es)
    ensures f.height == |es| && f.nodes.Keys == ix.Keys && WellFormed(f)
  {
    Forest(map e | e in ix :: Node(ix[e].row, es[ix[e].row][ix[e].slot].parent), |es|)
  }

  /** The transform stored for each entity. */
  ghost function ObjectsOf(ts: seq<seq<Transform>>, es: seq<seq<Slot>>, ix: map<Entity, Location>): (o: map<Entity, Transform>)
    requires SameShape(ts, es) && IndexSound(es, ix)
    ensures o.Keys == ix.Keys
  {
    map e | e in ix :: ts[ix[e].row][ix[e].slot]
  }

  /** Appending a fresh entity to a row keeps the invariant and adds exactly its node. */
  lemma PushKeepsLayout(ts: seq<seq<Transform>>, es: seq<seq<Slot>>, ix: map<Entity, Location>,
                        row: nat, entity: Entity, parent: Option<Entity>, t: Transform)
    requires Layout(ts, es, ix) && row < |es| && entity !in ix
    requires t !in ObjectsOf(ts, es, ix).Values
    requires (row == 0) == parent.None?
    ensures var ts' := ts[row := ts[row] + [t]];
            var es': seq<seq<Slot>> := es[row := es[row] + [Slot(entity, parent)]];
            var ix': map<Entity, Location> := ix[entity := Location(row, |es[row]|)];
            && Layout(ts', es', ix')
            && TreeOf(es', ix') == Forest(TreeOf(es, ix).nodes[entity := Node(row, parent)], |es|)
            && ObjectsOf(ts', es', ix') == ObjectsOf(ts, es, ix)[entity := t]
  {
    var ts': seq<seq<Transform>> := ts[row := ts[row] + [t]];
    var es': seq<seq<Slot>> := es[row := es[row] + [Slot(entity, parent)]];
    var ix': map<Entity, Location> := ix[entity := Location(row, |es[row]|)];
    PushIndexComplete(es, ix, row, entity, parent);
    PushDistinct(ts, es, ix, row, t);
    PushViews(ts, es, ix, row, entity, parent, t);
  }

  /**
   * `assign` as written does not check for an existing entry: assigning an
   * entity a second time appends a second row-0 slot for it and points the
   * index at the new slot, so the old slot is left holding an entity whose
   * index no longer leads back to it.
   */
  lemma DuplicateAssignOrphansSlot(es: seq<seq<Slot>>, ix: map<Entity, Location>, entity: Entity)
    requires IndexSound(es, ix) && |es| >= 1 && entity in ix
    ensures var es': seq<seq<Slot>> := es[0 := es[0] + [Slot(entity, None)]];
            var ix': map<Entity, Location> := ix[entity := Location(0, |es[0]|)];
            && ix[entity].row < |es'| && ix[entity].slot < |es'[ix[entity].row]|
            && !SlotIndexed(es', ix', ix[entity].row, ix[entity].slot)
            && !IndexComplete(es', ix')
  {
    var es': seq<seq<Slot>> := es[0 := es[0] + [Slot(entity, None)]];
    var ix': map<Entity, Location> := ix[entity := Location(0, |es[0]|)];
    var l := ix[entity];
    assert es'[l.row][l.slot] == es[l.row][l.slot];
    assert !SlotIndexed(es', ix', l.row, l.slot);
  }

  lemma PushIndexComplete(es: seq<seq<Slot>>, ix: map<Entity, Location>,
                          row: nat, entity: Entity, parent: Option<Entity>)
    requires IndexComplete(es, ix) && row < |es| && entity !in ix
    ensures IndexComplete(es[row := es[row] + [Slot(entity, parent)]], ix[entity := Location(row, |es[row]|)])
  {
    var es': seq<seq<Slot>> := es[row := es[row] + [Slot(entity, parent)]];
    var ix': map<Entity, Location> := ix[entity := Location(row, |es[row]|)];
    forall r: nat, i: nat | r < |es'| && i < |es'[r]|
      ensures SlotIndexed(es', ix', r, i)
    {
      if r != row || i < |es[row]| {
        assert es'[r][i] == es[r][i] && SlotIndexed(es, ix, r, i);
      }
    }
  }

  lemma PushDistinct(ts: seq<seq<Transform>>, es: seq<seq<Slot>>, ix: map<Entity, Location>, row: nat, t: Transform)
    requires SameShape(ts, es) && IndexSound(es, ix) && IndexComplete(es, ix) && DistinctTransforms(ts)
    requires row < |ts| && t !in ObjectsOf(ts, es, ix).Values
    ensures DistinctTransforms(ts[row := ts[row] + [t]])
  {
    var ts': seq<seq<Transform>> := ts[row := ts[row] + [t]];
    forall r, i | 0 <= r < |ts'| && 0 <= i < |ts'[r]| && (r != row || i != |ts[row]|)
      ensures ts'[r][i] == ts[r][i] && ts'[r][i] != t
    {
      assert SlotIndexed(es, ix, r, i);
      assert ObjectsOf(ts, es, ix)[es[r][i].entity] == ts[r][i];
    }
    forall r: nat, i: nat, r': nat, i': nat |
      r < |ts'| && i < |ts'[r]| && r' < |ts'| && i' < |ts'[r']| && SameObject(ts', r, i, r', i')
      ensures r == r' && i == i'
    {
      if (r != row || i != |ts[row]|) && (r' != row || i' != |ts[row]|) {
        assert SameObject(ts, r, i, r', i');
      }
    }
  }

  lemma PushViews(ts: seq<seq<Transform>>, es: seq<seq<Slot>>, ix: map<Entity, Location>,
                  row: nat, entity: Entity, parent: Option<Entity>, t: Transform)
    requires SameShape(ts, es) && IndexSound(es, ix) && RootsParentless(es)
    requires row < |es| && entity !in ix && (row == 0) == parent.None?
    requires var es' := es[row := es[row] + [Slot(entity, parent)]];
             var ix' := ix[entity := Location(row, |es[row]|)];
             && SameShape(ts[row := ts[row] + [t]], es')
             && IndexSound(es', ix') && RootsParentless(es')
    ensures var ts' := ts[row := ts[row] + [t]];
            var es' := es[row := es[row] + [Slot(entity, parent)]];
            var ix' := ix[entity := Location(row, |es[row]|)];
            && TreeOf(es', ix') == Forest(TreeOf(es, ix).nodes[entity := Node(row, parent)], |es|)
            && ObjectsOf(ts', es', ix') == ObjectsOf(ts, es, ix)[entity := t]
  {
    var ts': seq<seq<Transform>> := ts[row := ts[row] + [t]];
    var es': seq<seq<Slot>> := es[row := es[row] + [Slot(entity, parent)]];
    var ix': map<Entity, Location> := ix[entity := Location(row, |es[row]|)];
    var f, f' := TreeOf(es, ix), TreeOf(es', ix');
    var o, o' := ObjectsOf(ts, es, ix), ObjectsOf(ts', es', ix');
    forall e | e in ix'
      ensures f'.nodes[e] == f.nodes[entity := Node(row, parent)][e]
      ensures o'[e] == o[entity := t][e]
    {
      if e != entity {
        var l := ix[e];
        assert ix'[e] == l;
        assert es'[l.row][l.slot] == es[l.row][l.slot];
        assert ts'[l.row][l.slot] == ts[l.row][l.slot];
      }
    }
    assert f'.nodes == f.nodes[entity := Node(row, parent)];
    assert o' == o[entity := t];
  }

  /**
   * The index after `remove`: the entity is dropped, and the entity that
   * swap-remove moved into its slot, if any, is re-pointed at that slot.
   */
  function RemovedIndex(ix: map<Entity, Location>, entity: Entity, es': seq<seq<Slot>>, loc: Location): map<Entity, Location>
    requires loc.row < |es'| && loc.slot <= |es'[loc.row]|
  {
    var gone: set<Entity> := {entity};
    if loc.slot != |es'[loc.row]| then (ix - gone)[es'[loc.row][loc.slot].entity := loc] else ix - gone
  }

  /**
   * Swap-removing an entity's slot and re-indexing the moved entity keeps the
   * invariant and removes exactly that entity's node and transform.
   */
  lemma RemoveKeepsLayout(ts: seq<seq<Transform>>, es: seq<seq<Slot>>, ix: map<Entity, Location>, entity: Entity,
                          ts': seq<seq<Transform>>, es': seq<seq<Slot>>, ix': map<Entity, Location>)
    requires Layout(ts, es, ix) && entity in ix
    requires ts' == ts[ix[entity].row := SwapRemove(ts[ix[entity].row], ix[entity].slot)]
    requires es' == es[ix[entity].row := SwapRemove(es[ix[entity].row], ix[entity].slot)]
    requires ix[entity].row < |es'| && ix[entity].slot <= |es'[ix[entity].row]|
    requires ix' == RemovedIndex(ix, entity, es', ix[entity])
    ensures Layout(ts', es', ix')
    ensures TreeOf(es', ix') == Forest(TreeOf(es, ix).nodes - {entity}, |es|)
    ensures ObjectsOf(ts', es', ix') == ObjectsOf(ts, es, ix) - {entity}
    ensures ObjectsOf(ts, es, ix)[entity] !in ObjectsOf(ts', es', ix').Values
  {
    var loc := ix[entity];
    var last := es[loc.row][|es[loc.row]| - 1].entity;
    assert SlotIndexed(es, ix, loc.row, |es[loc.row]| - 1);
    assert ix' == if last == entity then ix - {entity} else (ix - {entity})[last := loc];
    RemoveIndex(es, ix, entity, es', ix');
    RemoveRoots(es, loc.row, loc.slot, es');
    RemoveDistinct(ts, loc.row, loc.slot, ts');
    assert SameShape(ts', es');
    RemoveTree(ts, es, ix, entity, ts', es', ix');
    RemoveObjects(ts, es, ix, entity, ts', es', ix');
  }

  /** Slot `i` of a swap-removed row holds what slot `Moved(i)` held before. */
  function MovedFrom(i: nat, k: nat, n: nat): nat
  {
    if i == k then n else i
  }

  lemma RemoveIndex(es: seq<seq<Slot>>, ix: map<Entity, Location>, entity: Entity,
                    es': seq<seq<Slot>>, ix': map<Entity, Location>)
    requires IndexSound(es, ix) && IndexComplete(es, ix) && entity in ix
    requires es' == es[ix[entity].row := SwapRemove(es[ix[entity].row], ix[entity].slot)]
    requires var loc := ix[entity];
             var last := es[loc.row][|es[loc.row]| - 1].entity;
             ix' == if last == entity then ix - {entity} else (ix - {entity})[last := loc]
    ensures IndexSound(es', ix') && IndexComplete(es', ix')
  {
    var loc := ix[entity];
    var row, k := loc.row, loc.slot;
    var n := |es[row]| - 1;
    var last := es[row][n].entity;
    assert SlotIndexed(es, ix, row, n);
    assert last == entity <==> k == n;
    forall e | e in ix'
      ensures ix'[e].row < |es'| && ix'[e].slot < |es'[ix'[e].row]| && es'[ix'[e].row][ix'[e].slot].entity == e
    {
      if e != last {
        assert ix'[e] == ix[e];
        if ix[e].row == row {
          assert ix[e].slot != n && ix[e].slot != k;
        }
      }
    }
    forall r: nat, i: nat | r < |es'| && i < |es'[r]|
      ensures SlotIndexed(es', ix', r, i)
    {
      if r == row {
        assert es'[r][i] == es[row][MovedFrom(i, k, n)] && SlotIndexed(es, ix, row, MovedFrom(i, k, n));
      } else {
        assert es'[r][i] == es[r][i] && SlotIndexed(es, ix, r, i);
      }
    }
  }

  lemma RemoveRoots(es: seq<seq<Slot>>, row: nat, k: nat, es': seq<seq<Slot>>)
    requires RootsParentless(es) && row < |es| && k < |es[row]|
    requires es' == es[row := SwapRemove(es[row], k)]
    ensures RootsParentless(es')
  {
    var n := |es[row]| - 1;
    forall r, i | 0 <= r < |es'| && 0 <= i < |es'[r]|
      ensures es'[r][i].parent.None? <==> r == 0
    {
      if r == row {
        assert es'[r][i] == es[row][MovedFrom(i, k, n)];
      }
    }
  }

  lemma RemoveDistinct(ts: seq<seq<Transform>>, row: nat, k: nat, ts': seq<seq<Transform>>)
    requires DistinctTransforms(ts) && row < |ts| && k < |ts[row]|
    requires ts' == ts[row := SwapRemove(ts[row], k)]
    ensures DistinctTransforms(ts')
    ensures forall r, i :: 0 <= r < |ts'| && 0 <= i < |ts'[r]| ==> ts'[r][i] != ts[row][k]
  {
    var n := |ts[row]| - 1;
    forall r, i | 0 <= r < |ts'| && 0 <= i < |ts'[r]|
      ensures ts'[r][i] == ts[r][if r == row then MovedFrom(i, k, n) else i]
    {
    }
    forall r, i | 0 <= r < |ts'| && 0 <= i < |ts'[r]|
      ensures ts'[r][i] != ts[row][k]
    {
      assert !SameObject(ts, r, if r == row then MovedFrom(i, k, n) else i, row, k);
    }
    forall r: nat, i: nat, r': nat, i': nat |
      r < |ts'| && i < |ts'[r]| && r' < |ts'| && i' < |ts'[r']| && SameObject(ts', r, i, r', i')
      ensures r == r' && i == i'
    {
      assert SameObject(ts, r, if r == row then MovedFrom(i, k, n) else i, r', if r' == row then MovedFrom(i', k, n) else i');
    }
  }

  /** The index after removal: the removed entity is gone and the moved one points at the hole. */
  lemma RemovedIndexEntries(ix: map<Entity, Location>, entity: Entity, last: Entity, loc: Location,
                            ix': map<Entity, Location>)
    requires entity in ix && last in ix
    requires ix' == if last == entity then ix - {entity} else (ix - {entity})[last := loc]
    ensures ix'.Keys == ix.Keys - {entity}
    ensures forall e :: e in ix' ==> ix'[e] == if e == last then loc else ix[e]
  {
  }

  /** Removing a key and then setting it is the same as setting it. */
  lemma RemoveThenSet<K, V>(m: map<K, V>, k: K, v: V)
    ensures (m - {k})[k := v] == m[k := v]
  {
    var gone: set<K> := {k};
    assert ((m - gone)[k := v]).Keys == m[k := v].Keys;
  }

  /** Removing a key and putting its value back gives the map back. */
  lemma RemoveThenRestore<K, V>(m: map<K, V>, k: K)
    requires k in m
    ensures (m - {k})[k := m[k]] == m
  {
    var gone: set<K> := {k};
    assert ((m - gone)[k := m[k]]).Keys == m.Keys;
  }

  /** A map that agrees with `a` everywhere except that it lacks `x` is `a - {x}`. */
  lemma MapWithout<K, V>(a: map<K, V>, b: map<K, V>, x: K)
    requires b.Keys == a.Keys - {x}
    requires forall k :: k in b ==> b[k] == a[k]
    ensures b == a - {x}
  {
  }

  /** After removal every remaining entity's slot holds what its old slot held. */
  lemma RemovedEntry(ts: seq<seq<Transform>>, es: seq<seq<Slot>>, ix: map<Entity, Location>, entity: Entity,
                     ts': seq<seq<Transform>>, es': seq<seq<Slot>>, ix': map<Entity, Location>, e: Entity)
    requires SameShape(ts, es) && IndexSound(es, ix) && IndexComplete(es, ix) && entity in ix
    requires ts' == ts[ix[entity].row := SwapRemove(ts[ix[entity].row], ix[entity].slot)]
    requires es' == es[ix[entity].row := SwapRemove(es[ix[entity].row], ix[entity].slot)]
    requires var loc := ix[entity];
             var last := es[loc.row][|es[loc.row]| - 1].entity;
             ix' == if last == entity then ix - {entity} else (ix - {entity})[last := loc]
    requires e in ix'
    ensures e in ix && e != entity && ix[e] != ix[entity] && ix'[e].row == ix[e].row
    ensures ix'[e].row < |es'| && ix'[e].slot < |es'[ix'[e].row]| && ix'[e].slot < |ts'[ix'[e].row]|
    ensures es'[ix'[e].row][ix'[e].slot] == es[ix[e].row][ix[e].slot]
    ensures ts'[ix'[e].row][ix'[e].slot] == ts[ix[e].row][ix[e].slot]
  {
    var loc := ix[entity];
    var row := loc.row;
    var n := |es[row]| - 1;
    var last := es[row][n].entity;
    assert SlotIndexed(es, ix, row, n);
    RemovedIndexEntries(ix, entity, last, loc, ix');
    var l := ix[e];
    if e == last {
      assert l == Location(row, n);
    } else if l.row == row {
      assert l.slot != n;
    }
  }

  lemma RemoveTree(ts: seq<seq<Transform>>, es: seq<seq<Slot>>, ix: map<Entity, Location>, entity: Entity,
                    ts': seq<seq<Transform>>, es': seq<seq<Slot>>, ix': map<Entity, Location>)
    requires SameShape(ts, es) && IndexSound(es, ix) && IndexComplete(es, ix) && entity in ix
    requires ts' == ts[ix[entity].row := SwapRemove(ts[ix[entity].row], ix[entity].slot)]
    requires es' == es[ix[entity].row := SwapRemove(es[ix[entity].row], ix[entity].slot)]
    requires var loc := ix[entity];
             var last := es[loc.row][|es[loc.row]| - 1].entity;
             ix' == if last == entity then ix - {entity} else (ix - {entity})[last := loc]
    requires RootsParentless(es) && IndexSound(es', ix') && RootsParentless(es')
    ensures TreeOf(es', ix') == Forest(TreeOf(es, ix).nodes - {entity}, |es|)
  {
    var f, f' := TreeOf(es, ix), TreeOf(es', ix');
    forall e | e in ix'
      ensures e in ix && f'.nodes[e] == f.nodes[e]
    {
      RemovedEntry(ts, es, ix, entity, ts', es', ix', e);
      assert f'.nodes[e] == Node(ix'[e].row, es'[ix'[e].row][ix'[e].slot].parent);
    }
    assert SlotIndexed(es, ix, ix[entity].row, |es[ix[entity].row]| - 1);
    RemovedIndexEntries(ix, entity, es[ix[entity].row][|es[ix[entity].row]| - 1].entity, ix[entity], ix');
    MapWithout(f.nodes, f'.nodes, entity);
  }

  lemma RemoveObjects(ts: seq<seq<Transform>>, es: seq<seq<Slot>>, ix: map<Entity, Location>, entity: Entity,
                    ts': seq<seq<Transform>>, es': seq<seq<Slot>>, ix': map<Entity, Location>)
    requires SameShape(ts, es) && IndexSound(es, ix) && IndexComplete(es, ix) && entity in ix
    requires ts' == ts[ix[entity].row := SwapRemove(ts[ix[entity].row], ix[entity].slot)]
    requires es' == es[ix[entity].row := SwapRemove(es[ix[entity].row], ix[entity].slot)]
    requires var loc := ix[entity];
             var last := es[loc.row][|es[loc.row]| - 1].entity;
             ix' == if last == entity then ix - {entity} else (ix - {entity})[last := loc]
    requires SameShape(ts', es') && IndexSound(es', ix') && DistinctTransforms(ts)
    ensures ObjectsOf(ts', es', ix') == ObjectsOf(ts, es, ix) - {entity}
    ensures ObjectsOf(ts, es, ix)[entity] !in ObjectsOf(ts', es', ix').Values
  {
    var o, o' := ObjectsOf(ts, es, ix), ObjectsOf(ts', es', ix');
    forall e | e in ix'
      ensures e in ix && o'[e] == o[e] && o[e] != o[entity]
    {
      RemovedEntry(ts, es, ix, entity, ts', es', ix', e);
      assert !SameObject(ts, ix[e].row, ix[e].slot, ix[entity].row, ix[entity].slot);
    }
    assert SlotIndexed(es, ix, ix[entity].row, |es[ix[entity].row]| - 1);
    RemovedIndexEntries(ix, entity, es[ix[entity].row][|es[ix[entity].row]| - 1].entity, ix[entity], ix');
    MapWithout(o, o', entity);
  }

  /** Appending an empty row to both tables keeps the invariant and both views. */
  lemma AppendRowKeepsLayout(ts: seq<seq<Transform>>, es: seq<seq<Slot>>, ix: map<Entity, Location>)
    requires Layout(ts, es, ix)
    ensures Layout(ts + [[]], es + [[]], ix)
    ensures TreeOf(es + [[]], ix) == Forest(TreeOf(es, ix).nodes, |es| + 1)
    ensures ObjectsOf(ts + [[]], es + [[]], ix) == ObjectsOf(ts, es, ix)
  {
    AppendRowIndex(es, ix);
    AppendRowDistinct(ts);
    AppendRowViews(ts, es, ix);
  }

  lemma AppendRowIndex(es: seq<seq<Slot>>, ix: map<Entity, Location>)
    requires IndexSound(es, ix) && IndexComplete(es, ix) && RootsParentless(es)
    ensures IndexSound(es + [[]], ix) && IndexComplete(es + [[]], ix) && RootsParentless(es + [[]])
  {
    var es': seq<seq<Slot>> := es + [[]];
    forall r: nat, i: nat | r < |es'| && i < |es'[r]|
      ensures SlotIndexed(es', ix, r, i)
    {
      assert es'[r] == es[r] && SlotIndexed(es, ix, r, i);
    }
    forall e | e in ix
      ensures ix[e].row < |es'| && ix[e].slot < |es'[ix[e].row]| && es'[ix[e].row][ix[e].slot].entity == e
    {
      assert es'[ix[e].row] == es[ix[e].row];
    }
  }

  lemma AppendRowDistinct(ts: seq<seq<Transform>>)
    requires DistinctTransforms(ts)
    ensures DistinctTransforms(ts + [[]])
  {
    var ts': seq<seq<Transform>> := ts + [[]];
    forall r: nat, i: nat, r': nat, i': nat |
      r < |ts'| && i < |ts'[r]| && r' < |ts'| && i' < |ts'[r']| && SameObject(ts', r, i, r', i')
      ensures r == r' && i == i'
    {
      assert SameObject(ts, r, i, r', i');
    }
  }

  lemma AppendRowViews(ts: seq<seq<Transform>>, es: seq<seq<Slot>>, ix: map<Entity, Location>)
    requires SameShape(ts, es) && IndexSound(es, ix) && RootsParentless(es)
    requires SameShape(ts + [[]], es + [[]]) && IndexSound(es + [[]], ix) && RootsParentless(es + [[]])
    ensures TreeOf(es + [[]], ix) == Forest(TreeOf(es, ix).nodes, |es| + 1)
    ensures ObjectsOf(ts + [[]], es + [[]], ix) == ObjectsOf(ts, es, ix)
  {
    var ts': seq<seq<Transform>> := ts + [[]];
    var es': seq<seq<Slot>> := es + [[]];
    forall e | e in ix
      ensures es'[ix[e].row] == es[ix[e].row] && ts'[ix[e].row] == ts[ix[e].row]
    {
    }
    assert TreeOf(es', ix).nodes == TreeOf(es, ix).nodes;
  }

  /**
   * The part of a moving subtree that has moved once `entity` and the
   * subtrees of its children in `done` have moved on top of `moved`.
   */
  ghost function MovedSoFar(f0: Forest, moved: set<Entity>, entity: Entity, done: set<Entity>): set<Entity>
    requires WellFormed(f0) && done <= f0.nodes.Keys
  {
    moved + {entity} + Below(f0, done)
  }

  /** Before any child has moved, only `entity` has been added. */
  lemma MovedSoFarNone(f0: Forest, moved: set<Entity>, entity: Entity)
    requires WellFormed(f0)
    ensures MovedSoFar(f0, moved, entity, {}) == moved + {entity}
  {
    assert Below(f0, {}) == {};
  }

  /** Moving one more child adds exactly that child's subtree. */
  lemma MovedSoFarNext(f0: Forest, moved: set<Entity>, entity: Entity, done: set<Entity>, c: Entity)
    requires WellFormed(f0) && done <= f0.nodes.Keys && c in f0.nodes
    ensures MovedSoFar(f0, moved, entity, done + {c}) == MovedSoFar(f0, moved, entity, done) + Subtree(f0, c)
  {
    BelowInsert(f0, done, c);
  }

  /** Once every child has moved, `entity`'s whole subtree has. */
  lemma MovedSoFarAll(f0: Forest, moved: set<Entity>, entity: Entity)
    requires WellFormed(f0) && entity in f0.nodes
    ensures MovedSoFar(f0, moved, entity, Children(f0, entity)) == moved + Subtree(f0, entity)
  {
    SubtreeUnfold(f0, entity);
  }

  /**
   * The tables have gone from `h0` rows to `h` rows, and no further than the
   * moves so far needed: if rows were added, an entity of `moved` was placed
   * in the last of them.
   */
  ghost predicate GrownFor(f0: Forest, root: Entity, newParent: Entity, moved: set<Entity>, h0: nat, h: nat)
  {
    && h >= h0
    && (h > h0 ==> root in f0.nodes && newParent in f0.nodes &&
                   exists e :: e in moved && e in f0.nodes && MovedRow(f0, root, newParent, e) + 1 == h)
  }

  /** Growth by one batch of moves and then by a larger one is growth by the larger one. */
  lemma GrownForTrans(f0: Forest, root: Entity, newParent: Entity, m1: set<Entity>, m2: set<Entity>,
                      h0: nat, h1: nat, h2: nat)
    requires GrownFor(f0, root, newParent, m1, h0, h1) && GrownFor(f0, root, newParent, m2, h1, h2)
    requires m1 <= m2
    ensures GrownFor(f0, root, newParent, m2, h0, h2)
  {
    if h2 > h0 && h2 == h1 {
      var e :| e in m1 && e in f0.nodes && MovedRow(f0, root, newParent, e) + 1 == h1;
      assert e in m2;
    }
  }

  /**
   * After a whole reparenting, rows were added only if the reparented
   * forest has an entity in the new last row.
   */
  lemma GrownReparented(f0: Forest, root: Entity, newParent: Entity, g: Forest, h0: nat)
    requires Reparenting(f0, root, newParent) && g.nodes == Reparented(f0, root, newParent)
    requires GrownFor(f0, root, newParent, {} + Subtree(f0, root), h0, g.height)
    ensures g.height > h0 ==> exists e :: e in g.nodes && g.nodes[e].row + 1 == g.height
  {
    if g.height > h0 {
      var e :| e in {} + Subtree(f0, root) && e in f0.nodes && MovedRow(f0, root, newParent, e) + 1 == g.height;
      SubtreeBelow(f0, root, e);
      assert g.nodes[e].row + 1 == g.height;
    }
  }

  /**
   * The facts about a child `c` of `entity` that let `set_row_recursive` move
   * `c`'s subtree next: it lies in the moved subtree, one row below `entity`,
   * and apart from everything moved so far.
   */
  lemma MoveChild(f0: Forest, root: Entity, newParent: Entity, moved: set<Entity>, entity: Entity,
                  done: set<Entity>, c: Entity)
    requires MovePending(f0, root, newParent, moved, entity)
    requires done <= Children(f0, entity) && c in Children(f0, entity) && c !in done
    ensures MovePending(f0, root, newParent, MovedSoFar(f0, moved, entity, done), c)
    ensures MovedRow(f0, root, newParent, c) == MovedRow(f0, root, newParent, entity) + 1
    ensures MovedParent(f0, root, newParent, c) == Some(entity)
  {
    SubtreeBelow(f0, root, entity);
    ChildSubtree(f0, entity, c);
    SubtreeTransitive(f0, root, entity);
    ChildrenInSubtree(f0, entity);
    BelowWithin(f0, entity, done);
    BelowDisjoint(f0, done, c);
    forall d | d in Subtree(f0, c)
      ensures d != entity
    {
      SubtreeBelow(f0, c, d);
    }
  }

  /**
   * `children` is a copy of the row below `p` that lists `p`'s children: the
   * slots recording `p` as parent hold exactly the entities of `cs`, and no
   * entity occupies two slots.
   */
  ghost predicate ListsChildren(children: seq<Slot>, p: Entity, cs: set<Entity>)
  {
    && (forall j :: 0 <= j < |children| && children[j].parent == Some(p) ==> children[j].entity in cs)
    && (forall c :: c in cs ==> exists j :: 0 <= j < |children| && children[j] == Slot(c, Some(p)))
    && (forall j, k :: 0 <= j < k < |children| ==> children[j].entity != children[k].entity)
  }

  /**
   * After visiting `children[..i]`: every visited slot recording `p` as parent
   * has its entity in `done`, and everything in `done` was visited.
   */
  ghost predicate Visited(children: seq<Slot>, i: nat, p: Entity, done: set<Entity>)
  {
    && i <= |children|
    && (forall j :: 0 <= j < i && children[j].parent == Some(p) ==> children[j].entity in done)
    && (forall c :: c in done ==> exists j :: 0 <= j < i && children[j].entity == c)
  }

  /** Visiting one more slot adds its entity to `done` exactly when it records `p`. */
  lemma VisitNext(children: seq<Slot>, i: nat, p: Entity, done: set<Entity>)
    requires Visited(children, i, p, done) && i < |children|
    ensures Visited(children, i + 1, p, if children[i].parent == Some(p) then done + {children[i].entity} else done)
  {
    var done' := if children[i].parent == Some(p) then done + {children[i].entity} else done;
    forall c | c in done'
      ensures exists j :: 0 <= j < i + 1 && children[j].entity == c
    {
      if c !in done {
        assert children[i].entity == c;
      }
    }
  }

  /** In a row without repeated entities, the entity at `i` has not been visited yet. */
  lemma NotYetSeen(children: seq<Slot>, p: Entity, cs: set<Entity>, i: nat, done: set<Entity>)
    requires ListsChildren(children, p, cs) && Visited(children, i, p, done) && i < |children|
    ensures children[i].entity !in done
  {
  }

  /** Once the whole row has been visited, the visited children are all of `cs`. */
  lemma AllSeen(children: seq<Slot>, p: Entity, cs: set<Entity>, done: set<Entity>)
    requires ListsChildren(children, p, cs) && Visited(children, |children|, p, done) && done <= cs
    ensures done == cs
  {
  }

  /** The elements of a sequence. */
  ghost function Elems<T>(s: seq<T>): set<T>
  {
    set x | x in s
  }

  /** No element occurs twice. */
  ghost predicate Distinct<T>(s: seq<T>)
  {
    forall i, j :: 0 <= i < j < |s| ==> s[i] != s[j]
  }

  /** A one-element sequence has that element alone, once. */
  lemma ElemsSingleton<T>(x: T)
    ensures Elems([x]) == {x} && Distinct([x])
  {
  }

  /** Concatenating sequences with disjoint elements and no repeats has no repeats. */
  lemma ConcatDistinct<T>(a: seq<T>, b: seq<T>)
    requires Distinct(a) && Distinct(b) && Elems(a) !! Elems(b)
    ensures Distinct(a + b) && Elems(a + b) == Elems(a) + Elems(b)
  {
    forall i, j | 0 <= i < j < |a + b|
      ensures (a + b)[i] != (a + b)[j]
    {
      if i < |a| && j >= |a| {
        assert (a + b)[i] in Elems(a) && (a + b)[j] in Elems(b);
      }
    }
  }

  /**
   * The entities a walk from `e`, stored in row `row`, reports, in order: `e`
   * first, then, one after the other, the walks from the entities of the next
   * row, in slot order, that record `e` as their parent.
   */
  function WalkFrom(es: seq<seq<Slot>>, row: nat, e: Entity): (w: seq<Entity>)
    ensures |w| >= 1 && w[0] == e
    decreases |es| - row, 0
  {
    [e] + (if row + 1 < |es| then ChildWalks(es, row + 1, e, 0) else [])
  }

  /** A walk is its root followed by the walks from the next row's slots that record the root. */
  lemma WalkFromUnfold(es: seq<seq<Slot>>, row: nat, e: Entity)
    ensures WalkFrom(es, row, e) == [e] + (if row + 1 < |es| then ChildWalks(es, row + 1, e, 0) else [])
  {
  }

  /** The walks from the slots of row `r`, from slot `j` on, that record `p` as parent. */
  function ChildWalks(es: seq<seq<Slot>>, r: nat, p: Entity, j: nat): seq<Entity>
    requires r < |es|
    decreases |es| - r, 1, |es[r]| - j
  {
    if j >= |es[r]| then []
    else (if es[r][j].parent == Some(p) then WalkFrom(es, r, es[r][j].entity) else [])
         + ChildWalks(es, r, p, j + 1)
  }

  /**
   * Extending the reports so far by the walk for slot `j`, if it records `p`
   * as parent, leaves the walks from slot `j + 1` on still to be reported.
   */
  lemma ChildWalksStep(es: seq<seq<Slot>>, r: nat, p: Entity, j: nat, done: seq<Entity>, next: seq<Entity>)
    requires r < |es| && j < |es[r]|
    requires next == done + (if es[r][j].parent == Some(p) then WalkFrom(es, r, es[r][j].entity) else [])
    ensures next + ChildWalks(es, r, p, j + 1) == done + ChildWalks(es, r, p, j)
  {
    var here := if es[r][j].parent == Some(p) then WalkFrom(es, r, es[r][j].entity) else [];
    var rest := ChildWalks(es, r, p, j + 1);
    assert ChildWalks(es, r, p, j) == here + rest;
    assert done + (here + rest) == (done + here) + rest;
  }

  /**
   * `visited` reports the entities of `order`, in the same order, each with
   * the transform `objects` holds for it.
   */
  ghost predicate Reports(visited: seq<(Entity, Transform)>, order: seq<Entity>, objects: map<Entity, Transform>)
  {
    && |visited| == |order|
    && forall i :: 0 <= i < |visited| ==>
         visited[i].0 == order[i] && order[i] in objects && visited[i].1 == objects[order[i]]
  }

  /** Reports of two walks, one after the other, report the two walks in turn. */
  lemma ReportsConcat(v: seq<(Entity, Transform)>, o: seq<Entity>, v': seq<(Entity, Transform)>, o': seq<Entity>,
                      objects: map<Entity, Transform>)
    requires Reports(v, o, objects) && Reports(v', o', objects)
    ensures Reports(v + v', o + o', objects)
  {
  }

  /** The entities of the slots of `children`, from slot `j` on, that record `p` as parent. */
  ghost function ChildSlots(children: seq<Slot>, p: Entity, j: nat): set<Entity>
  {
    set k | j <= k < |children| && children[k].parent == Some(p) :: children[k].entity
  }

  /** Stepping past slot `j` drops its entity exactly when it records `p`. */
  lemma ChildSlotsNext(children: seq<Slot>, p: Entity, j: nat)
    requires j < |children|
    ensures ChildSlots(children, p, j)
         == ChildSlots(children, p, j + 1) + (if children[j].parent == Some(p) then {children[j].entity} else {})
  {
    var next := ChildSlots(children, p, j + 1);
    forall x | x in ChildSlots(children, p, j)
      ensures x in next || (children[j].parent == Some(p) && x == children[j].entity)
    {
      var k :| j <= k < |children| && children[k].parent == Some(p) && children[k].entity == x;
      if k > j {
        assert x in next;
      }
    }
  }

  /**
   * The body of `walk_children`, on the values of the three tables (the walk
   * reads the store and changes nothing).
   */
  method WalkEntities(ts: seq<seq<Transform>>, es: seq<seq<Slot>>, ix: map<Entity, Location>, entity: Entity)
    returns (visited: seq<Entity>)
    requires Located(ts, es, ix)
    ensures entity !in ix ==> visited == []
    ensures entity in ix ==> visited == WalkFrom(es, ix[entity].row, entity)
    decreases if entity in ix then |es| - ix[entity].row else 0
  {
    visited := [];
    if entity in ix {
      var row := ix[entity].row;
      visited := [entity];
      var childRow := row + 1;
      if |ts| > childRow {
        var j := 0;
        while j < |es[childRow]|
          invariant 0 <= j <= |es[childRow]|
          invariant visited + ChildWalks(es, childRow, entity, j) == WalkFrom(es, row, entity)
        {
          var Slot(child, parent) := es[childRow][j];
          ghost var before := visited;
          assert SlotIndexed(es, ix, childRow, j);
          if parent.value == entity {
            var sub := WalkEntities(ts, es, ix, child);
            visited := visited + sub;
          }
          ChildWalksStep(es, childRow, entity, j, before, visited);
          j := j + 1;
        }
      }
    }
  }

  /** The body of `walk_hierarchy`, on the values of the three tables. */
  method WalkTransforms(ts: seq<seq<Transform>>, es: seq<seq<Slot>>, ix: map<Entity, Location>, entity: Entity)
    returns (visited: seq<(Entity, Transform)>)
    requires Located(ts, es, ix)
    ensures entity !in ix ==> visited == []
    ensures entity in ix ==> Reports(visited, WalkFrom(es, ix[entity].row, entity), ObjectsOf(ts, es, ix))
    decreases if entity in ix then |es| - ix[entity].row else 0, 0
  {
    visited := [];
    if entity in ix {
      var row, index := ix[entity].row, ix[entity].slot;
      var here := [(entity, ts[row][index])];
      ghost var objects := ObjectsOf(ts, es, ix);
      ghost var order: seq<Entity> := [];
      var rest: seq<(Entity, Transform)> := [];
      var childRow := row + 1;
      if |ts| > childRow {
        rest := WalkChildTransforms(ts, es, ix, entity, childRow);
        order := ChildWalks(es, childRow, entity, 0);
      }
      WalkFromUnfold(es, row, entity);
      ReportsConcat(here, [entity], rest, order, objects);
      visited := here + rest;
    }
  }

  /**
   * The loop of `walk_hierarchy`: the walks from the slots of row `r` that
   * record `p` as parent, in slot order, each entity with its transform.
   */
  method WalkChildTransforms(ts: seq<seq<Transform>>, es: seq<seq<Slot>>, ix: map<Entity, Location>, p: Entity, r: nat)
    returns (visited: seq<(Entity, Transform)>)
    requires Located(ts, es, ix) && 0 < r < |es|
    ensures Reports(visited, ChildWalks(es, r, p, 0), ObjectsOf(ts, es, ix))
    decreases |es| - r, 1
  {
    visited := [];
    ghost var order: seq<Entity> := [];
    ghost var objects := ObjectsOf(ts, es, ix);
    var j := 0;
    while j < |es[r]|
      invariant 0 <= j <= |es[r]|
      invariant order + ChildWalks(es, r, p, j) == ChildWalks(es, r, p, 0)
      invariant Reports(visited, order, objects)
    {
      var Slot(child, parent) := es[r][j];
      ghost var before := order;
      assert SlotIndexed(es, ix, r, j);
      if parent.value == p {
        var sub := WalkTransforms(ts, es, ix, child);
        ReportsConcat(visited, order, sub, WalkFrom(es, r, child), objects);
        visited := visited + sub;
        order := order + WalkFrom(es, r, child);
      }
      ChildWalksStep(es, r, p, j, before, order);
      j := j + 1;
    }
    assert ChildWalks(es, r, p, j) == [];
  }

  /** A slot's entity is in the hierarchy, at the slot's row, with the slot's parent. */
  lemma SlotNode(ts: seq<seq<Transform>>, es: seq<seq<Slot>>, ix: map<Entity, Location>, r: nat, k: nat)
    requires Located(ts, es, ix) && r < |es| && k < |es[r]|
    ensures es[r][k].entity in ix && ix[es[r][k].entity] == Location(r, k)
    ensures TreeOf(es, ix).nodes[es[r][k].entity] == Node(r, es[r][k].parent)
  {
    assert SlotIndexed(es, ix, r, k);
  }

  /** The slots of row `r` recording `p` as parent hold entities of row `r` with parent `p`. */
  lemma ChildSlotsInRow(ts: seq<seq<Transform>>, es: seq<seq<Slot>>, ix: map<Entity, Location>, r: nat, p: Entity, j: nat)
    requires Located(ts, es, ix) && r < |es|
    ensures forall x :: x in ChildSlots(es[r], p, j) ==>
      x in TreeOf(es, ix).nodes && TreeOf(es, ix).nodes[x] == Node(r, Some(p))
  {
    forall x | x in ChildSlots(es[r], p, j)
      ensures x in TreeOf(es, ix).nodes && TreeOf(es, ix).nodes[x] == Node(r, Some(p))
    {
      var k :| j <= k < |es[r]| && es[r][k].parent == Some(p) && es[r][k].entity == x;
      SlotNode(ts, es, ix, r, k);
    }
  }

  /** No later slot of a row holds the entity of slot `j`. */
  lemma ChildSlotsAfter(ts: seq<seq<Transform>>, es: seq<seq<Slot>>, ix: map<Entity, Location>, r: nat, p: Entity, j: nat)
    requires Located(ts, es, ix) && r < |es| && j < |es[r]|
    ensures es[r][j].entity !in ChildSlots(es[r], p, j + 1)
  {
    if es[r][j].entity in ChildSlots(es[r], p, j + 1) {
      var k :| j + 1 <= k < |es[r]| && es[r][k].parent == Some(p) && es[r][k].entity == es[r][j].entity;
      SlotNode(ts, es, ix, r, k);
      SlotNode(ts, es, ix, r, j);
      assert false;
    }
  }

  /** The slots of the row below `e` recording `e` as parent hold exactly `e`'s children. */
  lemma ChildSlotsAreChildren(ts: seq<seq<Transform>>, es: seq<seq<Slot>>, ix: map<Entity, Location>, e: Entity)
    requires Located(ts, es, ix) && e in ix && ix[e].row + 1 < |es|
    ensures ChildSlots(es[ix[e].row + 1], e, 0) == Children(TreeOf(es, ix), e)
  {
    var r := ix[e].row + 1;
    ChildSlotsInRow(ts, es, ix, r, e, 0);
    forall x | x in Children(TreeOf(es, ix), e)
      ensures x in ChildSlots(es[r], e, 0)
    {
      assert es[r][ix[x].slot] == Slot(x, Some(e));
    }
  }

  /** The union of no subtrees is empty. */
  lemma BelowNone(f: Forest)
    requires WellFormed(f)
    ensures Below(f, {}) == {}
  {
  }

  /**
   * A root followed by a sequence that lists the subtrees of the root's
   * children, each entity once, lists the root's subtree, each entity once.
   */
  lemma RootThenBelow(f: Forest, e: Entity, rest: seq<Entity>)
    requires WellFormed(f) && e in f.nodes
    requires Elems(rest) == Below(f, Children(f, e)) && Distinct(rest)
    ensures Elems([e] + rest) == Subtree(f, e) && Distinct([e] + rest)
  {
    SubtreeUnfold(f, e);
    RootNotBelowChildren(f, e);
    ElemsSingleton(e);
    ConcatDistinct([e], rest);
  }

  /** A root in the last row lists its subtree alone. */
  lemma RootAlone(f: Forest, e: Entity)
    requires WellFormed(f) && e in f.nodes && f.nodes[e].row + 1 >= f.height
    ensures Elems([e] + []) == Subtree(f, e) && Distinct([e] + [])
  {
    LastRowLeaf(f, e);
    ElemsSingleton(e);
    assert [e] + [] == [e];
  }

  /**
   * The walk from a stored entity visits exactly the entities of its subtree,
   * each of them once.
   */
  lemma {:induction false} WalkCoversSubtree(ts: seq<seq<Transform>>, es: seq<seq<Slot>>, ix: map<Entity, Location>, e: Entity)
    requires Located(ts, es, ix) && e in ix
    ensures Elems(WalkFrom(es, ix[e].row, e)) == Subtree(TreeOf(es, ix), e)
    ensures Distinct(WalkFrom(es, ix[e].row, e))
    decreases |es| - ix[e].row, 1
  {
    WalkFromUnfold(es, ix[e].row, e);
    if ix[e].row + 1 < |es| {
      RootThenChildWalks(ts, es, ix, e);
    } else {
      RootAlone(TreeOf(es, ix), e);
    }
  }

  /**
   * An entity with a row below it, followed by the walks from the slots of
   * that row recording it as parent, lists its subtree, each entity once.
   */
  lemma {:induction false} RootThenChildWalks(ts: seq<seq<Transform>>, es: seq<seq<Slot>>, ix: map<Entity, Location>, e: Entity)
    requires Located(ts, es, ix) && e in ix && ix[e].row + 1 < |es|
    ensures Elems([e] + ChildWalks(es, ix[e].row + 1, e, 0)) == Subtree(TreeOf(es, ix), e)
    ensures Distinct([e] + ChildWalks(es, ix[e].row + 1, e, 0))
    decreases |es| - ix[e].row, 0
  {
    ChildSlotsAreChildren(ts, es, ix, e);
    ChildWalksCover(ts, es, ix, ix[e].row + 1, e, 0);
    RootThenBelow(TreeOf(es, ix), e, ChildWalks(es, ix[e].row + 1, e, 0));
  }

  /**
   * The walks from the slots of row `r`, from slot `j` on, that record `p`
   * as parent visit exactly the subtrees of those slots' entities, each
   * entity once.
   */
  lemma {:induction false} ChildWalksCover(ts: seq<seq<Transform>>, es: seq<seq<Slot>>, ix: map<Entity, Location>,
                                           r: nat, p: Entity, j: nat)
    requires Located(ts, es, ix) && r < |es| && j <= |es[r]|
    ensures ChildSlots(es[r], p, j) <= TreeOf(es, ix).nodes.Keys
    ensures Elems(ChildWalks(es, r, p, j)) == Below(TreeOf(es, ix), ChildSlots(es[r], p, j))
    ensures Distinct(ChildWalks(es, r, p, j))
    decreases |es| - r, 2, |es[r]| - j
  {
    var f := TreeOf(es, ix);
    ChildSlotsInRow(ts, es, ix, r, p, j);
    if j == |es[r]| {
      assert ChildSlots(es[r], p, j) == {};
      assert ChildWalks(es, r, p, j) == [];
      BelowNone(f);
    } else {
      ChildWalksCover(ts, es, ix, r, p, j + 1);
      ChildSlotsNext(es[r], p, j);
      var rest, later := ChildWalks(es, r, p, j + 1), ChildSlots(es[r], p, j + 1);
      if es[r][j].parent == Some(p) {
        var c := es[r][j].entity;
        var here := WalkFrom(es, r, c);
        assert ChildWalks(es, r, p, j) == here + rest;
        SlotNode(ts, es, ix, r, j);
        WalkCoversSubtree(ts, es, ix, c);
        ChildSlotsInRow(ts, es, ix, r, p, j + 1);
        ChildSlotsAfter(ts, es, ix, r, p, j);
        BelowInsert(f, later, c);
        BelowDisjoint(f, later, c);
        ConcatDistinct(here, rest);
      } else {
        assert ChildWalks(es, r, p, j) == rest;
      }
    }
  }

  /**
   * Removing one more of the keys still to be removed from a map leaves it
   * without the removed keys and that one, which is still there before.
   */
  lemma DrainStep<V>(m: map<Entity, V>, all: set<Entity>, left: set<Entity>, k: Entity)
    requires k in left && left <= all && all <= m.Keys
    ensures k in m - (all - left)
    ensures (m - (all - left)) - {k} == m - (all - (left - {k}))
  {
  }

  /** The local fields of each entity's transform. */
  ghost function LocalsOf(objects: map<Entity, Transform>): (l: map<Entity, Local>)
    reads objects.Values
    ensures l.Keys == objects.Keys
  {
    map e | e in objects :: objects[e].LocalState()
  }

  /**
   * The world state of `e` that the local fields `locals` give: the local
   * transform composed onto the parent's world state, or onto the identity
   * for an entity without a parent.
   */
  ghost function WorldOf(f: Forest, locals: map<Entity, Local>, e: Entity): World
    requires Hierarchical(f) && e in f.nodes && f.nodes.Keys <= locals.Keys
    decreases f.nodes[e].row
  {
    ParentRow(f, e);
    match f.nodes[e].parent
    case None => Compose(RootWorld, locals[e])
    case Some(p) => Compose(WorldOf(f, locals, p), locals[e])
  }

  /** `t` is consistent, flagged up to date, and holds world state `w`. */
  ghost predicate Current(t: Transform, w: World)
    reads t
  {
    t.Valid() && !t.outOfDate && t.WorldState() == w
  }

  /** No transform object belongs to two entities. */
  ghost predicate Injective(objects: map<Entity, Transform>)
  {
    forall a, b :: a in objects && b in objects && a != b ==> objects[a] != objects[b]
  }

  /** The transforms of `s` are consistent and keep the local fields `locals`. */
  ghost predicate Pending(objects: map<Entity, Transform>, locals: map<Entity, Local>, s: set<Entity>)
    reads set e | e in s && e in objects :: objects[e]
  {
    forall e :: e in s ==>
      e in objects && e in locals && objects[e].Valid() && objects[e].LocalState() == locals[e]
  }

  /** The transforms of `s` are current with respect to `f` and `locals`, which they keep. */
  ghost predicate Refreshed(objects: map<Entity, Transform>, f: Forest, locals: map<Entity, Local>, s: set<Entity>)
    reads set e | e in s && e in objects :: objects[e]
  {
    && Hierarchical(f) && f.nodes.Keys <= locals.Keys
    && forall e :: e in s ==>
         e in objects && e in f.nodes
         && Current(objects[e], WorldOf(f, locals, e)) && objects[e].LocalState() == locals[e]
  }

  /** A current transform joins the current set. */
  lemma RefreshedAdd(objects: map<Entity, Transform>, f: Forest, locals: map<Entity, Local>, s: set<Entity>, x: Entity)
    requires Refreshed(objects, f, locals, s) && x in objects && x in f.nodes
    requires Current(objects[x], WorldOf(f, locals, x)) && objects[x].LocalState() == locals[x]
    ensures Refreshed(objects, f, locals, s + {x})
  {
  }

  /** The transforms of `entity` and of all its ancestors. */
  ghost function ChainOf(f: Forest, objects: map<Entity, Transform>, entity: Entity): set<Transform>
    requires Hierarchical(f) && entity in f.nodes && f.nodes.Keys <= objects.Keys
  {
    set a | a in Ancestors(f, entity) :: objects[a]
  }

  /**
   * The three tables agree with the hierarchy `f` and the transform map
   * `objects`: each entity's index entry leads to a slot holding its parent
   * and its transform, in the row of its node.
   */
  ghost predicate Mirrors(ts: seq<seq<Transform>>, es: seq<seq<Slot>>, ix: map<Entity, Location>,
                          f: Forest, objects: map<Entity, Transform>)
  {
    && f.nodes.Keys == ix.Keys && objects.Keys == ix.Keys
    && forall e :: e in ix ==>
         && ix[e].row < |es| && ix[e].row < |ts|
         && ix[e].slot < |es[ix[e].row]| && ix[e].slot < |ts[ix[e].row]|
         && f.nodes[e] == Node(ix[e].row, es[ix[e].row][ix[e].slot].parent)
         && objects[e] == ts[ix[e].row][ix[e].slot]
  }

  /** A consistent store mirrors its own hierarchy and transforms. */
  lemma LocatedMirrors(ts: seq<seq<Transform>>, es: seq<seq<Slot>>, ix: map<Entity, Location>)
    requires Located(ts, es, ix)
    ensures Mirrors(ts, es, ix, TreeOf(es, ix), ObjectsOf(ts, es, ix))
  {
  }

  /**
   * The tail of `update_single`: looks `entity` up in the tables and
   * updates its transform from its parent's, which must already be
   * current, or from the identity transform when it has no parent.
   */
  method UpdateEntity(ts: seq<seq<Transform>>, es: seq<seq<Slot>>, ix: map<Entity, Location>,
                      ghost f: Forest, ghost objects: map<Entity, Transform>,
                      ghost locals: map<Entity, Local>, entity: Entity)
    requires Mirrors(ts, es, ix, f, objects) && Hierarchical(f)
    requires entity in ix && ix.Keys <= locals.Keys
    requires objects[entity].Valid() && objects[entity].LocalState() == locals[entity]
    requires f.nodes[entity].parent.Some? ==>
               && f.nodes[entity].parent.value in ix
               && Current(objects[f.nodes[entity].parent.value], WorldOf(f, locals, f.nodes[entity].parent.value))
    modifies objects[entity]
    ensures Current(objects[entity], WorldOf(f, locals, entity))
    ensures objects[entity].LocalState() == locals[entity]
  {
    var row, index := ix[entity].row, ix[entity].slot;
    var transform := ts[row][index];
    ParentRow(f, entity);
    match es[row][index].parent {
      case None =>
        var dummy := new Transform();
        transform.Update(dummy);
      case Some(p) =>
        var parentTransform := ts[ix[p].row][ix[p].slot];
        transform.Update(parentTransform);
    }
  }

  /**
   * UpdateEntity for an entity whose parent is among the entities `done`
   * whose transforms are already current: `entity` joins them, and since
   * no two entities share a transform, they all stay current.
   */
  method JoinRefreshed(ts: seq<seq<Transform>>, es: seq<seq<Slot>>, ix: map<Entity, Location>,
                       ghost f: Forest, ghost objects: map<Entity, Transform>,
                       ghost locals: map<Entity, Local>, ghost done: set<Entity>, entity: Entity)
    requires Mirrors(ts, es, ix, f, objects) && Hierarchical(f) && Injective(objects)
    requires entity in ix && entity !in done && ix.Keys <= locals.Keys
    requires objects[entity].Valid() && objects[entity].LocalState() == locals[entity]
    requires Refreshed(objects, f, locals, done)
    requires f.nodes[entity].parent.Some? ==> f.nodes[entity].parent.value in done
    modifies objects[entity]
    ensures Refreshed(objects, f, locals, done + {entity})
  {
    UpdateEntity(ts, es, ix, f, objects, locals, entity);
    forall e | e in done
      ensures Current(objects[e], WorldOf(f, locals, e)) && objects[e].LocalState() == locals[e]
    {
      assert objects[e] != objects[entity];
      assert old(Current(objects[e], WorldOf(f, locals, e)) && objects[e].LocalState() == locals[e]);
    }
    RefreshedAdd(objects, f, locals, done, entity);
  }

  /**
   * The recursion of `update_single` over the three tables, which mirror
   * the hierarchy `f` and the transforms `objects`: the parent's chain is
   * refreshed first, then `entity`'s own transform (see JoinRefreshed).
   * `locals` are the local fields of the transforms, which the refresh keeps.
   */
  method RefreshChain(ts: seq<seq<Transform>>, es: seq<seq<Slot>>, ix: map<Entity, Location>,
                      ghost f: Forest, ghost objects: map<Entity, Transform>,
                      ghost locals: map<Entity, Local>, entity: Entity)
    requires Mirrors(ts, es, ix, f, objects) && Hierarchical(f) && Injective(objects)
    requires entity in ix && ix.Keys <= locals.Keys
    requires Pending(objects, locals, Ancestors(f, entity))
    modifies ChainOf(f, objects, entity)
    decreases f.nodes[entity].row
    ensures Refreshed(objects, f, locals, Ancestors(f, entity))
  {
    var parent := es[ix[entity].row][ix[entity].slot].parent;
    ParentRow(f, entity);
    AncestorsStep(f, entity);
    match parent {
      case None =>
        JoinRefreshed(ts, es, ix, f, objects, locals, {}, entity);
        assert {} + {entity} == {entity};
      case Some(p) =>
        assert objects[entity] !in ChainOf(f, objects, p);
        assert Pending(objects, locals, Ancestors(f, p));
        RefreshChain(ts, es, ix, f, objects, locals, p);
        JoinRefreshed(ts, es, ix, f, objects, locals, Ancestors(f, p), entity);
    }
  }

  /** Location `l` comes before slot `i` of row `r` in row-major order. */
  predicate Before(l: Location, r: nat, i: nat)
  {
    l.row < r || (l.row == r && l.slot < i)
  }

  /** The entities stored before slot `i` of row `r`. */
  ghost function Done(ix: map<Entity, Location>, r: nat, i: nat): set<Entity>
  {
    set e | e in ix && Before(ix[e], r, i)
  }

  /** Passing slot `i` of row `r` adds exactly the entity stored there. */
  lemma DoneNext(es: seq<seq<Slot>>, ix: map<Entity, Location>, r: nat, i: nat)
    requires IndexSound(es, ix) && r < |es| && i < |es[r]| && SlotIndexed(es, ix, r, i)
    ensures es[r][i].entity !in Done(ix, r, i)
    ensures Done(ix, r, i + 1) == Done(ix, r, i) + {es[r][i].entity}
    ensures ix.Keys - Done(ix, r, i + 1) == ix.Keys - Done(ix, r, i) - {es[r][i].entity}
  {
    forall e | e in ix && ix[e] == Location(r, i)
      ensures e == es[r][i].entity
    {
    }
  }

  /** The end of one row is the start of the next; before row 0 nothing is done, after the last row everything. */
  lemma DoneRows(es: seq<seq<Slot>>, ix: map<Entity, Location>, r: nat)
    requires IndexSound(es, ix) && r < |es|
    ensures Done(ix, r, |es[r]|) == Done(ix, r + 1, 0)
    ensures Done(ix, 0, 0) == {} && Done(ix, |es|, 0) == ix.Keys
  {
  }

  /**
   * The body of the inner loop of `transform_update`: updates the transform
   * in slot `i` of row `r` from its parent's transform, which must already
   * be current, or from the identity transform when the slot has no parent.
   */
  method RefreshSlot(ts: seq<seq<Transform>>, es: seq<seq<Slot>>, ix: map<Entity, Location>,
                     ghost locals: map<Entity, Local>, r: nat, i: nat)
    requires Located(ts, es, ix) && Hierarchical(TreeOf(es, ix)) && ix.Keys <= locals.Keys
    requires r < |es| && i < |es[r]| && SlotIndexed(es, ix, r, i)
    requires ts[r][i].Valid() && ts[r][i].LocalState() == locals[es[r][i].entity]
    requires es[r][i].parent.Some? && es[r][i].parent.value in ix ==>
               Current(ObjectsOf(ts, es, ix)[es[r][i].parent.value],
                       WorldOf(TreeOf(es, ix), locals, es[r][i].parent.value))
    modifies ts[r][i]
    ensures Current(ts[r][i], WorldOf(TreeOf(es, ix), locals, es[r][i].entity))
    ensures ts[r][i].LocalState() == locals[es[r][i].entity]
  {
    ghost var f := TreeOf(es, ix);
    ghost var entity := es[r][i].entity;
    assert SlotIndexed(es, ix, r, i);
    assert f.nodes[entity] == Node(r, es[r][i].parent);
    ParentRow(f, entity);
    var transform := ts[r][i];
    match es[r][i].parent {
      case None =>
        var dummy := new Transform();
        transform.Update(dummy);
      case Some(p) =>
        var parentTransform := ts[ix[p].row][ix[p].slot];
        transform.Update(parentTransform);
    }
  }

  /**
   * The inner loop of `transform_update`: refreshes row `r` slot by slot.
   * Every parent of the row sits in the row above, which is already
   * current, so afterwards every transform up to and including row `r` is
   * current and the others are still consistent.
   */
  method RefreshRow(ts: seq<seq<Transform>>, es: seq<seq<Slot>>, ix: map<Entity, Location>,
                    ghost locals: map<Entity, Local>, r: nat)
    requires Located(ts, es, ix) && Hierarchical(TreeOf(es, ix)) && ix.Keys <= locals.Keys
    requires Injective(ObjectsOf(ts, es, ix)) && r < |es|
    requires Refreshed(ObjectsOf(ts, es, ix), TreeOf(es, ix), locals, Done(ix, r, 0))
    requires Pending(ObjectsOf(ts, es, ix), locals, ix.Keys - Done(ix, r, 0))
    modifies ObjectsOf(ts, es, ix).Values
    ensures Refreshed(ObjectsOf(ts, es, ix), TreeOf(es, ix), locals, Done(ix, r + 1, 0))
    ensures Pending(ObjectsOf(ts, es, ix), locals, ix.Keys - Done(ix, r + 1, 0))
  {
    ghost var f, objects := TreeOf(es, ix), ObjectsOf(ts, es, ix);
    var i := 0;
    while i < |ts[r]|
      invariant i <= |ts[r]|
      invariant Refreshed(objects, f, locals, Done(ix, r, i))
      invariant Pending(objects, locals, ix.Keys - Done(ix, r, i))
    {
      ghost var entity, done := es[r][i].entity, Done(ix, r, i);
      assert SlotIndexed(es, ix, r, i);
      assert objects[entity] == ts[r][i];
      DoneNext(es, ix, r, i);
      ParentRow(f, entity);
      assert es[r][i].parent.Some? ==> es[r][i].parent.value in done;
      assert forall e :: e in done || e in ix.Keys - done - {entity} ==> objects[e] != ts[r][i];
      assert Pending(objects, locals, ix.Keys - done - {entity});
      RefreshSlot(ts, es, ix, locals, r, i);
      assert Refreshed(objects, f, locals, done);
      assert Pending(objects, locals, ix.Keys - done - {entity});
      RefreshedAdd(objects, f, locals, done, entity);
      i := i + 1;
    }
    DoneRows(es, ix, r);
  }

  /**
   * The outer loop of `transform_update`: rows in increasing depth. Because
   * a parent sits one row above its child, it is always current by the
   * time the child is reached, so afterwards every stored transform holds
   * the world state that the local fields give.
   */
  method RefreshAll(ts: seq<seq<Transform>>, es: seq<seq<Slot>>, ix: map<Entity, Location>,
                    ghost locals: map<Entity, Local>)
    requires Located(ts, es, ix) && Hierarchical(TreeOf(es, ix)) && ix.Keys <= locals.Keys
    requires Injective(ObjectsOf(ts, es, ix))
    requires Pending(ObjectsOf(ts, es, ix), locals, ix.Keys)
    modifies ObjectsOf(ts, es, ix).Values
    ensures Refreshed(ObjectsOf(ts, es, ix), TreeOf(es, ix), locals, ix.Keys)
  {
    ghost var f, objects := TreeOf(es, ix), ObjectsOf(ts, es, ix);
    if |ts| == 0 {
      return;
    }
    DoneRows(es, ix, 0);
    assert ix.Keys - Done(ix, 0, 0) == ix.Keys;
    var r := 0;
    while r < |ts|
      invariant r <= |ts|
      invariant Refreshed(objects, f, locals, Done(ix, r, 0))
      invariant Pending(objects, locals, ix.Keys - Done(ix, r, 0))
    {
      RefreshRow(ts, es, ix, locals, r);
      r := r + 1;
    }
    DoneRows(es, ix, 0);
  }

  class TransformManager {
    var transforms: seq<seq<Transform>>
    var entities: seq<seq<Slot>>
    var indices: map<Entity, Location>
    var markedForDestroy: set<Entity>

    /** The store invariant (see Layout). */
    ghost predicate Valid()
      reads this
    {
      Layout(transforms, entities, indices)
    }

    /** The hierarchy a valid store represents (an empty one otherwise). */
    ghost function Tree(): (f: Forest)
      reads this
      ensures Valid() ==> f.height == |entities| && f.nodes.Keys == indices.Keys && WellFormed(f)
    {
      if Valid() then TreeOf(entities, indices) else Forest(map[], 0)
    }

    /** The transform a valid store holds for each entity (none otherwise). */
    ghost function Objects(): (o: map<Entity, Transform>)
      reads this
      ensures Valid() ==> o.Keys == indices.Keys
    {
      if Valid() then ObjectsOf(transforms, entities, indices) else map[]
    }

    /** The set of stored transform objects. */
    ghost function Stored(): set<Transform>
      reads this
    {
      Objects().Values
    }

    /** The local fields of every stored transform. */
    ghost function Locals(): (l: map<Entity, Local>)
      reads this, Stored()
      ensures l.Keys == Objects().Keys
    {
      LocalsOf(Objects())
    }

    /** Every stored transform satisfies its cache invariant. */
    ghost predicate TransformsValid()
      reads this, Stored()
    {
      forall t :: t in Stored() ==> t.Valid()
    }

    /** Distinct entities of a valid store own distinct transform objects. */
    lemma ObjectsDistinct()
      requires Valid()
      ensures Injective(Objects())
    {
      forall a, b | a in Objects() && b in Objects() && a != b
        ensures Objects()[a] != Objects()[b]
      {
        ObjectsInjective(a, b);
      }
    }

    /** What a slot says about its entity, seen through Tree and Objects. */
    lemma SlotInTree(r: nat, i: nat)
      requires Valid() && r < |entities| && i < |entities[r]|
      ensures entities[r][i].entity in Tree().nodes
      ensures Tree().nodes[entities[r][i].entity] == Node(r, entities[r][i].parent)
      ensures Objects()[entities[r][i].entity] == transforms[r][i]
    {
      assert SlotIndexed(entities, indices, r, i);
    }

    /** Distinct entities own distinct transform objects. */
    lemma ObjectsInjective(a: Entity, b: Entity)
      requires Valid() && a in indices && b in indices && a != b
      ensures Objects()[a] != Objects()[b]
    {
      assert !SameObject(transforms, indices[a].row, indices[a].slot, indices[b].row, indices[b].slot);
    }

    /** `TransformManager::new`: one empty row, an empty index, nothing marked. */
    constructor ()
      ensures Valid() && Hierarchical(Tree())
      ensures transforms == [[]] && entities == [[]]
      ensures indices == map[] && markedForDestroy == {}
      ensures Tree() == Forest(map[], 1) && Objects() == map[]
    {
      transforms := [[]];
      entities := [[]];
      indices := map[];
      markedForDestroy := {};
    }

    /**
     * Appends `entity`, with `parent` and transform `t`, at the end of `row`
     * and records its location in the index.
     */
    method PushSlot(row: nat, entity: Entity, parent: Option<Entity>, t: Transform)
      requires Valid() && row < |entities| && entity !in indices && t !in Stored()
      requires (row == 0) == parent.None?
      modifies this
      ensures Valid()
      ensures indices == old(indices)[entity := Location(row, old(|entities[row]|))]
      ensures entities == old(entities)[row := old(entities[row]) + [Slot(entity, parent)]]
      ensures transforms == old(transforms)[row := old(transforms[row]) + [t]]
      ensures markedForDestroy == old(markedForDestroy)
      ensures Tree() == Forest(old(Tree().nodes)[entity := Node(row, parent)], old(Tree().height))
      ensures Objects() == old(Objects())[entity := t]
    {
      PushKeepsLayout(transforms, entities, indices, row, entity, parent, t);
      var slot := |transforms[row]|;
      transforms := transforms[row := transforms[row] + [t]];
      entities := entities[row := entities[row] + [Slot(entity, parent)]];
      indices := indices[entity := Location(row, slot)];
    }

    /**
     * `assign`: a new transform at the end of row 0, with no parent. The entity
     * must not have a transform yet.
     */
    method Assign(entity: Entity) returns (t: Transform)
      requires Valid() && entity !in indices
      modifies this
      ensures Valid() && fresh(t) && t.Valid() && !t.outOfDate
      ensures t.LocalState() == Local(Origin, IdentityRotation, One) && t.WorldState() == RootWorld
      ensures indices == old(indices)[entity := Location(0, old(|entities[0]|))]
      ensures entities == old(entities)[0 := old(entities[0]) + [Slot(entity, None)]]
      ensures transforms == old(transforms)[0 := old(transforms[0]) + [t]]
      ensures |transforms[0]| == |entities[0]|
      ensures markedForDestroy == old(markedForDestroy)
      ensures Tree() == Forest(old(Tree().nodes)[entity := Node(0, None)], old(Tree().height))
      ensures Objects() == old(Objects())[entity := t]
      ensures old(Hierarchical(Tree())) ==> Hierarchical(Tree())
    {
      if Hierarchical(Tree()) {
        NewRootKeepsHierarchy(Tree(), entity);
      }
      t := new Transform();
      PushSlot(0, entity, None, t);
    }

    /** `get` / `get_mut`: the transform stored for a registered entity. */
    function Get(entity: Entity): (t: Transform)
      reads this
      requires Valid() && entity in indices
      ensures t == Objects()[entity] && t in Stored()
    {
      transforms[indices[entity].row][indices[entity].slot]
    }

    /**
     * The loop at the head of `set_row_recursive`: appends empty rows to both
     * tables until row `row` exists. Existing rows and the index are untouched.
     */
    method GrowRows(row: nat)
      requires Valid()
      modifies this
      ensures Valid()
      ensures |entities| == if old(|entities|) > row then old(|entities|) else row + 1
      ensures entities[..old(|entities|)] == old(entities) && transforms[..old(|transforms|)] == old(transforms)
      ensures forall r :: old(|entities|) <= r < |entities| ==> entities[r] == [] && transforms[r] == []
      ensures indices == old(indices) && markedForDestroy == old(markedForDestroy)
      ensures Tree() == Forest(old(Tree().nodes), |entities|)
      ensures Objects() == old(Objects())
    {
      while |transforms| < row + 1
        invariant Valid()
        invariant old(|entities|) <= |entities| && (|entities| > old(|entities|) ==> |entities| <= row + 1)
        invariant entities[..old(|entities|)] == old(entities) && transforms[..old(|transforms|)] == old(transforms)
        invariant forall r :: old(|entities|) <= r < |entities| ==> entities[r] == [] && transforms[r] == []
        invariant indices == old(indices) && markedForDestroy == old(markedForDestroy)
        invariant Tree() == Forest(old(Tree().nodes), |entities|)
        invariant Objects() == old(Objects())
        decreases row + 1 - |transforms|
      {
        AppendRowKeepsLayout(transforms, entities, indices);
        transforms := transforms + [[]];
        entities := entities + [[]];
      }
    }

    /** No entity occupies two slots of a row. */
    lemma RowEntitiesDistinct(r: nat)
      requires Valid() && r < |entities|
      ensures forall j, k :: 0 <= j < k < |entities[r]| ==> entities[r][j].entity != entities[r][k].entity
    {
      forall j, k | 0 <= j < k < |entities[r]|
        ensures entities[r][j].entity != entities[r][k].entity
      {
        assert SlotIndexed(entities, indices, r, j) && SlotIndexed(entities, indices, r, k);
      }
    }

    /**
     * When the hierarchy places exactly the entities of `cs` in row `r` with
     * parent `p`, row `r` of the table lists them (see ListsChildren).
     */
    lemma RowListsChildren(r: nat, p: Entity, cs: set<Entity>)
      requires Valid() && r < |entities|
      requires forall x :: x in Tree().nodes && Tree().nodes[x] == Node(r, Some(p)) <==> x in cs
      ensures ListsChildren(entities[r], p, cs)
    {
      RowEntitiesDistinct(r);
      forall j | 0 <= j < |entities[r]| && entities[r][j].parent == Some(p)
        ensures entities[r][j].entity in cs
      {
        SlotInTree(r, j);
      }
      forall x | x in cs
        ensures exists j :: 0 <= j < |entities[r]| && entities[r][j] == Slot(x, Some(p))
      {
        assert entities[r][indices[x].slot] == Slot(x, Some(p));
      }
    }

    /**
     * `set_child`: makes `parent` the parent of `child`. The child and its
     * whole subtree move so that each entity again sits one row below its
     * parent; nothing else moves and every transform stays with its entity.
     */
    method SetChild(parent: Entity, child: Entity)
      requires Valid() && Reparenting(Tree(), child, parent)
      modifies this
      ensures Valid()
      ensures Tree().nodes == Reparented(old(Tree()), child, parent)
      ensures old(Hierarchical(Tree())) ==> Hierarchical(Tree())
      ensures |entities| >= old(|entities|)
      ensures |entities| > old(|entities|) ==> exists e :: e in Tree().nodes && Tree().nodes[e].row + 1 == |entities|
      ensures Objects() == old(Objects())
      ensures markedForDestroy == old(markedForDestroy)
    {
      ghost var f0 := Tree();
      var parentRow := indices[parent].row;
      var childRow := parentRow + 1;
      MoveNone(f0, child, parent);
      SetRowRecursive(child, Some(parent), childRow, f0, child, parent, {});
      ReparentComplete(f0, child, parent, Tree());
      GrownReparented(f0, child, parent, Tree(), f0.height);
    }

    /**
     * `set_row_recursive`: moves `entity` to the end of `newRow` with `parent`,
     * then moves each of its children, found in the row below its old row, to
     * the row below `newRow`.
     *
     * The ghost parameters describe the `set_child` call in progress: `f0` is
     * the hierarchy before it, `root` the entity being reparented under
     * `newParent`, and `moved` the part of the subtree already moved.
     */
    method SetRowRecursive(entity: Entity, parent: Option<Entity>, newRow: nat,
                           ghost f0: Forest, ghost root: Entity, ghost newParent: Entity, ghost moved: set<Entity>)
      requires Valid() && MovePending(f0, root, newParent, moved, entity)
      requires Tree().nodes == MoveRows(f0, moved, root, newParent) && |entities| >= f0.height
      requires newRow == MovedRow(f0, root, newParent, entity) && parent == MovedParent(f0, root, newParent, entity)
      modifies this
      decreases f0.height - f0.nodes[entity].row, 1
      ensures Valid() && |entities| >= old(|entities|)
      ensures GrownFor(f0, root, newParent, moved + Subtree(f0, entity), old(|entities|), |entities|)
      ensures Tree().nodes == MoveRows(f0, moved + Subtree(f0, entity), root, newParent)
      ensures Objects() == old(Objects())
      ensures markedForDestroy == old(markedForDestroy)
    {
      SubtreeBelow(f0, root, entity);
      ghost var h0 := |entities|;
      var oldRow := MoveSlot(entity, parent, newRow);
      ghost var h1 := |entities|;
      assert entity in moved + {entity};
      assert GrownFor(f0, root, newParent, moved + {entity}, h0, h1);
      MovedAlone(entity, oldRow, newRow, parent, f0, root, newParent, moved);
      ChildRowListed(entity, oldRow, f0, root, newParent, moved);
      MoveChildren(entity, newRow, entities[oldRow + 1], f0, root, newParent, moved);
      GrownForTrans(f0, root, newParent, moved + {entity}, moved + Subtree(f0, entity), h0, h1, |entities|);
    }

    /**
     * Once `entity` alone has moved to `newRow`, the hierarchy is the move with
     * `entity` added to the moved part, and the row below `entity`'s old row,
     * where its children are looked up, exists.
     */
    lemma MovedAlone(entity: Entity, oldRow: nat, newRow: nat, parent: Option<Entity>,
                     f0: Forest, root: Entity, newParent: Entity, moved: set<Entity>)
      requires Valid() && MovePending(f0, root, newParent, moved, entity)
      requires Tree().nodes == MoveRows(f0, moved, root, newParent)[entity := Node(newRow, parent)]
      requires |entities| >= f0.height && newRow < |entities| && oldRow == f0.nodes[entity].row
      requires newRow == MovedRow(f0, root, newParent, entity) && parent == MovedParent(f0, root, newParent, entity)
      ensures oldRow + 1 < |entities|
      ensures Tree().nodes == MoveRows(f0, moved + {entity}, root, newParent)
    {
      MoveOne(f0, moved, root, newParent, entity, newRow, parent);
    }

    /**
     * At that point the row below `entity`'s old row still lists exactly its
     * original children, none of which has moved yet.
     */
    lemma ChildRowListed(entity: Entity, oldRow: nat, f0: Forest, root: Entity, newParent: Entity, moved: set<Entity>)
      requires Valid() && MovePending(f0, root, newParent, moved, entity)
      requires Tree().nodes == MoveRows(f0, moved + {entity}, root, newParent)
      requires oldRow + 1 < |entities| && oldRow == f0.nodes[entity].row
      ensures ListsChildren(entities[oldRow + 1], entity, Children(f0, entity))
    {
      MidMoveChildren(f0, Tree().nodes, moved, root, newParent, entity, oldRow + 1);
      RowListsChildren(oldRow + 1, entity, Children(f0, entity));
    }

    /**
     * The first half of `set_row_recursive`: the entity's slot and transform
     * leave their row and are pushed, with `parent`, onto the end of `newRow`,
     * which is created first if the table is too short. Returns the old row.
     */
    method MoveSlot(entity: Entity, parent: Option<Entity>, newRow: nat) returns (oldRow: nat)
      requires Valid() && entity in indices && (newRow == 0) == parent.None?
      modifies this
      ensures Valid() && |entities| >= old(|entities|) && newRow < |entities|
      ensures |entities| == if old(|entities|) > newRow then old(|entities|) else newRow + 1
      ensures oldRow == old(indices[entity].row)
      ensures Tree().nodes == old(Tree().nodes)[entity := Node(newRow, parent)]
      ensures Objects() == old(Objects())
      ensures markedForDestroy == old(markedForDestroy)
    {
      ghost var nodes0, objects0 := Tree().nodes, Objects();
      oldRow := indices[entity].row;
      var t := Remove(entity);
      Reinsert(entity, parent, newRow, t);
      RemoveThenSet(nodes0, entity, Node(newRow, parent));
      RemoveThenRestore(objects0, entity);
    }

    /**
     * The middle of `set_row_recursive`: grows the tables until `newRow`
     * exists, then pushes the detached `entity` with `parent` and transform
     * `t` onto the end of that row.
     */
    method Reinsert(entity: Entity, parent: Option<Entity>, newRow: nat, t: Transform)
      requires Valid() && entity !in indices && t !in Stored() && (newRow == 0) == parent.None?
      modifies this
      ensures Valid() && |entities| >= old(|entities|) && newRow < |entities|
      ensures |entities| == if old(|entities|) > newRow then old(|entities|) else newRow + 1
      ensures Tree().nodes == old(Tree().nodes)[entity := Node(newRow, parent)]
      ensures Objects() == old(Objects())[entity := t]
      ensures markedForDestroy == old(markedForDestroy)
    {
      GrowRows(newRow);
      PushSlot(newRow, entity, parent, t);
    }

    /**
     * The loop at the end of `set_row_recursive`: every slot of the copied row
     * `children` that records `entity` as parent is moved, with its subtree, to
     * the row below `newRow`.
     */
    method MoveChildren(entity: Entity, newRow: nat, children: seq<Slot>,
                        ghost f0: Forest, ghost root: Entity, ghost newParent: Entity, ghost moved: set<Entity>)
      requires Valid() && MovePending(f0, root, newParent, moved, entity)
      requires Tree().nodes == MoveRows(f0, moved + {entity}, root, newParent) && |entities| >= f0.height
      requires newRow == MovedRow(f0, root, newParent, entity)
      requires ListsChildren(children, entity, Children(f0, entity))
      modifies this
      decreases f0.height - f0.nodes[entity].row, 0
      ensures Valid() && |entities| >= old(|entities|)
      ensures GrownFor(f0, root, newParent, moved + Subtree(f0, entity), old(|entities|), |entities|)
      ensures Tree().nodes == MoveRows(f0, moved + Subtree(f0, entity), root, newParent)
      ensures Objects() == old(Objects())
      ensures markedForDestroy == old(markedForDestroy)
    {
      ghost var done: set<Entity> := {};
      ghost var movedNow := moved + {entity};
      MovedSoFarNone(f0, moved, entity);
      var i := 0;
      while i < |children|
        invariant 0 <= i <= |children|
        invariant Valid() && |entities| >= old(|entities|) && |entities| >= f0.height
        invariant done <= Children(f0, entity)
        invariant Visited(children, i, entity, done)
        invariant movedNow == MovedSoFar(f0, moved, entity, done)
        invariant Tree().nodes == MoveRows(f0, movedNow, root, newParent)
        invariant GrownFor(f0, root, newParent, movedNow, old(|entities|), |entities|)
        invariant Objects() == old(Objects()) && markedForDestroy == old(markedForDestroy)
      {
        var Slot(child, maybeParent) := children[i];
        VisitNext(children, i, entity, done);
        if maybeParent == Some(entity) {
          NotYetSeen(children, entity, Children(f0, entity), i, done);
          MoveChild(f0, root, newParent, moved, entity, done, child);
          ghost var h := |entities|;
          SetRowRecursive(child, Some(entity), newRow + 1, f0, root, newParent, movedNow);
          GrownForTrans(f0, root, newParent, movedNow, movedNow + Subtree(f0, child), old(|entities|), h, |entities|);
          MovedSoFarNext(f0, moved, entity, done, child);
          done := done + {child};
          movedNow := movedNow + Subtree(f0, child);
        }
        i := i + 1;
      }
      AllSeen(children, entity, Children(f0, entity), done);
      MovedSoFarAll(f0, moved, entity);
    }

    /**
     * `remove`: swap-removes the entity's slot and transform, and re-indexes the
     * entity that was moved into the freed slot. Children are not touched.
     */
    method Remove(entity: Entity) returns (t: Transform)
      requires Valid() && entity in indices
      modifies this
      ensures Valid()
      ensures t == old(Objects()[entity]) && t !in Stored()
      ensures Tree() == Forest(old(Tree().nodes) - {entity}, old(Tree().height))
      ensures Objects() == old(Objects()) - {entity}
      ensures var loc := old(indices[entity]);
              && entities == old(entities)[loc.row := SwapRemove(old(entities[loc.row]), loc.slot)]
              && transforms == old(transforms)[loc.row := SwapRemove(old(transforms[loc.row]), loc.slot)]
              && indices == RemovedIndex(old(indices), entity, entities, loc)
      ensures markedForDestroy == old(markedForDestroy)
    {
      var loc := indices[entity];
      var row, index := loc.row, loc.slot;
      var gone: set<Entity> := {entity};
      var ix: map<Entity, Location> := indices - gone;
      var es: seq<seq<Slot>> := entities[row := SwapRemove(entities[row], index)];
      if index != |es[row]| {
        var moved := es[row][index].entity;
        ix := ix[moved := Location(row, index)];
      }
      var ts: seq<seq<Transform>> := transforms[row := SwapRemove(transforms[row], index)];
      RemoveKeepsLayout(transforms, entities, indices, entity, ts, es, ix);
      t := transforms[row][index];
      indices, entities, transforms := ix, es, ts;
    }

    /**
     * `walk_children`: reports `entity`, then walks, in slot order, the
     * entities of the next row that record `entity` as parent. Nothing is
     * reported for an entity without a transform. The reports are returned in
     * order instead of being passed to a callback.
     */
    method WalkChildren(entity: Entity) returns (visited: seq<Entity>)
      requires Valid()
      ensures entity !in indices ==> visited == []
      ensures entity in indices ==> visited == WalkFrom(entities, indices[entity].row, entity)
      ensures entity in indices ==> Elems(visited) == Subtree(Tree(), entity) && Distinct(visited)
    {
      visited := WalkEntities(transforms, entities, indices, entity);
      if entity in indices {
        WalkCoversSubtree(transforms, entities, indices, entity);
      }
    }

    /**
     * `walk_hierarchy`: the same walk as `walk_children`, reporting each
     * entity together with its transform.
     */
    method WalkHierarchy(entity: Entity) returns (visited: seq<(Entity, Transform)>)
      requires Valid()
      ensures entity !in indices ==> visited == []
      ensures entity in indices ==> Reports(visited, WalkFrom(entities, indices[entity].row, entity), Objects())
    {
      visited := WalkTransforms(transforms, entities, indices, entity);
    }

    /**
     * `destroy` (and `destroy_all`, which does the same): marks `entity` for
     * destruction at the end of the frame. The store itself is untouched.
     */
    method Destroy(entity: Entity)
      modifies this`markedForDestroy
      ensures markedForDestroy == old(markedForDestroy) + {entity}
      ensures Valid() == old(Valid()) && Tree() == old(Tree()) && Objects() == old(Objects())
    {
      markedForDestroy := markedForDestroy + {entity};
    }

    /** `destroy_all` of the component-manager interface: the same marking as `destroy`. */
    method DestroyAll(entity: Entity)
      modifies this`markedForDestroy
      ensures markedForDestroy == old(markedForDestroy) + {entity}
      ensures Valid() == old(Valid()) && Tree() == old(Tree()) && Objects() == old(Objects())
    {
      Destroy(entity);
    }

    /**
     * `destroy_immediate`: removes the entity's transform at once. Its
     * children are left in place, still naming it as their parent.
     */
    method DestroyImmediate(entity: Entity)
      requires Valid() && entity in indices
      modifies this
      ensures Valid()
      ensures Tree() == Forest(old(Tree().nodes) - {entity}, old(Tree().height))
      ensures Objects() == old(Objects()) - {entity}
      ensures markedForDestroy == old(markedForDestroy)
      ensures old(Hierarchical(Tree())) ==> (Hierarchical(Tree()) <==> old(Children(Tree(), entity)) == {})
    {
      if Hierarchical(Tree()) {
        RemovalKeepsHierarchy(Tree(), entity);
      }
      var _ := Remove(entity);
    }

    /**
     * `destroy_marked`: takes the set of marked entities, leaving it empty,
     * and destroys each of them immediately, in no particular order. Every
     * marked entity must still have a transform.
     */
    method DestroyMarked()
      requires Valid() && markedForDestroy <= indices.Keys
      modifies this
      ensures Valid() && markedForDestroy == {}
      ensures Tree() == Forest(old(Tree().nodes) - old(markedForDestroy), old(Tree().height))
      ensures Objects() == old(Objects()) - old(markedForDestroy)
    {
      ghost var f0, objects0 := Tree(), Objects();
      var marked := markedForDestroy;
      ghost var marked0 := marked;
      markedForDestroy := {};
      while marked != {}
        invariant Valid() && markedForDestroy == {} && marked <= marked0
        invariant Tree() == Forest(f0.nodes - (marked0 - marked), f0.height)
        invariant Objects() == objects0 - (marked0 - marked)
        decreases marked
      {
        var entity :| entity in marked;
        DrainStep(f0.nodes, marked0, marked, entity);
        DrainStep(objects0, marked0, marked, entity);
        DestroyImmediate(entity);
        marked := marked - {entity};
      }
      assert marked0 - {} == marked0;
    }

    /**
     * `update_single`: brings `entity`'s transform, and first those of all
     * its ancestors, up to date (see RefreshChain). Only the transforms of
     * `entity` and its ancestors are written; afterwards each of them holds
     * the world state its own and its ancestors' local fields give, and no
     * local field has changed.
     */
    method UpdateSingle(entity: Entity)
      requires Valid() && Hierarchical(Tree()) && entity in indices && TransformsValid()
      modifies ChainOf(Tree(), Objects(), entity)
      ensures forall a :: a in Ancestors(Tree(), entity) ==>
                Current(Objects()[a], WorldOf(Tree(), old(Locals()), a))
                && Objects()[a].LocalState() == old(Locals())[a]
    {
      ObjectsDistinct();
      LocatedMirrors(transforms, entities, indices);
      ghost var locals := Locals();
      assert Pending(Objects(), locals, Ancestors(Tree(), entity));
      RefreshChain(transforms, entities, indices, Tree(), Objects(), locals, entity);
    }
  }

  /**
   * `transform_update`: refreshes every transform the manager stores, rows
   * in increasing depth, so that each is current with respect to its own
   * and its ancestors' local fields, none of which change.
   */
  method TransformUpdate(manager: TransformManager)
    requires manager.Valid() && Hierarchical(manager.Tree()) && manager.TransformsValid()
    modifies manager.Stored()
    ensures forall e :: e in manager.indices ==>
              Current(manager.Objects()[e], WorldOf(manager.Tree(), old(manager.Locals()), e))
              && manager.Objects()[e].LocalState() == old(manager.Locals())[e]
  {
    manager.ObjectsDistinct();
    ghost var locals := manager.Locals();
    assert Pending(manager.Objects(), locals, manager.indices.Keys);
    RefreshAll(manager.transforms, manager.entities, manager.indices, locals);
  }
}
