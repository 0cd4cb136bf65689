/**
 * NNTreeImpl and NNTreeIterator of libqpdf/NNTree.cc on a document: the nodes are dictionaries that
 * the operations change in place, and an iterator carries the path from the root to its item.
 */
module NNTree {
  import opened Wrappers
  import opened NNTreeModel
  import opened NNTreeLimits
  import opened NNTreeSplit
  import opened NNTreePosition
  import opened NNTreeInvariant
  import opened NNTreeContents
  import opened NNTreeSearch
  import opened NNTreeLookup
  import opened NNTreeTight
  import opened NNTreeTightRemoval

  class NNTreeImpl {
    var objects: Heap
    var nextId: Id
    const treeRoot: Id
    const splitThreshold: nat
    // The tree that the document spells out.
    ghost var tree: Tree

    ghost predicate Valid()
      reads this
    {
      Good(objects, nextId, treeRoot, splitThreshold, tree)
    }

    // The pairs of the tree, in order.
    ghost function Contents(): seq<Pair>
      reads this
    {
      Flat(tree)
    }

    // All upper limits are exact.
    ghost predicate Tight()
      reads this
    {
      TightRoot(objects, tree)
    }

    // newEmpty: a new document object with an empty items array.
    constructor NewEmpty(objects: Heap, nextId: Id, splitThreshold: nat)
      requires splitThreshold >= 3 && forall x :: x in objects ==> x < nextId
      ensures Valid() && Tight() && Contents() == []
      ensures this.splitThreshold == splitThreshold
      ensures forall x :: x in objects ==> x in this.objects && this.objects[x] == objects[x]
    {
      this.objects := objects[nextId := Node(None, Some([]), None)];
      this.nextId := nextId + 1;
      this.treeRoot := nextId;
      this.splitThreshold := splitThreshold;
      this.tree := Leaf(nextId, []);
    }

    // A tree that is in the document already.
    constructor Existing(objects: Heap, nextId: Id, treeRoot: Id, splitThreshold: nat, ghost tree: Tree)
      requires Good(objects, nextId, treeRoot, splitThreshold, tree)
      ensures Valid() && this.objects == objects && this.tree == tree
      ensures this.treeRoot == treeRoot && this.splitThreshold == splitThreshold
    {
      this.objects, this.nextId := objects, nextId;
      this.treeRoot, this.splitThreshold := treeRoot, splitThreshold;
      this.tree := tree;
    }

    function ItemsOf(id: Id): seq<Pair>
      reads this
    {
      if id in objects && objects[id].items.Some? then objects[id].items.value else []
    }

    function KidsOf(id: Id): seq<Id>
      reads this
    {
      if id in objects && objects[id].kids.Some? then objects[id].kids.value else []
    }

    method Begin() returns (it: NNTreeIterator)
      requires Valid()
      ensures fresh(it) && it.impl == this
      ensures if Contents() == [] then it.AtEnd() && it.node == Some(treeRoot) && it.spot == Spot(Top, tree, -1)
              else it.Points() && it.Rank() == 0
    {
      it := new NNTreeIterator(this);
      var _ := it.Deepen(treeRoot, true, true, Top, tree);
    }

    method End() returns (it: NNTreeIterator)
      ensures fresh(it) && it.impl == this && it.AtEnd() && it.node == None
    {
      it := new NNTreeIterator(this);
    }

    method Last() returns (it: NNTreeIterator)
      requires Valid()
      ensures fresh(it) && it.impl == this
      ensures if Contents() == [] then it.AtEnd() else it.Points() && it.Rank() == |Contents()| - 1
    {
      it := new NNTreeIterator(this);
      var _ := it.Deepen(treeRoot, false, true, Top, tree);
    }

    // Before all the others.
    method InsertFirst(key: int, value: int) returns (it: NNTreeIterator)
      requires Valid() && Sorted([Pair(key, value)] + Contents())
      modifies this
      ensures Valid() && fresh(it) && it.impl == this && it.Points() && it.Rank() == 0
      ensures Contents() == [Pair(key, value)] + old(Contents())
      ensures old(Tight()) ==> (Tight() <==> !InsertLags(old(tree), 0, splitThreshold))
    {
      hide Good, Sorted, InsertLags, LeavesLag;
      it := Begin();
      ghost var s := Contents();
      if s == [] {
        EmptyIsRoot(objects, nextId, treeRoot, splitThreshold, Top, tree);
      }
      InsertWithin(it.spot, tree, 0, Pair(key, value));
      assert PutIn(s, 0, Pair(key, value)) == [Pair(key, value)] + s;
      it.itemNumber := 0;
      LagsHere(it.spot.ctx, it.spot.leaf, 0);
      it.InsertInLeaf(0, key, value);
    }

    lemma LagsHere(c: Ctx, leaf: Tree, k: nat)
      requires Valid() && TakesIn(tree, c, leaf, k)
      ensures InsertLags(tree, k, splitThreshold) <==> LeavesLag(c, |leaf.items| + 1, splitThreshold)
    {
      TightPlaces(objects, nextId, treeRoot, splitThreshold, tree, c, leaf, k);
    }

    // The item with the key or, if asked for, the one with the greatest key below it.
    method Find(key: int, returnPrevIfNotFound: bool) returns (it: NNTreeIterator)
      requires Valid()
      ensures fresh(it) && it.impl == this
      ensures it.IsValid() ==> it.Points()
      ensures !it.IsValid() ==>
                && it.node == None
                && if Contents() == [] || key < Contents()[0].key || tree.Leaf? then it.AtEnd()
                   else it.Astray() && it.StoppedFor(key)
      ensures returnPrevIfNotFound ==> IsAtOrBelow(Contents(), key, if it.IsValid() then it.Rank() else -1)
      ensures !returnPrevIfNotFound && it.IsValid() ==>
                0 <= it.Rank() < |Contents()| && Contents()[it.Rank()].key == key
      ensures !returnPrevIfNotFound && !it.IsValid() ==> forall i :: 0 <= i < |Contents()| ==> Contents()[i].key != key
    {
      var firstItem := Begin();
      if !firstItem.IsValid() {
        it := End();
        return;
      }
      NodeFacts(objects, nextId, treeRoot, splitThreshold, firstItem.spot.ctx, firstItem.spot.leaf);
      SpotItem(firstItem.spot, tree);
      if CompareKeys(key, ItemsOf(firstItem.node.value)[firstItem.itemNumber].key) < 0 {
        it := End();
        return;
      }
      it := Descend(key, returnPrevIfNotFound);
      if !it.IsValid() {
        it.WhereStopped(key);
      }
    }

    // The loop of findInternal.
    method Descend(key: int, returnPrevIfNotFound: bool) returns (it: NNTreeIterator)
      requires Valid() && Contents() != [] && Contents()[0].key <= key
      ensures fresh(it) && it.impl == this
      ensures if it.IsValid() then it.Points() else it.node == None && it.StoppedFor(key)
      ensures returnPrevIfNotFound ==> it.IsValid() && IsAtOrBelow(Contents(), key, it.Rank())
      ensures !returnPrevIfNotFound && it.IsValid() ==>
                0 <= it.Rank() < |Contents()| && Contents()[it.Rank()].key == key
      ensures !returnPrevIfNotFound && !it.IsValid() ==> forall i :: 0 <= i < |Contents()| ==> Contents()[i].key != key
    {
      assert tree.id == treeRoot;
      hide Good, Holds, LimRoot, NodeOk, Sorted, IsAtOrBelow;
      var node := treeRoot;
      it := new NNTreeIterator(this);
      ghost var c, t := Top, tree;
      while true
        invariant tree == Plug(c, t) && node == t.id && Heading(c, t, key)
        invariant fresh(it) && it.impl == this && it.path == PathOf(c) && it.itemNumber == -1 && it.node == None
        decreases t
      {
        NodeFacts(objects, nextId, treeRoot, splitThreshold, c, t);
        ghost var d := LookupFacts(c, t, key);
        var items := ItemsOf(node);
        if |items| > 0 {
          SearchLeaf(it, node, items, key, returnPrevIfNotFound, c, t);
          return;
        }
        var kids := KidsOf(node);
        var idx := BinarySearch(objects, key, Kids(kids), true);
        KidFound(objects, c, t, d, splitThreshold, key, idx);
        StepDown(c, t, idx);
        it.path := it.path + [PathElement(node, idx)];
        c, t := Down(c, t.id, t.kids[..idx], t.kids[idx + 1..]), t.kids[idx];
        node := kids[idx];
      }
    }

    // The search ends in a leaf.
    method SearchLeaf(it: NNTreeIterator, node: Id, items: seq<Pair>, key: int, returnPrevIfNotFound: bool,
                      ghost c: Ctx, ghost t: Tree)
      requires Valid() && tree == Plug(c, t) && t.Leaf? && t.items == items && node == t.id && Heading(c, t, key)
      requires Sorted(t.items) && Sorted(Before(c) + t.items + After(c))
      requires it.impl == this && it.path == PathOf(c) && it.itemNumber == -1 && it.node == None
      modifies it
      ensures if it.IsValid() then it.Points() else it.node == None && it.StoppedFor(key)
      ensures returnPrevIfNotFound ==> it.IsValid() && IsAtOrBelow(Contents(), key, it.Rank())
      ensures !returnPrevIfNotFound && it.IsValid() ==>
                0 <= it.Rank() < |Contents()| && Contents()[it.Rank()].key == key
      ensures !returnPrevIfNotFound && !it.IsValid() ==> forall i :: 0 <= i < |Contents()| ==> Contents()[i].key != key
    {
      hide Good;
      ItemsSearchable(objects, items, key);
      var idx := BinarySearch(objects, key, Items(items), returnPrevIfNotFound);
      if returnPrevIfNotFound {
        ItemFound(objects, c, t, key, idx);
      }
      if idx >= 0 {
        it.node, it.itemNumber := Some(node), idx;
        it.spot := Spot(c, t, idx);
        SpotItem(it.spot, tree);
      } else {
        ItemMissing(objects, c, t, key);
      }
    }

    lemma LookupFacts(c: Ctx, t: Tree, key: int) returns (d: nat)
      requires Valid() && tree == Plug(c, t) && Flat(tree) != []
      ensures Holds(objects, t) && LimRoot(objects, t) && NodeOk(t, d, splitThreshold) && Sorted(Flat(t))
      ensures Sorted(Before(c) + Flat(t) + After(c))
      ensures t.Inner? ==> Searchable(objects, key, Kids(IdsOf(t.kids)))
    {
      d := GoodOpens(objects, nextId, treeRoot, splitThreshold, c, t);
      FitsApart(c, t, d, splitThreshold);
      if t.Inner? {
        KidsSearchable(objects, t, d, splitThreshold, key);
      }
    }

    // Set the value of a key, adding the key if need be.
    method Insert(key: int, value: int) returns (it: NNTreeIterator)
      requires Valid()
      modifies this
      ensures Valid() && Contents() == InsertSorted(old(Contents()), key, value)
      ensures fresh(it) && it.impl == this && it.Points()
      ensures 0 <= it.Rank() < |Contents()| && Contents()[it.Rank()] == Pair(key, value)
      ensures old(Tight()) ==>
                (Tight() <==> |Contents()| == |old(Contents())| || !InsertLags(old(tree), it.Rank(), splitThreshold))
    {
      SortedContents(key, value);
      hide Good, Sorted, InsertSorted, InsertLags;
      it := Find(key, true);
      ghost var s := Contents();
      if it.IsValid() {
        InsertAt(it, key, value);
      } else {
        InsertSortedAt(s, key, value, -1);
        assert PutIn(s, 0, Pair(key, value)) == [Pair(key, value)] + s;
        it := InsertFirst(key, value);
      }
    }

    lemma SortedContents(key: int, value: int)
      requires Valid()
      ensures Sorted(Contents()) && Sorted(InsertSorted(Contents(), key, value))
    {
      InsertSortedIsMapUpdate(Contents(), key, value);
    }

    // At the item with the key, or behind the one before it.
    method InsertAt(it: NNTreeIterator, key: int, value: int)
      requires Valid() && it.impl == this && it.Points() && IsAtOrBelow(Contents(), key, it.Rank())
      modifies this, it
      ensures Valid() && Contents() == InsertSorted(old(Contents()), key, value)
      ensures it.Points() && 0 <= it.Rank() < |Contents()| && Contents()[it.Rank()] == Pair(key, value)
      ensures old(Tight()) ==>
                (Tight() <==> |Contents()| == |old(Contents())| || !InsertLags(old(tree), it.Rank(), splitThreshold))
    {
      SortedContents(key, value);
      ghost var s, k := Contents(), it.Rank();
      Inserted(s, k, key, value);
      hide Good, Sorted, InsertSorted, InsertLags, IsAtOrBelow, PutIn;
      SpotItem(it.spot, tree);
      NodeFacts(objects, nextId, treeRoot, splitThreshold, it.spot.ctx, it.spot.leaf);
      hide Flat, Plug, PathOf;
      if CompareKeys(key, ItemsOf(it.node.value)[it.itemNumber].key) == 0 {
        it.SetValue(value);
      } else {
        it.InsertAfter(key, value);
      }
    }

    lemma Inserted(s: seq<Pair>, k: int, key: int, value: int)
      requires Sorted(s) && 0 <= k < |s| && IsAtOrBelow(s, key, k)
      ensures s[k].key == key ==> InsertSorted(s, key, value) == s[k := Pair(s[k].key, value)]
      ensures s[k].key != key ==>
                var t := PutIn(s, k + 1, Pair(key, value));
                InsertSorted(s, key, value) == t && |t| == |s| + 1 && t[k + 1] == Pair(key, value)
    {
      hide Sorted, InsertSorted;
      InsertSortedAt(s, key, value, k);
    }

    // Take out a key, if it is there.
    method RemoveEntry(key: int) returns (found: bool, value: Option<int>)
      requires Valid()
      modifies this
      ensures Valid() && Contents() == RemoveKey(old(Contents()), key)
      ensures found <==> key in MapOf(old(Contents()))
      ensures value == if found then Some(MapOf(old(Contents()))[key]) else None
      ensures old(Tight()) ==> Tight()
    {
      ghost var s := Contents();
      assert Sorted(s);
      hide Good, Sorted;
      var it := Find(key, false);
      MapOfKeys(s, key);
      if !it.IsValid() {
        assert Contents() == s;
        RemoveKeyAbsent(s, key);
        return false, None;
      }
      SpotItem(it.spot, tree);
      NodeFacts(objects, nextId, treeRoot, splitThreshold, it.spot.ctx, it.spot.leaf);
      value := Some(ItemsOf(it.node.value)[it.itemNumber].value);
      MapOfValue(s, it.Rank());
      RemoveKeyAt(s, it.Rank());
      it.Remove();
      return true, value;
    }

    // hasIndex, findObject and findObjectAtOrBelow: the iterator that find returns is compared with the end.
    method HasIndex(key: int) returns (r: bool)
      requires Valid()
      ensures r <==> key in MapOf(Contents())
    {
      MapOfKeys(Contents(), key);
      hide Good, MapOf;
      var it := Find(key, false);
      var end := End();
      it.EqualsIs(end);
      r := !it.Equals(end);
    }

    method FindObject(key: int) returns (r: bool, oh: Option<int>)
      requires Valid()
      ensures r <==> key in MapOf(Contents())
      ensures oh == if r then Some(MapOf(Contents())[key]) else None
    {
      ghost var s := Contents();
      SortedTree();
      MapOfKeys(s, key);
      hide Good, MapOf, Sorted;
      var it := Find(key, false);
      var end := End();
      it.EqualsIs(end);
      if it.Equals(end) {
        return false, None;
      }
      var pair := it.Deref();
      MapOfValue(s, it.Rank());
      return true, Some(pair.value);
    }

    // The offset is how far the key is behind the one that was found.
    method FindObjectAtOrBelow(key: int) returns (r: bool, oh: Option<int>, offset: int)
      requires Valid()
      ensures r <==> exists k :: k in MapOf(Contents()) && k <= key
      ensures !r ==> oh == None
      ensures r ==> offset >= 0 && key - offset in MapOf(Contents()) && oh == Some(MapOf(Contents())[key - offset])
                    && forall k :: k in MapOf(Contents()) ==> k <= key - offset || k > key
    {
      ghost var s := Contents();
      SortedTree();
      hide Good, MapOf, Sorted, IsAtOrBelow;
      var it := Find(key, true);
      var end := End();
      it.EqualsIs(end);
      if it.Equals(end) {
        NoneBelow(s, key);
        return false, None, 0;
      }
      var pair := it.Deref();
      GreatestBelow(s, key, it.Rank());
      return true, Some(pair.value), key - pair.key;
    }

    lemma SortedTree()
      requires Valid()
      ensures Sorted(Contents())
    {
    }

    // What an iteration from begin to end lists.
    method GetAsMap() returns (listing: seq<Pair>, result: map<int, int>)
      requires Valid()
      ensures listing == Contents() && result == MapOf(Contents())
    {
      assert MapOf([]) == map[];
      hide Good, MapOf;
      listing, result := [], map[];
      var it := Begin();
      var end := End();
      ghost var s := Contents();
      it.EqualsIs(end);
      while !it.Equals(end)
        invariant fresh(it) && it.impl == this && end.AtEnd() && it != end
        invariant it.Equals(end) <==> !it.IsValid()
        invariant if it.IsValid() then it.Points() && it.Rank() == |listing| < |s| else |listing| == |s|
        invariant listing == s[..|listing|] && result == MapOf(listing)
        decreases |s| - |listing|
      {
        var pair := it.Deref();
        MapOfSnoc(listing, pair, s);
        listing, result := listing + [pair], result[pair.key := pair.value];
        it.Increment(false);
        it.EqualsIs(end);
      }
    }
  }

  class NNTreeIterator {
    const impl: NNTreeImpl
    var path: seq<PathElement>
    var node: Option<Id>
    // The index of a pair; the source counts keys and values, so its item_number is twice this.
    var itemNumber: int
    ghost var spot: Spot

    constructor (impl: NNTreeImpl)
      ensures this.impl == impl && AtEnd() && node == None
    {
      this.impl := impl;
      path := [];
      node := None;
      itemNumber := -1;
      spot := Spot(Top, Leaf(0, []), -1);
    }

    // The iterator denotes the item at its spot of the tree.
    ghost predicate Points()
      reads this, impl
    {
      && SpotIn(spot, impl.tree)
      && path == PathOf(spot.ctx) && node == Some(spot.leaf.id) && itemNumber == spot.item
    }

    ghost predicate AtEnd()
      reads this
    {
      itemNumber == -1 && path == []
    }

    // Nothing is denoted, but the path leads to the leaf that the search for the key ended in.
    ghost predicate StoppedFor(key: int)
      reads this, impl
    {
      itemNumber == -1 && exists c, leaf: Tree ::
        Heading(c, leaf, key) && leaf.Leaf? && impl.tree == Plug(c, leaf) && path == PathOf(c)
    }

    // Nothing is denoted, and the root is on the path. To operator== this is the end.
    ghost predicate Astray()
      reads this
    {
      itemNumber == -1 && HasNode(path, impl.treeRoot)
    }

    lemma WhereStopped(key: int)
      requires impl.Valid() && StoppedFor(key)
      ensures if impl.tree.Leaf? then AtEnd() else Astray()
    {
      hide Good, Heading;
      RootNode();
      var c, leaf: Tree :| Heading(c, leaf, key) && leaf.Leaf? && impl.tree == Plug(c, leaf) && path == PathOf(c);
      PathFacts(c);
      PlugId(c, leaf);
      if c.Down? {
        PlugIsInner(c, leaf);
        assert path[0].node == impl.treeRoot;
      }
    }

    // Iterators over one tree that denote an item or none are equal exactly if both denote none or both
    // denote the same item.
    lemma EqualsIs(other: NNTreeIterator)
      requires impl == other.impl && impl.Valid()
      requires Points() || AtEnd() || Astray()
      requires other.Points() || other.AtEnd() || other.Astray()
      ensures Points() <==> IsValid()
      ensures other.Points() <==> other.IsValid()
      ensures Equals(other) <==>
                (!Points() && !other.Points()) || (Points() && other.Points() && Rank() == other.Rank())
    {
      hide Good, HasNode;
      if Points() && other.Points() {
        if Equals(other) {
          SamePath(spot.ctx, spot.leaf, other.spot.ctx, other.spot.leaf);
        } else if Rank() == other.Rank() {
          SameRank(impl.objects, impl.nextId, impl.treeRoot, impl.splitThreshold, impl.tree, spot, other.spot);
        }
      }
    }

    // operator*
    method Deref() returns (pair: Pair)
      requires impl.Valid() && Points()
      ensures 0 <= Rank() < |impl.Contents()| && pair == impl.Contents()[Rank()]
    {
      SpotItem(spot, impl.tree);
      NodeFacts(impl.objects, impl.nextId, impl.treeRoot, impl.splitThreshold, spot.ctx, spot.leaf);
      hide Good;
      pair := impl.ItemsOf(node.value)[itemNumber];
    }

    twostate predicate Stays()
      reads this
    {
      path == old(path) && node == old(node) && itemNumber == old(itemNumber) && spot == old(spot)
    }

    // operator==
    predicate Equals(other: NNTreeIterator)
      reads this, other
    {
      || (itemNumber == -1 && other.itemNumber == -1)
      || (|path| == |other.path| && (forall i :: 0 <= i < |path| ==> path[i].kidNumber == other.path[i].kidNumber)
          && itemNumber == other.itemNumber)
    }

    ghost function Rank(): int
      reads this
    {
      NNTreePosition.Rank(spot)
    }

    predicate IsValid()
      reads this
    {
      itemNumber >= 0
    }

    // Down from aNode, the root of the subtree t in the hole of c, to its first or last item. If aNode is
    // on the path already, this is taken for a loop.
    method Deepen(aNode0: Id, first: bool, allowEmpty: bool, ghost c: Ctx, ghost t: Tree) returns (ok: bool)
      requires impl.Valid()
      requires Placed(c, t, aNode0) || HasNode(path, aNode0)
      modifies this
      ensures old(HasNode(path, aNode0)) ==> !ok
      ensures old(Placed(c, t, aNode0)) ==> (ok <==> allowEmpty || Flat(t) != [])
      ensures !ok ==> Stays()
      ensures ok && Flat(t) == [] ==>
                itemNumber == -1 && path == old(path) && node == Some(aNode0) && spot == Spot(c, t, -1)
      ensures ok && Flat(t) != [] ==> Points() && Rank() == |Before(c)| + if first then 0 else |Flat(t)| - 1
    {
      hide Good;
      ghost var cc, cur := c, t;
      var aNode, opath := aNode0, path;
      ghost var looping := HasNode(path, aNode0);
      if Placed(c, t, aNode0) {
        PathApart(impl.objects, impl.nextId, impl.treeRoot, impl.splitThreshold, c, t);
      }
      var seen := set i | 0 <= i < |path| :: path[i].node;
      while true
        invariant node == old(node) && itemNumber == old(itemNumber) && spot == old(spot)
        invariant looping ==> aNode in seen && path == opath
        invariant !looping ==> Placed(cc, cur, aNode)
        invariant forall x :: x in seen ==> HasNode(path, x)
        invariant !looping && Flat(t) == [] ==> cc == c && cur == t && path == opath
        invariant !looping && Flat(t) != [] ==> Flat(cur) != []
        invariant !looping ==> if first then |Before(cc)| == |Before(c)|
                               else |Before(cc)| + |Flat(cur)| == |Before(c)| + |Flat(t)|
        decreases cur
      {
        if !looping {
          PathApart(impl.objects, impl.nextId, impl.treeRoot, impl.splitThreshold, cc, cur);
        }
        if aNode in seen {
          path := opath;
          return false;
        }
        NodeFacts(impl.objects, impl.nextId, impl.treeRoot, impl.splitThreshold, cc, cur);
        seen := seen + {aNode};
        var items := impl.ItemsOf(aNode);
        if |items| > 0 {
          node, itemNumber := Some(aNode), if first then 0 else |items| - 1;
          spot := Spot(cc, cur, itemNumber);
          return true;
        }
        var kids := impl.KidsOf(aNode);
        if |kids| == 0 {
          if !allowEmpty {
            path := opath;
            return false;
          }
          node, itemNumber := Some(aNode), -1;
          spot := Spot(cc, cur, -1);
          return true;
        }
        var kidNumber := if first then 0 else |kids| - 1;
        ghost var above := path;
        path := path + [PathElement(aNode, kidNumber)];
        Reached(above, path);
        StepDown(cc, cur, kidNumber);
        cc := Down(cc, cur.id, cur.kids[..kidNumber], cur.kids[kidNumber + 1..]);
        cur := cur.kids[kidNumber];
        NodeFacts(impl.objects, impl.nextId, impl.treeRoot, impl.splitThreshold, cc, cur);
        aNode := kids[kidNumber];
      }
    }

    // The path leads to the node, which is the root of t in the hole of c.
    ghost predicate Placed(c: Ctx, t: Tree, id: Id)
      reads this, impl
    {
      impl.tree == Plug(c, t) && path == PathOf(c) && id == t.id
    }

    // On from the last path element to the kid before or after; None if there is none. The source
    // would go on to the next one should the kid not be a node of the tree.
    method GetNextKid(backward: bool, ghost c: Ctx, ghost t: Tree) returns (kid: Option<Id>)
      requires impl.Valid() && c.Down? && impl.tree == Plug(c, t) && path == PathOf(c)
      modifies this`path
      ensures |path| > 0 && path[..|path| - 1] == PathOf(c.up)
      ensures if (if backward then c.left else c.right) == [] then kid == None
              else kid == Some(Sibling(c, backward).id) && path == PathOf(Beside(c, t, backward))
    {
      hide Good;
      var last := path[|path| - 1];
      var kidNumber := last.kidNumber + if backward then -1 else 1;
      path := path[..|path| - 1] + [PathElement(last.node, kidNumber)];
      var kids := impl.KidsOf(last.node);
      ghost var p := Inner(c.id, c.left + [t] + c.right);
      NodeFacts(impl.objects, impl.nextId, impl.treeRoot, impl.splitThreshold, c.up, p);
      if 0 <= kidNumber < |kids| {
        BesideProps(c, t, backward);
        assert kids[kidNumber] == Sibling(c, backward).id;
        return Some(kids[kidNumber]);
      }
      return None;
    }

    // To the next or the previous item; an iterator at the end goes to the first or the last one, but not
    // if the root is on its path.
    method Increment(backward: bool)
      requires impl.Valid() && (Points() || AtEnd() || Astray())
      modifies this
      ensures old(Astray()) ==> Stays()
      ensures !old(Astray()) ==>
                var n := |impl.Contents()|;
                var k := if old(Points()) then old(Rank()) + (if backward then -1 else 1)
                         else if backward then n - 1 else 0;
                if 0 <= k < n then Points() && Rank() == k else AtEnd()
    {
      hide Good, HasNode;
      RootNode();
      ghost var n := |impl.Contents()|;
      if itemNumber < 0 {
        var _ := Deepen(impl.treeRoot, !backward, true, Top, impl.tree);
        return;
      }
      SpotItem(spot, impl.tree);
      NodeFacts(impl.objects, impl.nextId, impl.treeRoot, impl.splitThreshold, spot.ctx, spot.leaf);
      ghost var k := Rank();
      itemNumber := itemNumber + if backward then -1 else 1;
      var items := impl.ItemsOf(node.value);
      if itemNumber < 0 || itemNumber >= |items| {
        node, itemNumber := None, -1;
        Climb(backward, spot.ctx, spot.leaf, k);
      } else {
        spot := spot.(item := itemNumber);
        SpotItem(spot, impl.tree);
      }
    }

    // Out of the leaf t, whose first or last item has rank k, and up until a node has a kid on that side.
    method Climb(backward: bool, ghost c0: Ctx, ghost t0: Tree, ghost k: int)
      requires impl.Valid() && impl.tree == Plug(c0, t0) && path == PathOf(c0) && itemNumber == -1
      requires if backward then |Before(c0)| == k else |Before(c0)| + |Flat(t0)| == k + 1
      modifies this
      ensures var n := |impl.Contents()|;
              var k' := k + if backward then -1 else 1;
              if 0 <= k' < n then Points() && Rank() == k' else AtEnd()
    {
      hide Good, HasNode, Before, After, PathOf;
      ghost var c, t := c0, t0;
      while |path| > 0
        invariant impl.tree == Plug(c, t) && path == PathOf(c) && itemNumber == -1
        invariant if backward then |Before(c)| == k else |Before(c)| + |Flat(t)| == k + 1
        decreases c
      {
        PathFacts(c);
        NoPath(c);
        var next := GetNextKid(backward, c, t);
        match next {
          case Some(kid) =>
            BesideProps(c, t, backward);
            ghost var s := Sibling(c, backward);
            c := Beside(c, t, backward);
            NodeFacts(impl.objects, impl.nextId, impl.treeRoot, impl.splitThreshold, c, s);
            FlatPlug(c, s);
            var ok := Deepen(kid, !backward, false, c, s);
            assert ok;
            return;
          case None =>
            path := path[..|path| - 1];
            UpFrom(c, t, backward);
            t := Inner(c.id, c.left + [t] + c.right);
            c := c.up;
        }
      }
      PathFacts(c);
      NoPath(c);
      FlatPlug(c, t);
    }

    // Refresh the limits of aNode, whose path element (or that of its parent-to-be) is at parent,
    // and then of its ancestors, until nothing changes. -1 stands for the end of the path.
    method ResetLimits(aNode0: Id, parent0: int)
      requires -1 <= parent0 < |path| && aNode0 in impl.objects && PathIn(path, impl.objects)
      modifies impl`objects
      ensures impl.objects == ResetH(old(impl.objects), path, aNode0, parent0)
    {
      hide ResetH, Outer;
      var aNode, parent := aNode0, parent0;
      while true
        invariant -1 <= parent < |path| && aNode in impl.objects && PathIn(path, impl.objects)
        invariant ResetH(impl.objects, path, aNode, parent) == ResetH(old(impl.objects), path, aNode0, parent0)
        decreases parent
      {
        var nd := impl.objects[aNode];
        ResetUnfolds(impl.objects, path, aNode, parent);
        if parent == -1 {
          impl.objects := impl.objects[aNode := nd.(limits := None)];
          return;
        }
        var outer := Outer(impl.objects, aNode);
        if outer.Some? {
          if nd.limits == outer {
            return;
          }
          if aNode != path[0].node {
            impl.objects := impl.objects[aNode := nd.(limits := outer)];
          }
        }
        if parent == 0 {
          return;
        }
        aNode := path[parent].node;
        parent := parent - 1;
      }
    }

    lemma ResetUnfolds(h: Heap, path: seq<PathElement>, a: Id, parent: int)
      requires -1 <= parent < |path| && a in h && PathIn(path, h)
      ensures parent == -1 ==> ResetH(h, path, a, parent) == h[a := h[a].(limits := None)]
      ensures parent >= 0 ==>
                var outer := Outer(h, a);
                var h1 := if outer.Some? && a != path[0].node then h[a := h[a].(limits := outer)] else h;
                && PathIn(path, h1)
                && ResetH(h, path, a, parent) ==
                   if outer.Some? && h[a].limits == outer then h
                   else if parent == 0 then h1 else ResetH(h1, path, path[parent].node, parent - 1)
    {
    }

    // Move the elements of an array from an index on to a new one.
    static method Transfer<T>(a: seq<T>, start: nat) returns (firstHalf: seq<T>, secondHalf: seq<T>)
      requires start <= |a|
      ensures firstHalf == a[..start] && secondHalf == a[start..]
    {
      firstHalf, secondHalf := a, [];
      while |firstHalf| > start
        invariant |firstHalf| >= start && |firstHalf| + |secondHalf| == |a|
        invariant firstHalf == a[..start] + a[start + |secondHalf|..]
        invariant secondHalf == a[start..start + |secondHalf|]
      {
        secondHalf := secondHalf + [firstHalf[start]];
        firstHalf := firstHalf[..start] + firstHalf[start + 1..];
      }
    }

    ghost predicate SplittingHere(c: Ctx, t: Tree, d: nat, s: Spot)
      reads this, impl
    {
      && Splitting(impl.objects, impl.nextId, impl.treeRoot, impl.splitThreshold, c, t, d)
      && impl.tree == Plug(c, t) && SpotIn(s, t)
      && spot == Spot(Compose(c, s.ctx), s.leaf, s.item) && Points()
    }

    // Cut the array of a node in two; the second half comes back as the dictionary of a new node.
    method CutNode(toSplit: Id, ghost t: Tree) returns (second: Node)
      requires Size(t) >= 4 && toSplit == t.id && Holds(impl.objects, t)
      modifies impl`objects
      ensures impl.objects == Truncated(old(impl.objects), t)
      ensures forall id :: second == Record(SecondHalf(t, id), None)
    {
      var nd := impl.objects[toSplit];
      var isLeaf := |impl.ItemsOf(toSplit)| > 0;
      var n := if isLeaf then 2 * |impl.ItemsOf(toSplit)| else |impl.KidsOf(toSplit)|;
      var startIdx := StartIdx(n);
      CutBounds(t);
      if isLeaf {
        var items, half := Transfer(nd.items.value, startIdx / 2);
        impl.objects := impl.objects[toSplit := nd.(items := Some(items))];
        second := Node(None, Some(half), None);
      } else {
        var kids, half := Transfer(nd.kids.value, startIdx);
        impl.objects := impl.objects[toSplit := nd.(kids := Some(kids))];
        second := Node(None, None, Some(half));
        assert kids == IdsOf(FirstHalf(t).kids) && forall id :: half == IdsOf(SecondHalf(t, id).kids);
      }
    }

    // The second half of the items or kids of toSplit goes to a new node next to it in the parent's
    // /Kids.
    method HandOver(toSplit: Id, parent: nat, ghost c: Ctx, ghost t: Tree)
      requires c.Down? && Size(t) >= 4 && toSplit == t.id && parent == DepthOf(c) - 1
      requires Holds(impl.objects, t) && HoldsCtx(impl.objects, c, t.id) && c.id != t.id
      requires impl.nextId !in impl.objects && PathIn(path, impl.objects) && OnPath(path, c)
      modifies impl
      ensures impl.nextId == old(impl.nextId) + 1 && impl.tree == old(impl.tree)
      ensures impl.objects == AfterSplit(old(impl.objects), path, c, t, old(impl.nextId))
    {
      ghost var h := impl.objects;
      var secondNode := impl.nextId;
      assert h[c.id].kids == Some(IdsOf(c.left) + [t.id] + IdsOf(c.right)) && c.id in h && c.id != secondNode;
      assert path[parent] == PathElement(c.id, |c.left|);
      var second := CutNode(toSplit, t);
      hide Holds, HoldsCtx, ResetH, FirstHalf, SecondHalf, Cut, OnPath, DepthOf, Size, IdsOf, Truncated, Record;
      ResetLimits(toSplit, parent);
      assert impl.objects[c.id].kids == h[c.id].kids;
      impl.nextId := secondNode + 1;
      impl.objects := impl.objects[secondNode := second];
      ResetLimits(secondNode, parent);
      var pe := path[parent];
      var pnode := impl.objects[pe.node];
      assert pnode.kids == h[c.id].kids;
      var pkids := pnode.kids.value[..pe.kidNumber + 1] + [secondNode] + pnode.kids.value[pe.kidNumber + 1..];
      NewKid(c, t, secondNode);
      impl.objects := impl.objects[pe.node := pnode.(kids := Some(pkids))];
    }

    // The path follows the iterator's item to wherever its half has gone.
    method FollowItem(isLeaf: bool, startIdx: nat, secondNode: Id, parent: nat, ghost c: Ctx, ghost t: Tree,
            ghost s: Spot)
      requires c.Down? && Size(t) >= 4 && parent == DepthOf(c) - 1 && SpotIn(s, t)
      requires isLeaf == t.Leaf? && startIdx == StartIdx(if isLeaf then 2 * Size(t) else Size(t))
      requires path == PathOf(Compose(c, s.ctx)) && node == Some(s.leaf.id) && itemNumber == s.item
      modifies this
      ensures var s' := MoveSpot(c, t, s, secondNode);
              && spot == Spot(Compose(c.up, s'.ctx), s'.leaf, s'.item)
              && path == PathOf(spot.ctx) && node == Some(spot.leaf.id) && itemNumber == spot.item
    {
      ghost var s' := MoveSpot(c, t, s, secondNode);
      spot := Spot(Compose(c.up, s'.ctx), s'.leaf, s'.item);
      SplitPaths(c, t, s, secondNode);
      var pe := path[parent];
      var oldIdx := if isLeaf then 2 * itemNumber else path[parent + 1].kidNumber;
      if oldIdx >= startIdx {
        path := path[parent := pe.(kidNumber := pe.kidNumber + 1)];
        if isLeaf {
          node, itemNumber := Some(secondNode), itemNumber - startIdx / 2;
        } else {
          path := path[parent + 1 := PathElement(secondNode, path[parent + 1].kidNumber - startIdx)];
        }
      }
    }

    // As SplittingHere, but before the first halves of a split root have limits.
    ghost predicate ReadyToHalve(c: Ctx, t: Tree, d: nat, s: Spot)
      reads this, impl
    {
      && c.Down? && Size(t) >= 4 && impl.splitThreshold >= 3
      && Laid(impl.objects, c, t) && (c.up.Down? ==> LimAt(impl.objects, t.id))
      && Fits(c, t, d, impl.splitThreshold + 1) && CtxOk(c, d, impl.splitThreshold) &&
          Fullish(t, d, impl.splitThreshold)
      && impl.treeRoot in impl.objects && impl.objects[impl.treeRoot].limits == None
      && (forall x :: x in impl.objects ==> x < impl.nextId) && Plug(c, t).id == impl.treeRoot
      && impl.tree == Plug(c, t) && SpotIn(s, t)
      && spot == Spot(Compose(c, s.ctx), s.leaf, s.item) && Points()
    }

    // The contents of the root move to a new node below it, so that what is split has a parent.
    method PushRoot(root: Id, isLeaf: bool, ghost t: Tree, ghost d: nat, ghost s: Spot) returns (firstNode: Id)
      requires SplittingHere(Top, t, d, s) && root == t.id && isLeaf == t.Leaf? && Size(t) >= 4
      modifies this, impl
      ensures firstNode == old(impl.nextId)
      ensures ReadyToHalve(Down(Top, root, [], []), Rename(t, firstNode), d, PushSpot(s, firstNode))
      ensures impl.objects == Pushed(old(impl.objects), t, firstNode) && impl.nextId == firstNode + 1
      ensures impl.Contents() == old(impl.Contents()) && Rank() == old(Rank())
    {
      PushFacts(root, t, d, s);
      hide SplittingHere, Fits, Fullish, CtxOk, Laid, LimAt, OuterFrame, PushSpot, Flat, PathOf, Before, Plug, Rename;
      hide Compose, NNTreePosition.Rank;
      firstNode := impl.nextId;
      ghost var c, t', s' := Down(Top, root, [], []), Rename(t, firstNode), PushSpot(s, firstNode);
      var nd := impl.objects[root];
      impl.objects := impl.objects[firstNode := Node(None, nd.items, nd.kids)];
      impl.objects := impl.objects[root := Node(None, None, Some([firstNode]))];
      impl.nextId := firstNode + 1;
      if isLeaf {
        node := Some(firstNode);
      } else {
        path := path[0 := path[0].(node := firstNode)];
      }
      path := [PathElement(root, 0)] + path;
      impl.tree := Plug(c, t');
      spot := Spot(Compose(c, s'.ctx), s'.leaf, s'.item);
    }

    // What pushing the root down makes of the document and the tree.
    lemma PushFacts(root: Id, t: Tree, d: nat, s: Spot)
      requires SplittingHere(Top, t, d, s) && root == t.id && Size(t) >= 4
      ensures root in impl.objects && impl.nextId !in impl.objects && impl.objects[root] == Record(t, None)
      ensures var first := impl.nextId;
              var h', c, t' := Pushed(impl.objects, t, first), Down(Top, root, [], []), Rename(t, first);
              && Laid(h', c, t') && Fullish(t', d, impl.splitThreshold) && CtxOk(c, d, impl.splitThreshold)
              && Fits(c, t', d, impl.splitThreshold + 1)
              && root == impl.treeRoot && h'[root].limits == None && impl.splitThreshold >= 3
              && (forall x :: x in h' ==> x < first + 1)
              && Flat(Plug(c, t')) == Flat(impl.tree) && Plug(c, t').id == root && Size(t') >= 4
      ensures PushPlaced(t, s, impl.nextId, path) && Rank() == NNTreePosition.Rank(s) && itemNumber == s.item
      ensures node == Some(s.leaf.id) && (t.Leaf? <==> s.ctx.Top?)
    {
      hide Fits, Fullish, CtxOk, LimAt, NodeOk, Flat, PushPlaced;
      SplittingFacts(impl.objects, impl.nextId, impl.treeRoot, impl.splitThreshold, path, Top, t, s, d);
      PushLaid(impl.objects, t, impl.nextId, d, impl.splitThreshold);
      ComposeProps(Top, s.ctx, s.leaf);
      PushPlace(t, s, impl.nextId, path);
    }

    // One level of split: the parent, p, takes in the second half of t.
    method SplitOnce(toSplit: Id, parent: nat, isLeaf: bool, n: nat, ghost c: Ctx, ghost t: Tree, ghost d: nat,
            ghost s: Spot)
      requires ReadyToHalve(c, t, d, s) && parent == DepthOf(c) - 1 && toSplit == t.id
      requires isLeaf == t.Leaf? && n == if isLeaf then 2 * Size(t) else Size(t)
      modifies this, impl
      ensures SplittingHere(c.up, Parent(c, t, old(impl.nextId)), d + 1, MoveSpot(c, t, s, old(impl.nextId)))
      ensures impl.Contents() == old(impl.Contents()) && Rank() == old(Rank())
      ensures PathIn(path, impl.objects) && OnPath(path, c.up) && parent < |path| && path[parent].node == c.id
      ensures Halves(old(impl.objects), old(path), c, t)
      ensures impl.objects == AfterSplit(old(impl.objects), old(path), c, t, old(impl.nextId))
    {
      hide Fits, CtxOk, Fullish, Sorted, Distinct, Ids, IdsCtx, LimAt, ResetH, AfterSplit, MoveSpot, Holds, HoldsCtx;
      var id := impl.nextId;
      ghost var p, s' := Parent(c, t, id), MoveSpot(c, t, s, id);
      SplittingFacts(impl.objects, impl.nextId, impl.treeRoot, impl.splitThreshold, path, c, t, s, d);
      SplitLevel(impl.objects, path, c, t, id, d, impl.splitThreshold);
      RootIds(impl.objects, impl.nextId, impl.treeRoot, impl.splitThreshold, c, t, id);
      MoveSpotKeeps(c, t, s, id);
      ComposeProps(c, s.ctx, s.leaf);
      ComposeProps(c.up, s'.ctx, s'.leaf);
      MovedAt(c, t, s, id);
      HandOver(toSplit, parent, c, t);
      FollowItem(isLeaf, StartIdx(n), id, parent, c, t, s);
      impl.tree := Plug(c.up, p);
      assert SplittingHere(c.up, p, d + 1, s');
      SplittingFacts(impl.objects, impl.nextId, impl.treeRoot, impl.splitThreshold, path, c.up, p, s', d + 1);
    }

    // Split the node toSplit, the root of t in the hole of c, if it is over the threshold, and then
    // its parent, which has one kid more. The iterator goes on denoting the same item.
    method Split(toSplit: Id, parent: int, ghost c: Ctx, ghost t: Tree, ghost d: nat, ghost s: Spot)
      requires SplittingHere(c, t, d, s) && toSplit == t.id && parent == DepthOf(c) - 1
      modifies this, impl
      ensures impl.Valid() && Points()
      ensures impl.Contents() == old(impl.Contents()) && Rank() == old(Rank())
      ensures TightBefore(old(impl.objects), c, t) ==>
                (impl.Tight() <==> EndsTight(old(impl.objects), c, t, impl.splitThreshold))
      ensures Size(t) <= impl.splitThreshold ==> impl.tree == old(impl.tree) && impl.objects == old(impl.objects)
      decreases DepthOf(c), 1
    {
      SplitStart(c, t, d, s);
      hide SplittingHere, ReadyToHalve, Points, Good, TightBefore, EndsTight;
      var nkids := |impl.KidsOf(toSplit)|;
      var nitems := 2 * |impl.ItemsOf(toSplit)|;
      var n := if nkids > 0 then nkids else nitems;
      var threshold := if nkids > 0 then impl.splitThreshold else 2 * impl.splitThreshold;
      if n <= threshold {
        SplitDone(c, t, d, s);
        return;
      }
      var isRoot := parent == -1;
      var isLeaf := nitems > 0;
      if isRoot {
        SplitRoot(toSplit, isLeaf, n, t, d, s);
      } else {
        SplitBelow(toSplit, parent, isLeaf, n, c, t, d, s);
      }
    }

    // With a parent: one level, and on with the parent.
    method SplitBelow(toSplit: Id, parent: nat, isLeaf: bool, n: nat, ghost c: Ctx, ghost t: Tree, ghost d: nat,
                      ghost s: Spot)
      requires SplittingHere(c, t, d, s) && toSplit == t.id && parent == DepthOf(c) - 1
      requires c.Down? && ReadyToHalve(c, t, d, s) && Size(t) > impl.splitThreshold
      requires isLeaf == t.Leaf? && n == if isLeaf then 2 * Size(t) else Size(t)
      modifies this, impl
      ensures impl.Valid() && Points()
      ensures impl.Contents() == old(impl.Contents()) && Rank() == old(Rank())
      ensures TightBefore(old(impl.objects), c, t) ==>
                (impl.Tight() <==> EndsTight(old(impl.objects), c, t, impl.splitThreshold))
      decreases DepthOf(c), 0
    {
      TightToSplit(c, t, d, s);
      hide SplittingHere, ReadyToHalve, Points, Good, RootId, MoveSpot, TightBefore, EndsTight, AfterSplit;
      hide OnPath, PathIn, ResetH, TightOver, Halves;
      ghost var h, path0, id := impl.objects, path, impl.nextId;
      ghost var p, s' := Parent(c, t, id), MoveSpot(c, t, s, id);
      SplitOnce(toSplit, parent, isLeaf, n, c, t, d, s);
      var next := path[parent].node;
      if TightBefore(h, c, t) {
        NextTight(h, path0, path, c, t, id, d, impl.splitThreshold);
      }
      ResetParent(next, parent, c, p, d + 1, s');
      Split(next, parent - 1, c.up, p, d + 1, s');
    }

    method ResetParent(next: Id, parent: nat, ghost c: Ctx, ghost p: Tree, ghost d: nat, ghost s: Spot)
      requires c.Down? && p.id == c.id == next && SplittingHere(c.up, p, d, s)
      requires PathIn(path, impl.objects) && OnPath(path, c.up) && parent < |path| && path[parent].node == c.id
      requires parent == DepthOf(c) - 1
      modifies impl`objects
      ensures SplittingHere(c.up, p, d, s) && c.id in old(impl.objects)
      ensures impl.objects == ResetH(old(impl.objects), path, c.id, parent)
    {
      hide Splitting, ResetH, OnPath, PathIn;
      SplitNext(parent, c, p, d, s);
      ResetLimits(next, parent);
    }

    // The root first gets a node below it that takes its contents. It is not split again.
    method SplitRoot(root: Id, isLeaf: bool, n: nat, ghost t: Tree, ghost d: nat, ghost s: Spot)
      requires SplittingHere(Top, t, d, s) && root == t.id && isLeaf == t.Leaf?
      requires n == (if isLeaf then 2 * Size(t) else Size(t)) && Size(t) > impl.splitThreshold >= 3
      modifies this, impl
      ensures impl.Valid() && Points()
      ensures impl.Contents() == old(impl.Contents()) && Rank() == old(Rank())
      ensures TightRoot(old(impl.objects), t) ==> impl.Tight()
    {
      hide SplittingHere, Points, Good, RootId, MoveSpot, PushSpot, AfterSplit, Pushed, TightRoot;
      hide OnPath, PathIn, Laid, Fits, CtxOk, Fullish, LimAt, SpotIn, Flat;
      ghost var h := impl.objects;
      RootToSplit(t, d, s);
      var firstNode := PushRoot(root, isLeaf, t, d, s);
      ghost var c, t', s1 := Down(Top, root, [], []), Rename(t, firstNode), PushSpot(s, firstNode);
      ghost var h1, path1, id := impl.objects, path, impl.nextId;
      if TightRoot(h, t) {
        PushTight(h, t, firstNode);
        OverHere(c, t', d, s1);
        LevelTight(h1, path1, c, t', id, d, impl.splitThreshold);
      }
      SplitOnce(firstNode, 0, isLeaf, n, c, t', d, s1);
      SplitDone(Top, Parent(c, t', id), d + 1, MoveSpot(c, t', s1, id));
    }

    lemma RootToSplit(t: Tree, d: nat, s: Spot)
      requires SplittingHere(Top, t, d, s)
      ensures Laid(impl.objects, Top, t) && Distinct(Ids(t)) && impl.nextId !in impl.objects
    {
      hide Laid, Fits;
      FitsApart(Top, t, d, impl.splitThreshold + 1);
    }

    // What split needs to know if all is tight.
    lemma TightToSplit(c: Ctx, t: Tree, d: nat, s: Spot)
      requires c.Down? && SplittingHere(c, t, d, s) && ReadyToHalve(c, t, d, s)
      ensures impl.nextId !in impl.objects
      ensures TightBefore(impl.objects, c, t) ==> TightOver(impl.objects, path, c, t, d, impl.splitThreshold)
    {
      hide SplittingHere, Laid, Fits, CtxOk, Fullish, LimAt, TightAt, TightRoot, TightAround;
      if TightBefore(impl.objects, c, t) {
        OverHere(c, t, d, s);
      }
    }

    lemma OverHere(c: Ctx, t: Tree, d: nat, s: Spot)
      requires ReadyToHalve(c, t, d, s) && (c.up.Down? ==> TightAt(impl.objects, t.id))
      requires TightRoot(impl.objects, t) && TightAround(impl.objects, c)
      ensures TightOver(impl.objects, path, c, t, d, impl.splitThreshold) && impl.nextId !in impl.objects
    {
      hide Laid, Fits, CtxOk, Fullish, LimAt, TightAt, TightRoot, TightAround, OnPath, PathIn;
      SplittingFacts(impl.objects, impl.nextId, impl.treeRoot, impl.splitThreshold, path, c, t, s, d);
    }

    lemma SplitStart(c: Ctx, t: Tree, d: nat, s: Spot)
      requires SplittingHere(c, t, d, s)
      ensures Points() && impl.splitThreshold >= 3 && SpotIn(s, t) && Size(t) > 0
      ensures impl.ItemsOf(t.id) == (if t.Leaf? then t.items else [])
      ensures impl.KidsOf(t.id) == (if t.Leaf? then [] else IdsOf(t.kids))
      ensures c.Top? ==> t.id == impl.treeRoot
      ensures c.Down? && Size(t) >= 4 ==> ReadyToHalve(c, t, d, s)
    {
      hide Fits, CtxOk, Fullish, LimAt, Holds, HoldsCtx;
      SplittingFacts(impl.objects, impl.nextId, impl.treeRoot, impl.splitThreshold, path, c, t, s, d);
    }

    lemma SplitDone(c: Ctx, t: Tree, d: nat, s: Spot)
      requires SplittingHere(c, t, d, s) && Size(t) <= impl.splitThreshold
      ensures impl.Valid() && Points()
      ensures TightBefore(impl.objects, c, t) ==>
                (impl.Tight() <==> EndsTight(impl.objects, c, t, impl.splitThreshold))
      ensures TightRoot(impl.objects, t) && c.Top? ==> impl.Tight()
    {
      if TightBefore(impl.objects, c, t) {
        DoneTight(impl.objects, c, t, impl.splitThreshold);
      }
      SplittingDone(impl.objects, impl.nextId, impl.treeRoot, impl.splitThreshold, c, t, d);
    }

    // After the call of resetLimits between two levels.
    lemma SplitNext(parent: nat, c: Ctx, p: Tree, d: nat, s: Spot)
      requires c.Down? && p.id == c.id && SplittingHere(c.up, p, d, s)
      requires PathIn(path, impl.objects) && OnPath(path, c.up) && parent < |path| && path[parent].node == c.id
      requires parent == DepthOf(c) - 1
      ensures c.id in impl.objects
      ensures Splitting(ResetH(impl.objects, path, c.id, parent), impl.nextId, impl.treeRoot, impl.splitThreshold,
                c.up, p, d)
      ensures impl.tree == Plug(c.up, p) && SpotIn(s, p)
      ensures spot == Spot(Compose(c.up, s.ctx), s.leaf, s.item) && Points()
    {
      hide Splitting;
      ParentReset(impl.objects, impl.nextId, impl.treeRoot, impl.splitThreshold, path, c.up, p, d);
    }

    // Put a pair in the leaf of the spot at index i, with limits refreshed, and split what is full.
    method InsertInLeaf(i: nat, key: int, value: int)
      requires impl.Valid() && spot.leaf.Leaf? && impl.tree == Plug(spot.ctx, spot.leaf)
      requires path == PathOf(spot.ctx) && node == Some(spot.leaf.id) && i <= |spot.leaf.items|
      requires 0 <= itemNumber <= |spot.leaf.items|
      requires var items := spot.leaf.items[..i] + [Pair(key, value)] + spot.leaf.items[i..];
               Sorted(Before(spot.ctx) + items + After(spot.ctx))
      modifies this, impl
      ensures impl.Valid() && Points()
      ensures var k := |Before(old(spot).ctx)| + i;
              k <= |old(impl.Contents())| && impl.Contents() == PutIn(old(impl.Contents()), k, Pair(key, value))
      ensures Rank() == |Before(old(spot).ctx)| + old(itemNumber)
      ensures old(impl.Tight()) ==>
                (impl.Tight() <==>
                   !LeavesLag(old(spot).ctx, |old(spot).leaf.items| + 1, impl.splitThreshold))
      ensures var c, leaf := old(spot).ctx, old(spot).leaf;
              |leaf.items| < impl.splitThreshold ==>
                impl.tree == Plug(c, Leaf(leaf.id, leaf.items[..i] + [Pair(key, value)] + leaf.items[i..]))
    {
      hide PutIn, SplittingHere, TightBefore, EndsTight, LeavesLag, Before, After, PathOf, Sorted, Flat, Good;
      PutInLeaf(i, key, value);
      Split(node.value, |path| - 1, spot.ctx, spot.leaf, 0, Spot(Top, spot.leaf, itemNumber));
    }

    method PutInLeaf(i: nat, key: int, value: int)
      requires impl.Valid() && spot.leaf.Leaf? && impl.tree == Plug(spot.ctx, spot.leaf)
      requires path == PathOf(spot.ctx) && node == Some(spot.leaf.id) && i <= |spot.leaf.items|
      requires 0 <= itemNumber <= |spot.leaf.items|
      requires var items := spot.leaf.items[..i] + [Pair(key, value)] + spot.leaf.items[i..];
               Sorted(Before(spot.ctx) + items + After(spot.ctx))
      modifies this`spot, impl`objects, impl`tree
      ensures |path| == DepthOf(spot.ctx) && spot.item == itemNumber && impl.tree == Plug(spot.ctx, spot.leaf)
      ensures spot.ctx == old(spot).ctx && spot.leaf.Leaf? && spot.leaf.id == old(spot).leaf.id
      ensures spot.leaf.items == old(spot).leaf.items[..i] + [Pair(key, value)] + old(spot).leaf.items[i..]
      ensures SplittingHere(spot.ctx, spot.leaf, 0, Spot(Top, spot.leaf, itemNumber))
      ensures var k := |Before(old(spot).ctx)| + i;
              k <= |old(impl.Contents())| && impl.Contents() == PutIn(old(impl.Contents()), k, Pair(key, value))
      ensures old(impl.Tight()) ==> AllTightBut(impl.objects, spot.ctx, spot.leaf, impl.splitThreshold)
    {
      hide Good, Splitting, ResetH, Sorted, Plug, Before, After, PathOf, Flat, PathIn, TightRoot, AllTightBut, PutIn;
      var aNode := node.value;
      ghost var c, leaf := spot.ctx, spot.leaf;
      ghost var all := leaf.items[..i] + [Pair(key, value)] + leaf.items[i..];
      LeafListed(i, key, value, all);
      LeafReady(all);
      var nd := impl.objects[aNode];
      var items := nd.items.value[..i] + [Pair(key, value)] + nd.items.value[i..];
      impl.objects := impl.objects[aNode := nd.(items := Some(items))];
      ResetLimits(aNode, |path| - 1);
      spot := Spot(c, Leaf(aNode, items), itemNumber);
      impl.tree := Plug(c, spot.leaf);
      StartSplit(c, spot.leaf, itemNumber);
    }

    // What the leaf of the spot, with the items all, makes of the listing.
    lemma LeafListed(i: nat, key: int, value: int, all: seq<Pair>)
      requires impl.Valid() && spot.leaf.Leaf? && impl.tree == Plug(spot.ctx, spot.leaf) && i <= |spot.leaf.items|
      requires all == spot.leaf.items[..i] + [Pair(key, value)] + spot.leaf.items[i..]
      ensures spot.leaf.id in impl.objects && impl.objects[spot.leaf.id].items == Some(spot.leaf.items)
      ensures var c, k := spot.ctx, |Before(spot.ctx)| + i;
              && Before(c) + all + After(c) == Flat(Plug(c, Leaf(spot.leaf.id, all)))
              && k <= |impl.Contents()| && Before(c) + all + After(c) == PutIn(impl.Contents(), k, Pair(key, value))
    {
      hide Good, Plug, Before, After;
      NodeFacts(impl.objects, impl.nextId, impl.treeRoot, impl.splitThreshold, spot.ctx, spot.leaf);
      InsertWithin(spot, impl.tree, i, Pair(key, value));
      FlatPlug(spot.ctx, Leaf(spot.leaf.id, all));
    }

    // What it makes of the document, limits refreshed.
    lemma LeafReady(all: seq<Pair>)
      requires impl.Valid() && spot.leaf.Leaf? && impl.tree == Plug(spot.ctx, spot.leaf)
      requires path == PathOf(spot.ctx) && |all| == |spot.leaf.items| + 1
      requires Sorted(Before(spot.ctx) + all + After(spot.ctx))
      ensures spot.leaf.id in impl.objects && |path| == DepthOf(spot.ctx)
      ensures var leaf := spot.leaf;
              var h1 := impl.objects[leaf.id := impl.objects[leaf.id].(items := Some(all))];
              && PathIn(path, h1)
              && var h' := ResetH(h1, path, leaf.id, |path| - 1);
                 && Splitting(h', impl.nextId, impl.treeRoot, impl.splitThreshold, spot.ctx, Leaf(leaf.id, all), 0)
                 && (impl.Tight() ==> AllTightBut(h', spot.ctx, Leaf(leaf.id, all), impl.splitThreshold))
    {
      hide Good, Splitting, ResetH, Sorted, TightBefore, ParentTight, TightRoot, PathOf, LeavesLag, PathIn, Plug;
      hide Before, After;
      ItemInserted(impl.objects, impl.nextId, impl.treeRoot, impl.splitThreshold, path, spot.ctx, spot.leaf, all);
      if impl.Tight() {
        InsertTight(impl.objects, impl.nextId, impl.treeRoot, impl.splitThreshold, path, spot.ctx, spot.leaf, all);
        var h1 := impl.objects[spot.leaf.id := impl.objects[spot.leaf.id].(items := Some(all))];
        LagOnly(ResetH(h1, path, spot.leaf.id, |path| - 1), spot.ctx, Leaf(spot.leaf.id, all), impl.splitThreshold);
      }
    }

    // All is tight around a leaf that took in a pair, and split leaves it so but for the lag it may leave.
    ghost predicate AllTightBut(h: Heap, c: Ctx, leaf: Tree, threshold: nat)
      requires leaf.Leaf?
    {
      TightBefore(h, c, leaf) && (EndsTight(h, c, leaf, threshold) <==> !LeavesLag(c, |leaf.items|, threshold))
    }

    lemma StartSplit(c: Ctx, leaf: Tree, item: int)
      requires Splitting(impl.objects, impl.nextId, impl.treeRoot, impl.splitThreshold, c, leaf, 0)
      requires impl.tree == Plug(c, leaf) && leaf.Leaf? && 0 <= item < |leaf.items| && spot == Spot(c, leaf, item)
      requires path == PathOf(c) && node == Some(leaf.id) && itemNumber == item
      ensures SplittingHere(c, leaf, 0, Spot(Top, leaf, item))
    {
    }

    // Insert after the item of the iterator, which then denotes the new item, or at the beginning if it
    // denotes none; then it may go on denoting none. The caller sees to it that the key fits there.
    method InsertAfter(key: int, value: int)
      requires impl.Valid() && (Points() || AtEnd() || Astray())
      requires var k := if Points() then Rank() + 1 else 0;
               0 <= k <= |impl.Contents()| && Sorted(PutIn(impl.Contents(), k, Pair(key, value)))
      modifies this, impl
      ensures impl.Valid()
      ensures var k := if old(Points()) then old(Rank()) + 1 else 0;
              && 0 <= k <= |old(impl.Contents())|
              && impl.Contents() == PutIn(old(impl.Contents()), k, Pair(key, value))
              && (!old(Astray()) ==> Points() && Rank() == k)
              && (old(impl.Tight()) ==> (impl.Tight() <==> !InsertLags(old(impl.tree), k, impl.splitThreshold)))
      ensures old(Astray()) ==> Stays()
    {
      hide Good, Sorted, InsertLags;
      if !IsValid() {
        ghost var p, all := Pair(key, value), impl.Contents();
        assert PutIn(all, 0, p) == [p] + all;
        var _ := impl.InsertFirst(key, value);
        RootNode();
        var _ := Deepen(impl.treeRoot, true, false, Top, impl.tree);
        return;
      }
      ghost var k, s, old_spot := Rank() + 1, impl.Contents(), spot;
      SpotItem(spot, impl.tree);
      InsertWithin(spot, impl.tree, itemNumber + 1, Pair(key, value));
      impl.LagsHere(spot.ctx, spot.leaf, k);
      InsertInLeaf(itemNumber + 1, key, value);
      assert Rank() == k - 1;
      Increment(false);
    }

    lemma RootNode()
      requires impl.Valid()
      ensures impl.tree.id == impl.treeRoot
    {
    }

    // Give the item of the iterator another value.
    method SetValue(value: int)
      requires impl.Valid() && Points()
      modifies this, impl
      ensures impl.Valid() && Points() && Rank() == old(Rank())
      ensures var s, k := old(impl.Contents()), Rank();
              0 <= k < |s| && impl.Contents() == s[k := Pair(s[k].key, value)]
      ensures old(impl.Tight()) ==> impl.Tight()
    {
      hide Good;
      var aNode := node.value;
      ghost var c, leaf := spot.ctx, spot.leaf;
      NodeFacts(impl.objects, impl.nextId, impl.treeRoot, impl.splitThreshold, c, leaf);
      var nd := impl.objects[aNode];
      var items := nd.items.value[itemNumber := Pair(nd.items.value[itemNumber].key, value)];
      ghost var leaf' := Leaf(aNode, items);
      ValueReplaced(impl.objects, impl.nextId, impl.treeRoot, impl.splitThreshold, c, leaf, items);
      ReplacedWithin(spot, impl.tree, Pair(nd.items.value[itemNumber].key, value));
      if impl.Tight() {
        ValuesTight(impl.objects, impl.nextId, impl.treeRoot, impl.splitThreshold, c, leaf, items);
      }
      hide Plug, Before, After, PathOf, Flat;
      impl.objects := impl.objects[aNode := nd.(items := Some(items))];
      impl.tree := Plug(c, leaf');
      spot := Spot(c, leaf', itemNumber);
    }

    // Take out the item of the iterator, which then denotes the one that followed.
    method Remove()
      requires impl.Valid() && Points()
      modifies this, impl
      ensures impl.Valid()
      ensures var k := old(Rank());
              && 0 <= k < |old(impl.Contents())| && impl.Contents() == TakeOut(old(impl.Contents()), k)
              && if k < |impl.Contents()| then Points() && Rank() == k else AtEnd()
      ensures old(impl.Tight()) ==> impl.Tight()
    {
      NodeFacts(impl.objects, impl.nextId, impl.treeRoot, impl.splitThreshold, spot.ctx, spot.leaf);
      if |impl.ItemsOf(node.value)| > 1 {
        RemoveFromLeaf();
      } else if |path| == 0 {
        RemoveLast();
      } else {
        RemoveNode();
      }
    }

    // The item goes from its leaf, which keeps others, and limits that it set are refreshed.
    method DropItem()
      requires impl.Valid() && Points() && |spot.leaf.items| > 1
      modifies impl
      ensures impl.Valid()
      ensures var leaf := spot.leaf;
              impl.tree == Plug(spot.ctx, Leaf(leaf.id, leaf.items[..itemNumber] + leaf.items[itemNumber + 1..]))
      ensures old(impl.Tight()) ==> impl.Tight()
    {
      hide Good, ResetH, TightRoot;
      var aNode := node.value;
      ghost var c, leaf := spot.ctx, spot.leaf;
      NodeFacts(impl.objects, impl.nextId, impl.treeRoot, impl.splitThreshold, c, leaf);
      ItemRemoved(impl.objects, impl.nextId, impl.treeRoot, impl.splitThreshold, path, c, leaf, itemNumber);
      if impl.Tight() {
        ItemTight(impl.objects, impl.nextId, impl.treeRoot, impl.splitThreshold, path, c, leaf, itemNumber);
      }
      hide Plug, PathOf, PathIn;
      var nd := impl.objects[aNode];
      var items := nd.items.value[..itemNumber] + nd.items.value[itemNumber + 1..];
      impl.objects := impl.objects[aNode := nd.(items := Some(items))];
      var nitems := |items|;
      if itemNumber == 0 || itemNumber == nitems {
        ResetLimits(aNode, |path| - 1);
      }
      impl.tree := Plug(c, Leaf(aNode, items));
    }

    // Some items are left in the leaf.
    method RemoveFromLeaf()
      requires impl.Valid() && Points() && |spot.leaf.items| > 1
      modifies this, impl
      ensures impl.Valid()
      ensures var k := old(Rank());
              && 0 <= k < |old(impl.Contents())| && impl.Contents() == TakeOut(old(impl.Contents()), k)
              && if k < |impl.Contents()| then Points() && Rank() == k else AtEnd()
      ensures old(impl.Tight()) ==> impl.Tight()
    {
      hide Good;
      ghost var c, leaf := spot.ctx, spot.leaf;
      TakeOutWithin(spot, impl.tree);
      DropItem();
      ghost var leaf' := Leaf(leaf.id, leaf.items[..itemNumber] + leaf.items[itemNumber + 1..]);
      FlatPlug(c, leaf');
      hide Plug, Before, After, PathOf, Flat;
      NodeFacts(impl.objects, impl.nextId, impl.treeRoot, impl.splitThreshold, c, leaf');
      var nitems := |impl.ItemsOf(node.value)|;
      if itemNumber == nitems {
        itemNumber := itemNumber - 1;
        spot := Spot(c, leaf', itemNumber);
        Increment(false);
      } else {
        // The successor is where the removed item was.
        spot := Spot(c, leaf', itemNumber);
        SpotItem(spot, impl.tree);
      }
    }

    // The kid goes from its parent, which keeps others, and limits that it set are refreshed.
    method DropKid(element: PathElement, enode: Node, kids: seq<Id>, ghost c: Ctx, ghost dead: Id, ghost d: nat)
      requires Pruning(impl.objects, impl.nextId, impl.treeRoot, impl.splitThreshold, c, dead, d)
      requires path == PathOf(c) && c.left + c.right != []
      requires element == PathElement(c.id, |c.left|) && c.id in impl.objects && enode == impl.objects[c.id]
      requires kids == IdsOf(c.left + c.right)
      modifies impl
      ensures impl.Valid() && impl.Contents() == Before(c) + After(c)
      ensures impl.tree == Plug(c.up, Inner(c.id, c.left + c.right))
      ensures old(TightCtx(impl.objects, c)) ==> impl.Tight()
    {
      hide Good, ResetH, TightRoot, TightCtx, Pruning, Holds, HoldsCtx;
      hide Plug, PathOf, OnPath, PathIn, Before, After, Flat;
      PruneFacts(impl.objects, impl.nextId, impl.treeRoot, impl.splitThreshold, path, c, dead, d);
      PruneStop(impl.objects, impl.nextId, impl.treeRoot, impl.splitThreshold, path, c, dead, d);
      if TightCtx(impl.objects, c) {
        StopTight(impl.objects, impl.nextId, impl.treeRoot, impl.splitThreshold, path, c, dead, d);
      }
      hide IdsOf;
      var nkids := |kids|;
      impl.objects := impl.objects[element.node := enode.(kids := Some(kids))];
      if element.kidNumber == 0 || element.kidNumber == nkids {
        ResetLimits(element.node, |path| - 2);
      }
      impl.tree := Plug(c.up, Inner(c.id, c.left + c.right));
    }

    // The node above keeps kids: go to the item after the removed one.
    method PruneEnd(element: PathElement, enode: Node, kids: seq<Id>, ghost c: Ctx, ghost dead: Id, ghost d: nat)
      requires Pruning(impl.objects, impl.nextId, impl.treeRoot, impl.splitThreshold, c, dead, d)
      requires path == PathOf(c) && c.left + c.right != []
      requires element == PathElement(c.id, |c.left|) && c.id in impl.objects && enode == impl.objects[c.id]
      requires kids == IdsOf(c.left + c.right)
      modifies this, impl
      ensures impl.Valid() && impl.Contents() == Before(c) + After(c)
      ensures var k := |Before(c)|; if k < |impl.Contents()| then Points() && Rank() == k else AtEnd()
      ensures old(TightCtx(impl.objects, c)) ==> impl.Tight()
    {
      hide HasNode, TightRoot, TightCtx, HoldsCtx, LimCtx, CtxOk, Sorted, Distinct, Holds;
      assert c.Down?;
      hide Pruning, Good, Plug, Before, After, PathOf, Flat, OnPath, PathIn;
      PruneFacts(impl.objects, impl.nextId, impl.treeRoot, impl.splitThreshold, path, c, dead, d);
      DropKid(element, enode, kids, c, dead, d);
      var toLast := element.kidNumber == |kids|;
      var kidNumber := if toLast then element.kidNumber - 1 else element.kidNumber;
      node, itemNumber := None, -1;
      path := path[..|path| - 1] + [element.(kidNumber := kidNumber)];
      ToKid(kids, kidNumber, !toLast, c);
      if toLast {
        Increment(false);
      }
    }

    // To the first item of a kid after the place of the dead one, or to the last item before it.
    method ToKid(kids: seq<Id>, k: nat, first: bool, ghost c: Ctx)
      requires impl.Valid() && c.Down? && impl.tree == Plug(c.up, Inner(c.id, c.left + c.right))
      requires kids == IdsOf(c.left + c.right) && path == PathOf(c.up) + [PathElement(c.id, k)]
      requires if first then k == |c.left| < |kids| else k == |c.left| - 1
      modifies this
      ensures Points() && 0 <= Rank() < |impl.Contents()| && Rank() == |Before(c)| - if first then 0 else 1
    {
      hide Good, Plug, Before, After, PathOf, Flat;
      ghost var p := Inner(c.id, c.left + c.right);
      PruneSpot(c, p, k);
      ghost var cc := Down(c.up, c.id, p.kids[..k], p.kids[k + 1..]);
      Descend(kids[k], first, cc, p.kids[k]);
    }

    // deepen on a kid, which is never without items.
    method Descend(kid: Id, first: bool, ghost c: Ctx, ghost t: Tree)
      requires impl.Valid() && c.Down? && impl.tree == Plug(c, t) && path == PathOf(c) && kid == t.id
      modifies this
      ensures Points() && Rank() == |Before(c)| + if first then 0 else |Flat(t)| - 1
      ensures 0 <= Rank() < |impl.Contents()| == |Before(c)| + |Flat(t)| + |After(c)|
    {
      NodeFacts(impl.objects, impl.nextId, impl.treeRoot, impl.splitThreshold, c, t);
      FlatPlug(c, t);
      var _ := Deepen(kid, first, true, c, t);
      SpotItem(spot, impl.tree);
    }

    // The leaf is left without items: it goes, and so do the nodes above that it leaves without kids.
    method RemoveNode()
      requires impl.Valid() && Points() && path != [] && |spot.leaf.items| == 1
      modifies this, impl
      ensures impl.Valid()
      ensures var k := old(Rank());
              && 0 <= k < |old(impl.Contents())| && impl.Contents() == TakeOut(old(impl.Contents()), k)
              && if k < |impl.Contents()| then Points() && Rank() == k else AtEnd()
      ensures old(impl.Tight()) ==> impl.Tight()
    {
      ghost var c, leaf := spot.ctx, spot.leaf;
      OnlyItemOut(spot, impl.tree, path);
      hide Good, Pruning, Before, After, Flat, PathOf, TakeOut;
      EmptyLeaf();
      Prune(c, leaf.id);
    }

    method EmptyLeaf()
      requires impl.Valid() && Points() && spot.ctx.Down? && |spot.leaf.items| == 1
      modifies impl`objects
      ensures Pruning(impl.objects, impl.nextId, impl.treeRoot, impl.splitThreshold, spot.ctx, spot.leaf.id, 0)
      ensures old(impl.Tight()) ==> TightCtx(impl.objects, spot.ctx)
    {
      hide TightRoot, TightCtx;
      PlugId(spot.ctx, spot.leaf);
      NodeFacts(impl.objects, impl.nextId, impl.treeRoot, impl.splitThreshold, spot.ctx, spot.leaf);
      PruneStart(impl.objects, impl.nextId, impl.treeRoot, impl.splitThreshold, spot.ctx, spot.leaf);
      if impl.Tight() {
        EmptyTight(impl.objects, impl.nextId, impl.treeRoot, impl.splitThreshold, spot.ctx, spot.leaf);
      }
      var nd := impl.objects[node.value];
      impl.objects := impl.objects[node.value := nd.(items := Some([]))];
    }

    // Take the empty node dead out of its parent, and go on with the parent if that is empty now.
    method Prune(ghost c0: Ctx, ghost dead0: Id)
      requires Pruning(impl.objects, impl.nextId, impl.treeRoot, impl.splitThreshold, c0, dead0, 0) &&
                path == PathOf(c0)
      modifies this, impl
      ensures impl.Valid() && impl.Contents() == Before(c0) + After(c0)
      ensures var k := |Before(c0)|; if k < |impl.Contents()| then Points() && Rank() == k else AtEnd()
      ensures old(TightCtx(impl.objects, c0)) ==> impl.Tight()
    {
      hide Good, Pruning, TightRoot, TightCtx;
      ghost var c, dead, d := c0, dead0, 0;
      while true
        invariant Pruning(impl.objects, impl.nextId, impl.treeRoot, impl.splitThreshold, c, dead, d)
        invariant path == PathOf(c)
        invariant Before(c) == Before(c0) && After(c) == After(c0)
        invariant old(TightCtx(impl.objects, c0)) ==> TightCtx(impl.objects, c)
        decreases c
      {
        PruneFacts(impl.objects, impl.nextId, impl.treeRoot, impl.splitThreshold, path, c, dead, d);
        var element := path[|path| - 1];
        var enode := impl.objects[element.node];
        var kids := enode.kids.value[..element.kidNumber] + enode.kids.value[element.kidNumber + 1..];
        if |kids| > 0 {
          PruneEnd(element, enode, kids, c, dead, d);
          return;
        }
        assert |c.left + c.right| == 0;
        if |path| == 1 {
          EmptyRoot(element, enode, c, dead, d);
          return;
        }
        PruneUp(impl.objects, impl.nextId, impl.treeRoot, impl.splitThreshold, c, dead, d);
        if TightCtx(impl.objects, c) {
          UpTight(impl.objects, impl.nextId, impl.treeRoot, impl.splitThreshold, c, dead, d);
        }
        impl.objects := impl.objects[element.node := enode.(kids := Some(kids))];
        path := path[..|path| - 1];
        dead, d, c := c.id, d + 1, c.up;
      }
    }

    // Nothing is left but the root, which becomes a leaf.
    method EmptyRoot(element: PathElement, enode: Node, ghost c: Ctx, ghost dead: Id, ghost d: nat)
      requires Pruning(impl.objects, impl.nextId, impl.treeRoot, impl.splitThreshold, c, dead, d)
      requires c.up.Top? && c.left == [] && c.right == [] && element.node == c.id
      requires c.id in impl.objects && enode == impl.objects[c.id]
      modifies this, impl
      ensures impl.Valid() && impl.Contents() == Before(c) + After(c) == [] && AtEnd() && impl.Tight()
    {
      hide Good, Pruning;
      PruneRoot(impl.objects, impl.nextId, impl.treeRoot, impl.splitThreshold, c, dead, d);
      impl.objects := impl.objects[element.node := Node(enode.limits, Some([]), None)];
      impl.tree := Leaf(impl.treeRoot, []);
      path := [];
      node, itemNumber := Some(impl.treeRoot), -1;
    }

    // The only item of a root without kids.
    method RemoveLast()
      requires impl.Valid() && Points() && path == [] && |impl.ItemsOf(node.value)| == 1
      modifies this, impl
      ensures impl.Valid() && impl.Contents() == [] && |old(impl.Contents())| == 1 && old(Rank()) == 0 && AtEnd()
      ensures impl.Tight()
    {
      ghost var leaf := spot.leaf;
      var aNode := node.value;
      NodeFacts(impl.objects, impl.nextId, impl.treeRoot, impl.splitThreshold, spot.ctx, leaf);
      PathFacts(spot.ctx);
      assert spot.ctx == Top;
      var nd := impl.objects[aNode];
      impl.objects := impl.objects[aNode := nd.(items := Some([]))];
      impl.tree := Leaf(aNode, []);
      assert Ids(impl.tree) == Ids(leaf);
      node, itemNumber := Some(impl.treeRoot), -1;
    }
  }

  ghost predicate HasNode(path: seq<PathElement>, id: Id) {
    exists i :: 0 <= i < |path| && path[i].node == id
  }

  lemma Reached(above: seq<PathElement>, path: seq<PathElement>)
    requires |path| == |above| + 1 && path[..|above|] == above
    ensures HasNode(path, path[|above|].node) && forall x :: HasNode(above, x) ==> HasNode(path, x)
  {
    assert forall i :: 0 <= i < |above| ==> path[i] == above[i];
  }

  lemma NoPath(c: Ctx)
    ensures c.Top? <==> |PathOf(c)| == 0
    ensures c.Top? ==> Before(c) == [] && After(c) == []
  {
  }

  // A node is as far from the outer side as its outer kid.
  lemma UpFrom(c: Ctx, t: Tree, backward: bool)
    requires c.Down? && (if backward then c.left else c.right) == []
    ensures var p := Inner(c.id, c.left + [t] + c.right);
            && Plug(c.up, p) == Plug(c, t)
            && if backward then |Before(c.up)| == |Before(c)|
               else |Before(c.up)| + |Flat(p)| == |Before(c)| + |Flat(t)|
  {
    FlatAllMiddle(c.left, t, c.right);
  }

  // The same kid on each level.
  predicate SameKids(p: seq<PathElement>, p': seq<PathElement>) {
    |p| == |p'| && forall i :: 0 <= i < |p| ==> p[i].kidNumber == p'[i].kidNumber
  }

  // The kid numbers on the way say which hole and which subtree it is.
  lemma {:induction false} SamePath(c: Ctx, t: Tree, c': Ctx, t': Tree)
    requires Plug(c, t) == Plug(c', t') && SameKids(PathOf(c), PathOf(c'))
    ensures c == c' && t == t'
  {
    PathFacts(c);
    PathFacts(c');
    if c.Down? && c'.Down? {
      LastKids(PathOf(c.up), PathElement(c.id, |c.left|), PathOf(c'.up), PathElement(c'.id, |c'.left|));
      hide PathOf, SameKids;
      SamePath(c.up, Inner(c.id, c.left + [t] + c.right), c'.up, Inner(c'.id, c'.left + [t'] + c'.right));
      hide Plug;
      SameSides(c.left, t, c.right, c'.left, t', c'.right);
    }
  }

  lemma LastKids(p: seq<PathElement>, e: PathElement, p': seq<PathElement>, e': PathElement)
    requires SameKids(p + [e], p' + [e'])
    ensures SameKids(p, p') && e.kidNumber == e'.kidNumber
  {
    var q, q' := p + [e], p' + [e'];
    assert q[|p|] == e && q'[|p|] == e';
    assert forall i :: 0 <= i < |p| ==> q[i] == p[i] && q'[i] == p'[i];
  }

  lemma SameSides(l: seq<Tree>, t: Tree, r: seq<Tree>, l': seq<Tree>, t': Tree, r': seq<Tree>)
    requires l + [t] + r == l' + [t'] + r' && |l| == |l'|
    ensures l == l' && t == t' && r == r'
  {
    var ks, ks' := l + [t] + r, l' + [t'] + r';
    assert l == ks[..|l|] && l' == ks'[..|l|] && t == ks[|l|] && t' == ks'[|l|];
    assert r == ks[|l| + 1..] && r' == ks'[|l| + 1..];
  }

  lemma {:induction false} SameRank(h: Heap, next: Id, root: Id, threshold: nat, t: Tree, s: Spot, s': Spot)
    requires Good(h, next, root, threshold, t) && SpotIn(s, t) && SpotIn(s', t) && Rank(s) == Rank(s')
    ensures s == s'
  {
    if t.Leaf? {
      PlugsLeaf(s.ctx, s.leaf);
      PlugsLeaf(s'.ctx, s'.leaf);
    } else {
      var d: nat :| NodeOk(t, d, threshold);
      OneTakesIn(t, d, threshold, s.ctx, s.leaf, s'.ctx, s'.leaf, Rank(s) + 1);
    }
  }

  lemma NoneBelow(s: seq<Pair>, key: int)
    requires Sorted(s) && IsAtOrBelow(s, key, -1)
    ensures forall k :: k in MapOf(s) ==> k > key
  {
    forall k | k in MapOf(s)
      ensures k > key
    {
      MapOfKeys(s, k);
    }
  }

  lemma GreatestBelow(s: seq<Pair>, key: int, i: int)
    requires Sorted(s) && 0 <= i < |s| && IsAtOrBelow(s, key, i)
    ensures var p := s[i];
            && p.key <= key && p.key in MapOf(s) && MapOf(s)[p.key] == p.value
            && forall k :: k in MapOf(s) ==> k <= p.key || k > key
  {
    MapOfKeys(s, s[i].key);
    MapOfValue(s, i);
    hide MapOf;
    forall k | k in MapOf(s)
      ensures k <= s[i].key || k > key
    {
      MapOfKeys(s, k);
    }
  }

  function TakeOut(s: seq<Pair>, k: nat): seq<Pair>
    requires k < |s|
  {
    s[..k] + s[k + 1..]
  }

  // The place of the iterator once the root is pushed down, and its path.
  ghost predicate PushPlaced(t: Tree, s: Spot, first: Id, path: seq<PathElement>) {
    var c, t', s' := Down(Top, t.id, [], []), Rename(t, first), PushSpot(s, first);
    var place := Spot(Compose(c, s'.ctx), s'.leaf, s'.item);
    && SpotIn(s', t') && SpotIn(place, Plug(c, t')) && s'.item == s.item && Rank(place) == Rank(s)
    && (if s.ctx.Top? then
          PathOf(place.ctx) == [PathElement(t.id, 0)] + path && s'.leaf.id == first
        else
          && |path| > 0 && s'.leaf.id == s.leaf.id
          && PathOf(place.ctx) == [PathElement(t.id, 0)] + path[0 := path[0].(node := first)])
  }

  lemma PushPlace(t: Tree, s: Spot, first: Id, path: seq<PathElement>)
    requires SpotIn(s, t) && path == PathOf(s.ctx)
    ensures PushPlaced(t, s, first, path) && (t.Leaf? <==> s.ctx.Top?)
  {
    PushSpotKeeps(t, s, first);
    var c, s' := Down(Top, t.id, [], []), PushSpot(s, first);
    ComposeProps(c, s'.ctx, s'.leaf);
    if s.ctx.Down? {
      PlugIsInner(s.ctx, s.leaf);
    }
    hide OuterFrame;
    assert PathOf(c) == [PathElement(t.id, 0)] && Before(c) == [];
  }

  lemma ReplacedWithin(s: Spot, t: Tree, p: Pair)
    requires SpotIn(s, t)
    ensures 0 <= Rank(s) < |Flat(t)| && Flat(t)[Rank(s)] == s.leaf.items[s.item]
    ensures Flat(Plug(s.ctx, Leaf(s.leaf.id, s.leaf.items[s.item := p]))) == Flat(t)[Rank(s) := p]
  {
    FlatPlug(s.ctx, s.leaf);
    FlatPlug(s.ctx, Leaf(s.leaf.id, s.leaf.items[s.item := p]));
  }

  lemma TakeOutWithin(s: Spot, t: Tree)
    requires SpotIn(s, t)
    ensures 0 <= Rank(s) < |Flat(t)|
    ensures Before(s.ctx) + (s.leaf.items[..s.item] + s.leaf.items[s.item + 1..]) + After(s.ctx) ==
              TakeOut(Flat(t), Rank(s))
  {
    FlatPlug(s.ctx, s.leaf);
  }

  lemma OnlyItemOut(s: Spot, t: Tree, path: seq<PathElement>)
    requires SpotIn(s, t) && |s.leaf.items| == 1 && path == PathOf(s.ctx)
    ensures Rank(s) == |Before(s.ctx)| < |Flat(t)| && Before(s.ctx) + After(s.ctx) == TakeOut(Flat(t), Rank(s))
    ensures path != [] ==> s.ctx.Down?
  {
    TakeOutWithin(s, t);
    hide Before, After, Flat, TakeOut;
    assert s.leaf.items[..0] + s.leaf.items[1..] == [];
    assert Before(s.ctx) + [] + After(s.ctx) == Before(s.ctx) + After(s.ctx);
  }

  function PutIn(s: seq<Pair>, k: nat, p: Pair): seq<Pair>
    requires k <= |s|
  {
    s[..k] + [p] + s[k..]
  }

  // Where a pair put into a leaf comes to stand in the listing.
  lemma InsertWithin(s: Spot, t: Tree, i: nat, p: Pair)
    requires Plug(s.ctx, s.leaf) == t && s.leaf.Leaf? && i <= |s.leaf.items|
    ensures var k := |Before(s.ctx)| + i;
            && k <= |Flat(t)|
            && Before(s.ctx) + (s.leaf.items[..i] + [p] + s.leaf.items[i..]) + After(s.ctx) == PutIn(Flat(t), k, p)
  {
    FlatPlug(s.ctx, s.leaf);
  }
}
