/** The read-only B-tree index: opening an index file, the descent of
    `search` that records a path stack, and the iterator that walks the tree
    in key order from that stack. */
module BTreeIndex {
  import opened Results
  import opened Bytes
  import opened BTreeNodes

  /** The index file header: the geometry and the root's location. */
  datatype Header = Header(geometry: Geometry, rootLocation: Int64)

  /** The constructor's header read: the 16 header bytes at offset 0, any
      shorter read being an EOF wrapped in a DeserializationException. */
  function ReadHeader(file: seq<byte>): (r: Result<Header>)
    ensures r.Ok? <==> |file| >= HEADER_SIZE
  {
    if FileRead(file, 0, HEADER_SIZE) != HEADER_SIZE then Err(Deserialization)
    else Ok(Header(Geometry(Int32At(file, 0), Int32At(file, 4)), Int64At(file, 8)))
  }

  /** new BTreeIndex(...): the header, then the node buffer of nodeSize bytes
      and the root fetched from its location. */
  function Open(file: seq<byte>): (r: Result<(Header, Node)>)
    ensures r.Ok? ==> |file| >= HEADER_SIZE && Fitted(r.value.0.geometry, r.value.1)
    ensures |file| < HEADER_SIZE ==> r == Err(Deserialization)
  {
    var h :- ReadHeader(file);
    var root :- Load(file, h.geometry, h.rootLocation);
    Ok((h, root))
  }

  /** What search and iteration see of an open index: the root node the
      constructor loaded and, for each location, the node fetchNode loads
      from it. */
  datatype Index = Index(root: Node, nodes: map<Int64, Node>)

  /** IterationRecord: a node and the slot of the next key to yield. */
  datatype Frame = Frame(node: Node, index: int)

  /** Entry: a key and its value. */
  datatype Entry = Entry(key: Key, value: Int64)

  /** The live key slots, value slots and (for an inner node) child slots exist. */
  predicate Keyed(n: Node)
  {
    0 <= n.numKeys <= |n.keys| && n.numKeys <= |n.values| && (!n.isLeaf ==> n.numKeys < |n.children|)
  }

  function EntryAt(n: Node, i: int): Entry
    requires Keyed(n) && 0 <= i < n.numKeys
  {
    Entry(n.keys[i], n.values[i])
  }

  /** n roots a subtree of height h: leaves exactly at height 0, and every
      live child of an inner node is in the file, holds at least one key and
      roots a subtree of height h - 1. */
  ghost predicate Shape(idx: Index, n: Node, h: nat)
    decreases h
  {
    Keyed(n) && (n.isLeaf <==> h == 0)
    && (h > 0 ==> forall j | 0 <= j <= n.numKeys ::
                    n.children[j] in idx.nodes && idx.nodes[n.children[j]].numKeys > 0
                    && Shape(idx, idx.nodes[n.children[j]], h - 1))
  }

  /** fetchNode(children[j]) of a shaped inner node. */
  ghost function Child(idx: Index, n: Node, h: nat, j: int): (c: Node)
    requires Shape(idx, n, h) && h > 0 && 0 <= j <= n.numKeys
    ensures Shape(idx, c, h - 1) && c.numKeys > 0
  {
    idx.nodes[n.children[j]]
  }

  /** The entries of the subtree under n, in order of the tree: child 0's,
      key 0, child 1's, ..., key numKeys - 1, child numKeys's. */
  ghost function Subtree(idx: Index, n: Node, h: nat): seq<Entry>
    requires Shape(idx, n, h)
    decreases h, 2
  {
    Below(idx, n, h, 0) + Remaining(idx, n, h, 0)
  }

  /** The subtree hanging at child slot j (nothing under a leaf). */
  ghost function Below(idx: Index, n: Node, h: nat, j: int): seq<Entry>
    requires Shape(idx, n, h) && 0 <= j <= n.numKeys
    decreases h, 0
  {
    if h == 0 then [] else Subtree(idx, Child(idx, n, h, j), h - 1)
  }

  /** The entries of n from key slot i on: key i, child i + 1's, key i + 1, ... */
  ghost function Remaining(idx: Index, n: Node, h: nat, i: int): seq<Entry>
    requires Shape(idx, n, h) && 0 <= i <= n.numKeys
    decreases h, 1, n.numKeys - i
  {
    if i == n.numKeys then []
    else [EntryAt(n, i)] + Below(idx, n, h, i + 1) + Remaining(idx, n, h, i + 1)
  }

  /** The entries of n before child slot j: child 0's, key 0, ..., key j - 1. */
  ghost function Before(idx: Index, n: Node, h: nat, j: int): seq<Entry>
    requires Shape(idx, n, h) && 0 <= j <= n.numKeys
    decreases j
  {
    if j == 0 then [] else Before(idx, n, h, j - 1) + Below(idx, n, h, j - 1) + [EntryAt(n, j - 1)]
  }

  /** Keys strictly ascending under the unsigned comparison. */
  ghost predicate Ascending(s: seq<Entry>)
  {
    forall i, j | 0 <= i < j < |s| :: Less(s[i].key, s[j].key)
  }

  /** A valid B-tree of height h: shaped, with its entries in strictly
      ascending key order (which places every child's keys between the keys
      around its slot). */
  ghost predicate Valid(idx: Index, h: nat)
  {
    Shape(idx, idx.root, h) && Ascending(Subtree(idx, idx.root, h))
  }

  /** The entries whose key is not below `start`, in their order. */
  function AtLeast(s: seq<Entry>, start: seq<byte>): (r: seq<Entry>)
    ensures forall e :: e in r <==> e in s && !Less(e.key, start)
  {
    if s == [] then []
    else (if Less(s[0].key, start) then [] else [s[0]]) + AtLeast(s[1..], start)
  }

  // ---------------------------------------------------------------------
  // search

  /** The node-local scan of search: the first key slot whose key is not
      below `key`, or numKeys. */
  function Scan(n: Node, key: seq<byte>, i: int): (r: int)
    requires Keyed(n) && 0 <= i <= n.numKeys
    ensures i <= r <= n.numKeys
    decreases n.numKeys - i
  {
    if i == n.numKeys || Compare(key, n.keys[i]) <= 0 then i else Scan(n, key, i + 1)
  }

  /** The scan stops at the first slot i whose key is not below `key`. */
  lemma {:induction false} ScanStops(n: Node, key: seq<byte>, i: int)
    requires Keyed(n) && 0 <= i <= n.numKeys
    requires forall j | 0 <= j < i :: Compare(key, n.keys[j]) > 0
    ensures var r := Scan(n, key, i);
            (forall j | 0 <= j < r :: Compare(key, n.keys[j]) > 0)
            && (r < n.numKeys ==> Compare(key, n.keys[r]) <= 0)
    decreases n.numKeys - i
  {
    if i < n.numKeys && Compare(key, n.keys[i]) > 0 {
      ScanStops(n, key, i + 1);
    }
  }

  /** The while loop at the head of BTreeNode.search. */
  method FirstNotLess(n: Node, key: seq<byte>) returns (i: int)
    requires Keyed(n)
    ensures 0 <= i <= n.numKeys && i == Scan(n, key, 0)
    ensures forall j | 0 <= j < i :: Compare(key, n.keys[j]) > 0
    ensures i < n.numKeys ==> Compare(key, n.keys[i]) <= 0
  {
    i := 0;
    while i < n.numKeys && Compare(key, n.keys[i]) > 0
      invariant 0 <= i <= n.numKeys && Scan(n, key, i) == Scan(n, key, 0)
      invariant forall j | 0 <= j < i :: Compare(key, n.keys[j]) > 0
    {
      i := i + 1;
    }
  }

  /** Whether the descent from n meets an equal key. */
  ghost function SearchFound(idx: Index, n: Node, h: nat, key: seq<byte>): bool
    requires Shape(idx, n, h)
    decreases h
  {
    var i := Scan(n, key, 0);
    if i < n.numKeys && Compare(key, n.keys[i]) == 0 then true
    else if n.isLeaf then false
    else SearchFound(idx, Child(idx, n, h, i), h - 1, key)
  }

  /** The frames the descent from n pushes, bottom to top. */
  ghost function SearchPath(idx: Index, n: Node, h: nat, key: seq<byte>): seq<Frame>
    requires Shape(idx, n, h)
    decreases h
  {
    var i := Scan(n, key, 0);
    var here := if i < n.numKeys then [Frame(n, i)] else [];
    if i < n.numKeys && Compare(key, n.keys[i]) == 0 then here
    else if n.isLeaf then here
    else here + SearchPath(idx, Child(idx, n, h, i), h - 1, key)
  }

  /** The heights of the nodes of SearchPath. */
  ghost function SearchHeights(idx: Index, n: Node, h: nat, key: seq<byte>): seq<nat>
    requires Shape(idx, n, h)
    decreases h
  {
    var i := Scan(n, key, 0);
    var here := if i < n.numKeys then [h] else [];
    if i < n.numKeys && Compare(key, n.keys[i]) == 0 then here
    else if n.isLeaf then here
    else here + SearchHeights(idx, Child(idx, n, h, i), h - 1, key)
  }

  /** BTreeNode.search(path, key): the scan, the push of (node, i) when i is a
      live slot, true at an equal key, false at a leaf, and otherwise the
      descent into child i.  The path stack is threaded through as a value. */
  method Search(idx: Index, n: Node, ghost h: nat, path: seq<Frame>, key: seq<byte>)
    returns (found: bool, path': seq<Frame>)
    requires Shape(idx, n, h)
    ensures found == SearchFound(idx, n, h, key)
    ensures path' == path + SearchPath(idx, n, h, key)
    decreases h
  {
    var i := FirstNotLess(n, key);
    path' := path;
    if i < n.numKeys {
      path' := path' + [Frame(n, i)];
      if Compare(key, n.keys[i]) == 0 {
        return true, path';
      }
    }
    if n.isLeaf {
      return false, path';
    }
    var c := idx.nodes[n.children[i]];
    assert c == Child(idx, n, h, i);
    found, path' := Search(idx, c, h - 1, path', key);
  }

  // ---------------------------------------------------------------------
  // the path stack and what it has left to yield

  /** Each frame's node roots a subtree of the recorded height and the frame
      points at a live key slot. */
  ghost predicate FramesOk(idx: Index, path: seq<Frame>, hs: seq<nat>)
  {
    |path| == |hs|
    && forall k | 0 <= k < |path| :: Shape(idx, path[k].node, hs[k]) && 0 <= path[k].index < path[k].node.numKeys
  }

  /** The entries a path stack has left to yield: the top frame's remaining
      entries, then those of the frames below it. */
  ghost function Rest(idx: Index, path: seq<Frame>, hs: seq<nat>): seq<Entry>
    requires FramesOk(idx, path, hs)
    decreases |path|
  {
    if path == [] then []
    else
      var k := |path| - 1;
      Remaining(idx, path[k].node, hs[k], path[k].index) + Rest(idx, path[..k], hs[..k])
  }

  /** A pushed frame yields its remaining entries before the rest. */
  lemma RestPush(idx: Index, path: seq<Frame>, hs: seq<nat>, f: Frame, h: nat)
    requires FramesOk(idx, path, hs) && Shape(idx, f.node, h) && 0 <= f.index < f.node.numKeys
    ensures FramesOk(idx, path + [f], hs + [h])
    ensures Rest(idx, path + [f], hs + [h]) == Remaining(idx, f.node, h, f.index) + Rest(idx, path, hs)
  {
    assert (path + [f])[..|path|] == path;
    assert (hs + [h])[..|path|] == hs;
  }

  // ---------------------------------------------------------------------
  // the iterator

  /** BTreeIterator: the index it reads and its path stack (top last). */
  class BTreeIterator {
    const index: Index
    var path: seq<Frame>
    ghost var heights: seq<nat>

    ghost predicate Valid()
      reads this
    {
      FramesOk(index, path, heights)
    }

    /** The entries the iterator has left to yield. */
    ghost function Pending(): seq<Entry>
      reads this
      requires Valid()
    {
      Rest(index, path, heights)
    }

    constructor (idx: Index, path: seq<Frame>, ghost heights: seq<nat>)
      requires FramesOk(idx, path, heights)
      ensures Valid() && index == idx && this.path == path && Pending() == Rest(idx, path, heights)
    {
      index := idx;
      this.path := path;
      this.heights := heights;
    }

    /** hasNext(): the stack is not empty, which is when something is left. */
    function HasNext(): (b: bool)
      reads this
      requires Valid()
      ensures b <==> Pending() != []
    {
      RestNonEmpty(index, path, heights);
      path != []
    }

    /** next(): yields the top frame's entry, moves the frame to its next slot
        (popping it past the last one), then descends through child slots to
        a leaf, pushing a frame at slot 0 for each node entered.  On an empty
        stack, peek() throws EmptyStackException. */
    method Next() returns (r: Result<Entry>)
      requires Valid()
      modifies this
      ensures Valid()
      ensures old(Pending()) == [] ==> r == Err(EmptyStack) && path == old(path)
      ensures old(Pending()) != [] ==> r == Ok(old(Pending())[0]) && Pending() == old(Pending())[1..]
    {
      RestNonEmpty(index, path, heights);
      if path == [] {
        return Err(EmptyStack);
      }
      ghost var target := Pending()[1..];
      var k := |path| - 1;
      var top := path[k];
      var e := Entry(top.node.keys[top.index], top.node.values[top.index]);
      var last := top.(index := top.index + 1);
      ghost var h := heights[k];
      var stack := if last.index >= last.node.numKeys then path[..k] else path[..k] + [last];
      ghost var hs := if last.index >= last.node.numKeys then heights[..k] else heights[..k] + [h];
      AdvanceTop(index, path, heights, last, stack, hs);
      while !last.node.isLeaf
        invariant Descending(index, last, h, stack, hs, target)
        decreases h
      {
        var next := Frame(index.nodes[last.node.children[last.index]], 0);
        var stack' := stack + [next];
        ghost var hs' := hs + [h - 1];
        DescendStep(index, stack, hs, last, h, next, stack', hs', target);
        last, stack := next, stack';
        h, hs := h - 1, hs';
      }
      LeafBelow(index, last.node, h, last.index);
      path, heights := stack, hs;
      return Ok(e);
    }
  }

  /** A stack of frames at live slots has something left exactly when it is
      not empty. */
  lemma RestNonEmpty(idx: Index, path: seq<Frame>, hs: seq<nat>)
    requires FramesOk(idx, path, hs)
    ensures Rest(idx, path, hs) == [] <==> path == []
  {
  }

  /** The descent of next(): the stack so far, and the child subtree at the
      current frame's slot (entered next), have left `target`. */
  ghost predicate Descending(idx: Index, last: Frame, h: nat, stack: seq<Frame>, hs: seq<nat>, target: seq<Entry>)
  {
    FramesOk(idx, stack, hs) && Shape(idx, last.node, h) && 0 <= last.index <= last.node.numKeys
    && Below(idx, last.node, h, last.index) + Rest(idx, stack, hs) == target
  }

  /** Moving the top frame to its next slot, and popping it when that slot
      is past the last key, yields the top frame's entry and starts the
      descent with what is left after it. */
  lemma AdvanceTop(idx: Index, path: seq<Frame>, hs: seq<nat>, last: Frame, stack: seq<Frame>, hstack: seq<nat>)
    requires FramesOk(idx, path, hs) && path != []
    requires last == path[|path| - 1].(index := path[|path| - 1].index + 1)
    requires stack == if last.index >= last.node.numKeys then path[..|path| - 1] else path[..|path| - 1] + [last]
    requires hstack == if last.index >= last.node.numKeys then hs[..|path| - 1] else hs[..|path| - 1] + [hs[|path| - 1]]
    ensures Rest(idx, path, hs) != []
    ensures Rest(idx, path, hs)[0] == EntryAt(path[|path| - 1].node, path[|path| - 1].index)
    ensures Descending(idx, last, hs[|path| - 1], stack, hstack, Rest(idx, path, hs)[1..])
  {
    var k := |path| - 1;
    var h := hs[k];
    var f := path[k];
    RestPop(idx, path, hs);
    RemainingStep(idx, f.node, h, f.index);
    DropFirst(Rest(idx, path, hs), EntryAt(f.node, f.index), Below(idx, last.node, h, last.index),
              Remaining(idx, last.node, h, last.index), Rest(idx, path[..k], hs[..k]));
    if last.index < last.node.numKeys {
      RestPush(idx, path[..k], hs[..k], last, h);
    } else {
      EmptyConcat(Remaining(idx, last.node, h, last.index), Rest(idx, path[..k], hs[..k]));
    }
  }

  /** The top frame of a non-empty stack yields first. */
  lemma RestPop(idx: Index, path: seq<Frame>, hs: seq<nat>)
    requires FramesOk(idx, path, hs) && path != []
    ensures var k := |path| - 1;
            FramesOk(idx, path[..k], hs[..k]) && Shape(idx, path[k].node, hs[k])
            && 0 <= path[k].index < path[k].node.numKeys
            && Rest(idx, path, hs) == Remaining(idx, path[k].node, hs[k], path[k].index) + Rest(idx, path[..k], hs[..k])
  {
  }

  /** A node's entries from a live slot on: that slot's entry, the child
      subtree after it, and the entries from the next slot on. */
  lemma RemainingStep(idx: Index, n: Node, h: nat, i: int)
    requires Shape(idx, n, h) && 0 <= i < n.numKeys
    ensures Remaining(idx, n, h, i) == [EntryAt(n, i)] + Below(idx, n, h, i + 1) + Remaining(idx, n, h, i + 1)
  {
  }

  /** Frames q pushed after frames p on a stack: what q has left, then what
      p has left, then the stack's own. */
  lemma PushBoth(idx: Index, base: seq<Frame>, hb: seq<nat>, p: seq<Frame>, hp: seq<nat>,
                 q: seq<Frame>, hq: seq<nat>, path: seq<Frame>, hs: seq<nat>, a: seq<Entry>, r: seq<Entry>)
    requires FramesOk(idx, base, hb) && FramesOk(idx, base + p, hb + hp)
    requires Rest(idx, base + p, hb + hp) == r + Rest(idx, base, hb)
    requires FramesOk(idx, (base + p) + q, (hb + hp) + hq)
    requires Rest(idx, (base + p) + q, (hb + hp) + hq) == a + Rest(idx, base + p, hb + hp)
    requires path == p + q && hs == hp + hq
    ensures FramesOk(idx, base + path, hb + hs)
    ensures Rest(idx, base + path, hb + hs) == (a + r) + Rest(idx, base, hb)
  {
    ConcatAssoc(base, p, q);
    ConcatAssoc(hb, hp, hq);
    ConcatAssoc(a, r, Rest(idx, base, hb));
  }

  lemma EmptyConcat<T>(a: seq<T>, b: seq<T>)
    requires a == []
    ensures a + b == b
  {
  }

  lemma ConcatAssoc<T>(a: seq<T>, b: seq<T>, c: seq<T>)
    ensures a + (b + c) == (a + b) + c
  {
  }

  lemma DropFirst<T>(all: seq<T>, x: T, b: seq<T>, m: seq<T>, r: seq<T>)
    requires all == [x] + b + m + r
    ensures all != [] && all[0] == x && all[1..] == b + (m + r)
  {
    assert all == [x] + (b + (m + r));
  }

  /** Descending into the child at the current slot of a node of height
      h > 0 and pushing a frame at its slot 0 keeps what is pending. */
  lemma DescendStep(idx: Index, path: seq<Frame>, hs: seq<nat>, last: Frame, h: nat,
                    next: Frame, path': seq<Frame>, hs': seq<nat>, target: seq<Entry>)
    requires Descending(idx, last, h, path, hs, target) && !last.node.isLeaf
    requires next == Frame(idx.nodes[last.node.children[last.index]], 0)
    requires path' == path + [next] && h > 0 && hs' == hs + [h - 1]
    ensures Descending(idx, next, h - 1, path', hs', target)
  {
    assert next.node == Child(idx, last.node, h, last.index);
    RestPush(idx, path, hs, next, h - 1);
    assert Below(idx, last.node, h, last.index) == Subtree(idx, next.node, h - 1);
    ConcatAssoc(Below(idx, next.node, h - 1, 0), Remaining(idx, next.node, h - 1, 0), Rest(idx, path, hs));
  }

  /** Nothing hangs below a leaf. */
  lemma LeafBelow(idx: Index, n: Node, h: nat, j: int)
    requires Shape(idx, n, h) && n.isLeaf && 0 <= j <= n.numKeys
    ensures Below(idx, n, h, j) == []
  {
  }

  /** iterate(start): search from the root into a fresh stack, then an
      iterator over that stack.  It has left exactly the stored entries whose
      key is not below `start`, in tree order. */
  method Iterate(idx: Index, ghost h: nat, start: seq<byte>) returns (it: BTreeIterator)
    requires Valid(idx, h)
    ensures fresh(it) && it.Valid() && it.index == idx
    ensures it.Pending() == AtLeast(Subtree(idx, idx.root, h), start)
  {
    var found, path := Search(idx, idx.root, h, [], start);
    ghost var hs := [] + SearchHeights(idx, idx.root, h, start);
    IterateStart(idx, h, start, path, hs);
    it := new BTreeIterator(idx, path, hs);
  }

  // ---------------------------------------------------------------------
  // correctness of the descent

  /** The stack search leaves from the root has left the entries not below
      the start key. */
  lemma IterateStart(idx: Index, h: nat, start: seq<byte>, path: seq<Frame>, hs: seq<nat>)
    requires Valid(idx, h)
    requires path == [] + SearchPath(idx, idx.root, h, start) && hs == [] + SearchHeights(idx, idx.root, h, start)
    ensures FramesOk(idx, path, hs) && Rest(idx, path, hs) == AtLeast(Subtree(idx, idx.root, h), start)
  {
    SearchRest(idx, idx.root, h, start, [], []);
  }

  /** In a subtree whose entries ascend, the frames the descent pushes on a
      stack have left exactly the entries not below the key, before what the
      stack had left; and the descent finds the key exactly when it is
      stored. */
  lemma {:induction false} SearchRest(idx: Index, n: Node, h: nat, key: seq<byte>, base: seq<Frame>, hb: seq<nat>)
    requires Shape(idx, n, h) && Ascending(Subtree(idx, n, h)) && FramesOk(idx, base, hb)
    ensures FramesOk(idx, base + SearchPath(idx, n, h, key), hb + SearchHeights(idx, n, h, key))
    ensures Rest(idx, base + SearchPath(idx, n, h, key), hb + SearchHeights(idx, n, h, key))
            == AtLeast(Subtree(idx, n, h), key) + Rest(idx, base, hb)
    ensures SearchFound(idx, n, h, key) <==> exists e :: e in Subtree(idx, n, h) && e.key == key
    decreases h
  {
    var i := Scan(n, key, 0);
    ScanSplits(idx, n, h, key);
    var s := Subtree(idx, n, h);
    var before := Before(idx, n, h, i);
    var below := Below(idx, n, h, i);
    var rem := Remaining(idx, n, h, i);
    var here := if i < n.numKeys then [Frame(n, i)] else [];
    var hh: seq<nat> := if i < n.numKeys then [h] else [];
    PushHere(idx, base, hb, n, h, i);
    SearchStep(idx, n, h, key);
    if i < n.numKeys && Compare(key, n.keys[i]) == 0 {
      CompareZeroIffEqual(key, n.keys[i]);
      StraddleFound(s, before, below, rem, key);
    } else if n.isLeaf {
      if i < n.numKeys {
        CompareZeroIffEqual(key, n.keys[i]);
      }
      LeafBelow(idx, n, h, i);
      StraddleLeaf(s, before, below, rem, key);
      StraddleMissed(s, before, below, rem, key);
    } else {
      if i < n.numKeys {
        CompareZeroIffEqual(key, n.keys[i]);
      }
      StraddleRest(s, before, below, rem, key);
      StraddleMissed(s, before, below, rem, key);
      var c := Child(idx, n, h, i);
      SearchRest(idx, c, h - 1, key, base + here, hb + hh);
      PushBoth(idx, base, hb, here, hh, SearchPath(idx, c, h - 1, key), SearchHeights(idx, c, h - 1, key),
               SearchPath(idx, n, h, key), SearchHeights(idx, n, h, key), AtLeast(below, key), rem);
    }
  }

  /** One level of the descent: the frame pushed here, then either a stop
      (an equal key, or a leaf) or the descent into the scan's child. */
  lemma SearchStep(idx: Index, n: Node, h: nat, key: seq<byte>)
    requires Shape(idx, n, h)
    ensures var i := Scan(n, key, 0);
            var here := if i < n.numKeys then [Frame(n, i)] else [];
            var hh: seq<nat> := if i < n.numKeys then [h] else [];
            var stop := (i < n.numKeys && Compare(key, n.keys[i]) == 0) || n.isLeaf;
            (stop ==> SearchPath(idx, n, h, key) == here && SearchHeights(idx, n, h, key) == hh
                      && SearchFound(idx, n, h, key) == (i < n.numKeys && Compare(key, n.keys[i]) == 0))
            && (!stop ==> SearchPath(idx, n, h, key) == here + SearchPath(idx, Child(idx, n, h, i), h - 1, key)
                          && SearchHeights(idx, n, h, key) == hh + SearchHeights(idx, Child(idx, n, h, i), h - 1, key)
                          && SearchFound(idx, n, h, key) == SearchFound(idx, Child(idx, n, h, i), h - 1, key))
  {
  }

  /** The frame search pushes at a node (none when the scan ran past the
      last key) has left the node's entries from the scan's slot on. */
  lemma PushHere(idx: Index, base: seq<Frame>, hb: seq<nat>, n: Node, h: nat, i: int)
    requires FramesOk(idx, base, hb) && Shape(idx, n, h) && 0 <= i <= n.numKeys
    ensures var here := if i < n.numKeys then [Frame(n, i)] else [];
            var hh: seq<nat> := if i < n.numKeys then [h] else [];
            FramesOk(idx, base + here, hb + hh)
            && Rest(idx, base + here, hb + hh) == Remaining(idx, n, h, i) + Rest(idx, base, hb)
  {
    if i < n.numKeys {
      RestPush(idx, base, hb, Frame(n, i), h);
    } else {
      assert base + [] == base && hb + [] == hb;
    }
  }

  /** The entries before the scan's slot are below the key, those from it on
      are not, and the whole subtree is the three parts in order. */
  lemma ScanSplits(idx: Index, n: Node, h: nat, key: seq<byte>)
    requires Shape(idx, n, h) && Ascending(Subtree(idx, n, h))
    ensures var i := Scan(n, key, 0);
            Straddles(Subtree(idx, n, h), Before(idx, n, h, i), Below(idx, n, h, i), Remaining(idx, n, h, i), key)
            && (i < n.numKeys ==> Remaining(idx, n, h, i) != [] && Remaining(idx, n, h, i)[0] == EntryAt(n, i))
  {
    var i := Scan(n, key, 0);
    ScanStops(n, key, 0);
    Split(idx, n, h, i);
    var before := Before(idx, n, h, i);
    var below := Below(idx, n, h, i);
    var rem := Remaining(idx, n, h, i);
    assert Subtree(idx, n, h) == before + (below + rem);
    AscendingConcat(before, below + rem);
    AscendingConcat(below, rem);
    BeforeBelowKey(idx, n, h, i, key);
    RemainingAtLeastKey(idx, n, h, i, key);
  }

  /** s is ascending and made of a part below the key, a middle part and a
      part not below the key. */
  ghost predicate Straddles(s: seq<Entry>, before: seq<Entry>, below: seq<Entry>, rem: seq<Entry>, key: seq<byte>)
  {
    s == before + below + rem && Ascending(s)
    && (forall e | e in before :: Less(e.key, key))
    && (forall e | e in rem :: !Less(e.key, key))
  }

  /** What is not below the key is what of the middle part is not, then the
      last part. */
  lemma StraddleRest(s: seq<Entry>, before: seq<Entry>, below: seq<Entry>, rem: seq<Entry>, key: seq<byte>)
    requires Straddles(s, before, below, rem, key)
    ensures AtLeast(s, key) == AtLeast(below, key) + rem && Ascending(below)
    ensures forall x, y | x in below && y in rem :: Less(x.key, y.key)
  {
    assert s == before + (below + rem);
    AscendingConcat(before, below + rem);
    AscendingConcat(below, rem);
    AtLeastConcat(before, below + rem, key);
    AtLeastConcat(below, rem, key);
    AtLeastNone(before, key);
    AtLeastAll(rem, key);
  }

  /** With nothing in the middle, what is not below the key is the last part. */
  lemma StraddleLeaf(s: seq<Entry>, before: seq<Entry>, below: seq<Entry>, rem: seq<Entry>, key: seq<byte>)
    requires Straddles(s, before, below, rem, key) && below == []
    ensures AtLeast(s, key) == rem
  {
    StraddleRest(s, before, below, rem, key);
    assert [] + rem == rem;
  }

  /** When the last part starts with the key, the middle part is below it. */
  lemma StraddleFound(s: seq<Entry>, before: seq<Entry>, below: seq<Entry>, rem: seq<Entry>, key: seq<byte>)
    requires Straddles(s, before, below, rem, key) && rem != [] && rem[0].key == key
    ensures AtLeast(s, key) == rem && exists e :: e in s && e.key == key
  {
    StraddleRest(s, before, below, rem, key);
    assert rem[0] in rem;
    AtLeastNone(below, key);
    assert rem[0] in s;
  }

  /** When the last part does not start with the key, the key is stored
      exactly when the middle part holds it. */
  lemma StraddleMissed(s: seq<Entry>, before: seq<Entry>, below: seq<Entry>, rem: seq<Entry>, key: seq<byte>)
    requires Straddles(s, before, below, rem, key) && (rem != [] ==> rem[0].key != key)
    ensures (exists e :: e in s && e.key == key) <==> (exists e :: e in below && e.key == key)
  {
    assert s == before + (below + rem);
    AscendingConcat(before, below + rem);
    AscendingConcat(below, rem);
    forall k | 0 <= k < |rem|
      ensures rem[k].key != key
    {
      if k > 0 {
        assert rem[0] in rem && Less(rem[0].key, rem[k].key);
      }
    }
    forall e | e in before
      ensures e.key != key
    {
      CompareZeroIffEqual(e.key, key);
    }
  }

  /** A subtree splits around child slot j into the entries before it, the
      child's subtree and the remaining entries. */
  lemma {:induction false} Split(idx: Index, n: Node, h: nat, j: int)
    requires Shape(idx, n, h) && 0 <= j <= n.numKeys
    ensures Subtree(idx, n, h) == Before(idx, n, h, j) + Below(idx, n, h, j) + Remaining(idx, n, h, j)
    decreases j
  {
    if j > 0 {
      Split(idx, n, h, j - 1);
    }
  }

  /** Every entry before child slot i is below the key, when the scan passed
      every slot before i. */
  lemma BeforeBelowKey(idx: Index, n: Node, h: nat, i: int, key: seq<byte>)
    requires Shape(idx, n, h) && 0 <= i <= n.numKeys && Ascending(Before(idx, n, h, i))
    requires forall j | 0 <= j < i :: Compare(key, n.keys[j]) > 0
    ensures forall e | e in Before(idx, n, h, i) :: Less(e.key, key)
  {
    if i > 0 {
      var prefix := Before(idx, n, h, i - 1) + Below(idx, n, h, i - 1);
      var last := EntryAt(n, i - 1);
      AscendingConcat(prefix, [last]);
      CompareAntisymmetric(key, last.key);
      forall e | e in Before(idx, n, h, i)
        ensures Less(e.key, key)
      {
        if e != last {
          assert e in prefix;
          CompareTransitive(e.key, last.key, key);
        }
      }
    }
  }

  /** Every entry from slot i on is not below the key, when slot i's key is
      not below it. */
  lemma RemainingAtLeastKey(idx: Index, n: Node, h: nat, i: int, key: seq<byte>)
    requires Shape(idx, n, h) && 0 <= i <= n.numKeys && Ascending(Remaining(idx, n, h, i))
    requires i < n.numKeys ==> Compare(key, n.keys[i]) <= 0
    ensures forall e | e in Remaining(idx, n, h, i) :: !Less(e.key, key)
  {
    if i < n.numKeys {
      var rem := Remaining(idx, n, h, i);
      var first := EntryAt(n, i);
      assert rem == [first] + (Below(idx, n, h, i + 1) + Remaining(idx, n, h, i + 1));
      AscendingConcat([first], Below(idx, n, h, i + 1) + Remaining(idx, n, h, i + 1));
      CompareAntisymmetric(key, first.key);
      forall e | e in rem
        ensures !Less(e.key, key)
      {
        if e != first && Less(e.key, key) {
          CompareTransitive(first.key, e.key, key);
        }
      }
    }
  }

  // ---------------------------------------------------------------------
  // ascending sequences and the AtLeast filter

  lemma AscendingConcat(a: seq<Entry>, b: seq<Entry>)
    requires Ascending(a + b)
    ensures Ascending(a) && Ascending(b)
    ensures forall x, y | x in a && y in b :: Less(x.key, y.key)
  {
    forall x, y | x in a && y in b
      ensures Less(x.key, y.key)
    {
      var i :| 0 <= i < |a| && a[i] == x;
      var j :| 0 <= j < |b| && b[j] == y;
      assert (a + b)[i] == x && (a + b)[|a| + j] == y;
    }
    forall i, j | 0 <= i < j < |b|
      ensures Less(b[i].key, b[j].key)
    {
      assert (a + b)[|a| + i] == b[i] && (a + b)[|a| + j] == b[j];
    }
    forall i, j | 0 <= i < j < |a|
      ensures Less(a[i].key, a[j].key)
    {
      assert (a + b)[i] == a[i] && (a + b)[j] == a[j];
    }
  }

  lemma {:induction false} AtLeastConcat(a: seq<Entry>, b: seq<Entry>, start: seq<byte>)
    ensures AtLeast(a + b, start) == AtLeast(a, start) + AtLeast(b, start)
    decreases |a|
  {
    if a != [] {
      assert (a + b)[1..] == a[1..] + b;
      AtLeastConcat(a[1..], b, start);
    } else {
      assert a + b == b;
    }
  }

  lemma {:induction false} AtLeastNone(s: seq<Entry>, start: seq<byte>)
    requires forall e | e in s :: Less(e.key, start)
    ensures AtLeast(s, start) == []
    decreases |s|
  {
    if s != [] {
      assert s[0] in s;
      AtLeastNone(s[1..], start);
    }
  }

  lemma {:induction false} AtLeastAll(s: seq<Entry>, start: seq<byte>)
    requires forall e | e in s :: !Less(e.key, start)
    ensures AtLeast(s, start) == s
    decreases |s|
  {
    if s != [] {
      assert s[0] in s;
      AtLeastAll(s[1..], start);
      assert s == [s[0]] + s[1..];
    }
  }

  /** What iterate(start) yields over a valid tree: exactly the stored
      entries whose key is not below `start`, in strictly ascending key
      order, starting with the key itself when it is stored. */
  lemma {:induction false} IterateYields(idx: Index, h: nat, start: seq<byte>)
    requires Valid(idx, h)
    ensures var s := AtLeast(Subtree(idx, idx.root, h), start);
            Ascending(s)
            && (forall e :: e in s <==> e in Subtree(idx, idx.root, h) && !Less(e.key, start))
  {
    AtLeastAscending(Subtree(idx, idx.root, h), start);
  }

  lemma {:induction false} AtLeastAscending(s: seq<Entry>, start: seq<byte>)
    requires Ascending(s)
    ensures Ascending(AtLeast(s, start))
    decreases |s|
  {
    if s != [] {
      assert s == [s[0]] + s[1..];
      AscendingConcat([s[0]], s[1..]);
      AtLeastAscending(s[1..], start);
      if !Less(s[0].key, start) {
        AscendingCons(s[0], AtLeast(s[1..], start));
      } else {
        assert AtLeast(s, start) == AtLeast(s[1..], start);
      }
    }
  }

  lemma AscendingCons(x: Entry, t: seq<Entry>)
    requires Ascending(t) && forall y | y in t :: Less(x.key, y.key)
    ensures Ascending([x] + t)
  {
    forall i, j | 0 <= i < j < |[x] + t|
      ensures Less(([x] + t)[i].key, ([x] + t)[j].key)
    {
      assert ([x] + t)[j] == t[j - 1];
      if i > 0 {
        assert ([x] + t)[i] == t[i - 1];
      }
    }
  }

  /** BTreeNode.search over a valid tree returns true exactly when the key is
      stored. */
  lemma SearchFindsStored(idx: Index, h: nat, key: seq<byte>)
    requires Valid(idx, h)
    ensures SearchFound(idx, idx.root, h, key) <==> exists e :: e in Subtree(idx, idx.root, h) && e.key == key
  {
    SearchRest(idx, idx.root, h, key, [], []);
  }
}
