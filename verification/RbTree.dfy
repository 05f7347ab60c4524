/**
The ordered tree that HW2/kds.c and HW4P2/perftop.c share: nodes linked by pointers, the
insertion that both files write out, and stand-ins for the kernel's tree library. A ghost shape
records which nodes hang where; everything is specified by the nodes in order.
*/
module RbTree {

  /** An embedded `rb_node` with the payload around it. */
  class RbNode {
    const key: int
    const pid: int
    var left: RbNode?
    var right: RbNode?

    constructor (key: int, pid: int)
      ensures this.key == key && this.pid == pid && left == null && right == null
    {
      this.key, this.pid := key, pid;
      left, right := null, null;
    }
  }

  datatype Shape = Leaf | Fork(left: Shape, node: RbNode, right: Shape)

  function InOrder(s: Shape): seq<RbNode> {
    match s
    case Leaf => []
    case Fork(l, n, r) => InOrder(l) + [n] + InOrder(r)
  }

  function NodeSet(s: Shape): set<RbNode> {
    match s
    case Leaf => {}
    case Fork(l, n, r) => NodeSet(l) + {n} + NodeSet(r)
  }

  /** No node hangs in two places. */
  predicate Proper(s: Shape) {
    match s
    case Leaf => true
    case Fork(l, n, r) =>
      && Proper(l) && Proper(r)
      && n !in NodeSet(l) && n !in NodeSet(r) && NodeSet(l) !! NodeSet(r)
  }

  /** The pointers below `p` have shape `s`. */
  ghost predicate Linked(p: RbNode?, s: Shape)
    reads NodeSet(s)
  {
    match s
    case Leaf => p == null
    case Fork(l, n, r) => p == n && Linked(n.left, l) && Linked(n.right, r)
  }

  /** The way from the root to one link, with what hangs beside it. */
  datatype Path =
    | Top
    | WentLeft(up: Path, node: RbNode, right: Shape)
    | WentRight(up: Path, left: Shape, node: RbNode)

  function Plug(path: Path, s: Shape): Shape {
    match path
    case Top => s
    case WentLeft(up, n, r) => Plug(up, Fork(s, n, r))
    case WentRight(up, l, n) => Plug(up, Fork(l, n, s))
  }

  function Before(path: Path): seq<RbNode> {
    match path
    case Top => []
    case WentLeft(up, _, _) => Before(up)
    case WentRight(up, l, n) => Before(up) + InOrder(l) + [n]
  }

  function Behind(path: Path): seq<RbNode> {
    match path
    case Top => []
    case WentLeft(up, n, r) => [n] + InOrder(r) + Behind(up)
    case WentRight(up, _, _) => Behind(up)
  }

  function PathSet(path: Path): set<RbNode> {
    match path
    case Top => {}
    case WentLeft(up, n, r) => PathSet(up) + {n} + NodeSet(r)
    case WentRight(up, l, n) => PathSet(up) + {n} + NodeSet(l)
  }

  predicate ProperPath(path: Path) {
    match path
    case Top => true
    case WentLeft(up, n, r) =>
      && ProperPath(up) && Proper(r)
      && n !in PathSet(up) && n !in NodeSet(r) && NodeSet(r) !! PathSet(up)
    case WentRight(up, l, n) =>
      && ProperPath(up) && Proper(l)
      && n !in PathSet(up) && n !in NodeSet(l) && NodeSet(l) !! PathSet(up)
  }

  /** The pointers along the path are right, and the link at its end holds `hole`. */
  ghost predicate LinkedPath(top: RbNode?, path: Path, hole: RbNode?)
    reads PathSet(path)
  {
    match path
    case Top => top == hole
    case WentLeft(up, n, r) => n.left == hole && Linked(n.right, r) && LinkedPath(top, up, n)
    case WentRight(up, l, n) => n.right == hole && Linked(n.left, l) && LinkedPath(top, up, n)
  }

  lemma Regroup<T>(a: seq<T>, l: seq<T>, n: T, r: seq<T>, b: seq<T>)
    ensures a + (l + [n] + r) + b == a + l + ([n] + r + b)
    ensures a + (l + [n] + r) + b == (a + l + [n]) + r + b
  {
  }

  /** `parent` and `goesLeft` name the link at the end of the path. */
  predicate Ends(path: Path, parent: RbNode?, goesLeft: bool) {
    && (parent == null <==> path.Top?)
    && (parent != null ==> path.node == parent && (goesLeft <==> path.WentLeft?))
  }

  lemma {:induction false} PlugInOrder(path: Path, s: Shape)
    ensures InOrder(Plug(path, s)) == Before(path) + InOrder(s) + Behind(path)
  {
    match path
    case Top =>
    case WentLeft(up, n, r) =>
      PlugInOrder(up, Fork(s, n, r));
      Regroup(Before(up), InOrder(s), n, InOrder(r), Behind(up));
    case WentRight(up, l, n) =>
      PlugInOrder(up, Fork(l, n, s));
      Regroup(Before(up), InOrder(l), n, InOrder(s), Behind(up));
  }

  lemma {:induction false} PlugProper(path: Path, s: Shape)
    requires ProperPath(path) && Proper(s) && NodeSet(s) !! PathSet(path)
    ensures Proper(Plug(path, s)) && NodeSet(Plug(path, s)) == NodeSet(s) + PathSet(path)
  {
    match path
    case Top =>
    case WentLeft(up, n, r) => PlugProper(up, Fork(s, n, r));
    case WentRight(up, l, n) => PlugProper(up, Fork(l, n, s));
  }

  lemma {:induction false} PlugLinked(top: RbNode?, path: Path, hole: RbNode?, s: Shape)
    requires LinkedPath(top, path, hole) && Linked(hole, s)
    ensures Linked(top, Plug(path, s))
  {
    match path
    case Top =>
    case WentLeft(up, n, r) => PlugLinked(top, up, n, Fork(s, n, r));
    case WentRight(up, l, n) => PlugLinked(top, up, n, Fork(l, n, s));
  }

  lemma {:induction false} InOrderSet(s: Shape, n: RbNode)
    ensures n in NodeSet(s) <==> n in InOrder(s)
  {
    match s
    case Leaf =>
    case Fork(l, m, r) =>
      InOrderSet(l, n);
      InOrderSet(r, n);
  }

  /** A node stands at one place in the order. */
  lemma {:induction false} InOrderInjective(s: Shape, j: nat, k: nat)
    requires Proper(s) && j < |InOrder(s)| && k < |InOrder(s)| && InOrder(s)[j] == InOrder(s)[k]
    ensures j == k
  {
    var q, l, r, n := InOrder(s), InOrder(s.left), InOrder(s.right), s.node;
    InOrderSet(s.left, q[j]);
    InOrderSet(s.right, q[j]);
    assert q == l + [n] + r;
    if j < |l| && k < |l| {
      InOrderInjective(s.left, j, k);
    } else if j > |l| && k > |l| {
      InOrderInjective(s.right, j - |l| - 1, k - |l| - 1);
    } else {
      assert forall i :: 0 <= i < |q| ==>
        q[i] == if i < |l| then l[i] else if i == |l| then n else r[i - |l| - 1];
    }
  }

  predicate Sorted(q: seq<RbNode>) {
    forall i, j :: 0 <= i < j < |q| ==> q[i].key <= q[j].key
  }

  /** The number of leading nodes whose keys are at most `key`. */
  function UpTo(q: seq<RbNode>, key: int): (k: nat)
    ensures k <= |q|
  {
    if q == [] || q[0].key > key then 0 else 1 + UpTo(q[1..], key)
  }

  lemma {:induction false} UpToIs(q: seq<RbNode>, key: int, k: nat)
    requires k <= |q|
    requires forall i :: 0 <= i < k ==> q[i].key <= key
    requires k < |q| ==> q[k].key > key
    ensures UpTo(q, key) == k
    decreases k
  {
    if k > 0 {
      UpToIs(q[1..], key, k - 1);
    }
  }

  /** Everything on the left of the path has at most this key, everything on the right a larger one. */
  predicate Divides(path: Path, key: int) {
    && (forall i :: 0 <= i < |Before(path)| ==> Before(path)[i].key <= key)
    && (forall i :: 0 <= i < |Behind(path)| ==> Behind(path)[i].key > key)
  }

  lemma SortedAround(a: seq<RbNode>, l: seq<RbNode>, n: RbNode, r: seq<RbNode>, b: seq<RbNode>)
    requires Sorted(a + (l + [n] + r) + b)
    ensures forall i :: 0 <= i < |l| ==> l[i].key <= n.key
    ensures forall i :: 0 <= i < |r| ==> n.key <= r[i].key
  {
    var q, k := a + (l + [n] + r) + b, |a| + |l|;
    assert q[k] == n;
    assert forall i :: 0 <= i < |l| ==> l[i] == q[|a| + i];
    assert forall i :: 0 <= i < |r| ==> r[i] == q[k + 1 + i];
  }

  lemma DescendKeepsDivides(path: Path, rest: Shape, key: int)
    requires rest.Fork? && Divides(path, key) && Sorted(InOrder(Plug(path, rest)))
    ensures rest.node.key > key ==> Divides(WentLeft(path, rest.node, rest.right), key)
    ensures rest.node.key <= key ==> Divides(WentRight(path, rest.left, rest.node), key)
  {
    PlugInOrder(path, rest);
    SortedAround(Before(path), InOrder(rest.left), rest.node, InOrder(rest.right), Behind(path));
  }

  /** Hanging a new node at the end of such a path is an insertion in order. */
  lemma LinkIsInsertion(path: Path, n: RbNode)
    requires Divides(path, n.key)
    ensures InOrder(Plug(path, Fork(Leaf, n, Leaf))) == Inserted(InOrder(Plug(path, Leaf)), n)
  {
    PlugInOrder(path, Leaf);
    PlugInOrder(path, Fork(Leaf, n, Leaf));
    var q := Before(path) + Behind(path);
    assert InOrder(Plug(path, Leaf)) == q;
    UpToIs(q, n.key, |Before(path)|);
    assert q[..|Before(path)|] == Before(path) && q[|Before(path)|..] == Behind(path);
  }

  /** Insertion in front of the first node with a larger key: behind all nodes with the same key. */
  function Inserted(q: seq<RbNode>, n: RbNode): seq<RbNode> {
    var k := UpTo(q, n.key);
    q[..k] + [n] + q[k..]
  }

  lemma {:induction false} UpToSplits(q: seq<RbNode>, key: int)
    requires Sorted(q)
    ensures forall i :: 0 <= i < UpTo(q, key) ==> q[i].key <= key
    ensures forall i :: UpTo(q, key) <= i < |q| ==> q[i].key > key
  {
    if q != [] && q[0].key <= key {
      UpToSplits(q[1..], key);
    }
  }

  /** Positions after an insertion. */
  lemma InsertedAt(q: seq<RbNode>, n: RbNode)
    ensures
      var k, r := UpTo(q, n.key), Inserted(q, n);
      && |r| == |q| + 1 && r[k] == n
      && (forall i :: 0 <= i < k ==> r[i] == q[i]) && (forall i :: k < i < |r| ==> r[i] == q[i - 1])
      && (forall i :: k <= i < |q| ==> r[i + 1] == q[i])
  {
  }

  lemma InsertedSorted(q: seq<RbNode>, n: RbNode)
    requires Sorted(q)
    ensures Sorted(Inserted(q, n))
  {
    hide Inserted;
    UpToSplits(q, n.key);
    InsertedAt(q, n);
    var k, r := UpTo(q, n.key), Inserted(q, n);
    forall i, j | 0 <= i < j < |r|
      ensures r[i].key <= r[j].key
    {
      if i != k && j != k {
        assert q[if i < k then i else i - 1].key <= q[if j < k then j else j - 1].key;
      }
    }
  }

  function Without(q: seq<RbNode>, n: RbNode): seq<RbNode> {
    if q == [] then []
    else if q[0] == n then q[1..]
    else [q[0]] + Without(q[1..], n)
  }

  lemma RotationKeepsOrder(a: Shape, x: RbNode, b: Shape, y: RbNode, c: Shape)
    ensures InOrder(Fork(Fork(a, x, b), y, c)) == InOrder(Fork(a, x, Fork(b, y, c)))
  {
    Regroup([], InOrder(a), x, InOrder(b), [y] + InOrder(c));
  }

  /** Rotates the subtree at `link`; the caller rewrites the link itself. */
  method Turn(link: RbNode?, leftwards: bool, ghost s: Shape, ghost top: RbNode?, ghost path: Path)
    returns (link': RbNode?, ghost s': Shape)
    requires Linked(link, s) && Proper(s)
    requires LinkedPath(top, path, link) && NodeSet(s) !! PathSet(path)
    modifies NodeSet(s)
    ensures Linked(link', s') && Proper(s') && LinkedPath(top, path, link)
    ensures InOrder(s') == InOrder(s) && NodeSet(s') == NodeSet(s)
  {
    hide InOrder;
    link', s' := link, s;
    if link != null && leftwards && link.right != null {
      link' := link.right;
      s' := Fork(Fork(s.left, link, s.right.left), link', s.right.right);
      RotationKeepsOrder(s.left, link, s.right.left, link', s.right.right);
      link.right := link'.left;
      link'.left := link;
    } else if link != null && !leftwards && link.left != null {
      link' := link.left;
      s' := Fork(s.left.left, link', Fork(s.left.right, link, s.right));
      RotationKeepsOrder(s.left.left, link', s.left.right, link, s.right);
      link.left := link'.right;
      link'.right := link;
    }
  }

  lemma RegroupJoin<T>(a: seq<T>, x: seq<T>, n: T, r: seq<T>)
    ensures a + (x + [n] + r) + [] == (a + (x + [n] + []) + []) + r
  {
  }

  lemma JoinedOrder(down: Path, x: Shape, last: RbNode, rs: Shape)
    requires Behind(down) == []
    ensures InOrder(Plug(down, Fork(x, last, rs))) == InOrder(Plug(down, Fork(x, last, Leaf))) + InOrder(rs)
  {
    PlugInOrder(down, Fork(x, last, Leaf));
    PlugInOrder(down, Fork(x, last, rs));
    RegroupJoin(Before(down), InOrder(x), last, InOrder(rs));
  }

  lemma JoinedShape(down: Path, x: Shape, last: RbNode, rs: Shape)
    requires ProperPath(down) && Proper(Fork(x, last, Leaf)) && Proper(rs)
    requires NodeSet(Fork(x, last, Leaf)) !! PathSet(down) && NodeSet(rs) !! NodeSet(Plug(down, Fork(x, last, Leaf)))
    ensures
      var ls, js := Plug(down, Fork(x, last, Leaf)), Plug(down, Fork(x, last, rs));
      && Proper(js) && NodeSet(js) == NodeSet(ls) + NodeSet(rs)
      && last in NodeSet(ls) && last !in PathSet(down) && last !in NodeSet(rs) && last !in NodeSet(x)
  {
    PlugProper(down, Fork(x, last, Leaf));
    PlugProper(down, Fork(x, last, rs));
  }

  /** The rightmost node below `l`, which has no right subtree. */
  method Rightmost(l: RbNode, r: RbNode?, ghost ls: Shape, ghost rs: Shape, ghost top: RbNode?, ghost path: Path,
                   ghost hole: RbNode?)
    returns (last: RbNode, ghost down: Path, ghost rest: Shape)
    requires Linked(l, ls) && Proper(ls)
    requires Linked(r, rs) && LinkedPath(top, path, hole)
    ensures Linked(r, rs) && LinkedPath(top, path, hole)
    ensures LinkedPath(l, down, last) && ProperPath(down) && Behind(down) == []
    ensures Linked(last, rest) && Proper(rest) && NodeSet(rest) !! PathSet(down)
    ensures rest == Fork(rest.left, last, Leaf) && Plug(down, rest) == ls
  {
    last := l;
    down, rest := Top, ls;
    while last.right != null
      invariant LinkedPath(l, down, last) && ProperPath(down) && Behind(down) == []
      invariant Linked(last, rest) && Proper(rest) && NodeSet(rest) !! PathSet(down)
      invariant Plug(down, rest) == ls
      decreases rest
    {
      down := WentRight(down, rest.left, last);
      rest, last := rest.right, last.right;
    }
  }

  /** Hangs `r` behind everything in `l`, at the rightmost link of `l`. */
  method Join(l: RbNode?, r: RbNode?, ghost ls: Shape, ghost rs: Shape, ghost top: RbNode?, ghost path: Path,
              ghost hole: RbNode?)
    returns (j: RbNode?, ghost js: Shape)
    requires Linked(l, ls) && Linked(r, rs) && Proper(ls) && Proper(rs) && NodeSet(ls) !! NodeSet(rs)
    requires LinkedPath(top, path, hole) && NodeSet(ls) !! PathSet(path)
    modifies NodeSet(ls)
    ensures Linked(j, js) && Proper(js) && LinkedPath(top, path, hole)
    ensures InOrder(js) == InOrder(ls) + InOrder(rs) && NodeSet(js) == NodeSet(ls) + NodeSet(rs)
  {
    if l == null {
      return r, rs;
    }
    hide InOrder, Before, Behind, Plug;
    var last;
    ghost var down, rest;
    last, down, rest := Rightmost(l, r, ls, rs, top, path, hole);
    JoinedShape(down, rest.left, last, rs);
    JoinedOrder(down, rest.left, last, rs);
    last.right := r;
    j, js := l, Plug(down, Fork(rest.left, last, rs));
    PlugLinked(l, down, last, Fork(rest.left, last, rs));
  }

  /** The nodes below a link, in order. */
  function Collect(link: RbNode?, ghost s: Shape): (q: seq<RbNode>)
    requires Linked(link, s)
    reads NodeSet(s)
    ensures q == InOrder(s)
    decreases s
  {
    if link == null then []
    else Collect(link.left, s.left) + [link] + Collect(link.right, s.right)
  }

  lemma {:induction false} WithoutAt(a: seq<RbNode>, n: RbNode, b: seq<RbNode>)
    requires n !in a
    ensures Without(a + [n] + b, n) == a + b
  {
    if a == [] {
      assert a + [n] + b == [n] + b;
    } else {
      assert (a + [n] + b)[1..] == a[1..] + [n] + b;
      WithoutAt(a[1..], n, b);
    }
  }

  lemma {:induction false} BeforeIsOnPath(path: Path, n: RbNode)
    requires n !in PathSet(path)
    ensures n !in Before(path)
  {
    match path
    case Top =>
    case WentLeft(up, _, _) => BeforeIsOnPath(up, n);
    case WentRight(up, l, _) =>
      BeforeIsOnPath(up, n);
      InOrderSet(l, n);
  }

  lemma RegroupWithout<T>(a: seq<T>, l: seq<T>, n: T, r: seq<T>, b: seq<T>)
    ensures a + (l + [n] + r) + b == (a + l) + [n] + (r + b)
    ensures a + (l + r) + b == (a + l) + (r + b)
  {
  }

  /** Taking the node at the end of a path out of the order. */
  lemma UnlinkIsRemoval(path: Path, l: Shape, n: RbNode, r: Shape)
    requires n !in PathSet(path) && n !in NodeSet(l)
    ensures Without(InOrder(Plug(path, Fork(l, n, r))), n) == Before(path) + (InOrder(l) + InOrder(r)) + Behind(path)
  {
    PlugInOrder(path, Fork(l, n, r));
    BeforeIsOnPath(path, n);
    InOrderSet(l, n);
    RegroupWithout(Before(path), InOrder(l), n, InOrder(r), Behind(path));
    WithoutAt(Before(path) + InOrder(l), n, InOrder(r) + Behind(path));
  }

  /** A tree as its owner sees it: the root pointer, which everything else hangs from. */
  class RbRoot {
    var top: RbNode?
    ghost var shape: Shape
    ghost var Repr: set<RbNode>

    ghost function Nodes(): seq<RbNode>
      reads this
    {
      InOrder(shape)
    }

    /** The pointers have the recorded shape. */
    ghost predicate Valid()
      reads this, Repr
    {
      Repr == NodeSet(shape) && Proper(shape) && Linked(top, shape)
    }

    constructor ()
      ensures Valid() && Nodes() == [] && Repr == {}
    {
      top := null;
      shape := Leaf;
      Repr := {};
    }

    /** Writes the link at the end of a path, as `*link = node` does, and so hangs `s` there. */
    method SetLink(parent: RbNode?, goesLeft: bool, node: RbNode?, ghost path: Path, ghost hole: RbNode?,
                   ghost s: Shape)
      requires LinkedPath(top, path, hole) && ProperPath(path)
      requires Linked(node, s) && Proper(s) && NodeSet(s) !! PathSet(path)
      requires Ends(path, parent, goesLeft)
      modifies this, if parent == null then {} else {parent}
      ensures shape == Plug(path, s) && Valid()
      ensures Nodes() == Before(path) + InOrder(s) + Behind(path) && Repr == NodeSet(s) + PathSet(path)
    {
      hide InOrder, Plug, Before, Behind;
      if parent == null {
        top := node;
      } else if goesLeft {
        parent.left := node;
      } else {
        parent.right := node;
      }
      PlugLinked(top, path, node, s);
      PlugProper(path, s);
      PlugInOrder(path, s);
      shape := Plug(path, s);
      Repr := NodeSet(shape);
    }

    /** Goes down from the root to the empty link where `value` belongs. */
    method Descend(value: int) returns (parent: RbNode?, goesLeft: bool, ghost path: Path)
      requires Valid() && Sorted(Nodes())
      ensures LinkedPath(top, path, null) && ProperPath(path) && Plug(path, Leaf) == shape
      ensures Divides(path, value)
      ensures Ends(path, parent, goesLeft)
    {
      var link := top;
      parent, goesLeft := null, false;
      ghost var rest := shape;
      path := Top;
      while link != null
        invariant LinkedPath(top, path, link) && ProperPath(path)
        invariant Linked(link, rest) && Proper(rest) && NodeSet(rest) !! PathSet(path)
        invariant Plug(path, rest) == shape
        invariant Ends(path, parent, goesLeft)
        invariant Divides(path, value)
        decreases rest
      {
        DescendKeepsDivides(path, rest, value);
        parent := link;
        if link.key > value {
          path, goesLeft := WentLeft(path, link, rest.right), true;
          rest, link := rest.left, link.left;
        } else {
          path, goesLeft := WentRight(path, rest.left, link), false;
          rest, link := rest.right, link.right;
        }
      }
    }

    /** Goes down from the root to any link. */
    method Wander() returns (link: RbNode?, parent: RbNode?, goesLeft: bool, ghost path: Path, ghost rest: Shape)
      requires Valid()
      ensures LinkedPath(top, path, link) && ProperPath(path)
      ensures Linked(link, rest) && Proper(rest) && NodeSet(rest) !! PathSet(path)
      ensures Plug(path, rest) == shape
      ensures Ends(path, parent, goesLeft)
    {
      link, parent, goesLeft := top, null, false;
      path, rest := Top, shape;
      var further: bool, leftwards: bool := *, *;
      while link != null && further
        invariant LinkedPath(top, path, link) && ProperPath(path)
        invariant Linked(link, rest) && Proper(rest) && NodeSet(rest) !! PathSet(path)
        invariant Plug(path, rest) == shape
        invariant Ends(path, parent, goesLeft)
        decreases rest
      {
        parent, goesLeft := link, leftwards;
        if leftwards {
          path := WentLeft(path, link, rest.right);
          rest, link := rest.left, link.left;
        } else {
          path := WentRight(path, rest.left, link);
          rest, link := rest.right, link.right;
        }
        further, leftwards := *, *;
      }
    }

    /** One rotation at any link of the tree, in either direction, where there is room for one. */
    method Rotate()
      requires Valid()
      modifies this, Repr
      ensures Valid() && Nodes() == old(Nodes()) && Repr == old(Repr)
    {
      ghost var path, rest, turned;
      var link, parent, goesLeft, link';
      var leftwards: bool := *;
      link, parent, goesLeft, path, rest := Wander();
      PlugInOrder(path, rest);
      PlugProper(path, rest);
      link', turned := Turn(link, leftwards, rest, top, path);
      SetLink(parent, goesLeft, link', path, link, turned);
    }

    /** The library's rebalancing, seen as any number of rotations at any places. */
    method Rebalance()
      requires Valid()
      modifies this, Repr
      ensures Valid() && Nodes() == old(Nodes()) && Repr == old(Repr)
    {
      var turns: nat := *;
      while turns > 0
        invariant Valid() && Nodes() == old(Nodes()) && Repr == old(Repr)
      {
        Rotate();
        turns := turns - 1;
      }
    }

    /** `my_rb_insert`: descend, link the new node, and let the library rebalance. */
    method Insert(n: RbNode)
      requires Valid() && Sorted(Nodes()) && n !in Repr
      modifies this, Repr, n
      ensures Valid() && Nodes() == Inserted(old(Nodes()), n) && Repr == old(Repr) + {n}
    {
      hide InOrder, Inserted, Sorted, Divides, Plug, Before, Behind;
      ghost var path;
      var parent, goesLeft;
      parent, goesLeft, path := Descend(n.key);
      LinkIsInsertion(path, n);
      PlugInOrder(path, Fork(Leaf, n, Leaf));
      PlugProper(path, Leaf);
      n.left, n.right := null, null;
      SetLink(parent, goesLeft, n, path, null, Fork(Leaf, n, Leaf));
      Rebalance();
    }

    /** Finds the link that holds `n`. */
    method Locate(n: RbNode) returns (parent: RbNode?, goesLeft: bool, ghost path: Path, ghost rest: Shape)
      requires Valid() && n in Repr
      ensures LinkedPath(top, path, n) && ProperPath(path) && Ends(path, parent, goesLeft)
      ensures rest.Fork? && Linked(n, rest) && Proper(rest) && NodeSet(rest) !! PathSet(path)
      ensures Plug(path, rest) == shape
    {
      var link := top;
      parent, goesLeft := null, false;
      path, rest := Top, shape;
      while link != n
        invariant LinkedPath(top, path, link) && ProperPath(path) && Ends(path, parent, goesLeft)
        invariant Linked(link, rest) && Proper(rest) && NodeSet(rest) !! PathSet(path)
        invariant Plug(path, rest) == shape && n in NodeSet(rest)
        decreases rest
      {
        InOrderSet(rest.left, n);
        parent, goesLeft := link, n in Collect(link.left, rest.left);
        if goesLeft {
          path := WentLeft(path, link, rest.right);
          rest, link := rest.left, link.left;
        } else {
          path := WentRight(path, rest.left, link);
          rest, link := rest.right, link.right;
        }
      }
    }

    /** The library's `rb_erase`: the node leaves the order and the others keep theirs. */
    method Erase(n: RbNode)
      requires Valid() && n in Repr
      modifies this, Repr
      ensures Valid() && Nodes() == Without(old(Nodes()), n) && Repr == old(Repr) - {n}
    {
      ghost var path, rest, joinedShape;
      var parent, goesLeft, joined;
      parent, goesLeft, path, rest := Locate(n);
      UnlinkIsRemoval(path, rest.left, n, rest.right);
      PlugProper(path, rest);
      joined, joinedShape := Join(n.left, n.right, rest.left, rest.right, top, path, n);
      SetLink(parent, goesLeft, joined, path, n, joinedShape);
      Rebalance();
    }

    /** The library's `rb_first`. */
    method First() returns (n: RbNode?)
      requires Valid()
      ensures n == if Nodes() == [] then null else Nodes()[0]
    {
      var q := Collect(top, shape);
      n := if q == [] then null else q[0];
    }

    /** The library's `rb_last`. */
    method Last() returns (n: RbNode?)
      requires Valid()
      ensures n == if Nodes() == [] then null else Nodes()[|Nodes()| - 1]
    {
      var q := Collect(top, shape);
      n := if q == [] then null else q[|q| - 1];
    }

    /** The library's `rb_next`. */
    method Next(n: RbNode, ghost k: nat) returns (next: RbNode?)
      requires Valid() && k < |Nodes()| && Nodes()[k] == n
      ensures next == if k + 1 < |Nodes()| then Nodes()[k + 1] else null
    {
      var q := Collect(top, shape);
      var j := 0;
      while q[j] != n
        invariant 0 <= j <= k
        decreases k - j
      {
        j := j + 1;
      }
      InOrderInjective(shape, j, k);
      next := if j + 1 < |q| then q[j + 1] else null;
    }

    /** The library's `rb_prev`. */
    method Prev(n: RbNode, ghost k: nat) returns (prev: RbNode?)
      requires Valid() && k < |Nodes()| && Nodes()[k] == n
      ensures prev == if 0 < k then Nodes()[k - 1] else null
    {
      var q := Collect(top, shape);
      var j := 0;
      while q[j] != n
        invariant 0 <= j <= k
        decreases k - j
      {
        j := j + 1;
      }
      InOrderInjective(shape, j, k);
      prev := if 0 < j then q[j - 1] else null;
    }

    /** Takes the successor of the first node, then erases the node. */
    method TakeFirst(position: RbNode) returns (next: RbNode?)
      requires Valid() && Nodes() != [] && position == Nodes()[0]
      modifies this, Repr
      ensures Valid() && Repr <= old(Repr) && Nodes() == old(Nodes())[1..]
      ensures next == if Nodes() == [] then null else Nodes()[0]
    {
      next := Next(position, 0);
      InOrderSet(shape, position);
      Erase(position);
    }

    /** Takes the successor of each node before erasing it: every node once, in order, and none is left. */
    method Drain() returns (visited: seq<RbNode>)
      requires Valid()
      modifies this, Repr
      ensures Valid() && Nodes() == []
      ensures visited == old(Nodes())
    {
      hide Valid, InOrder, Nodes;
      ghost var was := Nodes();
      visited := [];
      var position := First();
      while position != null
        invariant Valid() && Repr <= old(Repr)
        invariant visited + Nodes() == was
        invariant position == if Nodes() == [] then null else Nodes()[0]
        decreases |Nodes()|
      {
        MoveFirst(visited, Nodes());
        visited := visited + [position];
        position := TakeFirst(position);
      }
    }
  }

  lemma MoveFirst<T>(a: seq<T>, b: seq<T>)
    requires b != []
    ensures (a + [b[0]]) + b[1..] == a + b
  {
  }
}
