/**
The compacting copy (mdb_env_cwalk): a depth-first walk writes every page of a tree, its overflow runs
and its sub-databases to a new file, numbering them anew from 2.
*/
module CompactCopy {
  import opened Common
  import Mvcc

  // ---------------------------------------------------------------- the tree that is copied

  /** A leaf node: data in place, data on a run of overflow pages, or a named database. */
  datatype Node =
    | Inline(key: int, data: int)
    | Big(key: int, pages: nat, data: int)
    | Sub(key: int, info: int, root: Option<Src>)

  datatype Src = Leaf(nodes: seq<Node>) | Branch(seps: seq<int>, kids: seq<Src>)

  // ---------------------------------------------------------------- the file that is written

  datatype OutNode =
    | OutInline(key: int, data: int)
    | OutBig(key: int, at: nat)
    | OutSub(key: int, info: int, root: Option<nat>)

  datatype Page =
    | LeafPage(nodes: seq<OutNode>)
    | BranchPage(seps: seq<int>, kids: seq<nat>)
    | Run(pages: nat, data: int)

  /** A page, or a run of overflow pages, with the number it is written under. */
  datatype Written = Written(at: nat, page: Page)

  function Length(p: Page): nat { if p.Run? then p.pages else 1 }

  // ---------------------------------------------------------------- what the walk writes

  /** The pages written, the number of the top one, and the next free number. */
  datatype Emitted = Emitted(out: seq<Written>, root: nat, next: nat)
  datatype Nodes = Nodes(out: seq<Written>, nodes: seq<OutNode>, next: nat)
  datatype Kids = Kids(out: seq<Written>, roots: seq<nat>, next: nat)

  function EmitTree(t: Src, next: nat): Emitted
    decreases t, 0
  {
    match t
    case Leaf(nodes) =>
      var n := EmitNodes(nodes, next);
      Emitted(n.out + [Written(n.next, LeafPage(n.nodes))], n.next, n.next + 1)
    case Branch(seps, kids) =>
      var k := EmitKids(kids, next);
      Emitted(k.out + [Written(k.next, BranchPage(seps, k.roots))], k.next, k.next + 1)
  }

  function EmitNode(node: Node, next: nat): Nodes
    decreases node, 0
  {
    match node
    case Inline(key, data) => Nodes([], [OutInline(key, data)], next)
    case Big(key, pages, data) => Nodes([Written(next, Run(pages, data))], [OutBig(key, next)], next + pages)
    case Sub(key, info, root) =>
      if root.None? then Nodes([], [OutSub(key, info, None)], next)
      else
        var e := EmitTree(root.value, next);
        Nodes(e.out, [OutSub(key, info, Some(e.root))], e.next)
  }

  /** The nodes of a leaf, from the first to the last. */
  function EmitNodes(nodes: seq<Node>, next: nat): Nodes
    decreases nodes, |nodes|
  {
    if nodes == [] then Nodes([], [], next)
    else
      var a := EmitNode(nodes[0], next);
      var b := EmitNodes(nodes[1..], a.next);
      Nodes(a.out + b.out, a.nodes + b.nodes, b.next)
  }

  function EmitKids(kids: seq<Src>, next: nat): Kids
    decreases kids, |kids|
  {
    if kids == [] then Kids([], [], next)
    else
      var a := EmitTree(kids[0], next);
      var b := EmitKids(kids[1..], a.next);
      Kids(a.out + b.out, [a.root] + b.roots, b.next)
  }

  // ---------------------------------------------------------------- consecutive numbers

  /** The pages follow one another from `from` up to `to`. */
  ghost predicate Consecutive(out: seq<Written>, from: nat, to: nat) {
    if out == [] then from == to
    else out[0].at == from && Consecutive(out[1..], from + Length(out[0].page), to)
  }

  lemma {:induction false} Chain(a: seq<Written>, b: seq<Written>, from: nat, mid: nat, to: nat)
    requires Consecutive(a, from, mid) && Consecutive(b, mid, to)
    ensures Consecutive(a + b, from, to)
  {
    if a == [] {
      assert a + b == b;
    } else {
      Chain(a[1..], b, from + Length(a[0].page), mid, to);
      assert (a + b)[1..] == a[1..] + b;
    }
  }

  lemma ChainOne(a: seq<Written>, from: nat, at: nat, p: Page)
    requires Consecutive(a, from, at)
    ensures Consecutive(a + [Written(at, p)], from, at + Length(p))
  {
    Chain(a, [Written(at, p)], from, at, at + Length(p));
  }

  lemma {:induction false} TreeConsecutive(t: Src, next: nat)
    ensures var e := EmitTree(t, next);
      next <= e.root && e.next == e.root + 1 && Consecutive(e.out, next, e.next)
    decreases t, 0
  {
    match t
    case Leaf(nodes) =>
      NodesConsecutive(nodes, next);
      var n := EmitNodes(nodes, next);
      ChainOne(n.out, next, n.next, LeafPage(n.nodes));
    case Branch(seps, kids) =>
      KidsConsecutive(kids, next);
      var k := EmitKids(kids, next);
      ChainOne(k.out, next, k.next, BranchPage(seps, k.roots));
  }

  lemma {:induction false} NodeConsecutive(node: Node, next: nat)
    ensures var n := EmitNode(node, next); next <= n.next && |n.nodes| == 1 && Consecutive(n.out, next, n.next)
    decreases node, 0
  {
    match node
    case Inline(_, _) =>
    case Big(_, pages, data) => ChainOne([], next, next, Run(pages, data));
    case Sub(_, _, root) => if root.Some? { TreeConsecutive(root.value, next); }
  }

  lemma {:induction false} NodesConsecutive(nodes: seq<Node>, next: nat)
    ensures var n := EmitNodes(nodes, next);
      next <= n.next && |n.nodes| == |nodes| && Consecutive(n.out, next, n.next)
    decreases nodes, |nodes|
  {
    if nodes != [] {
      var a := EmitNode(nodes[0], next);
      NodeConsecutive(nodes[0], next);
      NodesConsecutive(nodes[1..], a.next);
      var b := EmitNodes(nodes[1..], a.next);
      Chain(a.out, b.out, next, a.next, b.next);
    }
  }

  lemma {:induction false} KidsConsecutive(kids: seq<Src>, next: nat)
    ensures var k := EmitKids(kids, next);
      next <= k.next && |k.roots| == |kids| && Consecutive(k.out, next, k.next)
    decreases kids, |kids|
  {
    if kids != [] {
      var a := EmitTree(kids[0], next);
      TreeConsecutive(kids[0], next);
      KidsConsecutive(kids[1..], a.next);
      var b := EmitKids(kids[1..], a.next);
      Chain(a.out, b.out, next, a.next, b.next);
    }
  }

  // ---------------------------------------------------------------- reading the file back

  /** Page p of the file is the top page of a copy of t.  Whatever a page refers to comes before it. */
  ghost predicate Holds(out: seq<Written>, p: nat, t: Src)
    decreases t, 2
  {
    exists page :: Written(p, page) in out && Matches(out, p, page, t)
  }

  ghost predicate Matches(out: seq<Written>, p: nat, page: Page, t: Src)
    decreases t, 1
  {
    match t
    case Leaf(nodes) =>
      && page.LeafPage? && |page.nodes| == |nodes|
      && forall i :: 0 <= i < |nodes| ==> MatchNode(out, p, page.nodes[i], nodes[i])
    case Branch(seps, kids) =>
      && page.BranchPage? && page.seps == seps && |page.kids| == |kids|
      && forall i :: 0 <= i < |kids| ==> page.kids[i] < p && Holds(out, page.kids[i], kids[i])
  }

  ghost predicate MatchNode(out: seq<Written>, p: nat, on: OutNode, node: Node)
    decreases node, 0
  {
    match node
    case Inline(key, data) => on == OutInline(key, data)
    case Big(key, pages, data) =>
      on.OutBig? && on.key == key && on.at + pages <= p && Written(on.at, Run(pages, data)) in out
    case Sub(key, info, root) =>
      && on.OutSub? && on.key == key && on.info == info && (root.None? <==> on.root.None?)
      && (root.Some? ==> on.root.value < p && Holds(out, on.root.value, root.value))
  }

  ghost predicate Within(a: seq<Written>, b: seq<Written>) { forall w :: w in a ==> w in b }

  lemma {:induction false} HoldsMore(a: seq<Written>, b: seq<Written>, p: nat, t: Src)
    requires Within(a, b) && Holds(a, p, t)
    ensures Holds(b, p, t)
    decreases t, 2
  {
    var page :| Written(p, page) in a && Matches(a, p, page, t);
    match t
    case Leaf(nodes) =>
      forall i | 0 <= i < |nodes| ensures MatchNode(b, p, page.nodes[i], nodes[i]) {
        NodeMore(a, b, p, page.nodes[i], nodes[i], p);
      }
      assert Matches(b, p, page, t);
    case Branch(_, kids) =>
      forall i | 0 <= i < |kids| ensures Holds(b, page.kids[i], kids[i]) { HoldsMore(a, b, page.kids[i], kids[i]); }
      assert Matches(b, p, page, t);
  }

  lemma {:induction false} NodeMore(a: seq<Written>, b: seq<Written>, p: nat, on: OutNode, node: Node, p': nat)
    requires Within(a, b) && MatchNode(a, p, on, node) && p <= p'
    ensures MatchNode(b, p', on, node)
    decreases node, 0
  {
    if node.Sub? && node.root.Some? { HoldsMore(a, b, on.root.value, node.root.value); }
  }

  /** The walk writes a copy of the tree. */
  lemma {:induction false} TreeHolds(t: Src, next: nat)
    ensures var e := EmitTree(t, next); Holds(e.out, e.root, t)
    decreases t, 0
  {
    var e := EmitTree(t, next);
    match t
    case Leaf(nodes) =>
      var n := EmitNodes(nodes, next);
      NodesConsecutive(nodes, next);
      NodesMatch(nodes, next);
      forall i | 0 <= i < |nodes| ensures MatchNode(e.out, e.root, n.nodes[i], nodes[i]) {
        NodeMore(n.out, e.out, n.next, n.nodes[i], nodes[i], e.root);
      }
      assert Written(e.root, LeafPage(n.nodes)) in e.out && Matches(e.out, e.root, LeafPage(n.nodes), t);
    case Branch(seps, kids) =>
      var k := EmitKids(kids, next);
      KidsConsecutive(kids, next);
      KidsHold(kids, next);
      forall i | 0 <= i < |kids| ensures Holds(e.out, k.roots[i], kids[i]) {
        HoldsMore(k.out, e.out, k.roots[i], kids[i]);
      }
      assert Written(e.root, BranchPage(seps, k.roots)) in e.out;
      assert Matches(e.out, e.root, BranchPage(seps, k.roots), t);
  }

  lemma {:induction false} NodesMatch(nodes: seq<Node>, next: nat)
    ensures var n := EmitNodes(nodes, next);
      |n.nodes| == |nodes| && forall i :: 0 <= i < |nodes| ==> MatchNode(n.out, n.next, n.nodes[i], nodes[i])
    decreases nodes, |nodes|
  {
    if nodes != [] {
      var n, a := EmitNodes(nodes, next), EmitNode(nodes[0], next);
      var b := EmitNodes(nodes[1..], a.next);
      NodeConsecutive(nodes[0], next);
      NodesConsecutive(nodes[1..], a.next);
      NodeMatches(nodes[0], next);
      NodesMatch(nodes[1..], a.next);
      assert n.nodes[0] == a.nodes[0] && forall i :: 1 <= i < |nodes| ==> n.nodes[i] == b.nodes[i - 1];
      NodeMore(a.out, n.out, a.next, a.nodes[0], nodes[0], n.next);
      forall i | 1 <= i < |nodes| ensures MatchNode(n.out, n.next, n.nodes[i], nodes[i]) {
        assert MatchNode(b.out, b.next, b.nodes[i - 1], nodes[1..][i - 1]);
        NodeMore(b.out, n.out, b.next, n.nodes[i], nodes[i], n.next);
      }
    }
  }

  lemma {:induction false} NodeMatches(node: Node, next: nat)
    ensures var n := EmitNode(node, next); |n.nodes| == 1 && MatchNode(n.out, n.next, n.nodes[0], node)
    decreases node, 0
  {
    if node.Sub? && node.root.Some? {
      TreeHolds(node.root.value, next);
      TreeConsecutive(node.root.value, next);
    }
  }

  lemma {:induction false} KidsHold(kids: seq<Src>, next: nat)
    ensures var k := EmitKids(kids, next);
      && |k.roots| == |kids|
      && forall i :: 0 <= i < |kids| ==> k.roots[i] < k.next && Holds(k.out, k.roots[i], kids[i])
    decreases kids, |kids|
  {
    if kids != [] {
      var k, a := EmitKids(kids, next), EmitTree(kids[0], next);
      var b := EmitKids(kids[1..], a.next);
      TreeConsecutive(kids[0], next);
      KidsConsecutive(kids[1..], a.next);
      TreeHolds(kids[0], next);
      KidsHold(kids[1..], a.next);
      assert k.roots[0] == a.root && forall i :: 1 <= i < |kids| ==> k.roots[i] == b.roots[i - 1];
      HoldsMore(a.out, k.out, a.root, kids[0]);
      forall i | 1 <= i < |kids| ensures k.roots[i] < k.next && Holds(k.out, k.roots[i], kids[i]) {
        assert Holds(b.out, b.roots[i - 1], kids[1..][i - 1]);
        HoldsMore(b.out, k.out, k.roots[i], kids[i]);
      }
    }
  }

  // ---------------------------------------------------------------- the file determines the tree

  /** No number is used twice. */
  ghost predicate Unique(out: seq<Written>) {
    forall v, w :: v in out && w in out && v.at == w.at ==> v == w
  }

  ghost predicate Solid(out: seq<Written>) { forall w :: w in out ==> Length(w.page) > 0 }

  lemma {:induction false} NumberedBetween(out: seq<Written>, from: nat, to: nat)
    requires Consecutive(out, from, to)
    ensures from <= to && forall w :: w in out ==> from <= w.at && w.at + Length(w.page) <= to
  {
    if out != [] {
      NumberedBetween(out[1..], from + Length(out[0].page), to);
      assert out == [out[0]] + out[1..];
    }
  }

  /** Consecutive numbers are never used twice. */
  lemma {:induction false} NumbersUnique(out: seq<Written>, from: nat, to: nat)
    requires Consecutive(out, from, to) && Solid(out)
    ensures Unique(out)
  {
    if out != [] {
      var rest := out[1..];
      assert out == [out[0]] + rest;
      NumbersUnique(rest, from + Length(out[0].page), to);
      NumberedBetween(rest, from + Length(out[0].page), to);
    }
  }

  /** Two trees that one page of the file is a copy of are the same. */
  lemma {:induction false} HoldsOne(out: seq<Written>, p: nat, t: Src, u: Src)
    requires Unique(out) && Holds(out, p, t) && Holds(out, p, u)
    ensures t == u
    decreases t, 1
  {
    var x :| Written(p, x) in out && Matches(out, p, x, t);
    var y :| Written(p, y) in out && Matches(out, p, y, u);
    assert Written(p, x) == Written(p, y);
    match t
    case Leaf(nodes) =>
      forall i | 0 <= i < |nodes| ensures nodes[i] == u.nodes[i] { NodeOne(out, p, x.nodes[i], nodes[i], u.nodes[i]); }
    case Branch(_, kids) =>
      forall i | 0 <= i < |kids| ensures kids[i] == u.kids[i] { HoldsOne(out, x.kids[i], kids[i], u.kids[i]); }
  }

  lemma {:induction false} NodeOne(out: seq<Written>, p: nat, on: OutNode, a: Node, b: Node)
    requires Unique(out) && MatchNode(out, p, on, a) && MatchNode(out, p, on, b)
    ensures a == b
    decreases a, 0
  {
    match a
    case Inline(_, _) =>
    case Big(_, pages, data) => assert Written(on.at, Run(pages, data)) == Written(on.at, Run(b.pages, b.data));
    case Sub(_, _, root) => if root.Some? { HoldsOne(out, on.root.value, root.value, b.root.value); }
  }

  // ---------------------------------------------------------------- how many pages

  /** The pages of a tree with all that hangs below it. */
  function PageCount(t: Src): nat
    decreases t, 0
  {
    match t
    case Leaf(nodes) => NodePages(nodes) + 1
    case Branch(_, kids) => KidPages(kids) + 1
  }

  function NodePages(nodes: seq<Node>): nat
    decreases nodes, |nodes|
  {
    if nodes == [] then 0 else Hanging(nodes[0]) + NodePages(nodes[1..])
  }

  /** The pages a leaf node refers to. */
  function Hanging(node: Node): nat
    decreases node, 0
  {
    match node
    case Inline(_, _) => 0
    case Big(_, pages, _) => pages
    case Sub(_, _, root) => if root.None? then 0 else PageCount(root.value)
  }

  function KidPages(kids: seq<Src>): nat
    decreases kids, |kids|
  {
    if kids == [] then 0 else PageCount(kids[0]) + KidPages(kids[1..])
  }

  lemma {:induction false} TreeCount(t: Src, next: nat)
    ensures EmitTree(t, next).next == next + PageCount(t)
    decreases t, 0
  {
    match t
    case Leaf(nodes) => NodesCount(nodes, next);
    case Branch(_, kids) => KidsCount(kids, next);
  }

  lemma {:induction false} NodesCount(nodes: seq<Node>, next: nat)
    ensures EmitNodes(nodes, next).next == next + NodePages(nodes)
    decreases nodes, |nodes|
  {
    if nodes != [] {
      NodeCount(nodes[0], next);
      NodesCount(nodes[1..], EmitNode(nodes[0], next).next);
    }
  }

  lemma {:induction false} NodeCount(node: Node, next: nat)
    ensures EmitNode(node, next).next == next + Hanging(node)
    decreases node, 0
  {
    if node.Sub? && node.root.Some? { TreeCount(node.root.value, next); }
  }

  lemma {:induction false} KidsCount(kids: seq<Src>, next: nat)
    ensures EmitKids(kids, next).next == next + KidPages(kids)
    decreases kids, |kids|
  {
    if kids != [] {
      TreeCount(kids[0], next);
      KidsCount(kids[1..], EmitTree(kids[0], next).next);
    }
  }

  // ---------------------------------------------------------------- the loop

  /** A branch page on the stack: the new numbers of the children that are done. */
  datatype Frame = Frame(seps: seq<int>, kids: seq<Src>, done: seq<nat>)

  /** What is still written once the current child of the innermost page has got number p. */
  function Resume(stack: seq<Frame>, p: nat, next: nat): Emitted
    decreases |stack|
  {
    if stack == [] then Emitted([], p, next)
    else
      var f := stack[|stack| - 1];
      var done := f.done + [p];
      var k := if |done| <= |f.kids| then EmitKids(f.kids[|done|..], next) else Kids([], [], next);
      var rest := Resume(stack[..|stack| - 1], k.next, k.next + 1);
      Emitted(k.out + [Written(k.next, BranchPage(f.seps, done + k.roots))] + rest.out, rest.root, rest.next)
  }

  /** What is still written from a page on. */
  function From(stack: seq<Frame>, t: Src, next: nat): Emitted {
    var e := EmitTree(t, next);
    var rest := Resume(stack, e.root, e.next);
    Emitted(e.out + rest.out, rest.root, rest.next)
  }

  /** Going down to the first child changes nothing about what is written. */
  lemma FromChild(stack: seq<Frame>, seps: seq<int>, kids: seq<Src>, next: nat)
    requires |kids| > 0
    ensures From(stack, Branch(seps, kids), next) == From(stack + [Frame(seps, kids, [])], kids[0], next)
  {
    var a := EmitTree(kids[0], next);
    var b := EmitKids(kids[1..], a.next);
    var below := stack + [Frame(seps, kids, [])];
    assert below[..|below| - 1] == stack && [] + [a.root] == [a.root];
    var page := Written(b.next, BranchPage(seps, [a.root] + b.roots));
    var rest := Resume(stack, b.next, b.next + 1);
    assert Resume(below, a.root, a.next) == Emitted(b.out + [page] + rest.out, rest.root, rest.next);
    assert EmitTree(Branch(seps, kids), next) == Emitted(a.out + b.out + [page], b.next, b.next + 1);
    assert (a.out + b.out + [page]) + rest.out == a.out + (b.out + [page] + rest.out);
  }

  lemma KidsFirst(kids: seq<Src>, n: nat, next: nat)
    requires n < |kids|
    ensures var a := EmitTree(kids[n], next);
      var b := EmitKids(kids[n + 1..], a.next);
      EmitKids(kids[n..], next) == Kids(a.out + b.out, [a.root] + b.roots, b.next)
  {
    assert kids[n..][0] == kids[n] && kids[n..][1..] == kids[n + 1..];
  }

  lemma ResumeTop(stack: seq<Frame>, f: Frame, p: nat, next: nat)
    requires |f.done| < |f.kids|
    ensures var k := EmitKids(f.kids[|f.done| + 1..], next);
      var rest := Resume(stack, k.next, k.next + 1);
      Resume(stack + [f], p, next)
      == Emitted(k.out + [Written(k.next, BranchPage(f.seps, f.done + [p] + k.roots))] + rest.out, rest.root, rest.next)
  {
    assert (stack + [f])[..|stack|] == stack;
  }

  lemma Shuffle(a: seq<Written>, b: seq<Written>, p: seq<Written>, r: seq<Written>)
    ensures (a + b) + p + r == a + (b + p + r)
  {
  }

  /** So does going on to the next child. */
  lemma ResumeChild(stack: seq<Frame>, f: Frame, p: nat, next: nat)
    requires |f.done| + 1 < |f.kids|
    ensures Resume(stack + [f], p, next)
         == From(stack + [f.(done := f.done + [p])], f.kids[|f.done| + 1], next)
  {
    var done, n := f.done + [p], |f.done| + 1;
    var a := EmitTree(f.kids[n], next);
    var b := EmitKids(f.kids[n + 1..], a.next);
    KidsFirst(f.kids, n, next);
    ResumeTop(stack, f, p, next);
    ResumeTop(stack, f.(done := done), a.root, a.next);
    assert done + ([a.root] + b.roots) == done + [a.root] + b.roots;
    var page := Written(b.next, BranchPage(f.seps, done + [a.root] + b.roots));
    Shuffle(a.out, b.out, [page], Resume(stack, b.next, b.next + 1).out);
  }

  /** After the last child the page itself is written. */
  lemma ResumeLast(stack: seq<Frame>, f: Frame, p: nat, next: nat)
    requires |f.done| + 1 == |f.kids|
    ensures var rest := Resume(stack, next, next + 1);
      Resume(stack + [f], p, next)
      == Emitted([Written(next, BranchPage(f.seps, f.done + [p]))] + rest.out, rest.root, rest.next)
  {
    assert f.kids[|f.done| + 1..] == [] && (stack + [f])[..|stack|] == stack;
    assert f.done + [p] + [] == f.done + [p];
  }

  lemma {:induction false} ResumeGrows(stack: seq<Frame>, p: nat, next: nat)
    ensures Resume(stack, p, next).next >= next
    decreases |stack|
  {
    if stack != [] {
      var f := stack[|stack| - 1];
      var done := f.done + [p];
      var k := if |done| <= |f.kids| then EmitKids(f.kids[|done|..], next) else Kids([], [], next);
      if |done| <= |f.kids| { KidsConsecutive(f.kids[|done|..], next); }
      ResumeGrows(stack[..|stack| - 1], k.next, k.next + 1);
    }
  }

  /** Every branch page, also of the databases below, has children. */
  predicate Shaped(t: Src)
    decreases t, 0
  {
    match t
    case Leaf(nodes) => forall i :: 0 <= i < |nodes| ==> ShapedNode(nodes[i])
    case Branch(_, kids) => |kids| > 0 && forall i :: 0 <= i < |kids| ==> Shaped(kids[i])
  }

  predicate ShapedNode(node: Node)
    decreases node, 0
  {
    node.Sub? && node.root.Some? ==> Shaped(node.root.value)
  }

  ghost predicate ShapedStack(stack: seq<Frame>) {
    forall i :: 0 <= i < |stack| ==>
      |stack[i].done| < |stack[i].kids| && forall j :: 0 <= j < |stack[i].kids| ==> Shaped(stack[i].kids[j])
  }

  lemma ShapedNext(up: seq<Frame>, f: Frame, p: nat)
    requires ShapedStack(up + [f]) && |f.done| + 1 < |f.kids|
    ensures ShapedStack(up + [f.(done := f.done + [p])]) && Shaped(f.kids[|f.done| + 1])
  {
    assert (up + [f])[|up|] == f;
    forall i | 0 <= i < |up| ensures (up + [f])[i] == up[i] {}
  }

  /** Goes down to the first leaf below a page. */
  method Down(stack0: seq<Frame>, t0: Src, ghost next: nat) returns (stack: seq<Frame>, nodes: seq<Node>)
    requires Shaped(t0) && ShapedStack(stack0)
    ensures ShapedStack(stack) && Shaped(Leaf(nodes)) && From(stack, Leaf(nodes), next) == From(stack0, t0, next)
  {
    stack := stack0;
    var t := t0;
    while t.Branch?
      invariant Shaped(t) && ShapedStack(stack) && From(stack, t, next) == From(stack0, t0, next)
      decreases t
    {
      FromChild(stack, t.seps, t.kids, next);
      stack := stack + [Frame(t.seps, t.kids, [])];
      t := t.kids[0];
    }
    nodes := t.nodes;
  }

  /** What has been written since `was` and what is still to come make up `all`. */
  ghost predicate Towards(out: seq<Written>, was: seq<Written>, rest: Emitted, all: Emitted) {
    rest.root == all.root && rest.next == all.next && out + rest.out == was + all.out
  }

  /** The same for the nodes of a leaf. */
  ghost predicate Copying(out: seq<Written>, ons: seq<OutNode>, rest: Nodes, was: seq<Written>, all: Nodes) {
    out + rest.out == was + all.out && ons + rest.nodes == all.nodes && rest.next == all.next
  }

  lemma NodesFirst(nodes: seq<Node>, i: nat, next: nat)
    requires i < |nodes|
    ensures var a := EmitNode(nodes[i], next);
      var b := EmitNodes(nodes[i + 1..], a.next);
      EmitNodes(nodes[i..], next) == Nodes(a.out + b.out, a.nodes + b.nodes, b.next)
    ensures NodePages(nodes[i..]) == Hanging(nodes[i]) + NodePages(nodes[i + 1..])
  {
    assert nodes[i..][0] == nodes[i] && nodes[i..][1..] == nodes[i + 1..];
  }

  /** mdb_copy: the pages handed to the writer so far and the next page number. */
  class Copy {
    var out: seq<Written>
    var next: nat

    constructor ()
      ensures out == [] && next == 2
    {
      out, next := [], 2;
    }

    method Write(p: Page) returns (at: nat)
      modifies this
      ensures at == old(next) && next == old(next) + Length(p) && out == old(out) + [Written(old(next), p)]
    {
      at := next;
      out, next := out + [Written(at, p)], next + Length(p);
    }

    /** One node of a leaf: its overflow run or its database is copied. */
    method CopyNode(node: Node, ghost limit: nat) returns (on: OutNode)
      requires ShapedNode(node) && Hanging(node) < limit
      modifies this
      ensures var e := EmitNode(node, old(next)); out == old(out) + e.out && next == e.next && [on] == e.nodes
      decreases limit, 0
    {
      match node
      case Inline(key, data) => on := OutInline(key, data);
      case Big(key, pages, data) =>
        var at := Write(Run(pages, data));
        on := OutBig(key, at);
      case Sub(key, info, root) =>
        var r := Walk(root);
        on := OutSub(key, info, r);
    }

    /** The nodes of a leaf. */
    method CopyNodes(nodes: seq<Node>, ghost limit: nat) returns (ons: seq<OutNode>)
      requires Shaped(Leaf(nodes)) && NodePages(nodes) < limit
      modifies this
      ensures var e := EmitNodes(nodes, old(next)); out == old(out) + e.out && next == e.next && ons == e.nodes
      decreases limit, 1
    {
      ghost var all, was := EmitNodes(nodes, next), out;
      ons := [];
      var i := 0;
      assert nodes[0..] == nodes;
      while i < |nodes|
        invariant 0 <= i <= |nodes| && NodePages(nodes[i..]) < limit
        invariant Copying(out, ons, EmitNodes(nodes[i..], next), was, all)
      {
        NodesFirst(nodes, i, next);
        ghost var one, before, done := EmitNode(nodes[i], next), out, ons;
        ghost var rest := EmitNodes(nodes[i + 1..], one.next);
        var on := CopyNode(nodes[i], limit);
        ons := ons + [on];
        ConcatAssoc(before, one.out, rest.out);
        ConcatAssoc(done, [on], rest.nodes);
        i := i + 1;
      }
      assert nodes[i..] == [] && out + [] == out && ons + [] == ons;
    }

    /** The nodes of a leaf, then the leaf itself. */
    method CopyLeaf(nodes: seq<Node>, ghost limit: nat) returns (at: nat)
      requires Shaped(Leaf(nodes)) && PageCount(Leaf(nodes)) <= limit
      modifies this
      ensures var e := EmitTree(Leaf(nodes), old(next)); out == old(out) + e.out && next == e.next && at == e.root
      decreases limit, 2
    {
      ghost var all, was := EmitNodes(nodes, next), out;
      var ons := CopyNodes(nodes, limit);
      at := Write(LeafPage(ons));
      ConcatAssoc(was, all.out, [Written(all.next, LeafPage(all.nodes))]);
    }

    /** A leaf on the way: what is left to write shrinks by what it emits. */
    method WalkLeaf(stack: seq<Frame>, nodes: seq<Node>, ghost was: seq<Written>, ghost all: Emitted, ghost limit: nat)
      returns (p: nat)
      requires Shaped(Leaf(nodes)) && Towards(out, was, From(stack, Leaf(nodes), next), all) && all.next <= next + limit
      modifies this
      ensures Towards(out, was, Resume(stack, p, next), all) && old(next) < next <= all.next
      decreases limit, 3
    {
      ghost var e := EmitTree(Leaf(nodes), next);
      TreeCount(Leaf(nodes), next);
      ResumeGrows(stack, e.root, e.next);
      ghost var before, rest := out, Resume(stack, e.root, e.next);
      p := CopyLeaf(nodes, limit);
      ConcatAssoc(before, e.out, rest.out);
    }

    /** On to the next child of the innermost page. */
    method WalkChild(up: seq<Frame>, f: Frame, p0: nat, ghost was: seq<Written>, ghost all: Emitted, ghost limit: nat)
      returns (stack: seq<Frame>, p: nat)
      requires ShapedStack(up + [f]) && |f.done| + 1 < |f.kids| && Towards(out, was, Resume(up + [f], p0, next), all)
      requires all.next <= next + limit
      modifies this
      ensures ShapedStack(stack) && Towards(out, was, Resume(stack, p, next), all) && old(next) < next <= all.next
      decreases limit, 4
    {
      ResumeChild(up, f, p0, next);
      ShapedNext(up, f, p0);
      var nodes;
      stack, nodes := Down(up + [f.(done := f.done + [p0])], f.kids[|f.done| + 1], next);
      p := WalkLeaf(stack, nodes, was, all, limit);
    }

    /** All children of the innermost page are done: it is written itself. */
    method WalkPage(up: seq<Frame>, f: Frame, p0: nat, ghost was: seq<Written>, ghost all: Emitted) returns (p: nat)
      requires |f.done| + 1 == |f.kids| && Towards(out, was, Resume(up + [f], p0, next), all)
      modifies this
      ensures Towards(out, was, Resume(up, p, next), all) && old(next) < next <= all.next
    {
      ResumeLast(up, f, p0, next);
      ghost var before, page := out, Written(next, BranchPage(f.seps, f.done + [p0]));
      ghost var rest := Resume(up, next, next + 1);
      ResumeGrows(up, next, next + 1);
      p := Write(BranchPage(f.seps, f.done + [p0]));
      ConcatAssoc(before, [page], rest.out);
    }

    /** One round of the loop above the leaves: on to the next child, or the page is finished. */
    method WalkOn(stack0: seq<Frame>, p0: nat, ghost was: seq<Written>, ghost all: Emitted, ghost limit: nat)
      returns (stack: seq<Frame>, p: nat)
      requires stack0 != [] && ShapedStack(stack0) && Towards(out, was, Resume(stack0, p0, next), all)
      requires all.next <= next + limit
      modifies this
      ensures ShapedStack(stack) && Towards(out, was, Resume(stack, p, next), all) && old(next) < next <= all.next
      decreases limit, 5
    {
      var f, up := stack0[|stack0| - 1], stack0[..|stack0| - 1];
      assert stack0 == up + [f];
      if |f.done| + 1 < |f.kids| {
        stack, p := WalkChild(up, f, p0, was, all, limit);
      } else {
        p := WalkPage(up, f, p0, was, all);
        stack := up;
      }
    }

    /** mdb_env_cwalk. */
    method Walk(root: Option<Src>) returns (r: Option<nat>)
      requires root.Some? ==> Shaped(root.value)
      modifies this
      ensures root.None? ==> r == None && out == old(out) && next == old(next)
      ensures root.Some? ==>
        var e := EmitTree(root.value, old(next)); out == old(out) + e.out && next == e.next && r == Some(e.root)
      decreases if root.None? then 0 else PageCount(root.value), 6
    {
      if root.None? { return None; }
      ghost var all, was, limit := EmitTree(root.value, next), out, PageCount(root.value);
      TreeCount(root.value, next);
      var stack, nodes := Down([], root.value, next);
      assert all.out + [] == all.out;
      var p := WalkLeaf(stack, nodes, was, all, limit);
      while stack != []
        invariant ShapedStack(stack) && Towards(out, was, Resume(stack, p, next), all) && old(next) <= next <= all.next
        decreases all.next - next
      {
        stack, p := WalkOn(stack, p, was, all, limit);
      }
      assert out + [] == out;
      return Some(p);
    }
  }

  // ---------------------------------------------------------------- the copy as a whole

  ghost predicate SolidTree(t: Src)
    decreases t, 0
  {
    match t
    case Leaf(nodes) => forall i :: 0 <= i < |nodes| ==> SolidNode(nodes[i])
    case Branch(_, kids) => forall i :: 0 <= i < |kids| ==> SolidTree(kids[i])
  }

  /** Overflow runs have at least one page. */
  ghost predicate SolidNode(node: Node)
    decreases node, 0
  {
    (node.Big? ==> node.pages > 0) && (node.Sub? && node.root.Some? ==> SolidTree(node.root.value))
  }

  lemma {:induction false} TreeSolid(t: Src, next: nat)
    requires SolidTree(t)
    ensures Solid(EmitTree(t, next).out)
    decreases t, 0
  {
    match t
    case Leaf(nodes) => NodesSolid(nodes, next);
    case Branch(_, kids) => KidsSolid(kids, next);
  }

  lemma {:induction false} NodeSolid(node: Node, next: nat)
    requires SolidNode(node)
    ensures Solid(EmitNode(node, next).out)
    decreases node, 0
  {
    if node.Sub? && node.root.Some? { TreeSolid(node.root.value, next); }
  }

  lemma {:induction false} NodesSolid(nodes: seq<Node>, next: nat)
    requires forall i :: 0 <= i < |nodes| ==> SolidNode(nodes[i])
    ensures Solid(EmitNodes(nodes, next).out)
    decreases nodes, |nodes|
  {
    if nodes != [] {
      NodeSolid(nodes[0], next);
      NodesSolid(nodes[1..], EmitNode(nodes[0], next).next);
    }
  }

  lemma {:induction false} KidsSolid(kids: seq<Src>, next: nat)
    requires forall i :: 0 <= i < |kids| ==> SolidTree(kids[i])
    ensures Solid(EmitKids(kids, next).out)
    decreases kids, |kids|
  {
    if kids != [] {
      TreeSolid(kids[0], next);
      KidsSolid(kids[1..], EmitTree(kids[0], next).next);
    }
  }

  /** The file of a compacting copy: pages 2, 3, ... each once, the root last, with as many pages as the
      tree has; it is a copy of the tree and of no other, and references go backwards only. */
  lemma CopyCorrect(t: Src)
    requires SolidTree(t)
    ensures var e := EmitTree(t, 2);
      && Consecutive(e.out, 2, e.next) && Unique(e.out)
      && e.root == e.next - 1 == PageCount(t) + 1
      && Holds(e.out, e.root, t)
      && forall u :: Holds(e.out, e.root, u) ==> u == t
  {
    var e := EmitTree(t, 2);
    TreeConsecutive(t, 2);
    TreeCount(t, 2);
    TreeHolds(t, 2);
    TreeSolid(t, 2);
    NumbersUnique(e.out, 2, e.next);
    forall u | Holds(e.out, e.root, u) ensures u == t { HoldsOne(e.out, e.root, u, t); }
  }

  // ---------------------------------------------------------------- the meta page of the copy

  const P_INVALID: nat := 0xffff_ffff_ffff_ffff

  function PagesOf(root: Option<Src>): nat { if root.Some? then PageCount(root.value) else 0 }

  /** The last page of the copy, and the page its main tree starts from. */
  function LastPage(root: Option<Src>): nat { 1 + PagesOf(root) }

  function RootPage(root: Option<Src>): nat { if root.Some? then EmitTree(root.value, 2).root else P_INVALID }

  /** What mdb_env_copyfd1 writes for both, from the size of the old file and its free pages, before it
      walks the tree. */
  function Foretold(nextPgno: nat, free: nat): int { nextPgno - free - 1 }

  /** It is the root of the copy exactly if there is one and the pages of the old file are free or in the tree. */
  lemma MetaRoot(root: Option<Src>, nextPgno: nat, free: nat)
    requires (root.Some? ==> SolidTree(root.value)) && nextPgno <= P_INVALID
    ensures Foretold(nextPgno, free) == LastPage(root) <==> nextPgno == 2 + PagesOf(root) + free
    ensures Foretold(nextPgno, free) == RootPage(root) <==> root.Some? && nextPgno == 2 + PagesOf(root) + free
  {
    if root.Some? { CopyCorrect(root.value); }
  }

  /** The copy of an environment nothing was ever stored in says that its root is the second meta page. */
  lemma EmptyCopy(maxpg: nat)
    ensures var m := Mvcc.Newest(Mvcc.Fresh(maxpg));
      var w := Foretold(m.snap.next, Mvcc.FreeCount(m.snap.free, m.txnid));
      w == 1 && w != RootPage(None)
  {
  }

  /** In every committed state whose pages are those of the main tree and of the free-page database, the
      last page is right, and the root is right exactly if the main tree is not empty. */
  lemma CommittedCopy(run: seq<Mvcc.Env>, steps: seq<Mvcc.Step>, maxpg: nat, i: nat, root: Option<Src>, freeDb: nat)
    requires Mvcc.IsRun(run, steps) && run[0] == Mvcc.Fresh(maxpg) && i < |run|
    requires (root.Some? ==> SolidTree(root.value)) && Mvcc.Newest(run[i]).snap.next <= P_INVALID
    requires |Mvcc.Newest(run[i]).snap.pages| == PagesOf(root) + freeDb
    ensures var m := Mvcc.Newest(run[i]);
      var w := Foretold(m.snap.next, Mvcc.FreeCount(m.snap.free, m.txnid) + freeDb);
      w == LastPage(root) && (w == RootPage(root) <==> root.Some?)
  {
    var m := Mvcc.Newest(run[i]);
    Mvcc.PageConservation(run, steps, maxpg, i);
    MetaRoot(root, m.snap.next, Mvcc.FreeCount(m.snap.free, m.txnid) + freeDb);
  }
}
