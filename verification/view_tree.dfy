/**
 * The view-hierarchy dump `tree` of the inspector: a pre-order listing of the
 * proper descendants of a view group, each paired with a one-line label made of
 * one bar per nesting level, a branch marker and the shortened class name.
 */
module ViewTree {
  import opened Strings

  /**
   * A view of the hierarchy. `Leaf` is a plain `View`, `Group` a `ViewGroup`
   * with its children in child-index order; `cls` is the runtime class name and
   * `id` tells apart views of the same class.
   */
  datatype Node = Leaf(cls: string, id: nat) | Group(cls: string, id: nat, children: seq<Node>)

  /** One line of the dump: the label and the view it describes. */
  type Entry = (string, Node)

  /** The marker in front of every class name. */
  const Branch := "+- "

  /** The prefix added once per nesting level. */
  const Bar := "|  "

  /** The entry a child yields before anything below it. */
  function Head(x: Node): Entry {
    (Branch + ShortName(x.cls), x)
  }

  /** Every label of `es` with one more bar in front; the views are kept. */
  function Indent(es: seq<Entry>): seq<Entry> {
    seq(|es|, k requires 0 <= k < |es| => (Bar + es[k].0, es[k].1))
  }

  /** The entries of the forest `cs`, one child after the other. */
  function Dump(cs: seq<Node>): (r: seq<Entry>)
    ensures |r| == SizeAll(cs)
    decreases cs
  {
    if cs == [] then []
    else [Head(cs[0])] + Below(cs[0]) + Dump(cs[1..])
  }

  /** What a child yields after its own entry: only a group is descended into. */
  function Below(x: Node): seq<Entry>
    decreases x, 0
  {
    if x.Group? then Indent(Dump(x.children)) else []
  }

  /** `tree(view)`: the dump of the children of the group `g`. */
  function Tree(g: Node): (r: seq<Entry>)
    requires g.Group?
    ensures |r| == Size(g) - 1
    ensures r == Labelled(Walk(g.children, 0))
  {
    DumpIsLabelledWalk(g.children);
    Dump(g.children)
  }

  // ---------------------------------------------------------------------------
  // Independent descriptions of a hierarchy, against which the dump is checked.
  // ---------------------------------------------------------------------------

  /** The number of views in the subtree rooted at `n`, `n` included. */
  function Size(n: Node): nat {
    1 + (if n.Group? then SizeAll(n.children) else 0)
  }

  /** The number of views in the forest `cs`. */
  function SizeAll(cs: seq<Node>): nat {
    if cs == [] then 0 else Size(cs[0]) + SizeAll(cs[1..])
  }

  /** The subtree rooted at `n` in pre-order: `n`, then each child's subtree in turn. */
  function Preorder(n: Node): seq<Node> {
    [n] + (if n.Group? then PreorderAll(n.children) else [])
  }

  /** The forest `cs` in pre-order. */
  function PreorderAll(cs: seq<Node>): seq<Node> {
    if cs == [] then [] else Preorder(cs[0]) + PreorderAll(cs[1..])
  }

  /**
   * The forest `cs` in pre-order with the depth of every view, counted top-down:
   * the views of `cs` are at depth `d`, their children at `d + 1`, and so on.
   */
  function Walk(cs: seq<Node>, d: nat): seq<(nat, Node)>
    decreases cs
  {
    if cs == [] then []
    else
      var x := cs[0];
      [(d, x)] + (if x.Group? then Walk(x.children, d + 1) else []) + Walk(cs[1..], d)
  }

  /** `d` bars. */
  function Bars(d: nat): string {
    if d == 0 then "" else Bar + Bars(d - 1)
  }

  /** The label a view at depth `d` should carry. */
  function Label(d: nat, x: Node): string {
    Bars(d) + Branch + ShortName(x.cls)
  }

  /** Each view of a walk with the label its depth calls for. */
  function Labelled(w: seq<(nat, Node)>): seq<Entry> {
    seq(|w|, k requires 0 <= k < |w| => (Label(w[k].0, w[k].1), w[k].1))
  }

  /** The views of a list of pairs, in order. */
  function Nodes<A>(ps: seq<(A, Node)>): seq<Node> {
    seq(|ps|, k requires 0 <= k < |ps| => ps[k].1)
  }

  /** The same walk one level deeper. */
  function Deeper(w: seq<(nat, Node)>): seq<(nat, Node)> {
    seq(|w|, k requires 0 <= k < |w| => (w[k].0 + 1, w[k].1))
  }

  /** The views whose label carries no bar: those at the top level of a dump. */
  function Roots(es: seq<Entry>): seq<Node> {
    if es == [] then []
    else (if Bar <= es[0].0 then [] else [es[0].1]) + Roots(es[1..])
  }

  // ---------------------------------------------------------------------------
  // Facts about the references.
  // ---------------------------------------------------------------------------

  /** A walk visits the views in pre-order, whatever depth it starts from. */
  lemma {:induction false} WalkNodes(cs: seq<Node>, d: nat)
    ensures Nodes(Walk(cs, d)) == PreorderAll(cs)
    decreases cs
  {
    if cs != [] {
      var x := cs[0];
      var sub := if x.Group? then Walk(x.children, d + 1) else [];
      if x.Group? {
        WalkNodes(x.children, d + 1);
      }
      WalkNodes(cs[1..], d);
      NodesAppend([(d, x)] + sub, Walk(cs[1..], d));
      NodesAppend([(d, x)], sub);
    }
  }

  /** Starting one level deeper adds one to every depth and changes nothing else. */
  lemma {:induction false} WalkDeeper(cs: seq<Node>, d: nat)
    ensures Walk(cs, d + 1) == Deeper(Walk(cs, d))
    decreases cs
  {
    if cs != [] {
      var x := cs[0];
      var sub := if x.Group? then Walk(x.children, d + 1) else [];
      if x.Group? {
        WalkDeeper(x.children, d + 1);
      }
      WalkDeeper(cs[1..], d);
      DeeperAppend([(d, x)] + sub, Walk(cs[1..], d));
      DeeperAppend([(d, x)], sub);
    }
  }

  lemma NodesAppend<A>(a: seq<(A, Node)>, b: seq<(A, Node)>)
    ensures Nodes(a + b) == Nodes(a) + Nodes(b)
  {
  }

  lemma DeeperAppend(a: seq<(nat, Node)>, b: seq<(nat, Node)>)
    ensures Deeper(a + b) == Deeper(a) + Deeper(b)
  {
  }

  lemma LabelledAppend(a: seq<(nat, Node)>, b: seq<(nat, Node)>)
    ensures Labelled(a + b) == Labelled(a) + Labelled(b)
  {
  }

  /** Labelling a walk one level deeper is labelling it and indenting every line. */
  lemma LabelledDeeper(w: seq<(nat, Node)>)
    ensures Labelled(Deeper(w)) == Indent(Labelled(w))
  {
    forall k | 0 <= k < |w|
      ensures Labelled(Deeper(w))[k] == Indent(Labelled(w))[k]
    {
      var (d, x) := w[k];
      assert Bars(d + 1) == Bar + Bars(d);
      assert Label(d + 1, x) == Bar + Label(d, x);
    }
  }

  /** Every view in a forest is at most as large as the forest. */
  lemma {:induction false} PreorderSizes(cs: seq<Node>)
    ensures forall n :: n in PreorderAll(cs) ==> Size(n) <= SizeAll(cs)
    decreases cs
  {
    if cs != [] {
      var x := cs[0];
      if x.Group? {
        PreorderSizes(x.children);
      }
      PreorderSizes(cs[1..]);
    }
  }

  // ---------------------------------------------------------------------------
  // The dump against the references.
  // ---------------------------------------------------------------------------

  /**
   * The labels that the dump builds bottom-up, one bar per level as the
   * recursion unwinds, are the labels the depth of each view calls for: the
   * dump of a forest is its top-down walk from depth 0, labelled.
   */
  lemma {:induction false} DumpIsLabelledWalk(cs: seq<Node>)
    ensures Dump(cs) == Labelled(Walk(cs, 0))
    decreases cs
  {
    if cs != [] {
      var x := cs[0];
      var sub := if x.Group? then Walk(x.children, 1) else [];
      assert Bars(0) == "";
      assert Label(0, x) == Branch + ShortName(x.cls);
      assert [Head(x)] == Labelled([(0, x)]);
      if x.Group? {
        DumpIsLabelledWalk(x.children);
        WalkDeeper(x.children, 0);
        LabelledDeeper(Walk(x.children, 0));
      }
      assert Below(x) == Labelled(sub);
      DumpIsLabelledWalk(cs[1..]);
      LabelledAppend([(0, x)] + sub, Walk(cs[1..], 0));
      LabelledAppend([(0, x)], sub);
    }
  }

  /** Every line of `tree(g)` is the label of its view at its depth below the children of `g`. */
  lemma TreeLabels(g: Node)
    requires g.Group?
    ensures forall k :: 0 <= k < |Tree(g)| ==>
      Tree(g)[k].0 == Bars(Walk(g.children, 0)[k].0) + Branch + ShortName(Tree(g)[k].1.cls)
  {
  }

  /** The views of `tree(g)` are the descendants of `g`, unchanged, in pre-order, without `g`. */
  lemma TreeNodes(g: Node)
    requires g.Group?
    ensures Nodes(Tree(g)) == Preorder(g)[1..]
  {
    DumpIsLabelledWalk(g.children);
    WalkNodes(g.children, 0);
    assert Nodes(Labelled(Walk(g.children, 0))) == Nodes(Walk(g.children, 0));
  }

  /** The root itself never appears: every listed view is strictly smaller than `g`. */
  lemma TreeOmitsRoot(g: Node)
    requires g.Group?
    ensures forall k :: 0 <= k < |Tree(g)| ==> Size(Tree(g)[k].1) < Size(g) && Tree(g)[k].1 != g
  {
    TreeNodes(g);
    PreorderSizes(g.children);
    forall k | 0 <= k < |Tree(g)|
      ensures Size(Tree(g)[k].1) < Size(g)
    {
      assert Tree(g)[k].1 == Nodes(Tree(g))[k];
      assert Tree(g)[k].1 in PreorderAll(g.children);
    }
  }

  lemma RootsAppend(a: seq<Entry>, b: seq<Entry>)
    ensures Roots(a + b) == Roots(a) + Roots(b)
  {
    if a != [] {
      assert (a + b)[0] == a[0];
      assert (a + b)[1..] == a[1..] + b;
      RootsAppend(a[1..], b);
    } else {
      assert a + b == b;
    }
  }

  /** Indented lines are never top-level lines. */
  lemma {:induction false} RootsIndent(es: seq<Entry>)
    ensures Roots(Indent(es)) == []
    decreases |es|
  {
    if es != [] {
      assert Indent(es)[1..] == Indent(es[1..]);
      RootsIndent(es[1..]);
    }
  }

  /**
   * The lines without a bar are exactly the direct children, in their original
   * order: siblings keep their order and nothing deeper is shown unindented.
   */
  lemma {:induction false} DumpRoots(cs: seq<Node>)
    ensures Roots(Dump(cs)) == cs
    decreases cs
  {
    if cs != [] {
      var x := cs[0];
      RootsAppend([Head(x)] + Below(x), Dump(cs[1..]));
      RootsAppend([Head(x)], Below(x));
      if x.Group? {
        RootsIndent(Dump(x.children));
      }
      DumpRoots(cs[1..]);
      assert !(Bar <= Head(x).0) by {
        assert Head(x).0[0] == '+';
      }
      assert Roots([Head(x)]) == [x];
      assert [x] + cs[1..] == cs;
    }
  }

  /** The dump of a list of children is the dump of its first part followed by that of the rest. */
  lemma {:induction false} DumpAppend(a: seq<Node>, b: seq<Node>)
    ensures Dump(a + b) == Dump(a) + Dump(b)
    decreases a
  {
    if a != [] {
      var x := a[0];
      assert (a + b)[0] == x;
      assert (a + b)[1..] == a[1..] + b;
      DumpAppend(a[1..], b);
      calc {
        Dump(a + b);
        [Head(x)] + Below(x) + Dump(a[1..] + b);
        [Head(x)] + Below(x) + (Dump(a[1..]) + Dump(b));
        ([Head(x)] + Below(x) + Dump(a[1..])) + Dump(b);
        Dump(a) + Dump(b);
      }
    } else {
      assert a + b == b;
    }
  }

  /**
   * Pre-order around any child: everything yielded for the earlier siblings,
   * then the child's own line, immediately followed by the lines of its subtree,
   * then everything for the later siblings.
   */
  lemma DumpAround(before: seq<Node>, x: Node, after: seq<Node>)
    ensures Dump(before + [x] + after) == Dump(before) + [Head(x)] + Below(x) + Dump(after)
  {
    assert before + [x] + after == before + ([x] + after);
    DumpAppend(before, [x] + after);
    DumpCons(x, after);
  }

  /** The dump of a list starting with `x`: its line, its subtree, then the rest. */
  lemma DumpCons(x: Node, rest: seq<Node>)
    ensures Dump([x] + rest) == [Head(x)] + Below(x) + Dump(rest)
  {
  }

  /** A child yields a single line exactly when it is a leaf or a group without children. */
  lemma SingleLine(x: Node)
    ensures |Dump([x])| == 1 <==> x.Leaf? || x.children == []
  {
    assert [x][1..] == [];
    if x.Group? && x.children != [] {
      assert |Dump(x.children)| >= 1;
    }
  }
}
