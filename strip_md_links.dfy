/** The transformer returned by `remarkStripMdLinks`: it visits every node
    of a parsed Markdown tree whose type is `link` and, when the node's
    `url` is a string, replaces it with its rewrite (see `UrlRewrite`).
    The source mutates the nodes in place through a tree visitor; here the
    pass returns the rewritten tree. */
module StripMdLinks {
  import opened Options
  import opened UrlRewrite

  /** A node of the Markdown syntax tree: its `type`, its `url` field (a
      string, or any other value), the rest of its fields, which the pass
      never reads, and its children. */
  datatype Node<Extra> = Node(kind: string, url: Option<string>, extra: Extra, children: seq<Node<Extra>>)

  /** The node kind the visitor is registered for. */
  const LinkKind: string := "link"

  /** What the visitor callback does to one node: a link node with a
      string `url` gets the rewritten `url`; any other node, and a link
      node whose `url` is not a string, is returned as it is. */
  function VisitNode<E>(n: Node<E>): (r: Node<E>)
    ensures r.kind == n.kind && r.extra == n.extra && r.children == n.children
    ensures n.kind != LinkKind || n.url.None? ==> r == n
    ensures n.kind == LinkKind && n.url.Some? ==> r.url.Some? && r.url.value == RewriteUrl(n.url.value)
  {
    if n.kind == LinkKind && n.url.Some? then n.(url := Some(RewriteUrl(n.url.value))) else n
  }

  /** The whole pass: the visitor applied to the root and, recursively,
      to every descendant (`TransformAt` states what it does at any depth). */
  function Transform<E>(t: Node<E>): (r: Node<E>)
    ensures r.kind == t.kind && r.extra == t.extra && |r.children| == |t.children|
    ensures t.kind == LinkKind && t.url.Some? ==> r.url == Some(RewriteUrl(t.url.value))
    ensures t.kind != LinkKind || t.url.None? ==> r.url == t.url
    decreases t
  {
    VisitNode(t).(children := seq(|t.children|, i requires 0 <= i < |t.children| => Transform(t.children[i])))
  }

  // ---------------------------------------------------------------------
  // Addressing nodes at any depth
  // ---------------------------------------------------------------------

  /** `p` is a path of child indices leading from `t` to a node. */
  ghost predicate ValidPath<E>(t: Node<E>, p: seq<nat>)
    decreases p
  {
    p == [] || (p[0] < |t.children| && ValidPath(t.children[p[0]], p[1..]))
  }

  /** The node at path `p`. */
  ghost function At<E>(t: Node<E>, p: seq<nat>): Node<E>
    requires ValidPath(t, p)
    decreases p
  {
    if p == [] then t else At(t.children[p[0]], p[1..])
  }

  /** The pass visits every node at every depth: the rewritten tree has
      the same paths, every node keeps its kind, its other fields and its
      number of children, every link node with a string `url` carries the
      rewritten `url`, and every other node keeps its `url`. */
  lemma {:induction false} TransformAt<E>(t: Node<E>, p: seq<nat>)
    ensures ValidPath(Transform(t), p) <==> ValidPath(t, p)
    ensures ValidPath(t, p) ==>
      var n, m := At(t, p), At(Transform(t), p);
      && m.kind == n.kind && m.extra == n.extra && |m.children| == |n.children|
      && (n.kind == LinkKind && n.url.Some? ==> m.url == Some(RewriteUrl(n.url.value)))
      && (n.kind != LinkKind || n.url.None? ==> m.url == n.url)
    decreases p
  {
    if p != [] && p[0] < |t.children| {
      TransformAt(t.children[p[0]], p[1..]);
    }
  }

  // ---------------------------------------------------------------------
  // Idempotence of the pass
  // ---------------------------------------------------------------------

  /** Every link node with a string `url` has a target that a second
      rewrite leaves alone. */
  ghost predicate LinksStable<E>(t: Node<E>)
    decreases t
  {
    && (t.kind == LinkKind && t.url.Some? ==> !IsRelative(t.url.value) || StripStable(t.url.value))
    && forall i :: 0 <= i < |t.children| ==> LinksStable(t.children[i])
  }

  /** Running the pass twice gives the same tree as running it once
      exactly when every link target in the tree is stable. */
  lemma {:induction false} TransformIdempotentIff<E>(t: Node<E>)
    ensures Transform(Transform(t)) == Transform(t) <==> LinksStable(t)
    decreases t
  {
    var once := Transform(t);
    var twice := Transform(once);
    forall i | 0 <= i < |t.children|
      ensures twice.children[i] == once.children[i] <==> LinksStable(t.children[i])
    {
      TransformIdempotentIff(t.children[i]);
    }
    if t.kind == LinkKind && t.url.Some? {
      RewriteUrlIdempotentIff(t.url.value);
    }
    if LinksStable(t) {
      assert twice.children == once.children;
    }
  }
}
