/** A finite ordered tree standing for one document.  A node is identified by the child
    indices that lead to it from the root, so the DOM pointers the engine follows
    (parentNode, previousSibling, nextSibling, childNodes) are functions of that path. */
module Dom {
  import opened Collections

  /** nodeType 1, nodeType 9, and every other node type. */
  datatype Kind = Element | Document | Other

  datatype Tree = Tree(kind: Kind, kids: seq<Tree>)

  type Node = seq<nat>

  /** The two pointers that combinators follow. */
  datatype Dir = ParentNode | PreviousSibling

  predicate InTree(t: Tree, p: Node)
    decreases p
  {
    p == [] || (p[0] < |t.kids| && InTree(t.kids[p[0]], p[1..]))
  }

  function At(t: Tree, p: Node): Tree
    requires InTree(t, p)
    decreases p
  {
    if p == [] then t else At(t.kids[p[0]], p[1..])
  }

  predicate IsElement(t: Tree, p: Node) {
    InTree(t, p) && At(t, p).kind.Element?
  }

  /** Below the root only elements have children. */
  ghost predicate WellFormed(t: Tree) {
    forall p :: InTree(t, p) && p != [] && At(t, p).kids != [] ==> At(t, p).kind.Element?
  }

  function Parent(p: Node): Node
    requires p != []
  {
    p[..|p| - 1]
  }

  function ChildIndex(p: Node): nat
    requires p != []
  {
    p[|p| - 1]
  }

  function Axis(d: Dir, p: Node): Option<Node> {
    if p == [] then None
    else match d
      case ParentNode => Some(Parent(p))
      case PreviousSibling => if ChildIndex(p) == 0 then None else Some(Parent(p) + [ChildIndex(p) - 1])
  }

  /** How many steps an axis can still take. */
  function Rank(d: Dir, p: Node): nat {
    if p == [] then 0 else match d case ParentNode => |p| case PreviousSibling => ChildIndex(p)
  }

  lemma {:induction false} InTreeSplit(t: Tree, p: Node, q: Node)
    ensures InTree(t, p + q) <==> InTree(t, p) && InTree(At(t, p), q)
    ensures InTree(t, p + q) ==> At(t, p + q) == At(At(t, p), q)
    decreases p
  {
    if p == [] {
      assert p + q == q;
    } else {
      assert (p + q)[1..] == p[1..] + q;
      if p[0] < |t.kids| {
        InTreeSplit(t.kids[p[0]], p[1..], q);
      }
    }
  }

  lemma ParentInTree(t: Tree, p: Node)
    requires p != [] && InTree(t, p)
    ensures InTree(t, Parent(p)) && ChildIndex(p) < |At(t, Parent(p)).kids|
    ensures At(t, p) == At(t, Parent(p)).kids[ChildIndex(p)]
  {
    assert p == Parent(p) + [ChildIndex(p)];
    InTreeSplit(t, Parent(p), [ChildIndex(p)]);
  }

  lemma KidInTree(t: Tree, p: Node, i: nat)
    requires InTree(t, p)
    ensures InTree(t, p + [i]) <==> i < |At(t, p).kids|
    ensures i < |At(t, p).kids| ==> At(t, p + [i]) == At(t, p).kids[i]
  {
    InTreeSplit(t, p, [i]);
  }

  lemma PrefixInTree(t: Tree, p: Node, k: nat)
    requires InTree(t, p) && k <= |p|
    ensures InTree(t, p[..k])
  {
    assert p == p[..k] + p[k..];
    InTreeSplit(t, p[..k], p[k..]);
  }
}
