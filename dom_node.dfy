// ArvDomNode (arvdomnode.c): DOM nodes linked to their parent, their first
// and last children and their previous and next siblings, and the edits of
// a node's child list.
//
// A node's children are described by a ghost sequence: ChildList(self, cs)
// holds when the first/last pointers of self and the sibling and parent
// pointers of the nodes in cs link exactly the list cs. Each edit is proved
// to turn the list into the sequence the functions Without and
// InsertedBefore compute.
//
// The class hooks (can_append_child, post_new_child, pre_remove_child,
// changed, child_changed) belong to subclasses; can_append_child is the
// parameter canAppend, the others are left out.
module DomNode {

  class Node {
    var nextSibling: Node?
    var previousSibling: Node?
    var parentNode: Node?
    var firstChild: Node?
    var lastChild: Node?

    /** arv_dom_node_init: a node with no links. */
    constructor ()
      ensures nextSibling == null && previousSibling == null && parentNode == null
      ensures firstChild == null && lastChild == null
    {
      nextSibling, previousSibling, parentNode := null, null, null;
      firstChild, lastChild := null, null;
    }
  }

  /** The pointers of self and of the nodes in cs link exactly the list
      cs. The contracts of the edits use ChildList; its definition is kept
      in Linked so that an edit's proof carries it as one fact from call to
      call. */
  ghost predicate ChildList(self: Node, cs: seq<Node>)
    reads self, cs
  {
    Linked(self, cs)
  }

  ghost predicate Linked(self: Node, cs: seq<Node>)
    reads self, cs
  {
    && self !in cs
    && Distinct(cs)
    && self.firstChild == (if |cs| == 0 then null else cs[0])
    && self.lastChild == (if |cs| == 0 then null else cs[|cs| - 1])
    && (forall i :: 0 <= i < |cs| ==> cs[i].parentNode == self)
    && (|cs| > 0 ==> cs[0].previousSibling == null && cs[|cs| - 1].nextSibling == null)
    && (forall i :: 0 < i < |cs| ==> cs[i].previousSibling == cs[i - 1])
    && (forall i :: 0 <= i < |cs| - 1 ==> cs[i].nextSibling == cs[i + 1])
  }

  ghost predicate Distinct<T>(s: seq<T>)
  {
    forall i, j :: 0 <= i < j < |s| ==> s[i] != s[j]
  }

  /** A detached node: no parent and no siblings. */
  ghost predicate Detached(n: Node)
    reads n
  {
    n.parentNode == null && n.nextSibling == null && n.previousSibling == null
  }

  // ---------------------------------------------------------------------
  // The child sequences the edits produce

  function IndexOf<T(==)>(s: seq<T>, x: T): (k: nat)
    requires x in s
    ensures k < |s| && s[k] == x && forall j :: 0 <= j < k ==> s[j] != x
  {
    if s[0] == x then 0 else 1 + IndexOf(s[1..], x)
  }

  /** The list with x taken out, or unchanged when x is not in it. */
  function Without<T(==)>(s: seq<T>, x: T): (r: seq<T>)
  {
    if x in s then s[..IndexOf(s, x)] + s[IndexOf(s, x) + 1..] else s
  }

  /** The list with x placed immediately before ref. */
  function InsertedBefore<T(==)>(s: seq<T>, ref: T, x: T): (r: seq<T>)
    requires ref in s
  {
    s[..IndexOf(s, ref)] + [x] + s[IndexOf(s, ref)..]
  }

  /** The list with y replaced by x at the same place. */
  function Replaced<T(==)>(s: seq<T>, y: T, x: T): (r: seq<T>)
    requires y in s
  {
    s[..IndexOf(s, y)] + [x] + s[IndexOf(s, y) + 1..]
  }

  lemma IndexOfDistinct<T>(s: seq<T>, k: nat)
    requires Distinct(s) && k < |s|
    ensures IndexOf(s, s[k]) == k
  {
  }

  /** Taking x out leaves every other element, once, in the same order. */
  lemma WithoutElements<T>(s: seq<T>, x: T)
    requires Distinct(s)
    ensures Distinct(Without(s, x))
    ensures forall y :: y in Without(s, x) <==> y in s && y != x
    ensures |Without(s, x)| == if x in s then |s| - 1 else |s|
  {
    if x in s {
      var k := IndexOf(s, x);
      var r := s[..k] + s[k + 1..];
      assert forall i :: 0 <= i < |r| ==> r[i] == if i < k then s[i] else s[i + 1];
      forall y | y in s && y != x
        ensures y in r
      {
        var j :| 0 <= j < |s| && s[j] == y;
        assert j != k;
        if j < k { assert r[j] == y; } else { assert r[j - 1] == y; }
      }
    }
  }

  /** Appending x and taking it out again gives the list back. */
  lemma WithoutAppended<T>(s: seq<T>, x: T)
    requires x !in s
    ensures Without(s + [x], x) == s
  {
    var k := IndexOf(s + [x], x);
    assert k == |s|;
    assert (s + [x])[..k] == s;
  }

  /** Replacing the last element is taking it out and appending. */
  lemma ReplacedLast<T>(s: seq<T>, y: T, x: T)
    requires Distinct(s) && y in s && IndexOf(s, y) == |s| - 1
    ensures Replaced(s, y, x) == Without(s, y) + [x]
  {
  }

  /** Replacing y is taking it out and inserting before its successor. */
  lemma ReplacedInner<T>(s: seq<T>, y: T, x: T)
    requires Distinct(s) && y in s && IndexOf(s, y) < |s| - 1
    ensures s[IndexOf(s, y) + 1] in Without(s, y)
    ensures Replaced(s, y, x) == InsertedBefore(Without(s, y), s[IndexOf(s, y) + 1], x)
  {
    var k := IndexOf(s, y);
    var w := Without(s, y);
    assert w == s[..k] + s[k + 1..];
    assert w[k] == s[k + 1];
    WithoutElements(s, y);
    IndexOfDistinct(w, k);
    assert w[..k] == s[..k] && w[k..] == s[k + 1..];
  }

  /** The first occurrence of x is at k when x is at k and not before. */
  lemma IndexOfAt<T>(s: seq<T>, x: T, k: nat)
    requires k < |s| && s[k] == x && forall i :: 0 <= i < k ==> s[i] != x
    ensures IndexOf(s, x) == k
  {
  }

  /** A new element lands immediately before ref, and taking it out
      again gives the list back. */
  lemma InsertedBeforePlaces<T>(s: seq<T>, ref: T, x: T)
    requires ref in s && x !in s
    ensures var r := InsertedBefore(s, ref, x);
      && |r| == |s| + 1
      && r[IndexOf(s, ref)] == x && r[IndexOf(s, ref) + 1] == ref
      && Without(r, x) == s
  {
    var k := IndexOf(s, ref);
    var r := InsertedBefore(s, ref, x);
    assert r[k] == x;
    assert forall i :: 0 <= i < k ==> r[i] == s[i];
    IndexOfAt(r, x, k);
    assert r[..k] == s[..k] && r[k + 1..] == s[k..];
    assert s[..k] + s[k..] == s;
  }

  lemma InsertedBeforeDistinct<T>(s: seq<T>, ref: T, x: T)
    requires ref in s && x !in s && Distinct(s)
    ensures Distinct(InsertedBefore(s, ref, x))
  {
    var k := IndexOf(s, ref);
    var r := InsertedBefore(s, ref, x);
    assert forall i :: 0 <= i < |r| ==> r[i] == if i < k then s[i] else if i == k then x else s[i - 1];
  }

  // ---------------------------------------------------------------------
  // Child-list walks (ArvDomNodeChildList)

  /** arv_dom_node_child_list_get_length: the number of children; 0 for a
      list whose parent is gone. */
  method GetLength(parent: Node?, ghost cs: seq<Node>) returns (length: nat)
    requires parent != null ==> ChildList(parent, cs)
    ensures length == if parent == null then 0 else |cs|
  {
    if parent == null {
      return 0;
    }
    var n: int := 0;
    var iter := parent.firstChild;
    while iter != null
      invariant 0 <= n <= |cs|
      invariant n < |cs| ==> iter == cs[n]
      invariant n == |cs| ==> iter == null
      decreases |cs| - n
    {
      n := n + 1;
      iter := iter.nextSibling;
    }
    length := n;
  }

  /** arv_dom_node_child_list_get_item: the index-th child, NULL past the
      end or for a list whose parent is gone. */
  method GetItem(parent: Node?, index: nat, ghost cs: seq<Node>) returns (item: Node?)
    requires parent != null ==> ChildList(parent, cs)
    ensures item == if parent != null && index < |cs| then cs[index] else null
  {
    if parent == null {
      return null;
    }
    var i: int := 0;
    var iter := parent.firstChild;
    while iter != null
      invariant 0 <= i <= |cs| && i <= index
      invariant i < |cs| ==> iter == cs[i]
      invariant i == |cs| ==> iter == null
      decreases |cs| - i
    {
      if i == index {
        return iter;
      }
      i := i + 1;
      iter := iter.nextSibling;
    }
    return null;
  }

  // ---------------------------------------------------------------------
  // Edits

  /** The search loop of arv_dom_node_remove_child. */
  method FindChild(self: Node, child: Node, ghost cs: seq<Node>) returns (found: bool)
    requires ChildList(self, cs)
    ensures found <==> child in cs
  {
    var node := self.firstChild;
    ghost var i: int := 0;
    while node != null && node != child
      invariant 0 <= i <= |cs|
      invariant i < |cs| ==> node == cs[i]
      invariant i == |cs| ==> node == null
      invariant forall j :: 0 <= j < i ==> cs[j] != child
      decreases |cs| - i
    {
      node := node.nextSibling;
      i := i + 1;
    }
    found := node != null;
  }

  /** The list without its k-th node is linked once the neighbours of that
      node point past it. */
  lemma LinkedWithout(self: Node, cs: seq<Node>, k: nat)
    requires self !in cs && Distinct(cs) && k < |cs|
    requires self.firstChild == (if k == 0 then (if |cs| > 1 then cs[1] else null) else cs[0])
    requires self.lastChild == (if k == |cs| - 1 then (if k > 0 then cs[k - 1] else null) else cs[|cs| - 1])
    requires forall i :: 0 <= i < |cs| && i != k ==> cs[i].parentNode == self
    requires forall i :: 0 < i < |cs| && i != k && i != k + 1 ==> cs[i].previousSibling == cs[i - 1]
    requires forall i :: 0 <= i < |cs| - 1 && i + 1 != k && i != k ==> cs[i].nextSibling == cs[i + 1]
    requires k + 1 < |cs| ==> cs[k + 1].previousSibling == (if k > 0 then cs[k - 1] else null)
    requires k > 0 ==> cs[k - 1].nextSibling == (if k + 1 < |cs| then cs[k + 1] else null)
    requires k > 0 ==> cs[0].previousSibling == null
    requires k < |cs| - 1 ==> cs[|cs| - 1].nextSibling == null
    ensures ChildList(self, cs[..k] + cs[k + 1..])
  {
    var r := cs[..k] + cs[k + 1..];
    assert forall i :: 0 <= i < |r| ==> r[i] == if i < k then cs[i] else cs[i + 1];
  }

  /** The relinking of arv_dom_node_remove_child, for a child at index k. */
  method Unlink(self: Node, oldChild: Node, ghost cs: seq<Node>, ghost k: nat)
    requires ChildList(self, cs) && k < |cs| && cs[k] == oldChild
    modifies self, cs
    ensures ChildList(self, cs[..k] + cs[k + 1..]) && Detached(oldChild)
    ensures self.parentNode == old(self.parentNode)
  {
    ghost var prev := if k > 0 then cs[k - 1] else null;
    ghost var next := if k < |cs| - 1 then cs[k + 1] else null;
    assert oldChild.previousSibling == prev && oldChild.nextSibling == next;
    if self.firstChild == oldChild {
      self.firstChild := oldChild.nextSibling;
    }
    if self.lastChild == oldChild {
      self.lastChild := oldChild.previousSibling;
    }
    if oldChild.nextSibling != null {
      oldChild.nextSibling.previousSibling := oldChild.previousSibling;
    }
    if oldChild.previousSibling != null {
      oldChild.previousSibling.nextSibling := oldChild.nextSibling;
    }
    oldChild.parentNode := null;
    oldChild.nextSibling := null;
    oldChild.previousSibling := null;
    LinkedWithout(self, cs, k);
  }

  /** arv_dom_node_remove_child: NULL, and no change, unless old_child is
      a child of self; otherwise old_child is taken out of the list and
      detached. */
  method RemoveChild(self: Node, oldChild: Node?, ghost cs: seq<Node>) returns (r: Node?)
    requires ChildList(self, cs)
    modifies self, cs
    ensures oldChild == null || oldChild !in cs ==> r == null && unchanged(self) && unchanged(cs)
    ensures oldChild != null && oldChild in cs ==> r == oldChild && Detached(oldChild)
    ensures oldChild != null ==> ChildList(self, Without(cs, oldChild))
    ensures oldChild == null ==> ChildList(self, cs)
    ensures self.parentNode == old(self.parentNode)
  {
    if oldChild == null {
      return null;
    }
    var found := FindChild(self, oldChild, cs);
    if !found {
      return null;
    }
    ghost var k := IndexOf(cs, oldChild);
    Unlink(self, oldChild, cs, k);
    return oldChild;
  }

  /** The list with one more node at its end is linked once the old last
      node and self point to it. */
  lemma LinkedAppended(self: Node, cs: seq<Node>, x: Node)
    requires self !in cs && Distinct(cs) && x !in cs && x != self
    requires self.firstChild == (if |cs| == 0 then x else cs[0]) && self.lastChild == x
    requires forall i :: 0 <= i < |cs| ==> cs[i].parentNode == self
    requires |cs| > 0 ==> cs[0].previousSibling == null && cs[|cs| - 1].nextSibling == x
    requires forall i :: 0 < i < |cs| ==> cs[i].previousSibling == cs[i - 1]
    requires forall i :: 0 <= i < |cs| - 1 ==> cs[i].nextSibling == cs[i + 1]
    requires x.parentNode == self && x.nextSibling == null
    requires x.previousSibling == if |cs| == 0 then null else cs[|cs| - 1]
    ensures ChildList(self, cs + [x])
  {
    var r := cs + [x];
    assert forall i :: 0 <= i < |r| ==> r[i] == if i < |cs| then cs[i] else x;
  }

  /** The linking half of arv_dom_node_append_child, once new_child is not
      in the list. */
  method Link(self: Node, newChild: Node, ghost cs: seq<Node>)
    requires ChildList(self, cs) && newChild !in cs && newChild != self
    modifies self, cs, newChild
    ensures ChildList(self, cs + [newChild])
    ensures self.parentNode == old(self.parentNode)
  {
    assert |cs| > 0 ==> self.lastChild == cs[|cs| - 1];
    if self.firstChild == null {
      self.firstChild := newChild;
    }
    if self.lastChild != null {
      self.lastChild.nextSibling := newChild;
    }
    newChild.parentNode := self;
    newChild.nextSibling := null;
    newChild.previousSibling := self.lastChild;
    self.lastChild := newChild;
    LinkedAppended(self, cs, newChild);
  }

  /** arv_dom_node_append_child: new_child is first taken out of self's
      list if it has a parent; when the class accepts it, it becomes the
      last child, and otherwise NULL is returned. */
  method AppendChild(self: Node, newChild: Node?, canAppend: bool, ghost cs: seq<Node>)
      returns (r: Node?)
    requires ChildList(self, cs) && newChild != self
    requires newChild != null && newChild.parentNode == self ==> newChild in cs
    modifies self, cs, newChild
    ensures newChild == null ==> r == null && unchanged(self) && unchanged(cs)
    ensures newChild != null ==> r == (if canAppend then newChild else null)
    ensures newChild != null && canAppend ==> ChildList(self, Without(cs, newChild) + [newChild])
    ensures newChild != null && !canAppend ==> ChildList(self, Without(cs, newChild))
    ensures newChild != null && newChild in cs && !canAppend ==> Detached(newChild)
    ensures newChild != null && newChild !in cs && !canAppend ==> unchanged(newChild)
    ensures self.parentNode == old(self.parentNode)
  {
    if newChild == null {
      return null;
    }
    WithoutElements(cs, newChild);
    if newChild.parentNode != null {
      var _ := RemoveChild(self, newChild, cs);
    }
    ghost var cs1 := Without(cs, newChild);
    if !canAppend {
      return null;
    }
    Link(self, newChild, cs1);
    return newChild;
  }

  /** new_child taken out of the list ps of its parent, a node other
      than self whose list shares no node with self's. */
  method TakeFromParent(self: Node, parent: Node, newChild: Node, ghost cs: seq<Node>, ghost ps: seq<Node>)
    requires ChildList(self, cs) && ChildList(parent, ps) && newChild in ps
    requires parent != self && parent !in cs && self !in ps
    requires forall i :: 0 <= i < |cs| ==> cs[i] !in ps
    modifies parent, ps
    ensures ChildList(self, cs) && ChildList(parent, Without(ps, newChild)) && Detached(newChild)
    ensures self.parentNode == old(self.parentNode)
  {
    var _ := RemoveChild(parent, newChild, ps);
  }

  /** The correction of append_child for a node whose parent is another
      node: new_child is taken out of that parent's list ps, which shares
      no node with self's, and then linked into self when the class
      accepts it. */
  method MoveFromParent(self: Node, parent: Node, newChild: Node, canAppend: bool, ghost cs: seq<Node>, ghost ps: seq<Node>)
      returns (r: Node?)
    requires ChildList(self, cs) && ChildList(parent, ps) && newChild in ps && newChild != self
    requires parent != self && parent !in cs && self !in ps
    requires forall i :: 0 <= i < |cs| ==> cs[i] !in ps
    modifies self, cs, parent, ps
    ensures r == (if canAppend then newChild else null)
    ensures ChildList(self, if canAppend then cs + [newChild] else cs)
    ensures ChildList(parent, Without(ps, newChild))
    ensures !canAppend ==> Detached(newChild)
    ensures self.parentNode == old(self.parentNode)
  {
    WithoutElements(ps, newChild);
    ghost var ps1 := Without(ps, newChild);
    assert newChild !in cs;
    TakeFromParent(self, parent, newChild, cs, ps);
    if !canAppend {
      return null;
    }
    label before:
    Link(self, newChild, cs);
    assert forall i :: 0 <= i < |ps1| ==> ps1[i] in ps && ps1[i] != newChild;
    assert unchanged@before(parent) && forall i :: 0 <= i < |ps1| ==> unchanged@before(ps1[i]);
    return newChild;
  }

  /** arv_dom_node_append_child as evidently intended: new_child is taken
      out of the list of its own parent, ps being that parent's children,
      before it is linked into self. The model takes the parent to be
      self, or a node outside self's list whose own list holds neither
      self nor any child of self. */
  method AppendChildCorrected(self: Node, newChild: Node?, canAppend: bool, ghost cs: seq<Node>, ghost ps: seq<Node>)
      returns (r: Node?)
    requires ChildList(self, cs) && newChild != self
    requires newChild != null && newChild.parentNode == self ==> newChild in cs
    requires newChild != null && newChild.parentNode != null && newChild.parentNode != self ==>
      ChildList(newChild.parentNode, ps) && newChild in ps && newChild.parentNode !in cs
      && self !in ps && forall i :: 0 <= i < |cs| ==> cs[i] !in ps
    modifies self, cs, newChild, if newChild != null then {newChild.parentNode} else {}, ps
    ensures newChild == null ==> r == null && unchanged(self) && unchanged(cs)
    ensures newChild != null ==> r == (if canAppend then newChild else null)
    ensures newChild != null && canAppend ==> ChildList(self, Without(cs, newChild) + [newChild])
    ensures newChild != null && !canAppend ==> ChildList(self, Without(cs, newChild))
    ensures newChild != null && old(newChild.parentNode) != null && old(newChild.parentNode) != self ==>
      ChildList(old(newChild.parentNode), Without(ps, newChild))
    ensures newChild != null && old(newChild.parentNode) != null && !canAppend ==> Detached(newChild)
    ensures self.parentNode == old(self.parentNode)
  {
    if newChild == null {
      return null;
    }
    var parent := newChild.parentNode;
    if parent == null || parent == self {
      r := AppendChild(self, newChild, canAppend, cs);
    } else {
      WithoutElements(cs, newChild);
      r := MoveFromParent(self, parent, newChild, canAppend, cs, ps);
    }
  }

  /** The list with x linked in before its k-th node is linked once x,
      the node before it and the k-th node point to each other. */
  lemma LinkedInsertedAt(self: Node, cs: seq<Node>, k: nat, x: Node)
    requires self !in cs && Distinct(cs) && x !in cs && x != self && k < |cs|
    requires self.firstChild == (if k == 0 then x else cs[0]) && self.lastChild == cs[|cs| - 1]
    requires forall i :: 0 <= i < |cs| ==> cs[i].parentNode == self
    requires k > 0 ==> cs[0].previousSibling == null
    requires cs[|cs| - 1].nextSibling == null
    requires forall i :: 0 < i < |cs| && i != k ==> cs[i].previousSibling == cs[i - 1]
    requires forall i :: 0 <= i < |cs| - 1 && i + 1 != k ==> cs[i].nextSibling == cs[i + 1]
    requires cs[k].previousSibling == x && (k > 0 ==> cs[k - 1].nextSibling == x)
    requires x.parentNode == self && x.nextSibling == cs[k]
    requires x.previousSibling == if k == 0 then null else cs[k - 1]
    ensures ChildList(self, cs[..k] + [x] + cs[k..])
  {
    var r := cs[..k] + [x] + cs[k..];
    assert forall i :: 0 <= i < |r| ==> r[i] == if i < k then cs[i] else if i == k then x else cs[i - 1];
  }

  /** The linking half of arv_dom_node_insert_before: new_child, not in
      the list, goes immediately before ref_child. */
  method LinkBefore(self: Node, newChild: Node, refChild: Node, ghost cs: seq<Node>)
    requires ChildList(self, cs) && newChild !in cs && newChild != self && refChild in cs
    modifies self, cs, newChild
    ensures ChildList(self, InsertedBefore(cs, refChild, newChild))
    ensures self.parentNode == old(self.parentNode)
  {
    ghost var k := IndexOf(cs, refChild);
    assert refChild.previousSibling == if k == 0 then null else cs[k - 1];
    newChild.parentNode := self;
    newChild.nextSibling := refChild;
    newChild.previousSibling := refChild.previousSibling;
    if refChild.previousSibling == null {
      self.firstChild := newChild;
    } else {
      refChild.previousSibling.nextSibling := newChild;
    }
    refChild.previousSibling := newChild;
    LinkedInsertedAt(self, cs, k, newChild);
  }

  /** The child list arv_dom_node_insert_before leaves: new_child is
      taken out, and is put back before ref_child, or at the end for a NULL
      ref_child, when the class accepts it and ref_child is still a child. */
  ghost function InsertedChildren(cs: seq<Node>, x: Node, ref: Node?, canAppend: bool): (r: seq<Node>)
  {
    var cs1 := Without(cs, x);
    if !canAppend then cs1
    else if ref == null then cs1 + [x]
    else if ref in cs1 then InsertedBefore(cs1, ref, x)
    else cs1
  }

  /** Whether arv_dom_node_insert_before links new_child in. */
  ghost predicate Inserts(cs: seq<Node>, x: Node, ref: Node?, canAppend: bool)
  {
    canAppend && (ref == null || ref in Without(cs, x))
  }

  /** arv_dom_node_insert_before once new_child and ref_child are both
      nodes: new_child is taken out of self's list if it has a parent, and
      then goes before ref_child when ref_child is still a child of self
      and the class accepts new_child; otherwise NULL is returned. */
  method InsertBeforeChild(self: Node, newChild: Node, refChild: Node, canAppend: bool,
                           ghost cs: seq<Node>) returns (r: Node?)
    requires ChildList(self, cs) && newChild != self
    requires newChild.parentNode == self ==> newChild in cs
    requires refChild.parentNode == self ==> refChild in cs
    modifies self, cs, newChild
    ensures r == if Inserts(cs, newChild, refChild, canAppend) then newChild else null
    ensures ChildList(self, InsertedChildren(cs, newChild, refChild, canAppend))
    ensures r == null && newChild in cs ==> Detached(newChild)
    ensures r == null && newChild !in cs ==> unchanged(newChild)
  {
    WithoutElements(cs, newChild);
    ghost var cs1 := Without(cs, newChild);
    if newChild.parentNode != null {
      var _ := RemoveChild(self, newChild, cs);
    }
    if refChild.parentNode != self {
      return null;
    }
    if !canAppend {
      return null;
    }
    LinkBefore(self, newChild, refChild, cs1);
    return newChild;
  }

  /** arv_dom_node_insert_before as written: a NULL ref_child makes it
      append new_child, but it then goes on, takes new_child out of the
      list again and returns NULL. */
  method InsertBefore(self: Node, newChild: Node?, refChild: Node?, canAppend: bool,
                      ghost cs: seq<Node>) returns (r: Node?)
    requires ChildList(self, cs) && newChild != self
    requires newChild != null && newChild.parentNode == self ==> newChild in cs
    requires refChild != null && refChild.parentNode == self ==> refChild in cs
    modifies self, cs, if newChild != null then {newChild} else {}
    ensures newChild == null ==> r == null && ChildList(self, cs)
    ensures newChild != null && refChild == null ==>
      r == null && ChildList(self, Without(cs, newChild))
    ensures newChild != null && refChild != null ==>
      && r == (if Inserts(cs, newChild, refChild, canAppend) then newChild else null)
      && ChildList(self, InsertedChildren(cs, newChild, refChild, canAppend))
  {
    if refChild == null {
      var _ := AppendChild(self, newChild, canAppend, cs);
    }
    if newChild == null {
      return null;
    }
    if refChild == null {
      WithoutElements(cs, newChild);
      ghost var cs2: seq<Node> := if canAppend then Without(cs, newChild) + [newChild] else Without(cs, newChild);
      if newChild.parentNode != null {
        var _ := RemoveChild(self, newChild, cs2);
      }
      if canAppend {
        WithoutAppended(Without(cs, newChild), newChild);
      }
      return null;
    }
    r := InsertBeforeChild(self, newChild, refChild, canAppend, cs);
  }

  /** arv_dom_node_insert_before as evidently intended: a NULL ref_child
      appends new_child and returns what the append returns. */
  method InsertBeforeCorrected(self: Node, newChild: Node?, refChild: Node?, canAppend: bool,
                               ghost cs: seq<Node>) returns (r: Node?)
    requires ChildList(self, cs) && newChild != self
    requires newChild != null && newChild.parentNode == self ==> newChild in cs
    requires refChild != null && refChild.parentNode == self ==> refChild in cs
    modifies self, cs, if newChild != null then {newChild} else {}
    ensures newChild == null ==> r == null && ChildList(self, cs)
    ensures newChild != null ==>
      && r == (if Inserts(cs, newChild, refChild, canAppend) then newChild else null)
      && ChildList(self, InsertedChildren(cs, newChild, refChild, canAppend))
  {
    if newChild == null {
      return null;
    }
    if refChild == null {
      r := AppendChild(self, newChild, canAppend, cs);
      return;
    }
    r := InsertBeforeChild(self, newChild, refChild, canAppend, cs);
  }

  /** The node after y in the list, NULL when y is last. */
  ghost function Successor(cs: seq<Node>, y: Node): (r: Node?)
    requires y in cs
    ensures r != null ==> r in cs
  {
    var k := IndexOf(cs, y);
    if k < |cs| - 1 then cs[k + 1] else null
  }

  /** The child list arv_dom_node_replace_child leaves for a non-NULL
      new_child, step by step: new_child is taken out; then, when old_child
      is still a child, it is taken out and new_child goes where
      insert_before (or append_child, at the end) puts it. */
  ghost function ReplacedChildren(cs: seq<Node>, x: Node, y: Node?, canAppend: bool): (r: seq<Node>)
  {
    ReplacedIn(Without(cs, x), x, y, canAppend)
  }

  /** The same, once new_child is out of the list cs. */
  ghost function ReplacedIn(cs: seq<Node>, x: Node, y: Node?, canAppend: bool): (r: seq<Node>)
  {
    if y == null || y !in cs then cs
    else InsertedChildren(Without(cs, y), x, Successor(cs, y), canAppend)
  }

  /** Replacing y by x is removing y and then putting x before y's
      successor, or at the end when y was last. */
  lemma ReplacedByInsertion(cs: seq<Node>, y: Node, x: Node, next: Node?, canAppend: bool)
    requires Distinct(cs) && y in cs && x !in cs
    requires next == Successor(cs, y)
    ensures next != null ==> next in Without(cs, y)
    ensures Inserts(Without(cs, y), x, next, canAppend) == canAppend
    ensures InsertedChildren(Without(cs, y), x, next, canAppend)
         == if canAppend then Replaced(cs, y, x) else Without(cs, y)
  {
    WithoutElements(cs, y);
    if next == null {
      ReplacedLast(cs, y, x);
    } else {
      ReplacedInner(cs, y, x);
    }
  }

  /** The second half of arv_dom_node_replace_child, once old_child is
      known to be a child and new_child is not: old_child is removed and
      new_child is appended, or inserted before old_child's next sibling. */
  method ReplaceLinked(self: Node, newChild: Node, oldChild: Node, canAppend: bool,
                       ghost cs: seq<Node>)
    requires ChildList(self, cs) && newChild != self && oldChild in cs && newChild !in cs
    requires newChild.parentNode != self
    modifies self, cs, newChild
    ensures ChildList(self, InsertedChildren(Without(cs, oldChild), newChild, Successor(cs, oldChild), canAppend))
    ensures Detached(oldChild)
  {
    ghost var k := IndexOf(cs, oldChild);
    var nextSibling := oldChild.nextSibling;
    assert nextSibling == Successor(cs, oldChild);
    // remove_child cannot return anything but old_child here, so the
    // source's test of its result never fails.
    var _ := RemoveChild(self, oldChild, cs);
    WithoutElements(cs, oldChild);
    // append_child for a NULL next sibling, insert_before otherwise: the
    // dispatch of the corrected insert_before.
    var _ := InsertBeforeCorrected(self, newChild, nextSibling, canAppend, Without(cs, oldChild));
  }

  /** arv_dom_node_replace_child once new_child is out of self's list:
      NULL unless old_child is a child; otherwise old_child is replaced and
      returned. */
  method ReplaceOld(self: Node, newChild: Node, oldChild: Node?, canAppend: bool,
                    ghost cs: seq<Node>) returns (r: Node?)
    requires ChildList(self, cs) && newChild != self && newChild !in cs
    requires newChild.parentNode != self
    requires oldChild != null && oldChild.parentNode == self ==> oldChild in cs
    modifies self, cs, newChild
    ensures r == if oldChild != null && oldChild in cs then oldChild else null
    ensures ChildList(self, ReplacedIn(cs, newChild, oldChild, canAppend))
    ensures r != null ==> Detached(r)
  {
    if oldChild == null {
      return null;
    }
    if oldChild.parentNode != self {
      return null;
    }
    ReplaceLinked(self, newChild, oldChild, canAppend, cs);
    return oldChild;
  }

  /** arv_dom_node_replace_child: old_child is returned, detached, when
      it is a child of self once new_child has been taken out; a NULL
      new_child makes it a removal. An append that the class refuses still
      returns old_child. */
  method ReplaceChild(self: Node, newChild: Node?, oldChild: Node?, canAppend: bool,
                      ghost cs: seq<Node>) returns (r: Node?)
    requires ChildList(self, cs) && newChild != self
    requires newChild != null && newChild.parentNode == self ==> newChild in cs
    requires oldChild != null && oldChild.parentNode == self ==> oldChild in cs
    modifies self, cs, if newChild != null then {newChild} else {}
    ensures newChild == null ==>
      && r == (if oldChild != null && oldChild in cs then oldChild else null)
      && ChildList(self, if oldChild == null then cs else Without(cs, oldChild))
    ensures newChild != null ==>
      && r == (if oldChild != null && oldChild in Without(cs, newChild) then oldChild else null)
      && ChildList(self, ReplacedChildren(cs, newChild, oldChild, canAppend))
    ensures r != null ==> Detached(r)
  {
    if newChild == null {
      r := RemoveChild(self, oldChild, cs);
      return;
    }
    WithoutElements(cs, newChild);
    ghost var cs1 := Without(cs, newChild);
    if newChild.parentNode != null {
      var _ := RemoveChild(self, newChild, cs);
    }
    assert oldChild != null && oldChild.parentNode == self ==> oldChild in cs1;
    r := ReplaceOld(self, newChild, oldChild, canAppend, cs1);
    assert ReplacedChildren(cs, newChild, oldChild, canAppend) == ReplacedIn(cs1, newChild, oldChild, canAppend);
  }

  /** What arv_dom_node_replace_child does to the list: old_child, when
      still a child once new_child is out, gives its place to new_child, or
      just leaves when the class refuses new_child. */
  lemma ReplacedChildrenPlaces(cs: seq<Node>, x: Node, y: Node?, canAppend: bool)
    requires Distinct(cs)
    ensures var cs1 := Without(cs, x);
      ReplacedChildren(cs, x, y, canAppend) ==
        if y == null || y !in cs1 then cs1
        else if canAppend then Replaced(cs1, y, x)
        else Without(cs1, y)
  {
    WithoutElements(cs, x);
    ReplacedInPlaces(Without(cs, x), x, y, canAppend);
  }

  lemma ReplacedInPlaces(cs: seq<Node>, x: Node, y: Node?, canAppend: bool)
    requires Distinct(cs) && x !in cs
    ensures ReplacedIn(cs, x, y, canAppend) ==
        if y == null || y !in cs then cs
        else if canAppend then Replaced(cs, y, x)
        else Without(cs, y)
  {
    if y != null && y in cs {
      ReplacedByInsertion(cs, y, x, Successor(cs, y), canAppend);
    }
  }

  /** What arv_dom_node_insert_before does to the list: the result is
      still a list of distinct nodes, it differs from the old one only in
      new_child, and new_child is in it exactly when it was linked in,
      then immediately before ref_child, or last for a NULL ref_child. */
  lemma {:induction false} InsertedChildrenPlaces(cs: seq<Node>, x: Node, ref: Node?, canAppend: bool)
    requires Distinct(cs)
    ensures var r := InsertedChildren(cs, x, ref, canAppend);
      && Distinct(r)
      && Without(r, x) == Without(cs, x)
      && (x in r <==> Inserts(cs, x, ref, canAppend))
      && (Inserts(cs, x, ref, canAppend) && ref == null ==> r[|r| - 1] == x)
      && (Inserts(cs, x, ref, canAppend) && ref != null ==>
            IndexOf(r, x) + 1 < |r| && r[IndexOf(r, x) + 1] == ref)
  {
    var cs1 := Without(cs, x);
    WithoutElements(cs, x);
    var r := InsertedChildren(cs, x, ref, canAppend);
    if !Inserts(cs, x, ref, canAppend) {
      assert r == cs1;
    } else if ref == null {
      assert r == cs1 + [x];
      WithoutAppended(cs1, x);
      assert forall i :: 0 <= i < |r| ==> r[i] == if i < |cs1| then cs1[i] else x;
    } else {
      InsertedBeforePlaces(cs1, ref, x);
      InsertedBeforeDistinct(cs1, ref, x);
      var k := IndexOf(cs1, ref);
      IndexOfDistinct(r, k);
    }
  }

  /** append_child and insert_before take new_child out of self's list
      only: a node that is the child of another parent p is linked into
      self while p's pointers still reach it. */
  method AppendLeavesOtherParent() returns (p: Node, self: Node, n: Node)
    ensures p.firstChild == n && p.lastChild == n
    ensures n.parentNode == self && self.firstChild == n && self.lastChild == n
  {
    p := new Node();
    self := new Node();
    n := new Node();
    p.firstChild, p.lastChild := n, n;
    n.parentNode := p;
    assert ChildList(p, [n]) && ChildList(self, []);
    var _ := AppendChild(self, n, true, []);
    assert Without([n], n) == [];
    WithoutAppended([], n);
  }

  /** With the correction, a node taken from another parent p leaves p's
      list: p then has no children, and the node is self's only child. */
  method AppendCorrectedMovesChild() returns (p: Node, self: Node, n: Node)
    ensures p.firstChild == null && p.lastChild == null
    ensures n.parentNode == self && self.firstChild == n && self.lastChild == n
  {
    p := new Node();
    self := new Node();
    n := new Node();
    p.firstChild, p.lastChild := n, n;
    n.parentNode := p;
    assert ChildList(p, [n]) && ChildList(self, []);
    var _ := AppendChildCorrected(self, n, true, [], [n]);
    assert Without([n], n) == [];
    WithoutAppended([], n);
  }
}
