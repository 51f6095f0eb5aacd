/**
 The children of a JSON node: a doubly linked list whose head's `prev` is the tail.

 Editing through node references is proved to edit a sequence of nodes, whatever the run of edits.
 */
module JsonList {

  class Node {
    var next: Node?
    var prev: Node?
    var child: Node?

    constructor ()
      ensures next == null && prev == null && child == null
    {
      next, prev, child := null, null, null;
    }
  }

  // ------------------------------------------------------------------
  // The shape
  // ------------------------------------------------------------------

  ghost predicate Distinct(s: seq<Node>) {
    forall i, j :: 0 <= i < j < |s| ==> s[i] != s[j]
  }

  /** The children of the parent are s, in this order. */
  ghost predicate IsList(parent: Node, s: seq<Node>)
    reads parent, s
  {
    && Distinct(s)
    && parent !in s
    && parent.child == (if s == [] then null else s[0])
    && (forall i {:trigger s[i].next} :: 0 <= i < |s| ==> s[i].next == NextOf(s, i))
    && (forall i {:trigger s[i].prev} :: 0 <= i < |s| ==> s[i].prev == PrevOf(s, i))
  }

  ghost function NextOf(s: seq<Node>, i: nat): Node?
    requires i < |s|
  {
    if i + 1 < |s| then s[i + 1] else null
  }

  /** The head points back to the tail. */
  ghost function PrevOf(s: seq<Node>, i: nat): Node?
    requires i < |s|
  {
    if i == 0 then s[|s| - 1] else s[i - 1]
  }

  /** The node, unless there is none. */
  ghost function One(n: Node?): set<Node> {
    if n == null then {} else {n}
  }

  // ------------------------------------------------------------------
  // Looking up
  // ------------------------------------------------------------------

  method GetArraySize(parent: Node, ghost s: seq<Node>) returns (size: nat)
    requires IsList(parent, s)
    ensures size == |s|
  {
    size := 0;
    var child := parent.child;
    while child != null
      invariant size <= |s| && child == (if size < |s| then s[size] else null)
      decreases |s| - size
    {
      size := size + 1;
      child := child.next;
    }
  }

  ghost function ItemAt(s: seq<Node>, index: int): Node? {
    if 0 <= index < |s| then s[index] else null
  }

  method GetArrayItem(parent: Node, index: int, ghost s: seq<Node>) returns (item: Node?)
    requires IsList(parent, s)
    ensures item == ItemAt(s, index)
  {
    if index < 0 {
      return null;
    }
    item := parent.child;
    var left := index;
    ghost var at := 0;
    while item != null && left > 0
      invariant 0 <= left && at + left == index && at <= |s|
      invariant item == (if at < |s| then s[at] else null)
      decreases left
    {
      left := left - 1;
      item := item.next;
      at := at + 1;
    }
  }

  // ------------------------------------------------------------------
  // Appending
  // ------------------------------------------------------------------

  method SuffixObject(prev: Node, item: Node)
    modifies prev`next, item`prev
    ensures prev.next == item && item.prev == prev
  {
    prev.next := item;
    item.prev := prev;
  }

  /**
   Appending does not reset the item's `next`, so the list grows by exactly the
   item if it was empty or the item pointed nowhere, and is no list otherwise.
   */
  method AddItemToArray(parent: Node?, item: Node?, ghost s: seq<Node>) returns (ok: bool)
    requires parent != null ==> IsList(parent, s)
    requires item !in s
    modifies One(parent)`child, s`next, s`prev, One(item)`next, One(item)`prev
    ensures ok <==> item != null && parent != null && parent != item
    ensures ok ==> (IsList(parent, s + [item]) <==> s == [] || old(item.next) == null)
    ensures !ok ==> (parent != null ==> unchanged(parent)) && (item != null ==> unchanged(item)) && forall n :: n in s ==> unchanged(n)
  {
    if item == null || parent == null || parent == item {
      return false;
    }
    var child := parent.child;
    if child == null {
      parent.child := item;
      item.prev := item;
      item.next := null;
      assert s + [item] == [item];
    } else if child.prev != null {
      SuffixObject(child.prev, item);
      parent.child.prev := item;
      ghost var t := s + [item];
      assert t[|s|] == item;
      if item.next == null {
        forall i | 0 <= i < |t|
          ensures t[i].next == NextOf(t, i) && t[i].prev == PrevOf(t, i)
        {
          assert i < |s| ==> t[i] == s[i];
        }
      } else {
        assert t[|s|].next != NextOf(t, |s|);
      }
    }
    return true;
  }

  // ------------------------------------------------------------------
  // Inserting
  // ------------------------------------------------------------------

  /** The sequence with an item at a place, or at the end when the place is past it. */
  ghost function Inserted(s: seq<Node>, which: nat, item: Node): seq<Node> {
    if which < |s| then s[..which] + [item] + s[which..] else s + [item]
  }

  /** The links of the longer list, in terms of those of the shorter one. */
  lemma InsertedLinks(s: seq<Node>, k: nat, x: Node, i: nat)
    requires k < |s| && i <= |s|
    ensures var t := Inserted(s, k, x);
            && |t| == |s| + 1
            && t[i] == (if i < k then s[i] else if i == k then x else s[i - 1])
            && NextOf(t, i) == (if i + 1 == k then x else if i == k then s[k] else if i < k then NextOf(s, i) else NextOf(s, i - 1))
            && PrevOf(t, i) == (if i == k then PrevOf(s, k) else if i == k + 1 then x else if i < k then PrevOf(s, i) else PrevOf(s, i - 1))
  {
  }

  lemma InsertedDistinct(s: seq<Node>, k: nat, x: Node, parent: Node)
    requires k < |s| && Distinct(s) && x !in s && parent !in s && parent != x
    ensures Distinct(Inserted(s, k, x)) && parent !in Inserted(s, k, x) && Inserted(s, k, x)[0] == if k == 0 then x else s[0]
  {
  }

  method InsertItemInArray(parent: Node, which: int, newitem: Node?, ghost s: seq<Node>) returns (ok: bool)
    requires IsList(parent, s)
    requires newitem != parent && newitem !in s
    requires newitem != null && which >= |s| > 0 ==> newitem.next == null
    modifies parent`child, s`next, s`prev, One(newitem)`next, One(newitem)`prev
    ensures ok <==> which >= 0 && newitem != null
    ensures ok ==> IsList(parent, Inserted(s, which, newitem))
    ensures !ok ==> IsList(parent, s) && (newitem != null ==> unchanged(newitem))
  {
    if which < 0 || newitem == null {
      return false;
    }
    var afterInserted := GetArrayItem(parent, which, s);
    if afterInserted == null {
      ok := AddItemToArray(parent, newitem, s);
      return;
    }
    if afterInserted != parent.child && afterInserted.prev == null {
      return false;
    }
    LinkBefore(parent, afterInserted, newitem, s, which);
    ok := true;
  }

  method LinkBefore(parent: Node, afterInserted: Node, newitem: Node, ghost s: seq<Node>, ghost k: nat)
    requires IsList(parent, s) && k < |s| && s[k] == afterInserted
    requires newitem != parent && newitem !in s
    modifies parent`child, s`next, s`prev, newitem`next, newitem`prev
    ensures IsList(parent, Inserted(s, k, newitem))
  {
    newitem.next := afterInserted;
    newitem.prev := afterInserted.prev;
    afterInserted.prev := newitem;
    if afterInserted == parent.child {
      parent.child := newitem;
    } else {
      newitem.prev.next := newitem;
    }
    ghost var t := Inserted(s, k, newitem);
    InsertedDistinct(s, k, newitem, parent);
    InsertedLinks(s, k, newitem, 0);
    hide Inserted;
    hide Distinct;
    forall i | 0 <= i < |t|
      ensures t[i].next == NextOf(t, i) && t[i].prev == PrevOf(t, i)
    {
      InsertedLinks(s, k, newitem, i);
    }
  }

  // ------------------------------------------------------------------
  // Detaching
  // ------------------------------------------------------------------

  ghost function Removed(s: seq<Node>, k: nat): seq<Node>
    requires k < |s|
  {
    s[..k] + s[k + 1..]
  }

  /** The links of the shorter list, in terms of those of the longer one. */
  lemma RemovedLinks(s: seq<Node>, k: nat, i: nat)
    requires k < |s| && i < |s| - 1
    ensures var t := Removed(s, k);
            && |t| == |s| - 1
            && t[i] == (if i < k then s[i] else s[i + 1])
            && NextOf(t, i) == (if i + 1 == k then NextOf(s, k) else if i < k then NextOf(s, i) else NextOf(s, i + 1))
            && PrevOf(t, i) == (if i == k then PrevOf(s, k) else if i > k then PrevOf(s, i + 1)
                                else if i == 0 && k == |s| - 1 then PrevOf(s, k) else PrevOf(s, i))
  {
  }

  lemma RemovedDistinct(s: seq<Node>, k: nat, parent: Node)
    requires k < |s| && Distinct(s) && parent !in s
    ensures var t := Removed(s, k);
            Distinct(t) && parent !in t && s[k] !in t && |t| == |s| - 1
            && (t != [] ==> t[0] == if k == 0 then s[1] else s[0])
  {
  }

  method DetachItemViaPointer(parent: Node?, item: Node?, ghost s: seq<Node>, ghost k: nat) returns (detached: Node?)
    requires parent != null ==> IsList(parent, s)
    requires item != null ==> k < |s| && s[k] == item
    modifies One(parent)`child, s`next, s`prev
    ensures detached == (if parent == null then null else item)
    ensures detached != null ==> IsList(parent, Removed(s, k)) && item.next == null && item.prev == null
    ensures detached == null && parent != null ==> IsList(parent, s)
  {
    if parent == null || item == null || (item != parent.child && item.prev == null) {
      return null;
    }
    if item != parent.child {
      item.prev.next := item.next;
    }
    if item.next != null {
      item.next.prev := item.prev;
    }
    if item == parent.child {
      parent.child := item.next;
    } else if item.next == null {
      parent.child.prev := item.prev;
    }
    item.prev := null;
    item.next := null;
    ghost var t := Removed(s, k);
    RemovedDistinct(s, k, parent);
    hide Removed;
    forall i | 0 <= i < |t|
      ensures t[i].next == NextOf(t, i) && t[i].prev == PrevOf(t, i)
    {
      RemovedLinks(s, k, i);
    }
    return item;
  }

  // ------------------------------------------------------------------
  // Replacing
  // ------------------------------------------------------------------

  method ReplaceItemViaPointer(parent: Node?, item: Node?, replacement: Node?, ghost s: seq<Node>, ghost k: nat) returns (ok: bool)
    requires parent != null ==> IsList(parent, s)
    requires item != null ==> k < |s| && s[k] == item
    requires replacement != null ==> replacement != parent && (replacement == item || replacement !in s)
    modifies One(parent)`child, s`next, s`prev, One(replacement)`next, One(replacement)`prev
    ensures ok <==> parent != null && item != null && replacement != null
    ensures ok ==> IsList(parent, s[k := replacement])
    ensures ok && replacement != item ==> item.next == null && item.prev == null
    ensures !ok && parent != null ==> IsList(parent, s)
  {
    if parent == null || parent.child == null || replacement == null || item == null {
      return false;
    }
    if replacement == item {
      return true;
    }
    replacement.next := item.next;
    replacement.prev := item.prev;
    if replacement.next != null {
      replacement.next.prev := replacement;
    }
    if parent.child == item {
      if parent.child.prev == parent.child {
        replacement.prev := replacement;
      }
      parent.child := replacement;
    } else {
      if replacement.prev != null {
        replacement.prev.next := replacement;
      }
      if replacement.next == null {
        parent.child.prev := replacement;
      }
    }
    item.next := null;
    item.prev := null;
    ghost var t := s[k := replacement];
    forall i | 0 <= i < |t|
      ensures t[i].next == NextOf(t, i) && t[i].prev == PrevOf(t, i)
    {
    }
    return true;
  }

  // ------------------------------------------------------------------
  // By place, as callers of the library edit
  // ------------------------------------------------------------------

  method DetachItemFromArray(parent: Node, which: int, ghost s: seq<Node>) returns (detached: Node?)
    requires IsList(parent, s)
    modifies parent`child, s`next, s`prev
    ensures detached == ItemAt(s, which)
    ensures IsList(parent, Edited(s, Detach(which)))
    ensures detached != null ==> detached.next == null
  {
    if which < 0 {
      return null;
    }
    var item := GetArrayItem(parent, which, s);
    detached := DetachItemViaPointer(parent, item, s, which);
  }

  method ReplaceItemInArray(parent: Node, which: int, newitem: Node, ghost s: seq<Node>) returns (ok: bool)
    requires IsList(parent, s) && newitem != parent && newitem !in s
    modifies parent`child, s`next, s`prev, newitem`next, newitem`prev
    ensures ok <==> ItemAt(s, which) != null
    ensures IsList(parent, Edited(s, Replace(which, newitem)))
    ensures ok ==> ItemAt(s, which).next == null
    ensures !ok ==> unchanged(newitem)
  {
    if which < 0 {
      return false;
    }
    var item := GetArrayItem(parent, which, s);
    if item == null {
      return false;
    }
    ok := ReplaceItemViaPointer(parent, item, newitem, s, which);
  }

  // ------------------------------------------------------------------
  // Runs of edits
  // ------------------------------------------------------------------

  datatype Edit = Append(item: Node) | Insert(which: int, item: Node) | Detach(which: int) | Replace(which: int, item: Node)

  /** What an edit does to the sequence of children. */
  ghost function Edited(s: seq<Node>, e: Edit): seq<Node> {
    match e
    case Append(item) => s + [item]
    case Insert(which, item) => if which < 0 then s else Inserted(s, which, item)
    case Detach(which) => if 0 <= which < |s| then Removed(s, which) else s
    case Replace(which, item) => if 0 <= which < |s| then s[which := item] else s
  }

  ghost function EditedAll(s: seq<Node>, edits: seq<Edit>): seq<Node>
    decreases |edits|
  {
    if edits == [] then s else EditedAll(Edited(s, edits[0]), edits[1..])
  }

  /** Items put in come from the pool and are not in the list at that moment. */
  ghost predicate Allowed(s: seq<Node>, e: Edit, pool: set<Node>) {
    e.Detach? || (e.item in pool && e.item !in s)
  }

  ghost predicate AllAllowed(s: seq<Node>, edits: seq<Edit>, pool: set<Node>)
    decreases |edits|
  {
    edits == [] || (Allowed(s, edits[0], pool) && AllAllowed(Edited(s, edits[0]), edits[1..], pool))
  }

  /** The list is made of nodes of the pool, and the others are loose. */
  ghost predicate Ready(parent: Node, s: seq<Node>, pool: set<Node>)
    reads parent, pool
  {
    && parent !in pool
    && (forall i :: 0 <= i < |s| ==> s[i] in pool)
    && IsList(parent, s)
    && forall n :: n in pool && n !in s ==> n.next == null
  }

  /** What an edit puts in. */
  lemma EditedAdds(s: seq<Node>, e: Edit)
    requires !e.Detach?
    ensures e.Append? || (e.Insert? && e.which >= 0) || (e.Replace? && ItemAt(s, e.which) != null) ==> e.item in Edited(s, e)
  {
    match e
    case Append(item) => assert Edited(s, e)[|s|] == item;
    case Insert(which, item) => assert which >= 0 ==> Edited(s, e)[if which < |s| then which else |s|] == item;
    case Replace(which, item) => assert 0 <= which < |s| ==> Edited(s, e)[which] == item;
  }

  /** Only the node at the place of a detachment or replacement goes. */
  lemma EditedKeeps(s: seq<Node>, e: Edit, i: nat)
    requires i < |s|
    ensures s[i] in Edited(s, e) || ((e.Detach? || e.Replace?) && i == e.which)
  {
    match e
    case Append(item) => assert Edited(s, e)[i] == s[i];
    case Insert(which, item) => assert which >= 0 ==> Edited(s, e)[if i < which then i else i + 1] == s[i];
    case Detach(which) =>
      if 0 <= which < |s| && i != which {
        assert Edited(s, e)[if i < which then i else i - 1] == s[i];
      }
    case Replace(which, item) => assert i != which ==> Edited(s, e)[i] == s[i];
  }

  lemma EditedFromPool(s: seq<Node>, e: Edit, pool: set<Node>)
    requires (forall i :: 0 <= i < |s| ==> s[i] in pool) && Allowed(s, e, pool)
    ensures var t := Edited(s, e); forall i :: 0 <= i < |t| ==> t[i] in pool
  {
  }

  method ApplyEdit(parent: Node, e: Edit, ghost s: seq<Node>, ghost pool: set<Node>)
    requires Ready(parent, s, pool) && Allowed(s, e, pool)
    modifies parent`child, pool`next, pool`prev
    ensures Ready(parent, Edited(s, e), pool)
  {
    forall i | 0 <= i < |s|
      ensures s[i] in Edited(s, e) || ((e.Detach? || e.Replace?) && i == e.which)
    {
      EditedKeeps(s, e, i);
    }
    if !e.Detach? {
      EditedAdds(s, e);
    }
    EditedFromPool(s, e, pool);
    match e
    case Append(item) =>
      var _ := AddItemToArray(parent, item, s);
    case Insert(which, item) =>
      var _ := InsertItemInArray(parent, which, item, s);
    case Detach(which) =>
      var _ := DetachItemFromArray(parent, which, s);
    case Replace(which, item) =>
      var _ := ReplaceItemInArray(parent, which, item, s);
  }

  /** After any run of edits the list holds exactly what the edits make of the sequence. */
  method RunEdits(parent: Node, edits: seq<Edit>, ghost s: seq<Node>, ghost pool: set<Node>)
    requires Ready(parent, s, pool) && AllAllowed(s, edits, pool)
    modifies parent`child, pool`next, pool`prev
    ensures Ready(parent, EditedAll(s, edits), pool)
  {
    hide Ready;
    hide Edited;
    var i := 0;
    ghost var t := s;
    assert edits[0..] == edits;
    while i < |edits|
      invariant i <= |edits| && Ready(parent, t, pool)
      invariant AllAllowed(t, edits[i..], pool) && EditedAll(t, edits[i..]) == EditedAll(s, edits)
    {
      assert edits[i..][0] == edits[i] && edits[i..][1..] == edits[i + 1..];
      ApplyEdit(parent, edits[i], t, pool);
      t := Edited(t, edits[i]);
      i := i + 1;
    }
  }
}
