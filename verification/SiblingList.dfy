/** The children of an array or object: a doubly linked list whose head points back to its tail. */
module SiblingList {
  import opened Bytes

  class Node {
    const key: bytes
    var next: Node?
    var prev: Node?

    constructor (key: bytes)
      ensures this.key == key && next == null && prev == null
    {
      this.key := key;
      next := null;
      prev := null;
    }
  }

  ghost predicate Distinct(s: seq<Node>) {
    forall i, j :: 0 <= i < j < |s| ==> s[i] != s[j]
  }

  /** The node that follows position `i`. */
  ghost function After(s: seq<Node>, i: int): Node?
    requires 0 <= i < |s|
  {
    if i + 1 < |s| then s[i + 1] else null
  }

  /** The node position `i` points back to; the head points to the tail. */
  ghost function Before(s: seq<Node>, i: int): Node
    requires 0 <= i < |s|
  {
    if i > 0 then s[i - 1] else s[|s| - 1]
  }

  ghost predicate LinkedAt(s: seq<Node>, i: int)
    requires 0 <= i < |s|
    reads s
  {
    s[i].next == After(s, i) && s[i].prev == Before(s, i)
  }

  /** Next and previous pointers are mutual, the last next is null and the head points back to the tail. */
  ghost predicate Linked(s: seq<Node>)
    reads s
  {
    forall i {:trigger LinkedAt(s, i)} :: 0 <= i < |s| ==> LinkedAt(s, i)
  }

  class Container {
    var child: Node?
    ghost var items: seq<Node>

    ghost predicate Valid()
      reads this, items
    {
      Distinct(items) && Linked(items) && child == if items == [] then null else items[0]
    }

    constructor ()
      ensures Valid() && items == []
    {
      child := null;
      items := [];
    }

    /** `get_array_item` */
    method Get(index: nat) returns (node: Node?)
      requires Valid()
      ensures node == if index < |items| then items[index] else null
    {
      node := child;
      var left: nat := index;
      ghost var i := 0;
      while node != null && left > 0
        invariant 0 <= i <= |items| && left + i == index
        invariant if i < |items| then node == items[i] else node == null
        decreases left
      {
        assert LinkedAt(items, i);
        left := left - 1;
        node := node.next;
        i := i + 1;
      }
    }

    /** `add_item_to_array` with a new or detached item; on a well-formed list the head points back to the tail. */
    method Append(item: Node)
      requires Valid() && item !in items && item.next == null
      modifies this, item, items
      ensures Valid() && items == old(items) + [item]
    {
      assert child != null ==> LinkedAt(items, 0) && LinkedAt(items, |items| - 1);
      if child == null {
        child := item;
        item.prev := item;
        item.next := null;
      } else if child.prev != null {
        child.prev.next := item;
        item.prev := child.prev;
        child.prev := item;
      }
      items := items + [item];
      forall i | 0 <= i < |items| ensures LinkedAt(items, i) {
        if i + 1 < |items| {
          assert old(LinkedAt(items, i));
        }
      }
    }

    /** Linking a new node in front of the one at position `k`. */
    method LinkBefore(after: Node, item: Node, ghost k: nat)
      requires Valid() && item !in items && k < |items| && items[k] == after
      modifies this, item, items
      ensures Valid() && items == old(items[..k] + [item] + items[k..])
    {
      assert LinkedAt(items, k) && LinkedAt(items, 0);
      assert k > 0 ==> LinkedAt(items, k - 1);
      item.next := after;
      item.prev := after.prev;
      after.prev := item;
      if after == child {
        child := item;
      } else {
        item.prev.next := item;
      }
      items := items[..k] + [item] + items[k..];
      forall i | 0 <= i < |items| ensures LinkedAt(items, i) {
        if i != k {
          assert old(LinkedAt(items, if i < k then i else i - 1));
        }
      }
    }

    /** `cJSON_DetachItemViaPointer` */
    method Detach(item: Node, ghost k: nat)
      requires Valid() && k < |items| && items[k] == item
      modifies this, items
      ensures Valid() && items == old(items[..k] + items[k + 1..])
      ensures item.next == null && item.prev == null
    {
      assert LinkedAt(items, k) && LinkedAt(items, 0);
      assert k > 0 ==> LinkedAt(items, k - 1);
      assert k + 1 < |items| ==> LinkedAt(items, k + 1);
      if item != child {
        item.prev.next := item.next;
      }
      if item.next != null {
        item.next.prev := item.prev;
      }
      if item == child {
        child := item.next;
      } else if item.next == null {
        child.prev := item.prev;
      }
      item.prev := null;
      item.next := null;
      items := items[..k] + items[k + 1..];
      forall i | 0 <= i < |items| ensures LinkedAt(items, i) {
        assert old(LinkedAt(items, if i < k then i else i + 1));
      }
    }

    /** `cJSON_ReplaceItemViaPointer` */
    method Replace(item: Node, replacement: Node, ghost k: nat)
      requires Valid() && k < |items| && items[k] == item && (replacement == item || replacement !in items)
      modifies this, replacement, items
      ensures Valid() && items == old(items[k := replacement])
      ensures replacement != item ==> item.next == null && item.prev == null
    {
      if replacement == item {
        return;
      }
      assert LinkedAt(items, k) && LinkedAt(items, 0);
      assert k > 0 ==> LinkedAt(items, k - 1);
      assert k + 1 < |items| ==> LinkedAt(items, k + 1);
      replacement.next := item.next;
      replacement.prev := item.prev;
      if replacement.next != null {
        replacement.next.prev := replacement;
      }
      if child == item {
        if child.prev == child {
          replacement.prev := replacement;
        }
        child := replacement;
      } else {
        if replacement.prev != null {
          replacement.prev.next := replacement;
        }
        if replacement.next == null {
          child.prev := replacement;
        }
      }
      item.next := null;
      item.prev := null;
      items := items[k := replacement];
      forall i | 0 <= i < |items| ensures LinkedAt(items, i) {
        assert old(LinkedAt(items, i));
      }
    }

    /** `cJSON_InsertItemInArray`: past the end it appends. */
    method Insert(which: int, item: Node) returns (ok: bool)
      requires Valid() && item !in items && item.next == null
      modifies this, item, items
      ensures Valid() && ok == (which >= 0)
      ensures items == if ok then InsertAt(old(items), which, item) else old(items)
      ensures !ok ==> item.next == null
    {
      if which < 0 {
        return false;
      }
      var after := Get(which);
      if after == null {
        Append(item);
      } else {
        assert LinkedAt(items, which);
        if after != child && after.prev == null {
          return false;
        }
        LinkBefore(after, item, which);
      }
      ok := true;
    }

    /** The private `insert_item_in_array` of the patch code: past the end it fails. */
    method InsertStrict(which: nat, item: Node) returns (ok: bool)
      requires Valid() && item !in items && item.next == null
      modifies this, item, items
      ensures Valid() && ok == (which <= |old(items)|)
      ensures items == if ok then InsertAt(old(items), which, item) else old(items)
      ensures !ok ==> item.next == null
    {
      var node := child;
      var left: nat := which;
      ghost var i := 0;
      while node != null && left > 0
        invariant 0 <= i <= |items| && left + i == which
        invariant if i < |items| then node == items[i] else node == null
        decreases left
      {
        assert LinkedAt(items, i);
        node := node.next;
        left := left - 1;
        i := i + 1;
      }
      if left > 0 {
        return false;
      }
      if node == null {
        Append(item);
      } else {
        LinkBefore(node, item, i);
      }
      ok := true;
    }

    /** `cJSON_DetachItemFromArray` */
    method DetachAt(which: int) returns (item: Node?)
      requires Valid()
      modifies this, items
      ensures Valid()
      ensures item == if 0 <= which < |old(items)| then old(items)[which] else null
      ensures items == if item != null then RemoveAt(old(items), which) else old(items)
      ensures item != null ==> item.next == null && item.prev == null
    {
      if which < 0 {
        return null;
      }
      item := Get(which);
      if item != null {
        Detach(item, which);
      }
    }

    /** `cJSON_ReplaceItemInArray` */
    method ReplaceAt(which: int, replacement: Node) returns (ok: bool)
      requires Valid() && replacement !in items
      modifies this, replacement, items
      ensures Valid() && ok == (0 <= which < |old(items)|)
      ensures items == if ok then old(items)[which := replacement] else old(items)
      ensures if ok then old(items)[which].next == null else replacement.next == old(replacement.next)
    {
      if which < 0 {
        return false;
      }
      var item := Get(which);
      if child == null || item == null {
        return false;
      }
      Replace(item, replacement, which);
      ok := true;
    }
  }

  function InsertAt<T>(s: seq<T>, which: nat, x: T): seq<T> {
    if which < |s| then s[..which] + [x] + s[which..] else s + [x]
  }

  function RemoveAt<T>(s: seq<T>, which: int): seq<T> {
    if 0 <= which < |s| then s[..which] + s[which + 1..] else s
  }

  // ----- whole histories

  datatype Edit = Add(item: Node) | InsertItem(which: int, item: Node) | InsertInside(index: nat, item: Node)
                | DetachItem(which: int) | ReplaceItem(which: int, item: Node)

  /** What an edit does to the sequence of children. */
  function Edited(s: seq<Node>, e: Edit): seq<Node> {
    match e
    case Add(item) => s + [item]
    case InsertItem(which, item) => if which < 0 then s else InsertAt(s, which, item)
    case InsertInside(which, item) => if which > |s| then s else InsertAt(s, which, item)
    case DetachItem(which) => RemoveAt(s, which)
    case ReplaceItem(which, item) => if 0 <= which < |s| then s[which := item] else s
  }

  /** A node is only added to a list it is not in. */
  ghost predicate Allowed(s: seq<Node>, e: Edit) {
    e.DetachItem? || e.item !in s
  }

  ghost predicate AllAllowed(s: seq<Node>, edits: seq<Edit>)
    decreases |edits|
  {
    edits == [] || (Allowed(s, edits[0]) && AllAllowed(Edited(s, edits[0]), edits[1..]))
  }

  function EditedAll(s: seq<Node>, edits: seq<Edit>): seq<Node>
    decreases |edits|
  {
    if edits == [] then s else EditedAll(Edited(s, edits[0]), edits[1..])
  }

  ghost function NodesOf(edits: seq<Edit>): set<Node> {
    set e | e in edits && !e.DetachItem? :: e.item
  }

  ghost function Members(s: seq<Node>): set<Node> {
    set n | n in s
  }

  lemma OneOf(edits: seq<Edit>, i: nat)
    requires i < |edits|
    ensures NodesOf([edits[i]]) <= NodesOf(edits)
    ensures NodesOf([edits[i]]) == if edits[i].DetachItem? then {} else {edits[i].item}
  {
    assert edits[i] in edits && edits[i] in [edits[i]];
  }

  lemma Gone(s: seq<Node>, which: int, x: Node)
    requires 0 <= which < |s|
    ensures forall n :: n in s && n !in s[which := x] ==> n == s[which]
  {
    forall n | n in s && n !in s[which := x] ensures n == s[which] {
      var i :| 0 <= i < |s| && s[i] == n;
      assert s[which := x][i] == if i == which then x else n;
    }
  }

  lemma MembersAfter(s: seq<Node>, e: Edit)
    ensures forall n :: n in Edited(s, e) ==> n in s || n in NodesOf([e])
  {
    assert e in [e];
  }

  /** A node outside every list. */
  ghost predicate Loose(n: Node)
    reads n
  {
    n.next == null
  }

  method Perform(list: Container, e: Edit)
    requires list.Valid() && Allowed(list.items, e) && (e.DetachItem? || Loose(e.item))
    modifies list, Members(list.items), NodesOf([e])
    ensures list.Valid() && list.items == Edited(old(list.items), e)
    ensures forall n :: n in old(list.items) && n !in list.items ==> Loose(n)
    ensures !e.DetachItem? && e.item !in list.items ==> Loose(e.item)
  {
    assert e in [e];
    match e {
      case Add(item) => list.Append(item);
      case InsertItem(which, item) => var _ := list.Insert(which, item);
      case InsertInside(which, item) => var _ := list.InsertStrict(which, item);
      case DetachItem(which) => var _ := list.DetachAt(which);
      case ReplaceItem(which, item) =>
        if 0 <= which < |list.items| {
          Gone(list.items, which, item);
        }
        var _ := list.ReplaceAt(which, item);
    }
  }

  /** Every sequence of edits keeps the links and acts on the children as the same edits on a sequence. */
  method PerformAll(list: Container, edits: seq<Edit>)
    requires list.Valid() && AllAllowed(list.items, edits)
    requires forall n :: n in NodesOf(edits) && n !in list.items ==> Loose(n)
    modifies list, Members(list.items), NodesOf(edits)
    ensures list.Valid() && list.items == EditedAll(old(list.items), edits)
  {
    ghost var nodes := NodesOf(edits);
    assert forall n :: n in nodes ==> allocated(n);
    hide NodesOf, Edited, Container.Valid;
    var i := 0;
    assert edits[0..] == edits;
    while i < |edits|
      invariant 0 <= i <= |edits| && list.Valid()
      invariant AllAllowed(list.items, edits[i..]) && EditedAll(list.items, edits[i..]) == EditedAll(old(list.items), edits)
      invariant forall n :: n in list.items ==> n in old(list.items) || n in NodesOf(edits)
      invariant forall n :: n in nodes ==> allocated(n)
      invariant forall n :: n in nodes && n !in list.items ==> Loose(n)
    {
      assert edits[i..][1..] == edits[i + 1..] && edits[i] in edits;
      OneOf(edits, i);
      ghost var e, before := edits[i], list.items;
      assert !e.DetachItem? ==> e.item in NodesOf([e]) && e.item in NodesOf(edits);
      MembersAfter(list.items, edits[i]);
      Perform(list, edits[i]);
      forall n | n in nodes && n !in list.items ensures Loose(n) {
        assert n in before || n in NodesOf([e]) || n !in Members(before);
      }
      i := i + 1;
    }
  }
}
