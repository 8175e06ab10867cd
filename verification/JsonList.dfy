/** The child list of lib/cJSON.c: doubly linked, with the first element's `prev` at the last. Its edits are those of a
    sequence. */
module JsonList {
  import opened Bytes

  datatype Kind = InvalidKind | FalseKind | TrueKind | NullKind | NumberKind | StringKind | ArrayKind | ObjectKind

  /** `cJSON`: its neighbours, its first child, and what it holds. */
  class Node {
    var next: Node?
    var prev: Node?
    var child: Node?
    var kind: Kind
    var valueInt: int
    var valueDouble: real
    var valueString: Data
    var name: Data

    constructor ()
      ensures next == null && prev == null && child == null
    {
      next, prev, child, kind := null, null, null, InvalidKind;
      valueInt, valueDouble, valueString, name := 0, 0.0, [], [];
    }
  }

  ghost predicate Distinct(items: seq<Node>)
  {
    forall i, j :: 0 <= i < j < |items| ==> items[i] != items[j]
  }

  /** The children of `parent` are `items`, in this order. */
  ghost predicate Links(parent: Node, items: seq<Node>)
    reads parent`child, items`next, items`prev
  {
    && Distinct(items) && parent !in items
    && (items == [] ==> parent.child == null)
    && (items != [] ==> parent.child == items[0] && Chain(items))
  }

  /** Next elements and previous elements; before the first stands the last, and nothing behind the last. */
  ghost predicate Chain(items: seq<Node>)
    requires items != []
    reads items`next, items`prev
  {
    && items[0].prev == items[|items| - 1]
    && items[|items| - 1].next == null
    && (forall i :: 0 <= i < |items| - 1 ==> items[i].next == items[i + 1])
    && (forall i :: 0 < i < |items| ==> items[i].prev == items[i - 1])
  }

  function Without<T>(items: seq<T>, k: nat): seq<T>
    requires k < |items|
  {
    items[..k] + items[k + 1..]
  }

  function Inserted<T>(items: seq<T>, k: nat, item: T): seq<T>
    requires k <= |items|
  {
    items[..k] + [item] + items[k..]
  }

  /** The node a pointer points at, if it does. */
  ghost function Only(n: Node?): set<Node> { if n == null then {} else {n} }

  /** Where an element points. */
  lemma Neighbours(parent: Node, items: seq<Node>, k: nat)
    requires Links(parent, items) && k < |items|
    ensures items[k] in items && (items[k] == parent.child <==> k == 0)
    ensures k > 0 ==> items[k].prev == items[k - 1] && items[k - 1] in items
    ensures k == 0 ==> items[k].prev == items[|items| - 1] && items[|items| - 1] in items
    ensures k + 1 < |items| ==> items[k].next == items[k + 1] && items[k + 1] in items
    ensures k + 1 == |items| ==> items[k].next == null
  {
  }

  method GetArraySize(parent: Node?, ghost items: seq<Node>) returns (size: nat)
    requires parent != null ==> Links(parent, items)
    ensures size == if parent == null then 0 else |items|
  {
    size := 0;
    if parent == null {
      return;
    }
    var child := parent.child;
    while child != null
      invariant size <= |items| && child == if size < |items| then items[size] else null
      decreases |items| - size
    {
      size := size + 1;
      child := child.next;
    }
  }

  method GetArrayItem(parent: Node?, index: nat, ghost items: seq<Node>) returns (item: Node?)
    requires parent != null ==> Links(parent, items)
    ensures item == if parent != null && index < |items| then items[index] else null
  {
    if parent == null {
      return null;
    }
    var i := index;
    item := parent.child;
    while item != null && i > 0
      invariant 0 <= i <= index && item == if index - i < |items| then items[index - i] else null
      decreases i
    {
      i := i - 1;
      item := item.next;
    }
    assert item == null ==> index - i >= |items|;
  }

  /** Appending makes a list of one more element, just when the element is a new one and the list is empty or it has no
      next one: only the first element's `next` is cleared. Otherwise what hangs from `parent` is no list at all. */
  method AddItemToArray(parent: Node?, item: Node?, ghost items: seq<Node>) returns (ok: bool)
    requires parent != null ==> Links(parent, items)
    modifies Only(parent)`child, Only(item)`next, Only(item)`prev, items`next, items`prev
    ensures ok <==> parent != null && item != null && parent != item
    ensures !ok ==> parent != null ==> Links(parent, items)
    ensures ok ==>
      if old(item !in items && (items == [] || item.next == null)) then Links(parent, items + [item])
      else forall others: seq<Node> :: !Links(parent, others)
  {
    if item == null || parent == null || parent == item {
      return false;
    }
    var child := parent.child;
    if child == null {
      parent.child := item;
      item.prev := item;
      item.next := null;
    } else if child.prev != null {
      if item in items {
        ghost var k: nat :| k < |items| && items[k] == item;
        Neighbours(parent, items, k);
      }
      child.prev.next := item;
      item.prev := child.prev;
      parent.child.prev := item;
      assert (items + [item])[|items|] == item;
      if item in items || item.next != null {
        forall others: seq<Node> ensures !Links(parent, others) {
          NoList(parent, others);
        }
      }
    }
    ok := true;
  }

  /** No list ends in an element that has a next one. */
  lemma NoList(parent: Node, items: seq<Node>)
    requires parent.child != null && parent.child.prev != null && parent.child.prev.next != null
    ensures !Links(parent, items)
  {
  }

  /** A way along the `next` pointers from the first child on. */
  ghost predicate Walk(parent: Node, way: seq<Node>)
    reads parent`child, way`next
  {
    way != [] && parent.child == way[0] && forall i :: 0 <= i < |way| - 1 ==> way[i].next == way[i + 1]
  }

  /** Every list goes that way. */
  lemma {:induction false} SameWay(parent: Node, way: seq<Node>, items: seq<Node>)
    requires Walk(parent, way) && Links(parent, items)
    ensures |way| <= |items| && forall i :: 0 <= i < |way| ==> items[i] == way[i]
    decreases |way|
  {
    if |way| > 1 {
      var last := |way| - 1;
      SameWay(parent, way[..last], items);
      assert items[last - 1] == way[..last][last - 1] && way[last - 1].next == way[last];
    }
  }

  /** No list comes back to an element, or to its parent. */
  lemma NoCircle(parent: Node, way: seq<Node>, items: seq<Node>)
    requires Walk(parent, way)
    requires var next := way[|way| - 1].next; next != null && (next in way || next == parent)
    ensures !Links(parent, items)
  {
    if Links(parent, items) {
      var next := way[|way| - 1].next;
      var longer := way + [next];
      assert |longer| == |way| + 1 && longer[|way|] == next;
      if next in way {
        var i: nat :| i < |way| && way[i] == next;
        assert longer[i] == next;
      }
      SameWay(parent, longer, items);
    }
  }

  lemma NotItsParent(parent: Node, items: seq<Node>)
    requires parent.child == parent
    ensures !Links(parent, items)
  {
  }

  /** In no list an element points back at another one than it came behind. */
  lemma NoWayBack(parent: Node, way: seq<Node>, items: seq<Node>)
    requires Walk(parent, way) && |way| > 1 && way[|way| - 1].prev != way[|way| - 2]
    ensures !Links(parent, items)
  {
    if Links(parent, items) {
      SameWay(parent, way, items);
    }
  }

  /** Takes the element out and leaves it pointing nowhere. */
  method DetachItemViaPointer(parent: Node?, item: Node?, ghost items: seq<Node>, ghost k: nat) returns (r: Node?)
    requires parent != null ==> Links(parent, items)
    requires parent != null && item != null ==> k < |items| && items[k] == item
    modifies Only(parent)`child, items`next, items`prev
    ensures parent == null || item == null ==> r == null && (parent != null ==> Links(parent, items))
    ensures parent != null && item != null ==> r == item && item.next == null && item.prev == null
    ensures parent != null && item != null ==> Links(parent, Without(items, k))
  {
    if parent == null || item == null {
      return null;
    }
    Neighbours(parent, items, k);
    if item != parent.child {
      item.prev.next := item.next;
    }
    if item.next != null {
      item.next.prev := item.prev;
    }
    if item == parent.child {
      parent.child := item.next;
    } else if item.next == null {
      parent.child.prev := item.prev;
    }
    item.prev := null;
    item.next := null;
    r := item;
    ghost var rest := Without(items, k);
    assert forall i :: 0 <= i < |rest| ==> rest[i] == items[if i < k then i else i + 1];
  }

  method DetachItemFromArray(parent: Node?, which: int, ghost items: seq<Node>) returns (r: Node?)
    requires parent != null ==> Links(parent, items)
    modifies Only(parent)`child, items`next, items`prev
    ensures parent == null || !(0 <= which < |items|) ==> r == null && (parent != null ==> Links(parent, items))
    ensures parent != null && 0 <= which < |items| ==> r == items[which] && r.next == null && r.prev == null
    ensures parent != null && 0 <= which < |items| ==> Links(parent, Without(items, which))
  {
    if which < 0 {
      return null;
    }
    var item := GetArrayItem(parent, which, items);
    r := DetachItemViaPointer(parent, item, items, which);
  }

  /** In front of element `which`, whatever the new element pointed at, if it is a new one; behind the last one, as
      appending. */
  method InsertItemInArray(parent: Node?, which: int, newItem: Node?, ghost items: seq<Node>) returns (ok: bool)
    requires parent != null ==> Links(parent, items)
    modifies Only(parent)`child, Only(newItem)`next, Only(newItem)`prev, items`next, items`prev
    ensures ok <==> parent != null && newItem != null && 0 <= which && (which >= |items| ==> newItem != parent)
    ensures !ok ==> parent != null ==> Links(parent, items)
    ensures ok && which < |items| ==>
      if newItem !in items && newItem != parent then Links(parent, Inserted(items, which, newItem))
      else forall others: seq<Node> :: !Links(parent, others)
    ensures ok && which >= |items| ==>
      if old(newItem !in items && (items == [] || newItem.next == null)) then Links(parent, items + [newItem])
      else forall others: seq<Node> :: !Links(parent, others)
  {
    if which < 0 || newItem == null {
      return false;
    }
    var afterInserted := GetArrayItem(parent, which, items);
    if afterInserted == null {
      ok := AddItemToArray(parent, newItem, items);
      return;
    }
    Neighbours(parent, items, which);
    if afterInserted != parent.child && afterInserted.prev == null {
      return false;
    }
    InsertBefore(parent, afterInserted, newItem, items, which);
    ok := true;
  }

  method InsertBefore(parent: Node, afterInserted: Node, newItem: Node, ghost items: seq<Node>, ghost k: nat)
    requires Links(parent, items) && k < |items| && items[k] == afterInserted
    modifies parent`child, newItem`next, newItem`prev, items`next, items`prev
    ensures if newItem !in items && newItem != parent then Links(parent, Inserted(items, k, newItem))
            else forall others: seq<Node> :: !Links(parent, others)
  {
    Neighbours(parent, items, k);
    newItem.next := afterInserted;
    newItem.prev := afterInserted.prev;
    afterInserted.prev := newItem;
    if afterInserted == parent.child {
      parent.child := newItem;
    } else {
      newItem.prev.next := newItem;
    }
    if newItem !in items && newItem != parent {
      InsertedLinks(parent, newItem, items, k);
    } else {
      forall others: seq<Node> ensures !Links(parent, others) {
        InsertedTwice(parent, newItem, items, k, others);
      }
    }
  }

  /** What the pointers are once an element, or the parent, stands before element `k` for a second time: no list. */
  lemma InsertedTwice(parent: Node, item: Node, items: seq<Node>, k: nat, others: seq<Node>)
    requires Distinct(items) && parent !in items && (item in items || item == parent) && k < |items|
    requires parent.child == if k == 0 then item else items[0]
    requires item.next == if item == items[k] || (k > 0 && item == items[k - 1]) then item else items[k]
    requires k > 0 ==> items[k - 1].next == item
    requires k > 0 && item != items[k] && item != items[k - 1] ==> item.prev == items[k - 1]
    requires forall i :: 0 <= i < |items| - 1 && i != k - 1 && items[i] != item ==> items[i].next == items[i + 1]
    ensures !Links(parent, others)
  {
    hide Links;
    if item == parent {
      if k == 0 {
        NotItsParent(parent, others);
      } else {
        NoCircle(parent, items[..k], others);
      }
    } else {
      var j: nat :| j < |items| && items[j] == item;
      if j == k {
        NoCircle(parent, items[..k + 1], others);
      } else if j == k - 1 {
        NoCircle(parent, items[..k], others);
      } else if j > k {
        var way := items[..k] + [item] + items[k..j];
        assert way[k] == item && way[|way| - 1] == items[j - 1];
        NoCircle(parent, way, others);
      } else if j > 0 {
        NoWayBack(parent, items[..j + 1], others);
      } else {
        NoList(parent, others);
      }
    }
  }

  /** What the pointers are once a new element stands before element `k`. */
  lemma InsertedLinks(parent: Node, newItem: Node, items: seq<Node>, k: nat)
    requires Distinct(items) && parent !in items && newItem !in items && newItem != parent && k < |items|
    requires parent.child == if k == 0 then newItem else items[0]
    requires newItem.next == items[k] && items[k].prev == newItem
    requires newItem.prev == if k == 0 then items[|items| - 1] else items[k - 1]
    requires k > 0 ==> items[k - 1].next == newItem && items[0].prev == items[|items| - 1]
    requires items[|items| - 1].next == null
    requires forall i :: 0 <= i < |items| - 1 && i != k - 1 ==> items[i].next == items[i + 1]
    requires forall i :: 0 < i < |items| && i != k ==> items[i].prev == items[i - 1]
    ensures Links(parent, Inserted(items, k, newItem))
  {
    var more := Inserted(items, k, newItem);
    assert Distinct(more);
    forall i | 0 <= i < |more| - 1 ensures more[i].next == more[i + 1] {
      if i < k {
        assert more[i] == items[i];
      } else if i > k {
        assert more[i] == items[i - 1] && more[i + 1] == items[i];
      }
    }
    forall i | 0 < i < |more| ensures more[i].prev == more[i - 1] {
      if i < k {
        assert more[i] == items[i] && more[i - 1] == items[i - 1];
      } else if i > k + 1 {
        assert more[i] == items[i - 1] && more[i - 1] == items[i - 2];
      }
    }
  }

  /** The first element in the place of the last one, with another between them: it is all that stays. */
  predicate Shortens(items: seq<Node>, k: nat, replacement: Node)
  {
    |items| > 2 && k == |items| - 1 && replacement == items[0]
  }

  /** Puts another element in the place of one, which then points nowhere. */
  method ReplaceItemViaPointer(parent: Node?, item: Node?, replacement: Node?, ghost items: seq<Node>, ghost k: nat)
    returns (ok: bool)
    requires parent != null ==> Links(parent, items)
    requires parent != null && item != null ==> k < |items| && items[k] == item
    modifies Only(parent)`child, Only(replacement)`next, Only(replacement)`prev, items`next, items`prev
    ensures ok <==> parent != null && item != null && replacement != null
    ensures !ok ==> parent != null ==> Links(parent, items)
    ensures ok ==>
      if replacement == item || (replacement !in items && replacement != parent) then
        Links(parent, items[k := replacement])
      else if Shortens(items, k, replacement) then Links(parent, [replacement])
      else forall others: seq<Node> :: !Links(parent, others)
    ensures ok && replacement != item ==> item.next == null && item.prev == null
  {
    if parent == null || parent.child == null || replacement == null || item == null {
      return false;
    }
    if replacement == item {
      return true;
    }
    TakePlace(parent, item, replacement, items, k);
    if replacement !in items && replacement != parent {
      ReplacedLinks(parent, replacement, items, k);
    } else if !Shortens(items, k, replacement) {
      forall others: seq<Node> ensures !Links(parent, others) {
        ReplacedTwice(parent, replacement, items, k, others);
      }
    }
    ok := true;
  }

  /** The pointers once `r` stands in the place of element `k`. */
  ghost predicate InPlaceOf(parent: Node, r: Node, items: seq<Node>, k: nat)
    requires k < |items|
    reads parent`child, r`next, r`prev, items`next, items`prev
  {
    && Distinct(items) && parent !in items && r != items[k]
    && parent.child == (if k == 0 then r else items[0])
    && items[k].next == null && items[k].prev == null
    && r.next == (if Beside(items, k, r) then r else if k + 1 < |items| then items[k + 1] else null)
    && (k > 0 ==> items[k - 1].next == if k + 1 < |items| && r == items[k + 1] then items[k] else r)
    && (k > 0 && !Beside(items, k, r) ==> r.prev == if Shortens(items, k, r) then r else items[k - 1])
    && (forall i :: 0 <= i < |items| - 1 && i != k - 1 && i != k && items[i] != r ==> items[i].next == items[i + 1])
    && (r !in items && r != parent ==> PointsBack(items, k, r))
  }

  predicate Beside(items: seq<Node>, k: nat, r: Node)
    requires k < |items|
  {
    (k > 0 && r == items[k - 1]) || (k + 1 < |items| && r == items[k + 1])
  }

  /** The `prev` pointers, if `r` is new. */
  ghost predicate PointsBack(items: seq<Node>, k: nat, r: Node)
    requires k < |items|
    reads r`prev, items`next, items`prev
  {
    && r.prev == (if |items| == 1 then r else if k == 0 then items[|items| - 1] else items[k - 1])
    && (k + 1 < |items| ==> items[k + 1].prev == r && items[|items| - 1].next == null)
    && (k > 0 ==> items[0].prev == if k == |items| - 1 then r else items[|items| - 1])
    && forall i :: 0 < i < |items| && i != k && i != k + 1 ==> items[i].prev == items[i - 1]
  }

  method TakePlace(parent: Node, item: Node, replacement: Node, ghost items: seq<Node>, ghost k: nat)
    requires Links(parent, items) && k < |items| && items[k] == item && replacement != item
    modifies parent`child, replacement`next, replacement`prev, items`next, items`prev
    ensures InPlaceOf(parent, replacement, items, k)
  {
    Neighbours(parent, items, k);
    replacement.next := item.next;
    replacement.prev := item.prev;
    if replacement.next != null {
      replacement.next.prev := replacement;
    }
    if parent.child == item {
      if parent.child.prev == parent.child {
        replacement.prev := replacement;
      }
      parent.child := replacement;
    } else {
      if replacement.prev != null {
        replacement.prev.next := replacement;
      }
      if replacement.next == null {
        parent.child.prev := replacement;
      }
    }
    item.next := null;
    item.prev := null;
  }

  /** What the pointers are once an element, or the parent, stands in the place of another element: no list. */
  lemma ReplacedTwice(parent: Node, item: Node, items: seq<Node>, k: nat, others: seq<Node>)
    requires k < |items| && InPlaceOf(parent, item, items, k)
    requires (item in items || item == parent) && !Shortens(items, k, item)
    ensures !Links(parent, others)
  {
    hide Links;
    if item == parent {
      if k == 0 {
        NotItsParent(parent, others);
      } else {
        NoCircle(parent, items[..k], others);
      }
    } else {
      var j: nat :| j < |items| && items[j] == item;
      if k == 0 {
        var way := [item] + items[1..j];
        assert way[|way| - 1] == if j == 1 then item else items[j - 1];
        assert item in way;
        NoCircle(parent, way, others);
      } else if j == k - 1 {
        NoCircle(parent, items[..k], others);
      } else if j == k + 1 {
        NoWayBack(parent, items[..k + 1], others);
      } else if j > k {
        var way := items[..k] + [item] + items[k + 1..j];
        assert way[k] == item && way[|way| - 1] == items[j - 1];
        NoCircle(parent, way, others);
      } else if j > 0 {
        NoWayBack(parent, items[..j + 1], others);
      } else {
        NoList(parent, others);
      }
    }
  }

  /** What the pointers are once a new element stands in the place of element `k`. */
  lemma ReplacedLinks(parent: Node, item: Node, items: seq<Node>, k: nat)
    requires k < |items| && InPlaceOf(parent, item, items, k) && item !in items && item != parent
    ensures Links(parent, items[k := item])
  {
  }

  method ReplaceItemInArray(parent: Node?, which: int, newItem: Node?, ghost items: seq<Node>) returns (ok: bool)
    requires parent != null ==> Links(parent, items)
    modifies Only(parent)`child, Only(newItem)`next, Only(newItem)`prev, items`next, items`prev
    ensures ok <==> parent != null && newItem != null && 0 <= which < |items|
    ensures !ok ==> parent != null ==> Links(parent, items)
    ensures ok ==>
      if newItem == items[which] || (newItem !in items && newItem != parent) then Links(parent, items[which := newItem])
      else if Shortens(items, which, newItem) then Links(parent, [newItem])
      else forall others: seq<Node> :: !Links(parent, others)
  {
    if which < 0 {
      return false;
    }
    var item := GetArrayItem(parent, which, items);
    ok := ReplaceItemViaPointer(parent, item, newItem, items, which);
  }
}
