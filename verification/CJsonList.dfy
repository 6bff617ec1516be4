/** cJSON's child lists: items linked by next and prev, where the first item's prev is the last item. */
module CJsonList {
  class Item {
    var next: Item?
    var prev: Item?
    var child: Item?

    constructor ()
      ensures next == null && prev == null && child == null
    {
      next, prev, child := null, null, null;
    }
  }

  ghost predicate Distinct(s: seq<Item>) {
    forall i, j :: 0 <= i < j < |s| ==> s[i] != s[j]
  }

  /** The chain from `first` is exactly `s`: next links go forward and end in null, prev links go back, and
      the first item's prev is the last item. */
  ghost predicate Chain(first: Item?, s: seq<Item>)
    reads s
  {
    && Distinct(s)
    && first == (if s == [] then null else s[0])
    && (forall i {:trigger NextOf(s, i)} :: 0 <= i < |s| ==> s[i].next == NextOf(s, i))
    && (forall i {:trigger PrevOf(s, i)} :: 0 <= i < |s| ==> s[i].prev == PrevOf(s, i))
  }

  ghost function NextOf(s: seq<Item>, i: nat): Item?
    requires i < |s|
  {
    if i + 1 < |s| then s[i + 1] else null
  }

  ghost function PrevOf(s: seq<Item>, i: nat): Item
    requires i < |s|
  {
    if i == 0 then s[|s| - 1] else s[i - 1]
  }

  /** get_array_item: the item at a position, or null behind the end. */
  method GetItem(parent: Item, index: nat, ghost s: seq<Item>) returns (item: Item?)
    requires Chain(parent.child, s)
    ensures item == if index < |s| then s[index] else null
  {
    item := parent.child;
    var left := index;
    ghost var at := 0;
    while item != null && left > 0
      invariant 0 <= at <= |s| && at + left == index
      invariant item == if at < |s| then s[at] else null
      decreases left
    {
      left := left - 1;
      assert item.next == NextOf(s, at);
      item := item.next;
      at := at + 1;
    }
  }

  /** The item, if there is one. */
  ghost function Some(item: Item?): set<Item> {
    if item == null then {} else {item}
  }

  /** add_item_to_array. In a non-empty list the new item's own next link is left alone, so the list grows by
      that item exactly when the item is not linked to anything. */
  method Append(parent: Item, item: Item?, ghost s: seq<Item>) returns (ok: bool)
    requires Chain(parent.child, s) && parent !in s && item !in s
    modifies parent`child, s`next, s`prev, Some(item)`next, Some(item)`prev
    ensures ok <==> item != null && item != parent
    ensures ok ==> (Chain(parent.child, s + [item]) <==> s == [] || old(item.next) == null)
    ensures !ok ==> Chain(parent.child, s)
  {
    if item == null || parent == item {
      return false;
    }
    var child := parent.child;
    if child == null {
      parent.child := item;
      item.prev := item;
      item.next := null;
    } else {
      assert child == s[0] && child.prev == PrevOf(s, 0) == s[|s| - 1];
      if child.prev != null {
        child.prev.next := item;
        item.prev := child.prev;
        parent.child.prev := item;
      }
      ghost var t := s + [item];
      assert t[|s|] == item && item.next == old(item.next) && NextOf(t, |s|) == null && PrevOf(t, |s|) == s[|s| - 1];
      forall k | 0 <= k < |s| ensures t[k].next == NextOf(t, k) && t[k].prev == PrevOf(t, k) {
        assert t[k] == s[k] && old(s[k].next) == NextOf(s, k) && old(s[k].prev) == PrevOf(s, k);
      }
    }
    return true;
  }

  // Each rewiring below is stated twice: as the new links of every item, position by position, and as the
  // chain of the new sequence; the lemmas between the two do not mention the heap.

  // ----- detach -----

  ghost function Removed(s: seq<Item>, i: nat): seq<Item>
    requires i < |s|
  {
    s[..i] + s[i + 1..]
  }

  ghost function DetachedNext(s: seq<Item>, i: nat, k: nat): Item?
    requires i < |s| && k < |s|
  {
    if k == i then null else if k + 1 == i then NextOf(s, i) else NextOf(s, k)
  }

  ghost function DetachedPrev(s: seq<Item>, i: nat, k: nat): Item?
    requires i < |s| && k < |s|
  {
    if k == i then null
    else if k == i + 1 || (k == 0 && i + 1 == |s|) then PrevOf(s, i)
    else PrevOf(s, k)
  }

  lemma RemovedDistinct(s: seq<Item>, i: nat)
    requires Distinct(s) && i < |s|
    ensures Distinct(Removed(s, i)) && |Removed(s, i)| == |s| - 1
    ensures |s| > 1 ==> Removed(s, i)[0] == if i > 0 then s[0] else s[1]
  {
  }

  lemma DetachedLinks(s: seq<Item>, i: nat, k: nat)
    requires i < |s| && k < |s| - 1
    ensures
      var t, j := Removed(s, i), if k < i then k else k + 1;
      t[k] == s[j] && NextOf(t, k) == DetachedNext(s, i, j) && PrevOf(t, k) == DetachedPrev(s, i, j)
  {
  }

  /** cJSON_DetachItemViaPointer of the item at position i. */
  method Detach(parent: Item, item: Item, ghost s: seq<Item>, ghost i: nat)
    requires Chain(parent.child, s) && parent !in s && i < |s| && item == s[i]
    modifies parent`child, s`next, s`prev
    ensures Chain(parent.child, Removed(s, i)) && item.next == null && item.prev == null
  {
    UnlinkItem(parent, item, s, i);
    ghost var t := Removed(s, i);
    RemovedDistinct(s, i);
    assert item.next == DetachedNext(s, i, i) && item.prev == DetachedPrev(s, i, i);
    forall k | 0 <= k < |t| ensures t[k].next == NextOf(t, k) && t[k].prev == PrevOf(t, k) {
      DetachedLinks(s, i, k);
    }
  }

  method UnlinkItem(parent: Item, item: Item, ghost s: seq<Item>, ghost i: nat)
    requires Chain(parent.child, s) && parent !in s && i < |s| && item == s[i]
    modifies parent`child, s`next, s`prev
    ensures parent.child == if i > 0 then s[0] else if |s| > 1 then s[1] else null
    ensures forall k {:trigger DetachedNext(s, i, k)} :: 0 <= k < |s| ==> s[k].next == DetachedNext(s, i, k)
    ensures forall k {:trigger DetachedPrev(s, i, k)} :: 0 <= k < |s| ==> s[k].prev == DetachedPrev(s, i, k)
  {
    assert item.next == NextOf(s, i) && item.prev == PrevOf(s, i);
    if item != parent.child {
      item.prev.next := item.next;
    }
    if item.next != null {
      item.next.prev := item.prev;
    }
    if item == parent.child {
      parent.child := item.next;
    } else if item.next == null {
      parent.child.prev := item.prev;
    }
    item.prev := null;
    item.next := null;
  }

  /** cJSON_DetachItemFromArray. */
  method DetachAt(parent: Item, which: int, ghost s: seq<Item>) returns (item: Item?)
    requires Chain(parent.child, s) && parent !in s
    modifies parent`child, s`next, s`prev
    ensures item == if 0 <= which < |s| then s[which] else null
    ensures Chain(parent.child, if 0 <= which < |s| then Removed(s, which) else s)
    ensures item != null ==> item.next == null && item.prev == null
  {
    if which < 0 {
      return null;
    }
    item := GetItem(parent, which, s);
    if item != null {
      Detach(parent, item, s, which);
    }
  }

  // ----- insert -----

  ghost function Inserted(s: seq<Item>, i: nat, item: Item): seq<Item>
    requires i <= |s|
  {
    s[..i] + [item] + s[i..]
  }

  ghost function InsertedNext(s: seq<Item>, i: nat, item: Item, k: nat): Item?
    requires k < |s|
  {
    if k + 1 == i then item else NextOf(s, k)
  }

  ghost function InsertedPrev(s: seq<Item>, i: nat, item: Item, k: nat): Item?
    requires k < |s|
  {
    if k == i then item else PrevOf(s, k)
  }

  lemma InsertedDistinct(s: seq<Item>, i: nat, item: Item)
    requires Distinct(s) && item !in s && i < |s|
    ensures Distinct(Inserted(s, i, item)) && Inserted(s, i, item)[0] == if i == 0 then item else s[0]
  {
  }

  lemma InsertedLinks(s: seq<Item>, i: nat, item: Item, k: nat)
    requires i < |s| && k <= |s|
    ensures
      var t := Inserted(s, i, item);
      if k == i then t[k] == item && NextOf(t, k) == s[i] && PrevOf(t, k) == PrevOf(s, i)
      else
        var j := if k < i then k else k - 1;
        t[k] == s[j] && NextOf(t, k) == InsertedNext(s, i, item, j) && PrevOf(t, k) == InsertedPrev(s, i, item, j)
  {
  }

  /** cJSON_InsertItemInArray: a position behind the end appends, with the same exception for a linked item. */
  method Insert(parent: Item, which: int, item: Item?, ghost s: seq<Item>) returns (ok: bool)
    requires Chain(parent.child, s) && parent !in s && item !in s
    requires 0 <= which < |s| ==> item != null && item != parent
    modifies parent`child, s`next, s`prev, Some(item)`next, Some(item)`prev
    ensures ok <==> which >= 0 && item != null && item != parent
    ensures !ok ==> Chain(parent.child, s)
    ensures ok ==>
      (Chain(parent.child, Inserted(s, if which < |s| then which else |s|, item)) <==>
       which < |s| || s == [] || old(item.next) == null)
  {
    if which < 0 {
      return false;
    }
    var after := GetItem(parent, which, s);
    if after == null {
      ok := Append(parent, item, s);
      assert ok ==> Inserted(s, |s|, item) == s + [item];
      return;
    }
    LinkBefore(parent, after, item, s, which);
    ghost var t := Inserted(s, which, item);
    InsertedDistinct(s, which, item);
    forall k | 0 <= k < |t| ensures t[k].next == NextOf(t, k) && t[k].prev == PrevOf(t, k) {
      InsertedLinks(s, which, item, k);
    }
    return true;
  }

  method LinkBefore(parent: Item, after: Item, item: Item, ghost s: seq<Item>, ghost i: nat)
    requires Chain(parent.child, s) && parent !in s && item !in s && item != parent && i < |s| && after == s[i]
    modifies parent`child, s`next, s`prev, item`next, item`prev
    ensures parent.child == if i > 0 then s[0] else item
    ensures item.next == s[i] && item.prev == PrevOf(s, i)
    ensures forall k {:trigger InsertedNext(s, i, item, k)} :: 0 <= k < |s| ==> s[k].next == InsertedNext(s, i, item, k)
    ensures forall k {:trigger InsertedPrev(s, i, item, k)} :: 0 <= k < |s| ==> s[k].prev == InsertedPrev(s, i, item, k)
  {
    assert after.next == NextOf(s, i) && after.prev == PrevOf(s, i);
    item.next := after;
    item.prev := after.prev;
    after.prev := item;
    if after == parent.child {
      parent.child := item;
    } else {
      item.prev.next := item;
    }
  }

  // ----- replace -----

  ghost function ReplacedPrev(s: seq<Item>, i: nat, item: Item, k: nat): Item?
    requires k < |s|
  {
    if k == i + 1 || (k == 0 && i + 1 == |s|) then item else PrevOf(s, k)
  }

  lemma ReplacedLinks(s: seq<Item>, i: nat, item: Item, k: nat)
    requires i < |s| && k < |s|
    ensures NextOf(s[i := item], k) == InsertedNext(s, i, item, k)
    ensures PrevOf(s[i := item], k) == ReplacedPrev(s, i, item, k)
  {
  }

  /** cJSON_ReplaceItemViaPointer of the item at position i. `deleted` is what is handed to cJSON_Delete: the replaced
      item, cut off from the list, so that none of its former neighbours is deleted with it. */
  method Replace(parent: Item, item: Item?, replacement: Item?, ghost s: seq<Item>, ghost i: nat)
    returns (ok: bool, deleted: Item?)
    requires Chain(parent.child, s) && parent !in s && (item != null ==> i < |s| && item == s[i])
    requires item != null && replacement != null ==> replacement != parent && (replacement == item || replacement !in s)
    modifies parent`child, s`next, s`prev, Some(replacement)`next, Some(replacement)`prev
    ensures ok <==> item != null && replacement != null
    ensures Chain(parent.child, if ok then s[i := replacement] else s)
    ensures deleted == if ok && replacement != item then item else null
    ensures deleted != null ==> deleted.next == null && deleted.prev == null && deleted !in s[i := replacement]
  {
    ok, deleted := false, null;
    if item == null || replacement == null {
      return;
    }
    ok := true;
    if replacement == item {
      assert s[i := replacement] == s;
      return;
    }
    LinkInstead(parent, item, replacement, s, i);
    ghost var t := s[i := replacement];
    forall k | 0 <= k < |t| ensures t[k].next == NextOf(t, k) && t[k].prev == PrevOf(t, k) {
      ReplacedLinks(s, i, replacement, k);
    }
    deleted := item;
  }

  method LinkInstead(parent: Item, item: Item, replacement: Item, ghost s: seq<Item>, ghost i: nat)
    requires Chain(parent.child, s) && parent !in s && i < |s| && item == s[i]
    requires replacement != parent && replacement !in s
    modifies parent`child, s`next, s`prev, replacement`next, replacement`prev
    ensures parent.child == if i > 0 then s[0] else replacement
    ensures item.next == null && item.prev == null && replacement.next == NextOf(s, i)
    ensures replacement.prev == if |s| == 1 then replacement else PrevOf(s, i)
    ensures forall k {:trigger InsertedNext(s, i, replacement, k)} :: 0 <= k < |s| && k != i ==>
      s[k].next == InsertedNext(s, i, replacement, k)
    ensures forall k {:trigger ReplacedPrev(s, i, replacement, k)} :: 0 <= k < |s| && k != i ==>
      s[k].prev == ReplacedPrev(s, i, replacement, k)
  {
    assert item.next == NextOf(s, i) && item.prev == PrevOf(s, i);
    replacement.next := item.next;
    replacement.prev := item.prev;
    if replacement.next != null {
      replacement.next.prev := replacement;
    }
    if parent.child == item {
      if parent.child.prev == parent.child {
        replacement.prev := replacement;
      }
      parent.child := replacement;
    } else {
      if replacement.prev != null {
        replacement.prev.next := replacement;
      }
      if replacement.next == null {
        parent.child.prev := replacement;
      }
    }
    item.next := null;
    item.prev := null;
  }

  /** cJSON_ReplaceItemInArray. */
  method ReplaceAt(parent: Item, which: int, replacement: Item?, ghost s: seq<Item>) returns (ok: bool, deleted: Item?)
    requires Chain(parent.child, s) && parent !in s
    requires 0 <= which < |s| && replacement != null ==>
      replacement != parent && (replacement == s[which] || replacement !in s)
    modifies parent`child, s`next, s`prev, Some(replacement)`next, Some(replacement)`prev
    ensures ok <==> 0 <= which < |s| && replacement != null
    ensures Chain(parent.child, if ok then s[which := replacement] else s)
    ensures deleted == if ok && replacement != s[which] then s[which] else null
    ensures deleted != null ==> deleted.next == null && deleted.prev == null && deleted !in s[which := replacement]
  {
    if which < 0 {
      return false, null;
    }
    var item := GetItem(parent, which, s);
    ok, deleted := Replace(parent, item, replacement, s, which);
  }

  /** Taking an item out and putting it back at its position, through the links, restores the list. */
  method DetachAndInsert(parent: Item, which: nat, ghost s: seq<Item>)
    requires Chain(parent.child, s) && parent !in s && which < |s|
    modifies parent`child, s`next, s`prev
    ensures Chain(parent.child, s)
  {
    var item := DetachAt(parent, which, s);
    RemovedAndInserted(s, which);
    var ok := Insert(parent, which, item, Removed(s, which));
  }

  lemma RemovedAndInserted(s: seq<Item>, i: nat)
    requires Distinct(s) && i < |s|
    ensures |Removed(s, i)| == |s| - 1 && s[i] !in Removed(s, i)
    ensures Inserted(Removed(s, i), i, s[i]) == s
  {
  }
}
