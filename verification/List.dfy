/** The circular doubly linked lists of list.h. */
module List {
  /** struct list_head. A poisoned link is null; entry is what list_entry gives for the node. */
  class ListHead<T> {
    var next: ListHead?<T>
    var prev: ListHead?<T>
    var entry: T

    constructor (e: T)
      ensures next == null && prev == null && entry == e
    {
      next, prev, entry := null, null, e;
    }
  }

  function After(i: nat, n: nat): nat { if i + 1 == n then 0 else i + 1 }

  /** The nodes are distinct and form one ring in this order; next and prev are inverse on it. */
  ghost predicate Ring<T>(s: seq<ListHead<T>>)
    reads s
  {
    && s != [] && (forall i, j | 0 <= i < j < |s| :: s[i] != s[j])
    && (forall i | 0 <= i < |s| :: s[i].next == s[After(i, |s|)])
    && (forall i | 0 <= i < |s| :: s[After(i, |s|)].prev == s[i])
  }

  lemma NextPrevInverse<T>(s: seq<ListHead<T>>, x: ListHead<T>)
    requires Ring(s) && x in s
    ensures x.next != null && x.prev != null && x.next in s && x.prev in s && x.next.prev == x && x.prev.next == x
  {
    var i :| 0 <= i < |s| && s[i] == x;
    var p := if i == 0 then |s| - 1 else i - 1;
    assert After(p, |s|) == i;
    assert s[After(i, |s|)].prev == s[i];
  }

  /** INIT_LIST_HEAD. */
  method InitListHead<T>(list: ListHead<T>)
    modifies list`next, list`prev
    ensures Ring([list])
  {
    list.next := list;
    list.prev := list;
  }

  function Inserted<T>(s: seq<T>, k: nat, x: T): (t: seq<T>)
    requires k < |s|
    ensures |t| == |s| + 1 && t[k + 1] == x
    ensures forall i | 0 <= i <= k :: t[i] == s[i]
    ensures forall i | k + 1 < i <= |s| :: t[i] == s[i - 1]
  {
    s[..k + 1] + [x] + s[k + 1..]
  }

  /** __list_add between two neighbours. */
  method AddBetween<T>(node: ListHead<T>, prev: ListHead<T>, next: ListHead<T>, ghost s: seq<ListHead<T>>, ghost k: nat)
    requires Ring(s) && node !in s && k < |s| && prev == s[k] && next == s[After(k, |s|)]
    modifies {node, prev, next}`next, {node, prev, next}`prev
    ensures Ring(Inserted(s, k, node))
  {
    hide Inserted;
    next.prev := node;
    node.next := next;
    node.prev := prev;
    prev.next := node;
    ghost var n, t := |s|, Inserted(s, k, node);
    forall i | 0 <= i <= n ensures t[i].next == t[After(i, n + 1)] && t[After(i, n + 1)].prev == t[i] {
      if i < k {
        assert After(i, n) == i + 1 == After(i, n + 1);
      } else if i == k {
        assert After(i, n + 1) == k + 1;
      } else if i == k + 1 {
        assert k + 1 < n ==> After(k, n) == k + 1;
      } else {
        assert i < n ==> After(i - 1, n) == i;
      }
    }
  }

  /** list_add: right behind the head. */
  method ListAdd<T>(node: ListHead<T>, head: ListHead<T>, ghost s: seq<ListHead<T>>)
    requires Ring(s) && s[0] == head && node !in s
    modifies node`next, node`prev, s`next, s`prev
    ensures Ring([head, node] + s[1..])
  {
    AddBetween(node, head, head.next, s, 0);
    assert Inserted(s, 0, node) == [head, node] + s[1..];
  }

  /** list_add_tail: right before the head. */
  method ListAddTail<T>(node: ListHead<T>, head: ListHead<T>, ghost s: seq<ListHead<T>>)
    requires Ring(s) && s[0] == head && node !in s
    modifies node`next, node`prev, s`next, s`prev
    ensures Ring(s + [node])
  {
    NextPrevInverse(s, head);
    assert s[After(|s| - 1, |s|)] == head;
    AddBetween(node, head.prev, head, s, |s| - 1);
    assert Inserted(s, |s| - 1, node) == s + [node];
  }

  function Removed<T>(s: seq<T>, k: nat): (t: seq<T>)
    requires k < |s|
    ensures |t| == |s| - 1
    ensures forall i | 0 <= i < k :: t[i] == s[i]
    ensures forall i | k <= i < |s| - 1 :: t[i] == s[i + 1]
  {
    s[..k] + s[k + 1..]
  }

  /** list_del: unlinks a node other than the head and poisons its links. */
  method ListDel<T>(entry: ListHead<T>, ghost s: seq<ListHead<T>>, ghost k: nat)
    requires Ring(s) && 0 < k < |s| && entry == s[k]
    modifies s`next, s`prev
    ensures Ring(Removed(s, k)) && entry.next == null && entry.prev == null
  {
    hide Removed;
    NextPrevInverse(s, entry);
    ghost var n, t := |s|, Removed(s, k);
    assert After(k - 1, n) == k;
    var prev, next := entry.prev, entry.next;
    next.prev := prev;
    prev.next := next;
    entry.next := null;
    entry.prev := null;
    forall i | 0 <= i < n - 1 ensures t[i].next == t[After(i, n - 1)] && t[After(i, n - 1)].prev == t[i] {
      if i + 1 < k {
        assert After(i, n) == i + 1 == After(i, n - 1);
      } else if i + 1 == k {
        assert k + 1 < n ==> After(i, n - 1) == k && After(k, n) == k + 1;
      } else {
        assert After(i + 1, n) == if i + 2 == n then 0 else i + 2;
      }
    }
  }

  /** list_empty. */
  method ListEmpty<T>(head: ListHead<T>, ghost s: seq<ListHead<T>>) returns (b: bool)
    requires Ring(s) && s[0] == head
    ensures b <==> |s| == 1
  {
    b := head.next == head;
    assert head.next == s[After(0, |s|)];
  }
}
