/**
 * The order `matchChannel` visits a post's video attachments in: sorted by each id's index in
 * `attachmentOrder`, with `indexOf`'s -1 for ids it does not list (they come first). The array
 * sort is stable, so ids with the same index keep their relative order.
 */
module Ordering {

  /** `order.indexOf(id)`: the first position of `id`, or -1. */
  function IndexOf(order: seq<string>, id: string): int {
    if order == [] then -1
    else if order[0] == id then 0
    else var r := IndexOf(order[1..], id); if r == -1 then -1 else r + 1
  }

  /** `indexOf` finds the first occurrence, and answers -1 exactly for an id not listed. */
  lemma {:induction false} IndexOfIsFirst(order: seq<string>, id: string)
    ensures -1 <= IndexOf(order, id) < |order|
    ensures IndexOf(order, id) == -1 <==> id !in order
    ensures IndexOf(order, id) >= 0 ==>
              order[IndexOf(order, id)] == id && forall k :: 0 <= k < IndexOf(order, id) ==> order[k] != id
  {
    if order != [] && order[0] != id {
      IndexOfIsFirst(order[1..], id);
      assert order == [order[0]] + order[1..];
    }
  }

  predicate SortedBy(ids: seq<string>, order: seq<string>) {
    forall i, j :: 0 <= i < j < |ids| ==> IndexOf(order, ids[i]) <= IndexOf(order, ids[j])
  }

  /** Puts `id` before the first element whose index is not smaller. */
  function Insert(id: string, ids: seq<string>, order: seq<string>): seq<string> {
    if ids == [] || IndexOf(order, ids[0]) >= IndexOf(order, id) then [id] + ids
    else [ids[0]] + Insert(id, ids[1..], order)
  }

  /** `ids.sort((a, b) => order.indexOf(a) - order.indexOf(b))`, as a stable insertion sort. */
  function SortByOrder(ids: seq<string>, order: seq<string>): seq<string> {
    if ids == [] then [] else Insert(ids[0], SortByOrder(ids[1..], order), order)
  }

  /** The elements of `ids` whose index is `key`, in their order. */
  function WithIndex(ids: seq<string>, order: seq<string>, key: int): seq<string> {
    if ids == [] then []
    else (if IndexOf(order, ids[0]) == key then [ids[0]] else []) + WithIndex(ids[1..], order, key)
  }

  lemma {:induction false} InsertPermutes(id: string, ids: seq<string>, order: seq<string>)
    ensures multiset(Insert(id, ids, order)) == multiset(ids) + multiset{id}
  {
    if ids != [] && IndexOf(order, ids[0]) < IndexOf(order, id) {
      InsertPermutes(id, ids[1..], order);
      assert ids == [ids[0]] + ids[1..];
    }
  }

  lemma ConsSorted(head: string, rest: seq<string>, order: seq<string>)
    requires SortedBy(rest, order)
    requires forall k :: 0 <= k < |rest| ==> IndexOf(order, head) <= IndexOf(order, rest[k])
    ensures SortedBy([head] + rest, order)
  {
    var s := [head] + rest;
    forall i, j | 0 <= i < j < |s| ensures IndexOf(order, s[i]) <= IndexOf(order, s[j]) {
      assert s[j] == rest[j - 1];
      if i > 0 {
        assert s[i] == rest[i - 1];
      }
    }
  }

  lemma {:induction false} InsertSorted(id: string, ids: seq<string>, order: seq<string>)
    requires SortedBy(ids, order)
    ensures SortedBy(Insert(id, ids, order), order)
  {
    if ids == [] {
      assert Insert(id, ids, order) == [id];
    } else if IndexOf(order, ids[0]) >= IndexOf(order, id) {
      forall k | 0 <= k < |ids| ensures IndexOf(order, id) <= IndexOf(order, ids[k]) {
        assert IndexOf(order, ids[0]) <= IndexOf(order, ids[k]);
      }
      ConsSorted(id, ids, order);
    } else {
      var head, tail := ids[0], ids[1..];
      assert SortedBy(tail, order);
      InsertSorted(id, tail, order);
      InsertPermutes(id, tail, order);
      var rest := Insert(id, tail, order);
      forall k | 0 <= k < |rest| ensures IndexOf(order, head) <= IndexOf(order, rest[k]) {
        assert rest[k] in multiset(tail) + multiset{id};
        if rest[k] != id {
          assert rest[k] in tail;
          var m :| 0 <= m < |tail| && tail[m] == rest[k];
          assert ids[m + 1] == rest[k];
        }
      }
      ConsSorted(head, rest, order);
    }
  }

  lemma {:induction false} InsertWithIndex(id: string, ids: seq<string>, order: seq<string>, key: int)
    ensures WithIndex(Insert(id, ids, order), order, key)
      == (if IndexOf(order, id) == key then [id] else []) + WithIndex(ids, order, key)
  {
    if ids == [] || IndexOf(order, ids[0]) >= IndexOf(order, id) {
      assert ([id] + ids)[1..] == ids;
    } else {
      var rest := Insert(id, ids[1..], order);
      InsertWithIndex(id, ids[1..], order, key);
      assert ([ids[0]] + rest)[1..] == rest;
      assert ids == [ids[0]] + ids[1..];
    }
  }

  /** The visiting order is sorted by index and is a permutation of the attachment list. */
  lemma {:induction false} SortByOrderSorts(ids: seq<string>, order: seq<string>)
    ensures SortedBy(SortByOrder(ids, order), order)
    ensures multiset(SortByOrder(ids, order)) == multiset(ids)
  {
    if ids != [] {
      SortByOrderSorts(ids[1..], order);
      InsertSorted(ids[0], SortByOrder(ids[1..], order), order);
      InsertPermutes(ids[0], SortByOrder(ids[1..], order), order);
      assert ids == [ids[0]] + ids[1..];
    }
  }

  /** The sort is stable: ids sharing an index keep their relative order. */
  lemma {:induction false} SortByOrderIsStable(ids: seq<string>, order: seq<string>, key: int)
    ensures WithIndex(SortByOrder(ids, order), order, key) == WithIndex(ids, order, key)
  {
    if ids != [] {
      SortByOrderIsStable(ids[1..], order, key);
      InsertWithIndex(ids[0], SortByOrder(ids[1..], order), order, key);
    }
  }

  lemma SortByOrderLength(ids: seq<string>, order: seq<string>)
    ensures |SortByOrder(ids, order)| == |ids|
  {
    SortByOrderSorts(ids, order);
    assert |multiset(SortByOrder(ids, order))| == |multiset(ids)|;
  }
}
