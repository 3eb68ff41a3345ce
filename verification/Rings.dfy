/**
 The intrusive circular lists of `list.h`: a head and its entries, linked both ways. Every
 operation is the matching operation on the sequence of entries.
 */
module Rings {
  class ListHead {
    var next: ListHead?
    var prev: ListHead?

    /** Zeroed memory, as `calloc` leaves it. */
    constructor ()
      ensures next == null && prev == null
    {
      next, prev := null, null;
    }
  }

  function Succ(n: nat, i: nat): (j: nat)
    requires i < n
    ensures j < n
  {
    if i + 1 < n then i + 1 else 0
  }

  ghost predicate Joined(all: seq<ListHead>, i: nat)
    requires i < |all|
    reads all
  {
    all[i].next == all[Succ(|all|, i)] && all[Succ(|all|, i)].prev == all[i]
  }

  ghost predicate Distinct(all: seq<ListHead>) {
    forall i, j :: 0 <= i < j < |all| ==> all[i] != all[j]
  }

  /** The circle of nodes `all`, from the head around. */
  ghost predicate Circle(all: seq<ListHead>)
    reads all
  {
    Distinct(all) && forall i :: 0 <= i < |all| ==> Joined(all, i)
  }

  /** The list with this head has these entries. */
  ghost predicate Ring(head: ListHead, entries: seq<ListHead>)
    reads head, entries
  {
    Circle([head] + entries)
  }

  /** Two lists without a node in common. */
  ghost predicate Apart(head: ListHead, entries: seq<ListHead>, other: ListHead, others: seq<ListHead>) {
    && head != other && head !in others && other !in entries
    && forall i, j :: 0 <= i < |entries| && 0 <= j < |others| ==> entries[i] != others[j]
  }

  /** The head is no entry, and no entry occurs twice. */
  lemma EntriesDistinct(head: ListHead, entries: seq<ListHead>)
    requires Distinct([head] + entries)
    ensures Distinct(entries) && head !in entries
  {
    var all := [head] + entries;
    assert forall k :: 0 <= k < |entries| ==> entries[k] == all[k + 1];
    forall k | 0 <= k < |entries| ensures entries[k] != head {
      assert all[0] != all[k + 1];
    }
    forall i, j | 0 <= i < j < |entries| ensures entries[i] != entries[j] {
      assert all[i + 1] != all[j + 1];
    }
  }

  /** Taking an entry out leaves a list that does not hold it. */
  lemma TakenOut(head: ListHead, entries: seq<ListHead>, i: nat)
    requires Distinct([head] + entries) && i < |entries|
    ensures entries[i] != head && entries[i] !in Without(entries, i) && head !in entries
    ensures forall n :: n in Without(entries, i) ==> n in entries
  {
    EntriesDistinct(head, entries);
  }

  method InitListHead(list: ListHead)
    modifies list
    ensures Ring(list, [])
  {
    list.next, list.prev := list, list;
    assert Joined([list] + [], 0);
  }

  /** `__list_add` between two neighbours: the place after position `i` of the circle. */
  method AddBetween(node: ListHead, prev: ListHead, next: ListHead, ghost all: seq<ListHead>, ghost i: nat)
    requires Circle(all) && node !in all && i < |all| && prev == all[i] && next == all[Succ(|all|, i)]
    modifies node, prev, next
    ensures Circle(all[..i + 1] + [node] + all[i + 1..])
  {
    assert Joined(all, i);
    next.prev := node;
    node.next := next;
    node.prev := prev;
    prev.next := node;
    ghost var now := all[..i + 1] + [node] + all[i + 1..];
    forall k | 0 <= k < |now| ensures Joined(now, k) {
      if k < i {
        assert old(Joined(all, k));
      } else if k > i + 1 {
        assert old(Joined(all, k - 1));
      }
    }
  }

  /** `list_add`: right behind the head. */
  method ListAdd(node: ListHead, head: ListHead, ghost entries: seq<ListHead>)
    requires Ring(head, entries) && node != head && node !in entries
    modifies node, head, entries
    ensures Ring(head, [node] + entries)
  {
    ghost var all := [head] + entries;
    assert Joined(all, 0);
    AddBetween(node, head, head.next, all, 0);
    assert all[..1] + [node] + all[1..] == [head] + ([node] + entries);
  }

  /** `list_add_tail`: right before the head, at the end of the list. */
  method ListAddTail(node: ListHead, head: ListHead, ghost entries: seq<ListHead>)
    requires Ring(head, entries) && node != head && node !in entries
    modifies node, head, entries
    ensures Ring(head, entries + [node])
  {
    ghost var all := [head] + entries;
    assert Joined(all, |all| - 1);
    AddBetween(node, head.prev, head, all, |all| - 1);
    assert all[..|all|] + [node] + all[|all|..] == [head] + (entries + [node]);
  }

  function Without(entries: seq<ListHead>, i: nat): seq<ListHead>
    requires i < |entries|
  {
    entries[..i] + entries[i + 1..]
  }

  /** `list_del`: the neighbours are joined; the entry itself is left as it is. */
  method ListDel(entry: ListHead, ghost head: ListHead, ghost entries: seq<ListHead>, ghost i: nat)
    requires Ring(head, entries) && i < |entries| && entry == entries[i]
    modifies head, entries
    ensures Ring(head, Without(entries, i)) && entry.next == old(entry.next) && entry.prev == old(entry.prev)
  {
    ghost var all, now := [head] + entries, [head] + Without(entries, i);
    assert Joined(all, i) && Joined(all, i + 1);
    assert now == all[..i + 1] + all[i + 2..];
    assert (forall k :: 0 <= k <= i ==> now[k] == all[k]) && (forall k :: i < k < |now| ==> now[k] == all[k + 1]);
    var prev, next := entry.prev, entry.next;
    next.prev := prev;
    prev.next := next;
    forall k | 0 <= k < |now| ensures Joined(now, k) {
      if k < i {
        assert old(Joined(all, k));
      } else if k > i {
        assert old(Joined(all, k + 1));
      }
    }
  }

  /** `list_move` to the front of another list. */
  method ListMove(node: ListHead, head: ListHead, ghost entries: seq<ListHead>, ghost source: ListHead, ghost others: seq<ListHead>, ghost i: nat)
    requires Ring(source, others) && i < |others| && node == others[i]
    requires Ring(head, entries) && Apart(head, entries, source, others)
    modifies head, entries, source, others
    ensures Ring(source, Without(others, i)) && Ring(head, [node] + entries)
  {
    TakenOut(source, others, i);
    ListDel(node, source, others, i);
    ListAdd(node, head, entries);
  }

  /** `list_move` within one list: the entry comes to the front. */
  method ListMoveToFront(node: ListHead, head: ListHead, ghost entries: seq<ListHead>, ghost i: nat)
    requires Ring(head, entries) && i < |entries| && node == entries[i]
    modifies head, entries
    ensures Ring(head, [node] + Without(entries, i))
  {
    TakenOut(head, entries, i);
    ListDel(node, head, entries, i);
    ListAdd(node, head, Without(entries, i));
  }

  method ListEmpty(head: ListHead, ghost entries: seq<ListHead>) returns (r: bool)
    requires Ring(head, entries)
    ensures r <==> entries == []
  {
    ghost var all := [head] + entries;
    assert Joined(all, 0) && (entries != [] ==> all[1] != all[0]);
    r := head.next == head;
  }

  lemma SplicedDistinct(list: ListHead, added: seq<ListHead>, head: ListHead, entries: seq<ListHead>)
    requires Distinct([list] + added) && Distinct([head] + entries) && Apart(list, added, head, entries)
    ensures Distinct([head] + (added + entries)) && list !in added
  {
    EntriesDistinct(list, added);
    var a, b, now := [list] + added, [head] + entries, [head] + (added + entries);
    assert forall k :: 1 <= k <= |added| ==> now[k] == a[k];
    assert forall k :: |added| < k < |now| ==> now[k] == b[k - |added|];
    assert now[0] == b[0];
    forall i, j | 0 <= i < j < |now| ensures now[i] != now[j] {
      if i == 0 {
        assert j <= |added| ==> now[j] == added[j - 1];
        assert j > |added| ==> b[0] != b[j - |added|];
      } else if j <= |added| {
        assert a[i] != a[j];
      } else if i <= |added| {
        assert now[i] == added[i - 1] && now[j] == entries[j - |added| - 1];
      } else {
        assert b[i - |added|] != b[j - |added|];
      }
    }
  }

  /** `list_splice`: the entries of `list` come to the front of the other list. */
  method ListSplice(list: ListHead, head: ListHead, ghost added: seq<ListHead>, ghost entries: seq<ListHead>)
    requires Ring(list, added) && Ring(head, entries) && Apart(list, added, head, entries)
    modifies head, entries, added
    ensures Ring(head, added + entries)
  {
    var empty := ListEmpty(list, added);
    SplicedDistinct(list, added, head, entries);
    if empty {
      assert added + entries == entries;
      return;
    }
    ghost var a, b := [list] + added, [head] + entries;
    assert Joined(a, 0) && Joined(a, |a| - 1) && Joined(b, 0);
    var first, last, at := list.next, list.prev, head.next;
    first.prev := head;
    head.next := first;
    last.next := at;
    at.prev := last;
    ghost var now := [head] + (added + entries);
    assert forall k :: 1 <= k <= |added| ==> now[k] == a[k];
    assert forall k :: |added| < k < |now| ==> now[k] == b[k - |added|];
    forall k | 0 <= k < |now| ensures Joined(now, k) {
      if 0 < k < |added| {
        assert old(Joined(a, k));
      } else if k > |added| {
        assert old(Joined(b, k - |added|));
      }
    }
  }

  /** `list_splice_init`: the same, and the emptied list is a list again. */
  method ListSpliceInit(list: ListHead, head: ListHead, ghost added: seq<ListHead>, ghost entries: seq<ListHead>)
    requires Ring(list, added) && Ring(head, entries) && Apart(list, added, head, entries)
    modifies list, head, entries, added
    ensures Ring(head, added + entries) && Ring(list, [])
  {
    var empty := ListEmpty(list, added);
    SplicedDistinct(list, added, head, entries);
    if empty {
      assert added + entries == entries && added == [];
      return;
    }
    ListSplice(list, head, added, entries);
    InitListHead(list);
  }

  /** `list_for_each`: the entries in order. */
  method Walk(head: ListHead, ghost entries: seq<ListHead>) returns (visited: seq<ListHead>)
    requires Ring(head, entries)
    ensures visited == entries
  {
    ghost var all := [head] + entries;
    visited := [];
    assert Joined(all, 0);
    var pos := head.next;
    while pos != head
      invariant |visited| <= |entries| && visited == entries[..|visited|]
      invariant pos == all[Succ(|all|, |visited|)]
      decreases |entries| - |visited|
    {
      assert |visited| < |entries|;
      visited := visited + [pos];
      assert Joined(all, |visited|);
      pos := pos.next;
    }
    assert forall k :: 1 <= k < |all| ==> all[k] != all[0];
  }
}
