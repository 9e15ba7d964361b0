/** The doubly linked lists of virgoos/src/include/queues.h:31-115: the pointer operations, proved against sequences. */
module Lists {
  type Compare = (nat, nat) -> int

  /** list_t; the datum is an address. */
  class ListEntry {
    var datum: nat
    var prev: ListEntry?
    var next: ListEntry?

    constructor (datum: nat)
      ensures this.datum == datum
    {
      this.datum := datum;
    }
  }

  /** Where list_sorted_insert puts x: before the first entry that does not compare below it. */
  function SlotOf(data: seq<nat>, x: nat, cmp: Compare): (p: nat)
    ensures p <= |data| && (forall i :: 0 <= i < p ==> cmp(data[i], x) < 0) && (p < |data| ==> cmp(data[p], x) >= 0)
  {
    if data == [] || cmp(data[0], x) >= 0 then 0 else 1 + SlotOf(data[1..], x, cmp)
  }

  lemma SlotUnique(data: seq<nat>, x: nat, cmp: Compare, p: nat)
    requires p <= |data| && (forall i :: 0 <= i < p ==> cmp(data[i], x) < 0) && (p < |data| ==> cmp(data[p], x) >= 0)
    ensures SlotOf(data, x, cmp) == p
  {
  }

  /** A comparison that orders. */
  ghost predicate Orders(cmp: Compare) {
    && (forall a, b :: cmp(a, b) >= 0 ==> cmp(b, a) <= 0)
    && (forall a, b, c :: cmp(a, b) <= 0 && cmp(b, c) <= 0 ==> cmp(a, c) <= 0)
  }

  ghost predicate SortedBy(data: seq<nat>, cmp: Compare) {
    forall i, j :: 0 <= i < j < |data| ==> cmp(data[i], data[j]) <= 0
  }

  lemma Chain(cmp: Compare, a: nat, b: nat, c: nat)
    requires Orders(cmp)
    ensures cmp(a, b) >= 0 ==> cmp(b, a) <= 0
    ensures cmp(a, b) <= 0 && cmp(b, c) <= 0 ==> cmp(a, c) <= 0
  {
  }

  /** A sorted insert keeps a list sorted if its comparison orders. */
  lemma SortedInsertKeeps(data: seq<nat>, x: nat, cmp: Compare)
    requires Orders(cmp) && SortedBy(data, cmp)
    ensures SortedBy(data[..SlotOf(data, x, cmp)] + [x] + data[SlotOf(data, x, cmp)..], cmp)
  {
    hide Orders;
    var p := SlotOf(data, x, cmp);
    forall i | p <= i < |data|
      ensures cmp(x, data[i]) <= 0
    {
      Chain(cmp, data[p], x, x);
      Chain(cmp, x, data[p], data[i]);
    }
  }

  /** A pair of hd and tl. */
  class List {
    var hd: ListEntry?
    var tl: ListEntry?
    ghost var elems: seq<ListEntry>

    ghost predicate LinkedAt(i: nat)
      requires i < |elems|
      reads this, elems
    {
      && elems[i].prev == (if i == 0 then null else elems[i - 1])
      && elems[i].next == (if i + 1 == |elems| then null else elems[i + 1])
    }

    ghost predicate Valid()
      reads this, elems
    {
      && hd == (if elems == [] then null else elems[0])
      && tl == (if elems == [] then null else elems[|elems| - 1])
      && (forall i, j :: 0 <= i < j < |elems| ==> elems[i] != elems[j])
      && (forall i :: 0 <= i < |elems| ==> LinkedAt(i))
    }

    ghost function Data(): (data: seq<nat>)
      reads this, elems
      ensures |data| == |elems| && forall i :: 0 <= i < |elems| ==> data[i] == elems[i].datum
    {
      seq(|elems|, i requires 0 <= i < |elems| reads this, elems => elems[i].datum)
    }

    constructor ()
      ensures Valid() && elems == []
    {
      hd, tl, elems := null, null, [];
    }

    /** list_insert: appends. */
    method Insert(entry: ListEntry)
      requires Valid() && entry !in elems
      modifies this, entry`prev, entry`next, elems`next
      ensures Valid() && elems == old(elems) + [entry]
    {
      ghost var es := elems;
      assert es != [] ==> LinkedAt(|es| - 1);
      entry.prev, entry.next := null, null;
      if hd == null {
        tl := entry;
        hd := entry;
      } else {
        entry.prev := tl;
        tl.next := entry;
        tl := entry;
      }
      elems := es + [entry];
      forall j | 0 <= j < |elems|
        ensures LinkedAt(j)
      {
        if j < |es| {
          assert old(LinkedAt(j));
        }
      }
    }

    /** The insertion before entry p of list_sorted_insert. */
    method InsertBefore(entry: ListEntry, p: ListEntry, ghost k: nat)
      requires Valid() && entry !in elems && k < |elems| && p == elems[k]
      modifies this`hd, this`elems, entry`prev, entry`next, elems`next, elems`prev
      ensures Valid() && elems == old(elems)[..k] + [entry] + old(elems)[k..]
    {
      ghost var es := elems;
      assert LinkedAt(k) && (k > 0 ==> LinkedAt(k - 1));
      entry.prev := p.prev;
      entry.next := p;
      p.prev := entry;
      if entry.prev == null {
        hd := entry;
      } else {
        entry.prev.next := entry;
      }
      elems := es[..k] + [entry] + es[k..];
      forall j | 0 <= j < |elems|
        ensures LinkedAt(j)
      {
        if j < k {
          assert elems[j] == es[j] && old(LinkedAt(j));
        } else if j > k {
          assert elems[j] == es[j - 1] && old(LinkedAt(j - 1));
        }
      }
    }

    /** list_sorted_insert. */
    method SortedInsert(entry: ListEntry, cmp: Compare)
      requires Valid() && entry !in elems
      modifies this, entry`prev, entry`next, elems`next, elems`prev
      ensures Valid()
      ensures var k := SlotOf(old(Data()), old(entry.datum), cmp);
        elems == old(elems)[..k] + [entry] + old(elems)[k..]
    {
      ghost var es, k := elems, SlotOf(Data(), entry.datum, cmp);
      assert hd == null <==> es == [];
      hide Valid, SlotOf, Data;
      AtTheEnd(es, entry);
      if hd == null {
        Insert(entry);
        return;
      }
      var p := FindSlot(entry.datum, cmp);
      if p == null {
        Insert(entry);
      } else {
        InsertBefore(entry, p, k);
      }
    }

    static lemma AtTheEnd(es: seq<ListEntry>, entry: ListEntry)
      ensures es[..|es|] + [entry] + es[|es|..] == es + [entry]
    {
    }

    method FindSlot(x: nat, cmp: Compare) returns (p: ListEntry?)
      requires Valid()
      ensures var k := SlotOf(Data(), x, cmp); p == if k < |elems| then elems[k] else null
    {
      p := hd;
      ghost var i := 0;
      while p != null && cmp(p.datum, x) < 0
        invariant i <= |elems| && p == (if i < |elems| then elems[i] else null)
        invariant forall j :: 0 <= j < i ==> cmp(Data()[j], x) < 0
        decreases |elems| - i
      {
        assert LinkedAt(i);
        p := p.next;
        i := i + 1;
      }
      SlotUnique(Data(), x, cmp, i);
    }

    /** list_delete.  The entry itself keeps its links, so a loop may still step from it to its successor. */
    method Delete(entry: ListEntry, ghost k: nat)
      requires Valid() && k < |elems| && entry == elems[k]
      modifies this, elems`next, elems`prev
      ensures Valid() && elems == old(elems)[..k] + old(elems)[k + 1..]
      ensures entry.next == old(entry.next) == if k < |elems| then elems[k] else null
    {
      ghost var es := elems;
      assert LinkedAt(k) && (k > 0 ==> LinkedAt(k - 1)) && (k + 1 < |es| ==> LinkedAt(k + 1));
      if hd == entry && tl == entry {
        hd, tl := null, null;
      } else {
        if entry.prev != null {
          entry.prev.next := entry.next;
        } else {
          hd := entry.next;
        }
        if entry.next != null {
          entry.next.prev := entry.prev;
        } else {
          tl := entry.prev;
        }
      }
      elems := es[..k] + es[k + 1..];
      forall j | 0 <= j < |elems|
        ensures LinkedAt(j)
      {
        if j < k {
          assert elems[j] == es[j] && old(LinkedAt(j));
        } else {
          assert elems[j] == es[j + 1] && old(LinkedAt(j + 1));
        }
      }
    }

    /** list_find with cmp_list_entries: the first entry that holds the datum. */
    method Find(datum: nat) returns (p: ListEntry?)
      requires Valid()
      ensures p == null <==> datum !in Data()
      ensures p != null ==> exists k :: 0 <= k < |elems| && p == elems[k] && p.datum == datum && datum !in Data()[..k]
    {
      p := hd;
      ghost var i := 0;
      while p != null
        invariant i <= |elems| && p == (if i < |elems| then elems[i] else null)
        invariant datum !in Data()[..i]
        decreases |elems| - i
      {
        assert LinkedAt(i);
        if p.datum == datum {
          assert Data()[i] == datum;
          return;
        }
        assert Data()[..i + 1] == Data()[..i] + [Data()[i]];
        p := p.next;
        i := i + 1;
      }
    }
  }
}
