/**
 The kernel's doubly linked list, entries relinked in place, and the backward count process_reap does over one.
 */
module LinkedList {
  import opened Options

  class Entry {
    var value: nat
    var next: Entry?
    var prev: Entry?

    constructor (value: nat)
      ensures this.value == value && next == null && prev == null
    {
      this.value := value;
      next, prev := null, null;
    }
  }

  function Cut<T>(s: seq<T>, k: nat): seq<T>
    requires k < |s|
  {
    s[..k] + s[k + 1..]
  }

  lemma {:induction false} CutAt<T>(s: seq<T>, k: nat)
    requires k < |s|
    ensures |Cut(s, k)| == |s| - 1
    ensures forall i {:trigger Cut(s, k)[i]} | 0 <= i < |s| - 1 :: Cut(s, k)[i] == if i < k then s[i] else s[i + 1]
  {
  }

  /** What list_remove_by_index leaves; None where it goes on to delete the null entry of a list it just emptied.
      Index 0 and index 1 both mean the head: the count starts at one. */
  function RemovedAt<T>(s: seq<T>, index: nat): Option<seq<T>> {
    if s == [] then Some(s)
    else if index == |s| then (if index == 1 then None else Some(Cut(s, index - 1)))
    else if index == 0 then Some(Cut(s, 0))
    else if index < |s| then Some(Cut(s, index - 1))
    else Some(s)
  }

  /** Counting back from the entry at position k gives k+1, and removing at that index takes out exactly that entry,
      last or not; only in a list of one entry does it not. */
  lemma {:induction false} CountedRemoval<T>(s: seq<T>, k: nat)
    requires k < |s|
    ensures RemovedAt(s, k + 1) == Some(Cut(s, k)) <==> |s| >= 2
  {
  }

  class List {
    var head: Entry?
    var tail: Entry?
    var length: nat
    ghost var entries: seq<Entry>

    ghost predicate Valid()
      reads this, entries
    {
      length == |entries| &&
      (forall i, j | 0 <= i < j < |entries| :: entries[i] != entries[j]) &&
      head == (if entries == [] then null else entries[0]) &&
      tail == (if entries == [] then null else entries[|entries| - 1]) &&
      (forall i {:trigger entries[i].next} | 0 <= i < |entries| ::
        entries[i].next == if i + 1 < |entries| then entries[i + 1] else null) &&
      (forall i {:trigger entries[i].prev} | 0 <= i < |entries| ::
        entries[i].prev == if i > 0 then entries[i - 1] else null)
    }

    constructor ()
      ensures Valid() && entries == []
    {
      head, tail, length, entries := null, null, 0, [];
    }

    method Append(entry: Entry)
      requires Valid() && entry !in entries && entry.next == null && entry.prev == null
      modifies this, entry, entries
      ensures Valid() && entries == old(entries) + [entry]
      ensures forall e <- entries :: e.value == old(e.value)
    {
      if length == 0 {
        head := entry;
        tail := entry;
        length := 1;
        entries := [entry];
        return;
      }
      tail.next := entry;
      entry.prev := tail;
      tail := entry;
      length := length + 1;
      entries := entries + [entry];
    }

    method Find(item: nat) returns (found: Entry?, ghost k: nat)
      requires Valid()
      ensures found != null ==> k < |entries| && entries[k] == found && found.value == item
      ensures found == null ==> k == |entries|
      ensures forall i | 0 <= i < k :: entries[i].value != item
    {
      k := 0;
      if length == 0 {
        return null, 0;
      }
      found := head;
      while found != null
        invariant 0 <= k <= |entries| && found == if k < |entries| then entries[k] else null
        invariant forall i | 0 <= i < k :: entries[i].value != item
        decreases |entries| - k
      {
        if found.value == item {
          return;
        }
        k, found := k + 1, found.next;
      }
    }

    method Delete(entry: Entry, ghost k: nat)
      requires Valid() && k < |entries| && entries[k] == entry
      modifies this, entries
      ensures Valid() && entries == Cut(old(entries), k)
      ensures entry.next == null && entry.prev == null
      ensures forall e <- old(entries) :: e.value == old(e.value)
    {
      hide Cut;
      CutAt(entries, k);
      var prev, next := entry.prev, entry.next;
      if head == entry {
        head := next;
      }
      if tail == entry {
        tail := prev;
      }
      if next != null && prev != null {
        next.prev := prev;
        prev.next := next;
      } else {
        if next != null {
          next.prev := null;
        }
        if prev != null {
          prev.next := null;
        }
      }
      entry.next := null;
      entry.prev := null;
      length := length - 1;
      entries := Cut(entries, k);
    }

    method RemoveByIndex(index: nat)
      requires Valid() && RemovedAt(entries, index).Some?
      modifies this, entries
      ensures Valid() && RemovedAt(old(entries), index) == Some(entries)
      ensures forall e <- old(entries) :: e.value == old(e.value)
    {
      if length == 0 {
        return;
      }
      if index == length {
        Delete(tail, length - 1);
      }
      var entry := head;
      if index == 0 {
        Delete(entry, 0);
      } else {
        ghost var k := 0;
        for i := 1 to index
          invariant Valid() && k == i - 1 && k < |entries| && entry == entries[k]
          invariant entries == if index == |old(entries)| then Cut(old(entries), index - 1) else old(entries)
          invariant forall e <- old(entries) :: e.value == old(e.value)
        {
          if entry.next == null {
            return;
          }
          entry := entry.next;
          k := k + 1;
        }
        Delete(entry, k);
      }
    }

    method AppendAfter(before: Entry, after: Entry, ghost k: nat)
      requires Valid() && k < |entries| && entries[k] == before && after !in entries && after.next == null &&
        after.prev == null
      modifies this, after, entries
      ensures Valid() && entries == old(entries)[..k + 1] + [after] + old(entries)[k + 1..]
    {
      if before.next != null {
        after.next := before.next;
        before.next := after;
        after.prev := before;
        after.next.prev := after;
        length := length + 1;
        entries := entries[..k + 1] + [after] + entries[k + 1..];
      } else {
        Append(after);
      }
    }

    method AppendBefore(after: Entry, before: Entry, ghost k: nat)
      requires Valid() && k < |entries| && entries[k] == after && before !in entries && before.next == null &&
        before.prev == null
      modifies this, before, entries
      ensures Valid() && entries == old(entries)[..k] + [before] + old(entries)[k..]
    {
      if after.prev != null {
        before.prev := after.prev;
        before.next := after;
        after.prev := before;
        before.prev.next := before;
        length := length + 1;
      } else {
        head := before;
        after.prev := before;
        before.next := after;
        length := length + 1;
      }
      entries := entries[..k] + [before] + entries[k..];
    }

    /** process_reap's way of taking a process off the list: find it, count back to the head, remove at the count. */
    method RemoveCounted(item: nat)
      requires Valid() && (|entries| == 1 ==> entries[0].value != item)
      modifies this, entries
      ensures Valid()
      ensures (forall i | 0 <= i < |old(entries)| :: old(entries[i].value) != item) ==> entries == old(entries)
      ensures forall k | 0 <= k < |old(entries)| && old(entries[k].value) == item &&
        (forall i | 0 <= i < k :: old(entries[i].value) != item) ::
                entries == Cut(old(entries), k)
    {
      var entry, k := Find(item);
      if entry != null {
        var count := 0;
        while entry != null
          invariant 0 <= count <= k + 1
          invariant entry == if count <= k then entries[k - count] else null
          decreases k + 1 - count
        {
          entry := entry.prev;
          count := count + 1;
        }
        CountedRemoval(entries, k);
        RemoveByIndex(count);
      }
    }
  }
}
