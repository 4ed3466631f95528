/** The singly linked list of the linker, with a tail pointer and entries from an allocator. */
module LinkedLists {
  import opened Options

  class Entry<T> {
    var next: Entry?<T>
    const element: T

    constructor (n: Entry?<T>, e: T)
      ensures next == n && element == e
    {
      next, element := n, e;
    }
  }

  /** The elements of s on which p has the wanted value, in order. */
  function Filter<T>(s: seq<T>, p: T -> bool, wanted: bool): seq<T> {
    if s == [] then []
    else Filter(s[..|s| - 1], p, wanted) + (if p(s[|s| - 1]) == wanted then [s[|s| - 1]] else [])
  }

  /** The entries whose element p gives the wanted value, in order. */
  ghost function Picked<T>(s: seq<Entry<T>>, p: T -> bool, wanted: bool): seq<Entry<T>> {
    if s == [] then []
    else Picked(s[..|s| - 1], p, wanted) + (if p(s[|s| - 1].element) == wanted then [s[|s| - 1]] else [])
  }

  /** The elements of that answer, and no others. */
  lemma {:induction false} FilterHas<T>(s: seq<T>, p: T -> bool, wanted: bool)
    ensures forall x :: x in Filter(s, p, wanted) <==> x in s && p(x) == wanted
  {
    if s != [] {
      FilterHas(s[..|s| - 1], p, wanted);
      assert s == s[..|s| - 1] + [s[|s| - 1]];
    }
  }

  function Is<T(==)>(element: T): T -> bool { x => x == element }

  ghost function Elements<T>(entries: seq<Entry<T>>): (s: seq<T>)
    ensures |s| == |entries| && forall i :: 0 <= i < |s| ==> s[i] == entries[i].element
  {
    seq(|entries|, i requires 0 <= i < |entries| => entries[i].element)
  }

  ghost predicate NoDuplicates<T>(s: seq<T>) {
    forall i, j :: 0 <= i < j < |s| ==> s[i] != s[j]
  }

  class LinkedList<T(==)> {
    var head: Entry?<T>
    var tail: Entry?<T>
    /** The entries from head on, and those given back to the allocator, in that order. */
    ghost var entries: seq<Entry<T>>
    ghost var freed: seq<Entry<T>>

    /** The links spell out `entries`; no entry is in the list twice, freed twice, or freed while in the list. */
    ghost predicate Valid()
      reads this, entries
    {
      && NoDuplicates(entries) && NoDuplicates(freed)
      && (forall i :: 0 <= i < |entries| ==> entries[i] !in freed)
      && Linked()
      && head == At(0)
      && tail == if entries == [] then null else entries[|entries| - 1]
    }

    ghost predicate Linked()
      reads this, entries
    {
      forall i {:trigger entries[i].next} :: 0 <= i < |entries| ==> entries[i].next == At(i + 1)
    }

    /** The entry at position i, null past the end. */
    ghost function At(i: nat): Entry?<T>
      reads this
    {
      if i < |entries| then entries[i] else null
    }

    ghost function Contents(): (s: seq<T>)
      reads this
      ensures |s| == |entries| && forall i :: 0 <= i < |s| ==> s[i] == entries[i].element
    {
      Elements(entries)
    }

    constructor ()
      ensures Valid() && Contents() == [] && entries == [] && freed == []
    {
      head, tail, entries, freed := null, null, [], [];
    }

    /** Allocator::free: an entry is given back once, when it is no longer in the list. */
    ghost method Free(e: Entry<T>)
      requires e !in freed
      modifies this`freed
      ensures freed == old(freed) + [e]
    {
      freed := freed + [e];
    }

    method PushFront(element: T)
      requires Valid()
      modifies this
      ensures Valid() && Contents() == [element] + old(Contents())
      ensures freed == old(freed) && fresh(entries[0]) && entries == [entries[0]] + old(entries)
    {
      var e := new Entry(head, element);
      head := e;
      if tail == null {
        tail := e;
      }
      Prepended(entries, e);
      entries := [e] + entries;
      assert forall i :: 0 < i < |entries| ==> entries[i] == old(entries)[i - 1];
    }

    method Find(value: T) returns (e: Entry?<T>, ghost at: nat)
      requires Valid()
      ensures e == null ==> value !in Contents()
      ensures e != null ==> at < |entries| && e == entries[at] && Contents()[at] == value
                            && value !in Contents()[..at]
    {
      e, at := head, 0;
      while e != null
        invariant at <= |entries| && e == At(at)
        invariant value !in Contents()[..at]
        decreases |entries| - at
      {
        if e.element == value {
          return;
        }
        assert Contents()[..at + 1] == Contents()[..at] + [Contents()[at]];
        e, at := e.next, at + 1;
      }
      assert Contents()[..at] == Contents();
    }

    method Contains(value: T) returns (b: bool)
      requires Valid()
      ensures b <==> value in Contents()
    {
      var e, at := Find(value);
      assert e != null ==> Contents()[at] == value;
      b := e != null;
    }

    /** Appends the element unless the list already holds it. */
    method PushBack(element: T)
      requires Valid()
      modifies this, tail
      ensures Valid() && freed == old(freed)
      ensures Contents() == if element in old(Contents()) then old(Contents()) else old(Contents()) + [element]
      ensures NoDuplicates(old(Contents())) ==> NoDuplicates(Contents())
      ensures entries[..|old(entries)|] == old(entries)
      ensures |entries| > |old(entries)| ==> fresh(entries[|old(entries)|])
    {
      var found := Contains(element);
      if !found {
        var e := new Entry(null, element);
        if tail == null {
          tail, head := e, e;
        } else {
          tail.next := e;
          tail := e;
        }
        entries := entries + [e];
      }
    }

    method PopFront() returns (element: Option<T>)
      requires Valid()
      modifies this
      ensures Valid()
      ensures old(Contents()) == [] ==> element.None? && Contents() == [] && freed == old(freed)
      ensures old(Contents()) != [] ==>
                && element == Some(old(Contents())[0]) && Contents() == old(Contents())[1..]
                && entries == old(entries)[1..] && freed == old(freed) + [old(entries)[0]]
      ensures NoDuplicates(old(Contents())) ==> NoDuplicates(Contents())
    {
      if head == null {
        return None;
      }
      var entry := head;
      element := Some(entry.element);
      head := entry.next;
      entries := entries[1..];
      Free(entry);
      if head == null {
        tail := null;
      }
    }

    method Clear()
      requires Valid()
      modifies this
      ensures Valid() && Contents() == []
      ensures freed == old(freed) + old(entries)
    {
      ghost var gone := 0;
      while head != null
        invariant gone + |entries| == |old(entries)| && entries == old(entries)[gone..]
        invariant Linked() && head == At(0)
        invariant freed == old(freed) + old(entries)[..gone]
        decreases |entries|
      {
        assert old(entries)[..gone + 1] == old(entries)[..gone] + [head];
        assert head == old(entries)[gone];
        var p := head;
        assert p == entries[0] && p.next == At(1);
        ghost var was := entries;
        head := head.next;
        entries := entries[1..];
        assert forall i :: 0 <= i < |entries| ==> entries[i] == was[i + 1];
        Free(p);
        gone := gone + 1;
      }
      tail := null;
    }

    /** Takes entry e, the n-th, out of the list; p is the entry before it. */
    method Unlink(e: Entry<T>, p: Entry?<T>, ghost n: nat) returns (next: Entry?<T>)
      requires Valid() && n < |entries| && e == entries[n] && p == (if n == 0 then null else entries[n - 1])
      modifies this, p
      ensures Valid() && entries == old(entries)[..n] + old(entries)[n + 1..]
      ensures freed == old(freed) + [e] && next == At(n)
    {
      next := e.next;
      Unlinked(entries, n);
      ghost var was := entries;
      if p == null {
        head := next;
      } else {
        p.next := next;
      }
      if tail == e {
        tail := p;
      }
      entries := Without(was, n);
      Free(e);
    }

    /** Unlinks and frees the entries whose element satisfies drop; the others keep their order. */
    method RemoveIf(drop: T -> bool)
      requires Valid()
      modifies this, entries
      ensures Valid()
      ensures Contents() == Filter(old(Contents()), drop, false)
      ensures forall x :: x in Contents() <==> x in old(Contents()) && !drop(x)
      ensures entries == Picked(old(entries), drop, false)
      ensures freed == old(freed) + Picked(old(entries), drop, true)
    {
      ghost var was, gone := entries, freed;
      var e, p: Entry?<T> := head, null;
      ghost var n, i := 0, 0;
      while e != null
        invariant Sifting(was, gone, i, drop, e, p, n)
        decreases |was| - i
      {
        e, p, n := SiftOne(was, gone, i, drop, e, p, n);
        i := i + 1;
      }
      AllSifted(was, i, entries, n, drop);
      FilterHas(old(Contents()), drop, false);
    }

    /** One turn of the loop. */
    method SiftOne(
      ghost was: seq<Entry<T>>, ghost gone: seq<Entry<T>>, ghost i: nat, drop: T -> bool, e: Entry<T>, p: Entry?<T>,
        ghost n: nat)
      returns (next: Entry?<T>, before: Entry?<T>, ghost kept: nat)
      requires Sifting(was, gone, i, drop, e, p, n)
      modifies this, p
      ensures i < |was| && Sifting(was, gone, i + 1, drop, next, before, kept)
    {
      if drop(e.element) {
        next := SiftOut(was, gone, i, drop, e, p, n);
        before, kept := p, n;
      } else {
        next, before := SiftPast(was, gone, i, drop, e, p, n);
        kept := n + 1;
      }
    }

    /**
     * The first i entries of `was` have been looked at; n of them stay, the others are freed; e is the next one, p
     * the one before.
     */
    ghost predicate Sifting(
      was: seq<Entry<T>>, gone: seq<Entry<T>>, i: nat, drop: T -> bool, e: Entry?<T>, p: Entry?<T>, n: nat)
      reads this, entries
    {
      && Valid() && i <= |was| && n <= |entries|
      && e == At(n) && p == (if n == 0 then null else entries[n - 1]) && (p != null ==> p in was)
      && Sifted(was, i, entries, n, drop)
      && freed == gone + Picked(was[..i], drop, true)
    }

    /** The next entry is dropped. */
    method SiftOut(
      ghost was: seq<Entry<T>>, ghost gone: seq<Entry<T>>, ghost i: nat, ghost drop: T -> bool, e: Entry<T>,
        p: Entry?<T>, ghost n: nat)
      returns (next: Entry?<T>)
      requires Sifting(was, gone, i, drop, e, p, n) && drop(e.element)
      modifies this, p
      ensures i < |was| && Sifting(was, gone, i + 1, drop, next, p, n)
    {
      SiftStep(was, i, entries, n, drop);
      Appended(gone, Picked(was[..i], drop, true), e);
      next := Unlink(e, p, n);
    }

    /** The next entry stays. */
    method SiftPast(
      ghost was: seq<Entry<T>>, ghost gone: seq<Entry<T>>, ghost i: nat, ghost drop: T -> bool, e: Entry<T>,
        p: Entry?<T>, ghost n: nat)
      returns (next: Entry?<T>, before: Entry<T>)
      requires Sifting(was, gone, i, drop, e, p, n) && !drop(e.element)
      ensures i < |was| && Sifting(was, gone, i + 1, drop, next, before, n + 1)
    {
      SiftStep(was, i, entries, n, drop);
      assert e == entries[n] && e.next == At(n + 1);
      next, before := e.next, e;
    }

    method Remove(element: T)
      requires Valid()
      modifies this, entries
      ensures Valid()
      ensures Contents() == Filter(old(Contents()), Is(element), false)
      ensures forall x :: x in Contents() <==> x in old(Contents()) && x != element
    {
      RemoveIf(Is(element));
    }

    /** Calls the action on the elements in order until it returns false; `seen` is what it was called on. */
    method Visit(action: T -> bool) returns (all: bool, ghost seen: seq<T>)
      requires Valid()
      ensures all <==> forall x :: x in Contents() ==> action(x)
      ensures all ==> seen == Contents()
      ensures !all ==> |seen| > 0 && seen <= Contents() && !action(seen[|seen| - 1])
      ensures forall i :: 0 <= i < |seen| - 1 ==> action(seen[i])
    {
      seen := [];
      var e := head;
      while e != null
        invariant seen <= Contents() && e == At(|seen|)
        invariant forall i :: 0 <= i < |seen| ==> action(seen[i])
        decreases |entries| - |seen|
      {
        assert Contents()[|seen|] == e.element;
        seen := seen + [e.element];
        if !action(e.element) {
          return false, seen;
        }
        e := e.next;
      }
      return true, seen;
    }

    method Size() returns (n: nat)
      requires Valid()
      ensures n == |Contents()|
    {
      n := 0;
      var e := head;
      while e != null
        invariant n <= |entries| && e == At(n)
        decreases |entries| - n
      {
        n := n + 1;
        e := e.next;
      }
    }
  }

  lemma Appended<T>(s: seq<T>, t: seq<T>, x: T)
    ensures s + (t + [x]) == s + t + [x]
  {
  }

  lemma Prepended<T>(s: seq<Entry<T>>, x: Entry<T>)
    requires NoDuplicates(s) && x !in s
    ensures NoDuplicates([x] + s)
    ensures Elements([x] + s) == [x.element] + Elements(s)
  {
    assert forall i :: 0 < i <= |s| ==> Elements([x] + s)[i] == s[i - 1].element;
  }

  ghost function Without<T>(s: seq<T>, n: nat): (r: seq<T>)
    requires n < |s|
    ensures |r| == |s| - 1 && forall i :: 0 <= i < |r| ==> r[i] == if i < n then s[i] else s[i + 1]
  {
    s[..n] + s[n + 1..]
  }

  lemma Unlinked<T>(s: seq<T>, n: nat)
    requires n < |s| && NoDuplicates(s)
    ensures NoDuplicates(Without(s, n)) && s[n] !in Without(s, n)
  {
  }

  /** Of `was`, the first i entries have been looked at; the first n of s are those of them that stay. */
  ghost predicate Sifted<T>(was: seq<Entry<T>>, i: nat, s: seq<Entry<T>>, n: nat, drop: T -> bool)
    requires i <= |was| && n <= |s|
  {
    s[n..] == was[i..] && s[..n] == Picked(was[..i], drop, false)
  }

  /** When nothing is left to look at, what is in the list is what stays. */
  lemma {:induction false} AllSifted<T>(was: seq<Entry<T>>, i: nat, s: seq<Entry<T>>, n: nat, drop: T -> bool)
    requires i <= |was| && n == |s| && Sifted(was, i, s, n, drop)
    ensures i == |was| && was[..i] == was && s == Picked(was, drop, false)
    ensures Elements(s) == Filter(Elements(was), drop, false)
  {
    assert s[n..] == [] && s[..n] == s;
    PickedElements(was, drop, false);
  }

  lemma SiftStep<T>(was: seq<Entry<T>>, i: nat, s: seq<Entry<T>>, n: nat, drop: T -> bool)
    requires i <= |was| && n < |s| && Sifted(was, i, s, n, drop)
    ensures i < |was| && s[n] == was[i]
    ensures drop(s[n].element) ==> Picked(was[..i + 1], drop, true) == Picked(was[..i], drop, true) + [s[n]]
    ensures !drop(s[n].element) ==> Picked(was[..i + 1], drop, true) == Picked(was[..i], drop, true)
    ensures drop(s[n].element) ==> Sifted(was, i + 1, s[..n] + s[n + 1..], n, drop)
    ensures !drop(s[n].element) ==> Sifted(was, i + 1, s, n + 1, drop)
  {
    assert s[n] == s[n..][0] == was[i..][0];
    PickedStep(was, i, drop);
    assert s[n + 1..] == s[n..][1..] == was[i + 1..];
    assert s[..n + 1] == s[..n] + [s[n]];
    assert (s[..n] + s[n + 1..])[n..] == s[n + 1..] && (s[..n] + s[n + 1..])[..n] == s[..n];
  }

  lemma PickedStep<T>(s: seq<Entry<T>>, i: nat, p: T -> bool)
    requires i < |s|
    ensures Picked(s[..i + 1], p, true) == if p(s[i].element) then Picked(s[..i], p, true) + [s[i]]
              else Picked(s[..i], p, true)
    ensures Picked(s[..i + 1], p, false) == if p(s[i].element) then Picked(s[..i], p, false)
              else Picked(s[..i], p, false) + [s[i]]
  {
    assert s[..i + 1][..i] == s[..i];
  }

  lemma {:induction false} PickedElements<T>(s: seq<Entry<T>>, p: T -> bool, wanted: bool)
    ensures Elements(Picked(s, p, wanted)) == Filter(Elements(s), p, wanted)
  {
    if s != [] {
      var front := s[..|s| - 1];
      PickedElements(front, p, wanted);
      assert Elements(s)[..|s| - 1] == Elements(front);
      assert Elements(s)[|s| - 1] == s[|s| - 1].element;
    }
  }
}
