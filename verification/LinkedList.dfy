/** The singly linked lists of contiki-ng/os/lib/list.c, with elements named by integers
    and their next pointers in a map. */
module LinkedList {
  const NULL: int := -1

  function At(list: seq<int>, i: int): int {
    if 0 <= i < |list| then list[i] else NULL
  }

  /** Following `next` from `head` visits exactly `list` and ends. */
  ghost predicate Chain(next: map<int, int>, head: int, list: seq<int>) {
    && head == At(list, 0)
    && (forall i :: 0 <= i < |list| ==> list[i] != NULL && list[i] in next)
    && (forall i {:trigger next[list[i]]} :: 0 <= i < |list| ==> next[list[i]] == At(list, i + 1))
    && (forall i, j :: 0 <= i < j < |list| ==> list[i] != list[j])
  }

  function Without(s: seq<int>, x: int): (r: seq<int>)
    ensures forall y :: y in r <==> y in s && y != x
  {
    if s == [] then [] else (if s[0] == x then [] else [s[0]]) + Without(s[1..], x)
  }

  lemma {:induction false} WithoutAt(s: seq<int>, x: int, i: nat)
    requires i < |s| && s[i] == x && forall a, b :: 0 <= a < b < |s| ==> s[a] != s[b]
    ensures Without(s, x) == s[..i] + s[i + 1..]
  {
    if i == 0 {
      WithoutNone(s[1..], x);
    } else {
      WithoutAt(s[1..], x, i - 1);
      assert s[1..][..i - 1] == s[1..i] && s[1..][i..] == s[i + 1..];
      assert [s[0]] + (s[1..i] + s[i + 1..]) == s[..i] + s[i + 1..];
    }
  }

  lemma {:induction false} WithoutNone(s: seq<int>, x: int)
    requires x !in s
    ensures Without(s, x) == s
  {
    if s != [] { WithoutNone(s[1..], x); }
  }

  /** Unlinking element i: its predecessor, or the head, skips it. */
  lemma Unlinked(next: map<int, int>, head: int, list: seq<int>, i: nat)
    requires Chain(next, head, list) && i < |list|
    ensures Chain(if i == 0 then next else next[list[i - 1] := next[list[i]]],
                  if i == 0 then next[list[i]] else head,
                  list[..i] + list[i + 1..])
  {
    var list' := list[..i] + list[i + 1..];
    var next' := if i == 0 then next else next[list[i - 1] := next[list[i]]];
    forall j | 0 <= j < |list'|
      ensures list'[j] != NULL && list'[j] in next' && next'[list'[j]] == At(list', j + 1)
    {
      var k := if j < i then j else j + 1;
      SkipAt(list, i, j);
      SkipAt(list, i, j + 1);
      assert list'[j] == list[k] && next[list[k]] == At(list, k + 1);
      if i > 0 && k != i - 1 { assert list[k] != list[i - 1]; }
    }
    SkipAt(list, i, 0);
  }

  lemma SkipAt(list: seq<int>, i: nat, j: nat)
    requires i < |list|
    ensures At(list[..i] + list[i + 1..], j) == At(list, if j < i then j else j + 1)
  {}

  /** What an element outside the list points to does not matter. */
  lemma Outside(next: map<int, int>, head: int, list: seq<int>, x: int, n: int)
    requires Chain(next, head, list) && x !in list
    ensures Chain(next[x := n], head, list)
  {}

  lemma Pushed(next: map<int, int>, head: int, list: seq<int>, x: int)
    requires Chain(next, head, list) && x !in list && x != NULL
    ensures Chain(next[x := head], x, [x] + list)
  {
    var list', next' := [x] + list, next[x := head];
    forall j | 0 <= j < |list'|
      ensures list'[j] in next' && next'[list'[j]] == At(list', j + 1)
    {
      if j > 0 { assert list'[j] == list[j - 1] && At(list', j + 1) == At(list, j); }
    }
  }

  lemma Appended(next: map<int, int>, head: int, list: seq<int>, x: int)
    requires Chain(next, head, list) && x !in list && x != NULL && x in next && next[x] == NULL
    ensures list == [] ==> Chain(next, x, [x])
    ensures list != [] ==> Chain(next[list[|list| - 1] := x], head, list + [x])
  {
    if list != [] {
      var list', next', n := list + [x], next[list[|list| - 1] := x], |list| - 1;
      forall j | 0 <= j < |list'|
        ensures list'[j] in next' && next'[list'[j]] == At(list', j + 1)
      {
        if j < n { assert list'[j] == list[j] && list[j] != list[n]; }
      }
    }
  }

  datatype Shape = Shape(next: map<int, int>, head: int, items: seq<int>)

  ghost function Shapes(): iset<Shape> {
    iset s: Shape | Chain(s.next, s.head, s.items)
  }

  lemma AppendedShape(s: Shape, x: int)
    requires s in Shapes() && x !in s.items && x != NULL && x in s.next
    ensures var next := s.next[x := NULL];
            && Shape(next, s.head, s.items) in Shapes()
            && Shape(if s.items == [] then next else next[s.items[|s.items| - 1] := x],
                     if s.items == [] then x else s.head, s.items + [x]) in Shapes()
  {
    Outside(s.next, s.head, s.items, x, NULL);
    Appended(s.next[x := NULL], s.head, s.items, x);
  }

  class List {
    var head: int
    var next: map<int, int>
    ghost var items: seq<int>

    ghost predicate Valid()
      reads this
    {
      Shape(next, head, items) in Shapes()
    }

    /** LIST, list_init over elements with cleared pointers. */
    constructor (elements: set<int>)
      ensures Valid() && items == [] && next.Keys == elements && forall x :: x in next ==> next[x] == NULL
    {
      head, items := NULL, [];
      next := map x | x in elements :: NULL;
    }

    /** list_tail. */
    method Tail() returns (l: int)
      requires Valid()
      ensures l == At(items, |items| - 1)
    {
      if head == NULL { return NULL; }
      l := head;
      ghost var i := 0;
      while next[l] != NULL
        invariant 0 <= i < |items| && l == items[i]
        decreases |items| - i
      {
        l, i := next[l], i + 1;
      }
    }

    /** list_remove: the element is gone, the others keep their order. */
    method Remove(x: int)
      requires Valid() && x != NULL
      modifies this
      ensures Valid() && items == Without(old(items), x) && next.Keys == old(next.Keys)
      ensures x in old(items) ==> next[x] == NULL
      ensures forall y :: y in next && y !in old(items) ==> next[y] == old(next[y])
    {
      var r, l := NULL, head;
      ghost var i := 0;
      while l != NULL && l != x
        invariant 0 <= i <= |items| && l == At(items, i) && r == At(items, i - 1) && x !in items[..i]
        decreases |items| - i
      {
        r, l, i := l, next[l], i + 1;
      }
      if l == NULL {
        assert items[..i] == items;
        WithoutNone(items, x);
      } else {
        WithoutAt(items, x, i);
        Unlinked(next, head, items, i);
        if r == NULL { head := next[l]; } else { next := next[r := next[l]]; }
        items := items[..i] + items[i + 1..];
        Outside(next, head, items, x, NULL);
        next := next[l := NULL];
      }
    }

    /** list_add: at the end, once. */
    method Add(x: int)
      requires Valid() && x != NULL && x in next
      modifies this
      ensures Valid() && items == Without(old(items), x) + [x] && next.Keys == old(next.Keys)
      ensures forall y :: y in next && y !in old(items) && y != x ==> next[y] == old(next[y])
    {
      Remove(x);
      Append(x);
    }

    /** The second half of list_add. */
    method Append(x: int)
      requires Valid() && x != NULL && x in next && x !in items
      modifies this
      ensures Valid() && items == old(items) + [x] && next.Keys == old(next.Keys)
      ensures forall y :: y in next && y !in old(items) && y != x ==> next[y] == old(next[y])
    {
      AppendedShape(Shape(next, head, items), x);
      next := next[x := NULL];
      var l := Tail();
      if l == NULL { head := x; } else { next := next[l := x]; }
      items := items + [x];
    }

    /** list_push: at the front, once. */
    method Push(x: int)
      requires Valid() && x != NULL && x in next
      modifies this
      ensures Valid() && items == [x] + Without(old(items), x) && next.Keys == old(next.Keys)
    {
      Remove(x);
      Pushed(next, head, items, x);
      next := next[x := head];
      head := x;
      items := [x] + items;
    }

    /** list_item_next. */
    method ItemNext(x: int) returns (n: int)
      requires Valid() && (x == NULL || x in next)
      ensures x == NULL ==> n == NULL
      ensures forall i :: 0 <= i < |items| && items[i] == x ==> n == At(items, i + 1)
      ensures x != NULL ==> n == next[x]
    {
      n := if x == NULL then NULL else next[x];
    }
  }
}
