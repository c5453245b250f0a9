/** The swap-id allocator of contiki-ng/os/net/queuebuf.c: ids are handed out in order
    around four files of 256 slots; a file that was left empty is marked renewable and its
    contents are thrown away when it is renewed. */
module SwapIds {
  import opened Arith

  const FILES: int := 4
  const PER_FILE: int := 256
  const IDS: int := 1024

  function InFile(ids: set<int>, f: int): set<int> {
    set i | i in ids && i / PER_FILE == f
  }

  lemma InFileAdd(ids: set<int>, id: int, f: int)
    requires id !in ids
    ensures |InFile(ids + {id}, f)| == |InFile(ids, f)| + if id / PER_FILE == f then 1 else 0
  {
    if id / PER_FILE == f {
      assert InFile(ids + {id}, f) == InFile(ids, f) + {id};
    } else {
      assert InFile(ids + {id}, f) == InFile(ids, f);
    }
  }

  lemma InFileRemove(ids: set<int>, id: int, f: int)
    requires id in ids
    ensures |InFile(ids - {id}, f)| == |InFile(ids, f)| - if id / PER_FILE == f then 1 else 0
  {
    assert ids - {id} + {id} == ids;
    InFileAdd(ids - {id}, id, f);
  }

  // ----- runs -----

  /** What get_new_swap_id answers when `next` is the next id and `out` are in use. */
  function Issue(next: int, out: set<int>): int {
    if next % PER_FILE == 0 && InFile(out, next / PER_FILE) != {} then -1 else next
  }

  datatype Call = New | Gone(id: int)

  /** The next id, the ids in use, and all ids issued so far. */
  datatype Ids = Ids(next: int, out: set<int>, issued: seq<int>)

  function Play(s: Ids, c: Call): Ids {
    match c
    case New =>
      var id := Issue(s.next, s.out);
      if id == -1 then s else Ids((s.next + 1) % IDS, s.out + {id}, s.issued + [id])
    case Gone(id) => s.(out := s.out - {id})
  }

  /** A fresh swap after the calls. */
  function After(calls: seq<Call>): Ids {
    if calls == [] then Ids(0, {}, []) else Play(After(calls[..|calls| - 1]), calls[|calls| - 1])
  }

  /** In every run, whatever was removed and refused in between, the ids issued are 0, 1, ...
      in turn around all slots. */
  lemma {:induction false} IssuedInTurn(calls: seq<Call>)
    ensures var s := After(calls);
            s.next == |s.issued| % IDS && forall i :: 0 <= i < |s.issued| ==> s.issued[i] == i % IDS
  {
    if calls != [] {
      var s := After(calls[..|calls| - 1]);
      IssuedInTurn(calls[..|calls| - 1]);
      ModOfSum(|s.issued|, 1, IDS);
    }
  }

  function Below(n: nat): set<int> {
    if n == 0 then {} else Below(n - 1) + {n - 1}
  }

  lemma {:induction false} BelowHas(n: nat, i: int)
    ensures i in Below(n) <==> 0 <= i < n
  {
    if n > 0 { BelowHas(n - 1, i); }
  }

  /** With nothing removed, the first 1024 calls are answered 0 .. 1023 and the next -1. */
  lemma {:induction false} FillsAllSlots(n: nat)
    requires n <= IDS
    ensures var s := After(seq(n, _ => New));
            && s.issued == seq(n, i => i) && s.out == Below(n)
            && Issue(s.next, s.out) == if n < IDS then n else -1
  {
    var calls := seq(n, _ => New);
    if n > 0 {
      FillsAllSlots(n - 1);
      assert calls[..n - 1] == seq(n - 1, _ => New);
      assert Below(n) == Below(n - 1) + {n - 1};
    }
    IssuedInTurn(calls);
    NextOf(n, Below(n));
  }

  lemma NextOf(n: nat, out: set<int>)
    requires n <= IDS && out == Below(n)
    ensures Issue(n % IDS, out) == if n < IDS then n else -1
  {
    forall i ensures i in out <==> 0 <= i < n { BelowHas(n, i); }
    if n == IDS {
      assert 0 in InFile(out, 0);
    } else {
      ModSmall(n, IDS);
      if n % PER_FILE == 0 { BelowFile(n, out); }
    }
  }

  lemma BelowFile(n: nat, out: set<int>)
    requires n % PER_FILE == 0 && forall i :: i in out ==> 0 <= i < n
    ensures InFile(out, n / PER_FILE) == {}
  {}

  class Swap {
    var next: int
    var usage: seq<int>
    var renewable: seq<bool>
    /** The ids in use, and the slots whose contents the files still hold. */
    ghost var outstanding: set<int>
    ghost var stored: set<int>

    ghost predicate Valid()
      reads this
    {
      && 0 <= next < IDS && |usage| == |renewable| == FILES
      && (forall i :: i in outstanding ==> 0 <= i < IDS && i in stored)
      && (forall f :: 0 <= f < FILES ==> usage[f] == |InFile(outstanding, f)|)
      && (forall f :: 0 <= f < FILES && renewable[f] ==> usage[f] == 0)
      && (next % PER_FILE != 0 ==> !renewable[next / PER_FILE])
      && (forall i :: i in outstanding && next % PER_FILE != 0 && i / PER_FILE == next / PER_FILE ==> i < next)
      && (forall f :: 0 <= f < FILES && f != next / PER_FILE && usage[f] == 0 ==> renewable[f] || InFile(stored, f) == {})
    }

    /** The next file to fill is empty, but its old contents will stay when it is filled. */
    ghost predicate Stale()
      requires Valid()
      reads this
    {
      var f := next / PER_FILE;
      next % PER_FILE == 0 && usage[f] == 0 && !renewable[f] && InFile(stored, f) != {}
    }

    constructor ()
      ensures Valid() && !Stale() && outstanding == {} && next == 0
    {
      next, usage, renewable := 0, [0, 0, 0, 0], [false, false, false, false];
      outstanding, stored := {}, {};
      new;
      assert InFile(stored, 0) == {};
      forall f | 0 <= f < FILES ensures usage[f] == |InFile(outstanding, f)| { assert InFile({}, f) == {}; }
    }

    /** qbuf_renew_file of a renewable file: it is removed and created anew.  No id in use
        loses its contents. */
    method RenewFile(file: int)
      requires Valid() && 0 <= file < FILES && renewable[file]
      modifies this`usage, this`renewable, this`stored
      ensures Valid() && !renewable[file] && usage == old(usage)
      ensures forall f :: 0 <= f < FILES && f != file ==> renewable[f] == old(renewable[f])
      ensures stored == old(stored) - InFile(old(stored), file)
      ensures Stale() == old(Stale())
    {
      ghost var was := stored;
      stored := stored - InFile(stored, file);
      assert InFile(stored, file) == {};
      assert forall f :: f != file ==> InFile(stored, f) == InFile(was, f);
      EmptyFile(outstanding, file);
      usage := usage[file := 0];
      renewable := renewable[file := false];
    }

    /** qbuf_renew_all. */
    method RenewAll()
      requires Valid()
      modifies this`usage, this`renewable, this`stored
      ensures Valid() && usage == old(usage) && Stale() == old(Stale())
      ensures forall f :: 0 <= f < FILES ==> !renewable[f]
      ensures forall i :: i in stored <==> i in old(stored) && !(0 <= i / PER_FILE < FILES && old(renewable[i / PER_FILE]))
    {
      var i := 0;
      while i < FILES
        invariant 0 <= i <= FILES && Valid() && usage == old(usage) && Stale() == old(Stale())
        invariant forall f :: 0 <= f < i ==> !renewable[f]
        invariant forall f :: i <= f < FILES ==> renewable[f] == old(renewable[f])
        invariant forall j :: j in stored <==> j in old(stored) && !(0 <= j / PER_FILE < i && old(renewable[j / PER_FILE]))
      {
        if renewable[i] { RenewFile(i); }
        i := i + 1;
      }
    }

    /** queuebuf_remove_from_file.  The next file to fill becomes stale exactly when its last
        id is removed while none of its ids was handed out anew. */
    method Remove(id: int)
      requires Valid() && (id == -1 || id in outstanding)
      modifies this`usage, this`renewable, this`outstanding
      ensures Valid() && outstanding == old(outstanding) - {id}
      ensures Stale() <==>
              || old(Stale())
              || (&& id != -1 && next % PER_FILE == 0 && id / PER_FILE == next / PER_FILE
                  && InFile(outstanding, next / PER_FILE) == {})
      ensures forall f :: 0 <= f < FILES ==>
                (renewable[f] <==> || old(renewable[f])
                                   || (id != -1 && f == id / PER_FILE != next / PER_FILE && InFile(outstanding, f) == {}))
    {
      if id != -1 {
        var f := id / PER_FILE;
        forall g | 0 <= g < FILES
          ensures |InFile(outstanding - {id}, g)| == |InFile(outstanding, g)| - if g == f then 1 else 0
        {
          InFileRemove(outstanding, id, g);
        }
        assert id in InFile(outstanding, f) && id in InFile(stored, f);
        usage := usage[f := usage[f] - 1];
        outstanding := outstanding - {id};
        if usage[f] == 0 && f != next / PER_FILE { renewable := renewable[f := true]; }
      }
    }

    /** get_new_swap_id: an id that is not in use, or -1 exactly when the next file to fill
        still has ids in use.  The old contents of the file of a first id are thrown away
        exactly when it was not stale. */
    method NewId() returns (id: int)
      requires Valid()
      modifies this
      ensures Valid()
      ensures id == -1 <==> old(next % PER_FILE == 0 && InFile(outstanding, next / PER_FILE) != {})
      ensures id == Issue(old(next), old(outstanding))
      ensures next == if id == -1 then old(next) else (old(next) + 1) % IDS
      ensures id == -1 ==> outstanding == old(outstanding) && stored == old(stored)
      ensures id != -1 && id % PER_FILE != 0 ==> stored == old(stored) + {id}
      ensures !Stale()
      ensures id != -1 && id % PER_FILE == 0 ==>
                stored == (if old(Stale()) then old(stored) else old(stored) - InFile(old(stored), id / PER_FILE)) + {id}
      ensures id != -1 ==> id == old(next) && id !in old(outstanding) && outstanding == old(outstanding) + {id}
    {
      id := next;
      var f := id / PER_FILE;
      if id % PER_FILE == 0 {
        if renewable[f] { RenewFile(f); }
        if usage[f] > 0 {
          assert InFile(outstanding, f) != {};
          return -1;
        }
        EmptyFile(outstanding, f);
      }
      HandOut();
    }

    /** The next id comes into use. */
    method HandOut()
      requires Valid() && next !in outstanding && !renewable[next / PER_FILE]
      requires next % PER_FILE == 0 ==> forall i :: i in outstanding ==> i / PER_FILE != next / PER_FILE
      modifies this`usage, this`next, this`outstanding, this`stored
      ensures Valid() && !Stale() && outstanding == old(outstanding) + {old(next)} && stored == old(stored) + {old(next)}
      ensures next == (old(next) + 1) % IDS
    {
      var id, f := next, next / PER_FILE;
      NextFile(next);
      assert forall g :: g != f ==> InFile(stored + {id}, g) == InFile(stored, g);
      forall g | 0 <= g < FILES
        ensures |InFile(outstanding + {id}, g)| == |InFile(outstanding, g)| + if g == f then 1 else 0
      {
        InFileAdd(outstanding, id, g);
      }
      usage := usage[f := usage[f] + 1];
      outstanding, stored := outstanding + {id}, stored + {id};
      next := (next + 1) % IDS;
    }
  }

  /** The id after a file's last one is the first of the next file. */
  lemma NextFile(next: int)
    requires 0 <= next < IDS
    ensures var n := (next + 1) % IDS;
            && 0 <= n < IDS && if n / PER_FILE == next / PER_FILE then n == next + 1 else n % PER_FILE == 0
  {}

  lemma EmptyFile(ids: set<int>, f: int)
    requires |InFile(ids, f)| == 0
    ensures forall i :: i in ids ==> i / PER_FILE != f
  {
    assert InFile(ids, f) == {};
    forall i | i in ids ensures i / PER_FILE != f {
      assert i !in InFile(ids, f);
    }
  }
}
