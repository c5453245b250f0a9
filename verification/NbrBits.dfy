/** The used and locked bitmaps of contiki-ng/os/net/nbr-table.c: one bit per table in a
    byte per neighbor. */
module NbrBits {
  const TABLES: int := 8

  /** 1 << i. */
  function Bit(i: int): bv8
    decreases if i > 0 then i else 0
  {
    if i <= 0 then 1 else Bit(i - 1) << 1
  }

  predicate Test(b: bv8, i: int) { b & Bit(i) != 0 }

  lemma BitValues()
    ensures Bit(0) == 1 && Bit(1) == 2 && Bit(2) == 4 && Bit(3) == 8
    ensures Bit(4) == 16 && Bit(5) == 32 && Bit(6) == 64 && Bit(7) == 128
  {}

  lemma SetBit(b: bv8, i: int, j: int)
    requires 0 <= i < TABLES && 0 <= j < TABLES
    ensures Test(b | Bit(i), j) <==> i == j || Test(b, j)
  {
    BitValues();
  }

  lemma ClearBit(b: bv8, i: int, j: int)
    requires 0 <= i < TABLES && 0 <= j < TABLES
    ensures Test(b & !Bit(i), j) <==> i != j && Test(b, j)
  {
    BitValues();
  }

  /** The assignments of nbr_set_bit. */
  function Put(b: bv8, i: int, value: bool): bv8 {
    if value then b | Bit(i) else b & !Bit(i)
  }

  lemma PutBit(b: bv8, i: int, value: bool, j: int)
    requires 0 <= i < TABLES && 0 <= j < TABLES
    ensures Test(Put(b, i, value), j) <==> if i == j then value else Test(b, j)
  {
    if value { SetBit(b, i, j); } else { ClearBit(b, i, j); }
  }

  lemma NoBits(j: int)
    ensures !Test(0, j)
  {}

  /** A byte is 0 when none of its bits is set. */
  lemma ZeroByte(b: bv8)
    ensures b == 0 <== forall j {:trigger Test(b, j)} :: 0 <= j < TABLES ==> !Test(b, j)
  {
    BitValues();
    if b != 0 {
      assert Test(b, 0) || Test(b, 1) || Test(b, 2) || Test(b, 3) || Test(b, 4) || Test(b, 5) || Test(b, 6) || Test(b, 7);
    }
  }

  /** The number of tables from t on whose bit is set. */
  function TablesFrom(b: bv8, t: int): nat
    decreases TABLES - t
  {
    if t >= TABLES then 0 else (if Test(b, t) then 1 else 0) + TablesFrom(b, t + 1)
  }

  /** b >> k. */
  function Shifted(b: bv8, k: int): bv8 {
    match k
    case 0 => b case 1 => b >> 1 case 2 => b >> 2 case 3 => b >> 3
    case 4 => b >> 4 case 5 => b >> 5 case 6 => b >> 6 case 7 => b >> 7
    case _ => 0
  }

  lemma ShiftOnce(b: bv8, k: int)
    requires 0 <= k < TABLES
    ensures Shifted(b, k + 1) == Shifted(b, k) >> 1
    ensures Shifted(b, k) & 1 == 1 <==> Test(b, k)
  {
    BitValues();
  }

  /** The number of set bits, lowest first. */
  function Users(u: bv8): nat
    decreases u
  {
    if u == 0 then 0 else (if u & 1 == 1 then 1 else 0) + Users(u >> 1)
  }

  /** The bits from k on are the tables from k on that use the neighbor. */
  lemma {:induction false} UsersAreTables(b: bv8, k: int)
    requires 0 <= k <= TABLES
    ensures Users(Shifted(b, k)) == TablesFrom(b, k)
    decreases TABLES - k
  {
    if k < TABLES {
      ShiftOnce(b, k);
      UsersAreTables(b, k + 1);
      if Shifted(b, k) == 0 { ZeroShift(Shifted(b, k)); }
    }
  }

  lemma ZeroShift(u: bv8)
    requires u == 0
    ensures u >> 1 == 0 && u & 1 == 0
  {}

  /** The bit-counting loop of nbr_table_allocate: the number of tables that use a
      neighbor. */
  method CountUsers(b: bv8) returns (count: nat)
    ensures count == Users(b)
  {
    var used := b;
    count := 0;
    while used != 0
      invariant count + Users(used) == Users(b)
      decreases used
    {
      if used & 1 == 1 { count := count + 1; }
      used := used >> 1;
    }
  }
}
