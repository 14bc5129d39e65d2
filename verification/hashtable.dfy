/**
  The fixed-capacity open-addressing table `HashTable<T>`: linear probing,
  deduplication by lexeme, no deletion, and -1 when the table is full.

  The table is a sequence of slots; its capacity is the sequence length.
  Values are compared through `lexemeOf`, the model of `T::getLexeme`.
 */
module LexemeTable {

  import opened Wrappers
  import opened Text

  /** Capacity used by both the lexer's table and the variable table. */
  const DefaultCapacity: nat := 211

  /** 2^31: `x & 0x7FFFFFFF` on a two's-complement word is `x % TwoTo31`. */
  const TwoTo31: nat := 0x8000_0000

  /** The word width of `unsigned long` on LP64 targets (2^64). */
  const WordModulus: nat := 0x1_0000_0000_0000_0000

  /** A C++ `int`. */
  type Int32 = x: int | -0x8000_0000 <= x < 0x8000_0000

  /** One slot: the stored hash key, the value, and the two flags. */
  datatype Entry<T> = Entry(key: Int32, value: T, occupied: bool, deleted: bool)

  /** The table; `size` counts successful fresh insertions. */
  datatype Table<T> = Table(slots: seq<Entry<T>>, size: int)

  predicate Live<T>(e: Entry<T>) {
    e.occupied && !e.deleted
  }

  /** `HashTable(cap)`: every slot is unoccupied and not deleted, size 0.
      `blank` stands for the value that `T`'s default constructor builds. */
  function NewTable<T>(capacity: nat, blank: T): (t: Table<T>)
    ensures |t.slots| == capacity && t.size == 0
    ensures forall i :: 0 <= i < capacity ==> !t.slots[i].occupied && !t.slots[i].deleted
  {
    Table(seq(capacity, _ => Entry(0, blank, false, false)), 0)
  }

  // ---------------------------------------------------------------- hashing

  /** `hashFunc(int)`: the key with its sign bit cleared, reduced modulo capacity. */
  function HashInt(key: Int32, capacity: int): (h: int)
    requires capacity > 0
    ensures 0 <= h < capacity
    ensures h == (key + (if key < 0 then TwoTo31 else 0)) % capacity
  {
    (key % TwoTo31) % capacity
  }

  /** The byte `unsigned char` reads for a character. */
  function Byte(c: char): nat
  {
    (c as int) % 256
  }

  /** The base-131 polynomial over the bytes of `s`, without any wrap-around. */
  function Poly(s: string): nat
  {
    if s == [] then 0 else Poly(s[..|s| - 1]) * 131 + Byte(s[|s| - 1])
  }

  /** The `h = h * 131 + c` loop in an unsigned word of modulus `m`. */
  function Rolling(s: string, m: nat): nat
    requires m > 0
  {
    if s == [] then 0 else (Rolling(s[..|s| - 1], m) * 131 + Byte(s[|s| - 1])) % m
  }

  /** `hashFunc(string)`: the rolling hash masked with 0x7fffffff (not reduced modulo capacity). */
  function StringHash(s: string): (h: Int32)
    ensures 0 <= h < TwoTo31
  {
    Rolling(s, WordModulus) % TwoTo31
  }

  /** Division with remainder is unique. */
  lemma ModUnique(x: int, y: int, r: int, d: int)
    requires d > 0 && 0 <= r < d && x == y * d + r
    ensures x % d == r
  {
    var y', r' := x / d, x % d;
    assert x == y' * d + r';
    var e := y - y';
    assert e * d == r' - r by {
      assert y * d - y' * d == r' - r;
      MulSub(y, y', d);
    }
    if e >= 1 {
      MulAtLeast(e, d);
    } else if e <= -1 {
      MulAtLeast(-e, d);
    }
  }

  lemma MulSub(a: int, b: int, d: int)
    ensures a * d - b * d == (a - b) * d
  {
  }

  lemma MulAtLeast(e: int, d: int)
    requires e >= 1 && d > 0
    ensures e * d >= d
  {
    assert e * d == (e - 1) * d + d;
  }

  lemma ModOfMultiple(a: int, q: int, d: int)
    requires d > 0
    ensures (a + q * d) % d == a % d
  {
    var r := a % d;
    assert a == (a / d) * d + r;
    assert a + q * d == (a / d + q) * d + r;
    ModUnique(a + q * d, a / d + q, r, d);
  }

  lemma ModMod(a: int, m: int, d: int)
    requires d > 0 && m > 0 && m % d == 0
    ensures (a % m) % d == a % d
  {
    var k := m / d;
    assert m == k * d;
    assert a == (a / m) * m + a % m;
    assert a % m == a + (-(a / m) * k) * d;
    ModOfMultiple(a, -(a / m) * k, d);
  }

  lemma ModLinear(x: int, y: int, d: int)
    requires d > 0
    ensures (x * 131 + y) % d == ((x % d) * 131 + y) % d
  {
    assert x == (x / d) * d + x % d;
    assert x * 131 + y == (x % d) * 131 + y + ((x / d) * 131) * d;
    ModOfMultiple((x % d) * 131 + y, (x / d) * 131, d);
  }

  /** The masked hash does not depend on the width of `unsigned long`:
      any word modulus that is a multiple of 2^31 (2^32 or 2^64) gives the
      plain polynomial modulo 2^31. */
  lemma {:induction false} HashIndependentOfWidth(s: string, m: nat)
    requires m > 0 && m % TwoTo31 == 0
    ensures Rolling(s, m) % TwoTo31 == Poly(s) % TwoTo31
  {
    if s != [] {
      var p := s[..|s| - 1];
      var b := Byte(s[|s| - 1]);
      HashIndependentOfWidth(p, m);
      calc {
        Rolling(s, m) % TwoTo31;
        ((Rolling(p, m) * 131 + b) % m) % TwoTo31;
        { ModMod(Rolling(p, m) * 131 + b, m, TwoTo31); }
        (Rolling(p, m) * 131 + b) % TwoTo31;
        { ModLinear(Rolling(p, m), b, TwoTo31); }
        ((Rolling(p, m) % TwoTo31) * 131 + b) % TwoTo31;
        ((Poly(p) % TwoTo31) * 131 + b) % TwoTo31;
        { ModLinear(Poly(p), b, TwoTo31); }
        (Poly(p) * 131 + b) % TwoTo31;
      }
    }
  }

  /** The home slot of a lexeme: `hashFunc(int)` applied to `hashFunc(string)`. */
  function Home(lexeme: string, capacity: int): (h: int)
    requires capacity > 0
    ensures 0 <= h < capacity
    ensures h == (Poly(lexeme) % TwoTo31) % capacity
  {
    HashIndependentOfWidth(lexeme, WordModulus);
    HashInt(StringHash(lexeme), capacity)
  }

  // ---------------------------------------------------------------- probing

  /** The slot `j` steps after `start`, wrapping once: `(start + j) % capacity`. */
  function Cyc(start: int, j: int, capacity: int): (i: int)
    requires 0 <= start < capacity && 0 <= j <= capacity
    ensures 0 <= i < capacity
  {
    if start + j < capacity then start + j else start + j - capacity
  }

  /** `Cyc` is the source's modular index arithmetic, one step at a time. */
  lemma CycStep(start: int, j: int, capacity: int)
    requires 0 <= start < capacity && 0 <= j < capacity
    ensures Cyc(start, j + 1, capacity) == (Cyc(start, j, capacity) + 1) % capacity
  {
    var x := Cyc(start, j, capacity) + 1;
    if x < capacity {
      ModUnique(x, 0, x, capacity);
    } else {
      ModUnique(x, 1, 0, capacity);
    }
  }

  /** How many steps after `start` slot `i` comes, in 1..capacity (`start` itself is `capacity`). */
  function Offset(start: int, i: int, capacity: int): (j: int)
    requires 0 <= start < capacity && 0 <= i < capacity
    ensures 1 <= j <= capacity && Cyc(start, j, capacity) == i
  {
    if i > start then i - start else i - start + capacity
  }

  lemma OffsetOfCyc(start: int, j: int, capacity: int)
    requires 0 <= start < capacity && 1 <= j <= capacity
    ensures Offset(start, Cyc(start, j, capacity), capacity) == j
  {
  }

  lemma CycInjective(start: int, j1: int, j2: int, capacity: int)
    requires 0 <= start < capacity && 0 <= j1 < capacity && 0 <= j2 < capacity
    requires Cyc(start, j1, capacity) == Cyc(start, j2, capacity)
    ensures j1 == j2
  {
  }

  /** Where the probing loop ended: on a live slot holding the lexeme (`Found`),
      or on the slot the loop stopped at (`Stopped`); `offset` counts steps from the home slot. */
  datatype Probe = Found(offset: nat) | Stopped(offset: nat)

  predicate Holds<T>(e: Entry<T>, lexemeOf: T -> string, lexeme: string) {
    Live(e) && lexemeOf(e.value) == lexeme
  }

  /** The `do { … } while (idx != start && table[idx].occupied)` loop, from step `k` on.
      The body tests slot `start + k`; the loop goes on to the next slot only while
      that slot is occupied and is not the home slot again. */
  function Scan<T>(slots: seq<Entry<T>>, lexemeOf: T -> string, lexeme: string, start: int, k: nat): (p: Probe)
    requires 0 <= start < |slots| && k < |slots|
    ensures k <= p.offset
    ensures p.Found? ==> p.offset < |slots| && Holds(slots[Cyc(start, p.offset, |slots|)], lexemeOf, lexeme)
    ensures p.Stopped? ==> k < p.offset <= |slots|
    ensures p.Stopped? && p.offset < |slots| ==> !slots[Cyc(start, p.offset, |slots|)].occupied
    ensures forall j :: k <= j < p.offset && j < |slots| ==> !Holds(slots[Cyc(start, j, |slots|)], lexemeOf, lexeme)
    ensures forall j :: k < j < p.offset ==> slots[Cyc(start, j, |slots|)].occupied
    decreases |slots| - k
  {
    if Holds(slots[Cyc(start, k, |slots|)], lexemeOf, lexeme) then Found(k)
    else if k + 1 < |slots| && slots[Cyc(start, k + 1, |slots|)].occupied then Scan(slots, lexemeOf, lexeme, start, k + 1)
    else Stopped(k + 1)
  }

  /** The result of `insert`: the new table and the returned index. */
  datatype Inserted<T> = Inserted(table: Table<T>, index: int)

  /** `insert(key, value)`. */
  function Insert<T>(t: Table<T>, lexemeOf: T -> string, key: Int32, value: T): (r: Inserted<T>)
    requires |t.slots| > 0
    ensures |r.table.slots| == |t.slots|
    ensures r.index == -1 || 0 <= r.index < |t.slots|
    ensures r.index != -1 ==> Holds(r.table.slots[r.index], lexemeOf, lexemeOf(value))
    ensures r.index == -1 ==> r.table == t && forall i :: 0 <= i < |t.slots| ==> t.slots[i].occupied
    ensures r.table == t || (r.index != -1 && !Live(t.slots[r.index])
                            && r.table == Table(t.slots[r.index := Entry(key, value, true, false)], t.size + 1))
  {
    var cap := |t.slots|;
    var home := HashInt(key, cap);
    var p := Scan(t.slots, lexemeOf, lexemeOf(value), home, 0);
    var i := Cyc(home, p.offset, cap);
    if p.Found? then Inserted(t, i)
    else if Live(t.slots[i]) then
      assert forall j :: 0 <= j < cap ==> t.slots[j].occupied by {
        forall j | 0 <= j < cap ensures t.slots[j].occupied {
          var o := Offset(home, j, cap);
          if o < cap { assert t.slots[Cyc(home, o, cap)].occupied; }
        }
      }
      Inserted(t, -1)
    else Inserted(Table(t.slots[i := Entry(key, value, true, false)], t.size + 1), i)
  }

  /** The probing loop of `insert` as an imperative loop over slot indices. */
  method InsertLoop<T>(t: Table<T>, lexemeOf: T -> string, key: Int32, value: T) returns (t': Table<T>, idx: int)
    requires |t.slots| > 0
    ensures Inserted(t', idx) == Insert(t, lexemeOf, key, value)
  {
    var cap := |t.slots|;
    var lexeme := lexemeOf(value);
    var start := HashInt(key, cap);
    ghost var outcome := Scan(t.slots, lexemeOf, lexeme, start, 0);
    idx := start;
    ghost var k: nat := 0;
    var found := false;
    while true
      invariant k < cap && idx == Cyc(start, k, cap)
      invariant Scan(t.slots, lexemeOf, lexeme, start, k) == outcome
      decreases cap - k
    {
      if Live(t.slots[idx]) && lexemeOf(t.slots[idx].value) == lexeme {
        found := true;
        break;
      }
      var next := (idx + 1) % cap;
      CycStep(start, k, cap);
      idx, k := next, k + 1;
      if !(idx != start && t.slots[idx].occupied) {
        break;
      }
    }
    if found {
      assert outcome == Found(k);
      t' := t;
    } else {
      assert outcome == Stopped(k) && idx == Cyc(start, outcome.offset, cap);
      if Live(t.slots[idx]) {
        t', idx := t, -1;
      } else {
        t' := Table(t.slots[idx := Entry(key, value, true, false)], t.size + 1);
      }
    }
  }

  /** `atIndex`: the slot at `idx` if it is in range and live. */
  function AtIndex<T>(t: Table<T>, idx: int): (r: Option<Entry<T>>)
    ensures r.Some? <==> 0 <= idx < |t.slots| && Live(t.slots[idx])
    ensures r.Some? ==> r.value == t.slots[idx]
  {
    if idx < 0 || idx >= |t.slots| then None
    else if Live(t.slots[idx]) then Some(t.slots[idx])
    else None
  }

  // ---------------------------------------------------------------- invariant

  function CountOccupied<T>(slots: seq<Entry<T>>): nat
  {
    if slots == [] then 0 else (if slots[0].occupied then 1 else 0) + CountOccupied(slots[1..])
  }

  lemma {:induction false} CountOccupiedUpdate<T>(slots: seq<Entry<T>>, i: int, e: Entry<T>)
    requires 0 <= i < |slots| && !slots[i].occupied && e.occupied
    ensures CountOccupied(slots[i := e]) == CountOccupied(slots) + 1
  {
    if i > 0 {
      assert slots[i := e][1..] == slots[1..][i - 1 := e];
      CountOccupiedUpdate(slots[1..], i - 1, e);
    } else {
      assert slots[i := e][1..] == slots[1..];
    }
  }

  /** Every slot between a live entry's home slot and the entry itself is occupied,
      so the probing loop started at the home slot reaches the entry. */
  predicate Reachable<T>(slots: seq<Entry<T>>, i: int)
    requires 0 <= i < |slots|
  {
    var cap := |slots|;
    var home := HashInt(slots[i].key, cap);
    forall j :: 1 <= j < Offset(home, i, cap) ==> slots[Cyc(home, j, cap)].occupied
  }

  /** The table invariant: keys are the hash of the value's lexeme, nothing is
      deleted, every entry is reachable from its home slot, no two live slots
      hold the same lexeme, and `size` counts the occupied slots. */
  predicate Valid<T>(t: Table<T>, lexemeOf: T -> string, hashOf: string -> Int32)
  {
    && |t.slots| > 0
    && (forall i :: 0 <= i < |t.slots| ==> !t.slots[i].deleted)
    && (forall i :: 0 <= i < |t.slots| && t.slots[i].occupied ==> t.slots[i].key == hashOf(lexemeOf(t.slots[i].value)))
    && (forall i :: 0 <= i < |t.slots| && t.slots[i].occupied ==> Reachable(t.slots, i))
    && (forall i, j :: (0 <= i < |t.slots| && 0 <= j < |t.slots| && t.slots[i].occupied && t.slots[j].occupied
                        && lexemeOf(t.slots[i].value) == lexemeOf(t.slots[j].value)) ==> i == j)
    && t.size == CountOccupied(t.slots)
  }

  /** The table holds `lexeme` in some live slot. */
  predicate Contains<T>(t: Table<T>, lexemeOf: T -> string, lexeme: string) {
    exists i :: 0 <= i < |t.slots| && Holds(t.slots[i], lexemeOf, lexeme)
  }

  lemma NewTableValid<T>(capacity: nat, blank: T, lexemeOf: T -> string, hashOf: string -> Int32)
    requires capacity > 0
    ensures Valid(NewTable(capacity, blank), lexemeOf, hashOf)
  {
    var t := NewTable(capacity, blank);
    assert forall s: seq<Entry<T>> :: (forall i :: 0 <= i < |s| ==> !s[i].occupied) ==> CountOccupied(s) == 0 by {
      forall s: seq<Entry<T>> | forall i :: 0 <= i < |s| ==> !s[i].occupied
        ensures CountOccupied(s) == 0
      {
        CountNoneOccupied(s);
      }
    }
  }

  lemma {:induction false} CountNoneOccupied<T>(s: seq<Entry<T>>)
    requires forall i :: 0 <= i < |s| ==> !s[i].occupied
    ensures CountOccupied(s) == 0
  {
    if s != [] {
      CountNoneOccupied(s[1..]);
    }
  }

  /** From step `k` on, the scan of a valid table reaches the live slot `p` holding
      `lexeme` when `p` is `target` steps after the home slot. */
  lemma {:induction false} ScanReaches<T>(t: Table<T>, lexemeOf: T -> string, hashOf: string -> Int32,
                                          lexeme: string, p: int, target: nat, k: nat)
    requires Valid(t, lexemeOf, hashOf)
    requires 0 <= p < |t.slots| && Holds(t.slots[p], lexemeOf, lexeme)
    requires target < |t.slots|
    requires Cyc(HashInt(hashOf(lexeme), |t.slots|), target, |t.slots|) == p
    requires target == 0 || target == Offset(HashInt(hashOf(lexeme), |t.slots|), p, |t.slots|)
    requires k <= target
    ensures Scan(t.slots, lexemeOf, lexeme, HashInt(hashOf(lexeme), |t.slots|), k) == Found(target)
    decreases target - k
  {
    var cap := |t.slots|;
    var home := HashInt(hashOf(lexeme), cap);
    var here := Cyc(home, k, cap);
    if k < target {
      if Holds(t.slots[here], lexemeOf, lexeme) {
        CycInjective(home, k, target, cap);
      }
      assert Reachable(t.slots, p);
      assert t.slots[Cyc(home, k + 1, cap)].occupied;
      ScanReaches(t, lexemeOf, hashOf, lexeme, p, target, k + 1);
    }
  }

  /** In a valid table, the scan from the home slot finds a present lexeme. */
  lemma ScanFindsPresent<T>(t: Table<T>, lexemeOf: T -> string, hashOf: string -> Int32, lexeme: string, p: int)
    requires Valid(t, lexemeOf, hashOf)
    requires 0 <= p < |t.slots| && Holds(t.slots[p], lexemeOf, lexeme)
    ensures Scan(t.slots, lexemeOf, lexeme, HashInt(hashOf(lexeme), |t.slots|), 0).Found?
    ensures Cyc(HashInt(hashOf(lexeme), |t.slots|), Scan(t.slots, lexemeOf, lexeme, HashInt(hashOf(lexeme), |t.slots|), 0).offset, |t.slots|) == p
  {
    var cap := |t.slots|;
    var home := HashInt(hashOf(lexeme), cap);
    var o := Offset(home, p, cap);
    var target := if o < cap then o else 0;
    ScanReaches(t, lexemeOf, hashOf, lexeme, p, target, 0);
  }

  /** Inserting a lexeme that a live slot already holds returns that slot and changes nothing. */
  lemma InsertExisting<T>(t: Table<T>, lexemeOf: T -> string, hashOf: string -> Int32, value: T, p: int)
    requires Valid(t, lexemeOf, hashOf)
    requires 0 <= p < |t.slots| && Holds(t.slots[p], lexemeOf, lexemeOf(value))
    ensures Insert(t, lexemeOf, hashOf(lexemeOf(value)), value) == Inserted(t, p)
  {
    ScanFindsPresent(t, lexemeOf, hashOf, lexemeOf(value), p);
  }

  /** `insert` returns -1 exactly when every slot is occupied and none holds the lexeme. */
  lemma InsertFull<T>(t: Table<T>, lexemeOf: T -> string, hashOf: string -> Int32, value: T)
    requires Valid(t, lexemeOf, hashOf)
    ensures Insert(t, lexemeOf, hashOf(lexemeOf(value)), value).index == -1
        <==> (forall i :: 0 <= i < |t.slots| ==> t.slots[i].occupied) && !Contains(t, lexemeOf, lexemeOf(value))
  {
    var cap := |t.slots|;
    var lexeme := lexemeOf(value);
    var home := HashInt(hashOf(lexeme), cap);
    var r := Insert(t, lexemeOf, hashOf(lexeme), value);
    if Contains(t, lexemeOf, lexeme) {
      var p :| 0 <= p < cap && Holds(t.slots[p], lexemeOf, lexeme);
      InsertExisting(t, lexemeOf, hashOf, value, p);
    } else if forall i :: 0 <= i < cap ==> t.slots[i].occupied {
      var s := Scan(t.slots, lexemeOf, lexeme, home, 0);
      assert s.offset == cap;
    }
  }

  /** A fresh lexeme in a table with room goes to the first unoccupied slot in the
      cyclic order home+1, home+2, …, home, and only that slot and `size` change. */
  lemma InsertFresh<T>(t: Table<T>, lexemeOf: T -> string, hashOf: string -> Int32, value: T)
    requires Valid(t, lexemeOf, hashOf)
    requires !Contains(t, lexemeOf, lexemeOf(value))
    requires exists i :: 0 <= i < |t.slots| && !t.slots[i].occupied
    ensures var r := Insert(t, lexemeOf, hashOf(lexemeOf(value)), value);
            var home := Home0(t, hashOf, lexemeOf(value));
            var m := Offset(home, r.index, |t.slots|);
            && 0 <= r.index < |t.slots|
            && !t.slots[r.index].occupied
            && (forall j :: 1 <= j < m ==> t.slots[Cyc(home, j, |t.slots|)].occupied)
            && r.table == Table(t.slots[r.index := Entry(hashOf(lexemeOf(value)), value, true, false)], t.size + 1)
  {
    var cap := |t.slots|;
    var lexeme := lexemeOf(value);
    var home := HashInt(hashOf(lexeme), cap);
    var s := Scan(t.slots, lexemeOf, lexeme, home, 0);
    var r := Insert(t, lexemeOf, hashOf(lexeme), value);
    InsertFull(t, lexemeOf, hashOf, value);
    assert s.Stopped?;
    OffsetOfCyc(home, s.offset, cap);
  }

  /** The home slot of `lexeme` in `t` under the key function `hashOf`. */
  function Home0<T>(t: Table<T>, hashOf: string -> Int32, lexeme: string): int
    requires |t.slots| > 0
  {
    HashInt(hashOf(lexeme), |t.slots|)
  }

  /** Into an empty table a lexeme lands one past its home slot. */
  lemma InsertIntoEmpty<T>(capacity: nat, blank: T, lexemeOf: T -> string, hashOf: string -> Int32, value: T)
    requires capacity > 0
    ensures Insert(NewTable(capacity, blank), lexemeOf, hashOf(lexemeOf(value)), value).index
         == (HashInt(hashOf(lexemeOf(value)), capacity) + 1) % capacity
  {
    var t := NewTable(capacity, blank);
    NewTableValid(capacity, blank, lexemeOf, hashOf);
    var home := HashInt(hashOf(lexemeOf(value)), capacity);
    assert !t.slots[Cyc(home, 1, capacity)].occupied;
    InsertFresh(t, lexemeOf, hashOf, value);
    var r := Insert(t, lexemeOf, hashOf(lexemeOf(value)), value);
    assert r.index == Cyc(home, 1, capacity);
    CycStep(home, 0, capacity);
  }

  /** `insert` keeps the table invariant when the key is the hash of the lexeme. */
  lemma InsertPreservesValid<T>(t: Table<T>, lexemeOf: T -> string, hashOf: string -> Int32, value: T)
    requires Valid(t, lexemeOf, hashOf)
    ensures Valid(Insert(t, lexemeOf, hashOf(lexemeOf(value)), value).table, lexemeOf, hashOf)
  {
    var cap := |t.slots|;
    var lexeme := lexemeOf(value);
    var r := Insert(t, lexemeOf, hashOf(lexeme), value);
    if r.table != t {
      InsertFull(t, lexemeOf, hashOf, value);
      var q := r.index;
      var e := Entry(hashOf(lexeme), value, true, false);
      var s' := r.table.slots;
      assert s' == t.slots[q := e];
      CountOccupiedUpdate(t.slots, q, e);
      assert !Contains(t, lexemeOf, lexeme) by {
        if Contains(t, lexemeOf, lexeme) {
          var p :| 0 <= p < cap && Holds(t.slots[p], lexemeOf, lexeme);
          InsertExisting(t, lexemeOf, hashOf, value, p);
        }
      }
      InsertFresh(t, lexemeOf, hashOf, value);
      forall i | 0 <= i < cap && s'[i].occupied
        ensures Reachable(s', i)
      {
        if i != q {
          assert Reachable(t.slots, i);
        }
      }
    }
  }

  /** Inserting the same value twice returns the same index and the second call changes nothing. */
  lemma InsertIdempotent<T>(t: Table<T>, lexemeOf: T -> string, hashOf: string -> Int32, value: T)
    requires Valid(t, lexemeOf, hashOf)
    ensures var r1 := Insert(t, lexemeOf, hashOf(lexemeOf(value)), value);
            var r2 := Insert(r1.table, lexemeOf, hashOf(lexemeOf(value)), value);
            r1.index != -1 ==> r2 == Inserted(r1.table, r1.index)
  {
    var r1 := Insert(t, lexemeOf, hashOf(lexemeOf(value)), value);
    InsertPreservesValid(t, lexemeOf, hashOf, value);
    if r1.index != -1 {
      InsertExisting(r1.table, lexemeOf, hashOf, value, r1.index);
    }
  }

  /** The slot `insert` reports is then readable through `atIndex` and holds the lexeme. */
  lemma InsertThenAtIndex<T>(t: Table<T>, lexemeOf: T -> string, key: Int32, value: T)
    requires |t.slots| > 0
    ensures var r := Insert(t, lexemeOf, key, value);
            r.index != -1 ==> AtIndex(r.table, r.index).Some? && lexemeOf(AtIndex(r.table, r.index).value.value) == lexemeOf(value)
  {
  }

  // ---------------------------------------------------------------- listing

  /** Indices of live slots from `from` on, in ascending order. */
  function LiveFrom<T>(slots: seq<Entry<T>>, from: nat): (r: seq<nat>)
    requires from <= |slots|
    ensures forall k :: 0 <= k < |r| ==> from <= r[k] < |slots| && Live(slots[r[k]])
    ensures forall k, l :: 0 <= k < l < |r| ==> r[k] < r[l]
    ensures forall i :: from <= i < |slots| && Live(slots[i]) ==> i in r
    decreases |slots| - from
  {
    if from == |slots| then []
    else (if Live(slots[from]) then [from] else []) + LiveFrom(slots, from + 1)
  }

  /** The slots `printToStream` visits: every live slot, ascending. */
  function LiveSlots<T>(t: Table<T>): (r: seq<nat>)
    ensures forall i :: 0 <= i < |t.slots| && Live(t.slots[i]) <==> i in r
    ensures forall k, l :: 0 <= k < l < |r| ==> r[k] < r[l]
  {
    LiveFrom(t.slots, 0)
  }

  /** `printToStream`: one line `<kind> | <lexeme> | <slot>` per live slot, in slot order;
      `kindNameOf` stands for `T::typeToString`. */
  function Listing<T>(t: Table<T>, kindNameOf: T -> string, lexemeOf: T -> string): (lines: seq<string>)
    ensures |lines| == |LiveSlots(t)|
    ensures forall k :: 0 <= k < |lines| ==>
              lines[k] == ListingLine(kindNameOf(t.slots[LiveSlots(t)[k]].value),
                                      lexemeOf(t.slots[LiveSlots(t)[k]].value), LiveSlots(t)[k])
  {
    var live := LiveSlots(t);
    seq(|live|, k requires 0 <= k < |live| =>
      ListingLine(kindNameOf(t.slots[live[k]].value), lexemeOf(t.slots[live[k]].value), live[k]))
  }

  function ListingLine(kind: string, lexeme: string, slot: nat): string
  {
    kind + " | " + lexeme + " | " + NatToString(slot)
  }
}
