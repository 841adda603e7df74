/**
 * Concrete uses of `SlotMap`, proved from its method contracts alone: the
 * push/erase trace of the repository's example program, the capacity bound,
 * double erase, and a fresh map accepting a key it never issued.
 */
module SlotMapScenarios {
  import opened SlotMaps

  /** Slots `lo .. hi` are free and each links to its successor. */
  ghost predicate Linked(m: SlotMap<int>, lo: nat, hi: nat)
    reads m, m.indices
  {
    hi <= m.indices.Length && forall j :: lo <= j < hi ==> m.indices[j].id == j + 1
  }

  /** A fresh map: every slot is free and links to its successor. */
  method NewMap(capacity: nat) returns (m: SlotMap<int>)
    ensures m.Valid() && fresh(m) && fresh(m.indices) && fresh(m.data) && fresh(m.erase)
    ensures m.capacity == capacity && m.size == 0 && m.freelist == 0 && m.generation == 0
    ensures Linked(m, 0, capacity)
  {
    m := new SlotMap<int>(capacity);
    forall j | 0 <= j < capacity ensures m.indices[j].id == j + 1 {
      assert m.indices[j] == m.Tab().indices[j];
    }
  }

  /**
   * `push_back` into a map with room, seen slot by slot: the key it returns,
   * the slot and dense position it fills, and what stays as it was.
   */
  method Push(m: SlotMap<int>, value: int) returns (key: Key)
    requires m.Valid() && m.size < m.capacity
    modifies m, m.indices, m.data, m.erase
    ensures m.Valid()
    ensures key == Key(old(m.freelist), old(m.generation)) && m.freelist == old(m.indices[m.freelist].id)
    ensures m.size == old(m.size) + 1 && m.generation == old(m.generation) + 1
    ensures m.indices[key.id] == Key(old(m.size), old(m.generation)) && m.erase[old(m.size)] == key.id
    ensures forall j :: 0 <= j < m.capacity && j != key.id ==> m.indices[j] == old(m.indices[j])
    ensures m.data[old(m.size)] == value
    ensures forall j :: 0 <= j < m.capacity && j != old(m.size) ==> m.data[j] == old(m.data[j])
    ensures m.book.issued == old(m.book.issued) + {key}
  {
    var r := m.PushBack(value);
    key := r.value;
  }

  /** The example program's first two pushes: values 0 and 1 get keys `{0, 0}` and `{1, 1}`. */
  method PushFirstTwo(m: SlotMap<int>) returns (k0: Key, k1: Key)
    requires m.Valid() && m.capacity == 10 && m.size == 0 && m.freelist == 0 && m.generation == 0
    requires Linked(m, 0, 10)
    modifies m, m.indices, m.data, m.erase
    ensures m.Valid() && m.size == 2 && m.freelist == 2 && m.generation == 2
    ensures Linked(m, 2, 8)
    ensures m.data[0] == 0 && m.data[1] == 1
    ensures k0 == Key(0, 0) && k1 == Key(1, 1)
  {
    k0 := Push(m, 0);
    assert m.freelist == 1 && Linked(m, 1, 8);
    k1 := Push(m, 1);
  }

  /** The next three pushes: values 2, 3 and 4 get keys `{i, i}`; the third key is `{2, 2}`. */
  method PushNextThree(m: SlotMap<int>) returns (third: Key, k3: Key, k4: Key)
    requires m.Valid() && m.capacity == 10 && m.size == 2 && m.freelist == 2 && m.generation == 2
    requires Linked(m, 2, 8)
    requires m.data[0] == 0 && m.data[1] == 1
    modifies m, m.indices, m.data, m.erase
    ensures m.Valid() && m.size == 5 && m.freelist == 5 && m.generation == 5
    ensures third == Key(2, 2) && third in m.book.issued && m.indices[2] == Key(2, 2)
    ensures k3 == Key(3, 3) && k4 == Key(4, 4)
    ensures m.erase[4] == 4
    ensures Linked(m, 5, 8)
    ensures m.data[0] == 0 && m.data[1] == 1 && m.data[2] == 2 && m.data[3] == 3 && m.data[4] == 4
  {
    var k2 := Push(m, 2);
    assert k2 == Key(2, 2) && m.freelist == 3 && Linked(m, 3, 8);
    k3 := Push(m, 3);
    assert m.freelist == 4 && Linked(m, 4, 8);
    k4 := Push(m, 4);
    third := k2;
  }

  /**
   * Second half: after the third key was erased, slot 2 heads the free list
   * and links to 5; the next four pushes reuse slots 2, 5, 6 and 7, and the
   * erased key stays invalid.
   */
  method PushFour(m: SlotMap<int>, erased: Key) returns (keys: seq<Key>)
    requires m.Valid() && m.capacity == 10 && m.size == 4 && m.freelist == 2 && m.generation == 6
    requires m.indices[2] == Key(5, 5) && Linked(m, 5, 8)
    requires m.data[0] == 0 && m.data[1] == 1 && m.data[2] == 4 && m.data[3] == 3
    requires erased == Key(2, 2)
    modifies m, m.indices, m.data, m.erase
    ensures m.Valid()
    ensures keys == [Key(2, 6), Key(5, 7), Key(6, 8), Key(7, 9)]
    ensures m.Elements() == [0, 1, 4, 3, 6, 7, 8, 9]
    ensures !m.IsKeyValid(erased)
  {
    var k6 := Push(m, 6);
    assert k6 == Key(2, 6) && m.freelist == 5;
    var k7 := Push(m, 7);
    assert k7 == Key(5, 7) && m.freelist == 6;
    var k8 := Push(m, 8);
    assert k8 == Key(6, 8) && m.freelist == 7;
    var k9 := Push(m, 9);
    assert k9 == Key(7, 9);
    keys := [k6, k7, k8, k9];
    FinalOrder(m.Elements());
  }

  /** Pins the example's final dense order down position by position. */
  lemma FinalOrder(s: seq<int>)
    requires |s| == 8 && s[0] == 0 && s[1] == 1 && s[2] == 4 && s[3] == 3
    requires s[4] == 6 && s[5] == 7 && s[6] == 8 && s[7] == 9
    ensures s == [0, 1, 4, 3, 6, 7, 8, 9]
  {
  }

  /**
   * The trace of examples/main.cpp, with `name__i` written as `i`: capacity
   * 10, push 0 .. 4, erase the third key, then push 6 .. 9 (iteration 5
   * erases instead of pushing). The erased key stays invalid although its
   * slot is reused.
   */
  method ExampleTrace() returns (final: seq<int>, erased: Key, erasedStillValid: bool)
    ensures erased == Key(2, 2)
    ensures !erasedStillValid
    ensures final == [0, 1, 4, 3, 6, 7, 8, 9]
  {
    var m := NewMap(10);
    var k0, k1 := PushFirstTwo(m);
    var k3, k4;
    erased, k3, k4 := PushNextThree(m);
    EraseThird(m, erased);
    var keys := PushFour(m, erased);
    final := m.Elements();
    erasedStillValid := m.IsKeyValid(erased);
  }

  /**
   * Iteration 5 erases the third key: the last value (4) moves into its dense
   * position and its slot 2 heads the free list, linking to the old head 5.
   */
  method EraseThird(m: SlotMap<int>, third: Key)
    requires m.Valid() && m.capacity == 10 && m.size == 5 && m.freelist == 5 && m.generation == 5
    requires third == Key(2, 2) && third in m.book.issued && m.indices[2] == Key(2, 2)
    requires m.erase[4] == 4 && Linked(m, 5, 8)
    requires m.data[0] == 0 && m.data[1] == 1 && m.data[2] == 2 && m.data[3] == 3 && m.data[4] == 4
    modifies m, m.indices, m.data, m.erase
    ensures m.Valid() && m.capacity == 10 && m.size == 4 && m.freelist == 2 && m.generation == 6
    ensures m.indices[2] == Key(5, 5) && Linked(m, 5, 8)
    ensures m.data[0] == 0 && m.data[1] == 1 && m.data[2] == 4 && m.data[3] == 3
    ensures third in m.book.issued && !m.IsKeyValid(third)
  {
    var ok := m.Erase(third);
    assert ok;
  }

  /** A map of capacity 2 takes two values; the third `push_back` fails and changes nothing. */
  method CapacityBound() returns (third: Result<Key>, size: nat, firstValid: bool, secondValid: bool)
    ensures third == Err(CapacityExceeded)
    ensures size == 2 && firstValid && secondValid
  {
    var m := new SlotMap<int>(2);
    var a := m.PushBack(10);
    var b := m.PushBack(20);
    third := m.PushBack(30);
    size := m.Size();
    firstValid := m.IsKeyValid(a.value);
    secondValid := m.IsKeyValid(b.value);
  }

  /** A map of capacity 4 holding 5 and then 7; `first` is the key of 5. */
  method PushTwo() returns (m: SlotMap<int>, first: Key)
    ensures fresh(m) && fresh(m.indices) && fresh(m.data) && fresh(m.erase)
    ensures m.Valid() && m.size == 2 && m.data[0] == 5 && m.data[1] == 7
    ensures first in m.book.issued && m.IsKeyValid(first) && m.indices[first.id].id == 0
  {
    m := NewMap(4);
    var a := Push(m, 5);
    assert a == Key(0, 0) && m.freelist == 1 && Linked(m, 1, 2);
    var b := Push(m, 7);
    assert b == Key(1, 1);
    first := a;
  }

  /** Erasing the same issued key twice returns true, then false. */
  method DoubleErase() returns (first: bool, second: bool, elements: seq<int>)
    ensures first && !second
    ensures elements == [7]
  {
    var m, a := PushTwo();
    first := m.Erase(a);
    assert m.size == 1 && m.data[0] == 7;
    second := m.Erase(a);
    elements := m.Elements();
    SingleElement(elements, 7);
  }

  lemma SingleElement(s: seq<int>, v: int)
    requires |s| == 1 && s[0] == v
    ensures s == [v]
  {
  }

  /**
   * Validity is not liveness: every slot of a fresh map has generation 0, so
   * `{id: 3, generation: 0}` passes `is_key_valid` although nothing was pushed.
   */
  method FreshMapAcceptsUnissuedKey() returns (valid: bool, size: nat)
    ensures valid && size == 0
  {
    var m := new SlotMap<int>(10);
    valid := m.IsKeyValid(Key(3, 0));
    size := m.Size();
  }
}
