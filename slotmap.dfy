/**
 * The fixed-capacity generational slot map `vecs::SlotMap<T, Capacity, TIndex>`.
 *
 * The map keeps three parallel arrays: `indices` (per-slot id and generation; for a
 * live slot the id is its dense position, for a free slot the id is the next link of
 * the free list), `data` (the dense values in positions [0, size)) and `erase`
 * (dense position -> owning slot id), plus the scalars `size`, `freelist` (head of
 * the free list, `Capacity` as sentinel) and the global `generation` counter.
 *
 * The bookkeeping part of that state, without the values, is the datatype `Table`;
 * `PushTable` and `EraseTable` are what `push_back` and `erase` do to it, `Inv` is
 * the invariant they keep, and the class `SlotMap` at the end is the in-place
 * implementation, proved against those functions.
 */
module SlotMaps {

  /** A handle handed out by `push_back`: `key_t { id, generation }`. */
  datatype Key = Key(id: nat, generation: nat)

  /** The only failure: `push_back` on a full map throws `std::runtime_error`. */
  datatype Error = CapacityExceeded

  datatype Result<R> = Ok(value: R) | Err(error: Error)

  /** The operations a caller can apply, for reasoning about whole histories. */
  datatype Op = PushOp | EraseOp(key: Key)

  // ---------------------------------------------------------------------------
  // Dense-array helpers
  // ---------------------------------------------------------------------------

  ghost predicate Distinct<A>(s: seq<A>) {
    forall i, j :: 0 <= i < j < |s| ==> s[i] != s[j]
  }

  /** The numbers 0 .. n-1 in order. */
  function Range(n: nat): (r: seq<nat>)
    ensures |r| == n && forall i :: 0 <= i < n ==> r[i] == i
  {
    seq(n, i => i)
  }

  /**
   * Swap-remove: the last element moves into position `i` and the sequence
   * shrinks by one. This is what `_free_slot` does to the live prefix of
   * `data` and `erase`; `SwapRemoveMultiset` shows it is a permutation of the rest.
   */
  function SwapRemove<A>(s: seq<A>, i: nat): (r: seq<A>)
    requires i < |s|
    ensures |r| == |s| - 1
    ensures forall j :: 0 <= j < |r| && j != i ==> r[j] == s[j]
    ensures i < |r| ==> r[i] == s[|s| - 1]
  {
    s[i := s[|s| - 1]][..|s| - 1]
  }

  /** Swap-remove drops exactly one occurrence of the removed element. */
  lemma SwapRemoveMultiset<A>(s: seq<A>, i: nat)
    requires i < |s|
    ensures multiset(SwapRemove(s, i)) == multiset(s) - multiset{s[i]}
  {
    var n := |s| - 1;
    if i == n {
      assert s == s[..n] + [s[n]];
      assert SwapRemove(s, i) == s[..n];
    } else {
      assert s == s[..i] + [s[i]] + s[i + 1..n] + [s[n]];
      assert SwapRemove(s, i) == s[..i] + [s[n]] + s[i + 1..n];
    }
  }

  /** On a sequence without repetitions, swap-remove removes exactly `s[i]` and keeps the rest distinct. */
  lemma SwapRemoveDistinct<A>(s: seq<A>, i: nat)
    requires i < |s| && Distinct(s)
    ensures Distinct(SwapRemove(s, i))
    ensures forall x :: x in SwapRemove(s, i) <==> x in s && x != s[i]
  {
    var r := SwapRemove(s, i);
    forall x
      ensures x in r <==> x in s && x != s[i]
    {
      if x in r {
        var j :| 0 <= j < |r| && r[j] == x;
        if j == i {
          assert x == s[|s| - 1];
        } else {
          assert x == s[j];
        }
      }
      if x in s && x != s[i] {
        var j :| 0 <= j < |s| && s[j] == x;
        if j == |s| - 1 {
          assert r[i] == x;
        } else {
          assert r[j] == x;
        }
      }
    }
  }

  /** What `_free_slot` does to the whole `data` buffer: the last live value moves into the hole. */
  function MoveLastInto<A>(a: seq<A>, n: nat, d: nat): (r: seq<A>)
    requires d < n <= |a|
    ensures |r| == |a| && r[d] == a[n - 1]
    ensures forall j :: 0 <= j < |a| && j != d ==> r[j] == a[j]
  {
    if d != n - 1 then a[d := a[n - 1]] else a
  }

  /** Seen through the live prefix, moving the last value into the hole is swap-remove. */
  lemma SwapRemoveInPlace<A>(a: seq<A>, n: nat, d: nat)
    requires d < n <= |a|
    ensures |MoveLastInto(a, n, d)| == |a|
    ensures MoveLastInto(a, n, d)[..n - 1] == SwapRemove(a[..n], d)
  {
  }

  /**
   * Swap-removing the same position from the keys and from the values keeps
   * every other pair together: the pair at `q` is found at one position of the
   * results (position `i` if it was the last one, `q` otherwise).
   */
  lemma SwapRemoveKeepsPairs<A, B>(ks: seq<A>, vs: seq<B>, i: nat, q: nat)
    requires |ks| == |vs| && i < |ks| && q < |ks| && q != i
    ensures var r := if q == |ks| - 1 then i else q;
            r < |ks| - 1 && SwapRemove(ks, i)[r] == ks[q] && SwapRemove(vs, i)[r] == vs[q]
  {
  }

  // ---------------------------------------------------------------------------
  // The bookkeeping state and its invariant
  // ---------------------------------------------------------------------------

  /** `_size`, `_freelist`, `_generation`, `_indices` and `_erase`; the capacity is `|indices|`. */
  datatype Table = Table(size: nat, freelist: nat, generation: nat, indices: seq<Key>, erase: seq<nat>)

  /**
   * Proof-only history: the live keys in dense order, the free list in link
   * order, and every key `push_back` has ever returned.
   */
  datatype Book = Book(keys: seq<Key>, free: seq<nat>, issued: set<Key>)

  /** A slot is live when its dense position is in use and that position points back to it. */
  ghost predicate IsLive(t: Table, s: nat)
    requires s < |t.indices| <= |t.erase|
  {
    t.indices[s].id < t.size && t.indices[s].id < |t.erase| && t.erase[t.indices[s].id] == s
  }

  /** The link the i-th free slot must hold: the next free slot, or the sentinel `cap`. */
  function NextFree(free: seq<nat>, i: nat, cap: nat): nat
    requires i < |free|
  {
    if i + 1 < |free| then free[i + 1] else cap
  }

  /** `is_key_valid` on the bookkeeping state. */
  function KeyValid(t: Table, k: Key): (valid: bool)
    ensures valid ==> k.id < |t.indices|
  {
    k.id < |t.indices| && k.generation == t.indices[k.id].generation
  }

  /** Lengths: three arrays of `Capacity` entries, `size` live keys, `Capacity - size` free slots. */
  ghost predicate Shape(t: Table, b: Book) {
    && |t.erase| == |t.indices|
    && t.size <= |t.indices|
    && |b.keys| == t.size
    && |b.free| == |t.indices| - t.size
  }

  /** Every dense position is owned by a slot that points back at it; `keys` lists the live keys. */
  ghost predicate DenseOk(t: Table, b: Book)
    requires Shape(t, b)
  {
    && (forall p :: 0 <= p < t.size ==> t.erase[p] < |t.indices| && t.indices[t.erase[p]].id == p)
    && (forall p :: 0 <= p < t.size ==> b.keys[p] == Key(t.erase[p], t.indices[t.erase[p]].generation))
  }

  /** The free list starts at `freelist` and is threaded through the ids of distinct free slots. */
  ghost predicate FreeOk(t: Table, b: Book)
    requires Shape(t, b)
  {
    var cap := |t.indices|;
    && t.freelist == (if b.free == [] then cap else b.free[0])
    && (forall i :: 0 <= i < |b.free| ==> b.free[i] < cap)
    && (forall i {:trigger t.indices[b.free[i]]} :: 0 <= i < |b.free| ==> t.indices[b.free[i]].id == NextFree(b.free, i, cap))
    && (forall i, j :: 0 <= i < j < |b.free| ==> b.free[i] != b.free[j])
  }

  /** Every slot is either live or on the free list, never both. */
  ghost predicate CoverOk(t: Table, b: Book)
    requires Shape(t, b)
  {
    forall s :: 0 <= s < |t.indices| ==> (s in b.free <==> !IsLive(t, s))
  }

  /** Every issued key is older than the counter, live keys are issued, and retired keys fail validation. */
  ghost predicate GenOk(t: Table, b: Book)
    requires Shape(t, b)
  {
    && (forall k :: k in b.issued ==> k.id < |t.indices| && k.generation < t.generation)
    && (forall p :: 0 <= p < t.size ==> b.keys[p] in b.issued)
    && (forall k :: k in b.issued && k !in b.keys ==> t.indices[k.id].generation != k.generation)
  }

  ghost predicate Inv(t: Table, b: Book) {
    Shape(t, b) && DenseOk(t, b) && FreeOk(t, b) && CoverOk(t, b) && GenOk(t, b)
  }

  /** Two live keys never share a slot (hence never coincide). */
  lemma LiveKeysDistinct(t: Table, b: Book)
    requires Inv(t, b)
    ensures forall p, q :: 0 <= p < q < t.size ==> b.keys[p].id != b.keys[q].id
    ensures Distinct(b.keys)
  {
    forall p, q | 0 <= p < q < t.size
      ensures b.keys[p].id != b.keys[q].id
    {
      assert t.indices[t.erase[p]].id == p && t.indices[t.erase[q]].id == q;
    }
  }

  /** The live key at dense position p sits in slot `erase[p]`, which is live. */
  lemma LiveAt(t: Table, b: Book, p: nat)
    requires Inv(t, b) && p < t.size
    ensures b.keys[p].id < |t.indices| && IsLive(t, b.keys[p].id) && t.indices[b.keys[p].id].id == p
    ensures b.keys[p].id !in b.free
  {
  }

  /** For a key that `push_back` handed out, validity is exactly liveness. */
  lemma ValidIffLive(t: Table, b: Book, k: Key)
    requires Inv(t, b)
    ensures k in b.issued ==> (KeyValid(t, k) <==> k in b.keys)
  {
    if k in b.keys {
      var p :| 0 <= p < |b.keys| && b.keys[p] == k;
      assert k == Key(t.erase[p], t.indices[t.erase[p]].generation);
    }
  }

  // ---------------------------------------------------------------------------
  // Construction
  // ---------------------------------------------------------------------------

  /** `clear()`: slot i links to i+1 and the head is slot 0; sizes, generations and `erase` are kept. */
  function ClearTable(t: Table): (r: Table)
    ensures r.size == t.size && r.freelist == 0 && r.generation == t.generation
    ensures |r.indices| == |t.indices| && r.erase == t.erase
    ensures forall k :: KeyValid(r, k) <==> KeyValid(t, k)
    ensures forall i :: 0 <= i < |r.indices| ==> r.indices[i].id == i + 1
  {
    Table(t.size, 0, t.generation,
          seq(|t.indices|, (i: nat) requires i < |t.indices| => Key(i + 1, t.indices[i].generation)), t.erase)
  }

  /** `clear()` restores the invariant only on an empty map: it neither resets `size` nor any generation. */
  lemma ClearKeepsInvWhenEmpty(t: Table, b: Book)
    requires Inv(t, b) && t.size == 0
    ensures Inv(ClearTable(t), b.(free := Range(|t.indices|)))
  {
    var t', b' := ClearTable(t), b.(free := Range(|t.indices|));
    forall s | 0 <= s < |t.indices|
      ensures s in b'.free
    {
      assert b'.free[s] == s;
    }
  }

  /**
   * `clear()` on an empty map resets only the free-list order: the counter is
   * kept, so the next key is `{0, generation}` and differs from a fresh map's
   * `{0, 0}` once any key has been issued.
   */
  lemma ClearKeepsCounter(t: Table, b: Book)
    requires Inv(t, b) && t.size == 0 && |t.indices| > 0
    ensures PushedKey(ClearTable(t)) == Key(0, t.generation)
    ensures t.generation > 0 ==> PushedKey(ClearTable(t)) != PushedKey(InitTable(|t.indices|))
  {
  }

  /** The state after the constructor: everything zero, then `clear()` links slot i to i+1. */
  function InitTable(cap: nat): (r: Table)
    ensures r.size == 0 && r.freelist == 0 && r.generation == 0
    ensures |r.indices| == |r.erase| == cap
    ensures forall k :: KeyValid(r, k) <==> k.id < cap && k.generation == 0
  {
    Table(0, 0, 0, seq(cap, (i: nat) => Key(i + 1, 0)), seq(cap, _ => 0))
  }

  lemma InitInv(cap: nat)
    ensures Inv(InitTable(cap), Book([], Range(cap), {}))
  {
    var t, b := InitTable(cap), Book([], Range(cap), {});
    forall s | 0 <= s < cap
      ensures s in b.free
    {
      assert b.free[s] == s;
    }
  }

  // ---------------------------------------------------------------------------
  // push_back
  // ---------------------------------------------------------------------------

  /**
   * `_allocate_slot` followed by the writes of `push_back`: pop the free-list
   * head, stamp it with the counter and the next dense position, record the
   * reverse link, then bump size and counter.
   */
  function PushTable(t: Table): (r: Table)
    requires t.size < |t.indices| == |t.erase| && t.freelist < |t.indices|
    ensures |r.indices| == |r.erase| == |t.indices|
    ensures r.size == t.size + 1 && r.generation == t.generation + 1
    ensures r.freelist == t.indices[t.freelist].id
    ensures KeyValid(r, PushedKey(t))
    ensures r.indices[t.freelist].id == t.size && r.erase[t.size] == t.freelist
  {
    var s := t.freelist;
    Table(t.size + 1, t.indices[s].id, t.generation + 1,
          t.indices[s := Key(t.size, t.generation)], t.erase[t.size := s])
  }

  /** The key `push_back` returns. */
  function PushedKey(t: Table): Key {
    Key(t.freelist, t.generation)
  }

  function PushBook(t: Table, b: Book): Book
    requires b.free != []
  {
    Book(b.keys + [PushedKey(t)], b.free[1..], b.issued + {PushedKey(t)})
  }

  /** What a non-full map offers `push_back`: a free head slot that no live position names. */
  lemma PushFacts(t: Table, b: Book)
    requires Inv(t, b) && t.size < |t.indices|
    ensures b.free != [] && t.freelist == b.free[0] < |t.indices|
    ensures !IsLive(t, t.freelist)
    ensures forall p :: 0 <= p < t.size ==> t.erase[p] != t.freelist
    ensures PushedKey(t) !in b.issued
  {
    assert b.free[0] in b.free;
    forall p | 0 <= p < t.size
      ensures t.erase[p] != t.freelist
    {
      LiveAt(t, b, p);
    }
  }

  lemma PushDense(t: Table, b: Book)
    requires Inv(t, b) && t.size < |t.indices|
    requires t.freelist < |t.indices| && b.free != []
    requires forall p :: 0 <= p < t.size ==> t.erase[p] != t.freelist
    ensures Shape(PushTable(t), PushBook(t, b)) && DenseOk(PushTable(t), PushBook(t, b))
  {
  }

  lemma PushFree(t: Table, b: Book)
    requires Inv(t, b) && t.size < |t.indices|
    requires t.freelist < |t.indices| && b.free != [] && t.freelist == b.free[0]
    ensures Shape(PushTable(t), PushBook(t, b)) && FreeOk(PushTable(t), PushBook(t, b))
  {
    var cap, s := |t.indices|, t.freelist;
    var t', b' := PushTable(t), PushBook(t, b);
    forall i | 0 <= i < |b'.free|
      ensures b'.free[i] < cap && t'.indices[b'.free[i]].id == NextFree(b'.free, i, cap)
    {
      assert b'.free[i] == b.free[i + 1] != s;
    }
  }

  lemma PushCover(t: Table, b: Book)
    requires Inv(t, b) && t.size < |t.indices|
    requires t.freelist < |t.indices| && b.free != [] && t.freelist == b.free[0]
    requires forall p :: 0 <= p < t.size ==> t.erase[p] != t.freelist
    ensures Shape(PushTable(t), PushBook(t, b)) && CoverOk(PushTable(t), PushBook(t, b))
  {
    var cap, s := |t.indices|, t.freelist;
    var t', b' := PushTable(t), PushBook(t, b);
    forall x | 0 <= x < cap
      ensures x in b'.free <==> !IsLive(t', x)
    {
      if x == s {
        assert IsLive(t', x);
        assert x !in b'.free;
      } else {
        assert t'.indices[x] == t.indices[x];
        var q := t.indices[x].id;
        if IsLive(t, x) {
          assert t'.erase[q] == t.erase[q];
          assert IsLive(t', x);
          assert x !in b.free;
          assert x !in b'.free;
        } else {
          assert x in b.free;
          var i :| 0 <= i < |b.free| && b.free[i] == x;
          assert b'.free[i - 1] == x;
          assert q < t.size ==> t'.erase[q] == t.erase[q];
        }
      }
    }
  }

  lemma PushGen(t: Table, b: Book)
    requires Inv(t, b) && t.size < |t.indices|
    requires t.freelist < |t.indices| && b.free != []
    ensures Shape(PushTable(t), PushBook(t, b)) && GenOk(PushTable(t), PushBook(t, b))
  {
    var t', b' := PushTable(t), PushBook(t, b);
    forall k | k in b'.issued && k !in b'.keys
      ensures t'.indices[k.id].generation != k.generation
    {
      assert k != PushedKey(t);
      assert k in b.issued && k !in b.keys;
    }
  }

  /** On a map that is not full, `push_back` keeps the invariant and hands out a key never seen before. */
  lemma PushKeepsInv(t: Table, b: Book)
    requires Inv(t, b) && t.size < |t.indices|
    ensures b.free != [] && t.freelist == b.free[0] < |t.indices|
    ensures PushedKey(t) !in b.issued
    ensures Inv(PushTable(t), PushBook(t, b))
  {
    PushFacts(t, b);
    PushDense(t, b);
    PushFree(t, b);
    PushCover(t, b);
    PushGen(t, b);
  }

  // ---------------------------------------------------------------------------
  // erase
  // ---------------------------------------------------------------------------

  /**
   * `_free_slot`: the erased slot takes the old free-list head as its link and
   * the counter (before this call's increment) as its generation and becomes
   * the head; if its dense position was not the last one, the last entry of
   * `erase` moves into it and the moved slot's id is fixed up; then size goes
   * down and the counter up.
   */
  function EraseTable(t: Table, k: Key): (r: Table)
    requires k.id < |t.indices| == |t.erase|
    requires 0 < t.size <= |t.erase| && t.indices[k.id].id < t.size
    requires t.erase[t.size - 1] < |t.indices|
    ensures |r.indices| == |r.erase| == |t.indices|
    ensures r.size == t.size - 1 && r.generation == t.generation + 1 && r.freelist == k.id
    ensures r.indices[k.id].generation == t.generation
    ensures k.generation != t.generation ==> !KeyValid(r, k)
    ensures var d, moved := t.indices[k.id].id, t.erase[t.size - 1];
      d != t.size - 1 && moved != k.id ==> r.indices[moved].id == d && r.erase[d] == moved && r.indices[k.id].id == t.freelist
    ensures t.indices[k.id].id == t.size - 1 ==> r.indices[k.id].id == t.freelist && r.erase == t.erase
  {
    var d, last := t.indices[k.id].id, t.size - 1;
    var slots := t.indices[k.id := Key(t.freelist, t.generation)];
    if d != last then
      var moved := t.erase[last];
      Table(last, k.id, t.generation + 1,
            slots[moved := Key(d, slots[moved].generation)], t.erase[d := moved])
    else
      Table(last, k.id, t.generation + 1, slots, t.erase)
  }

  function EraseBook(t: Table, b: Book, k: Key): Book
    requires k.id < |t.indices| && t.indices[k.id].id < |b.keys|
  {
    Book(SwapRemove(b.keys, t.indices[k.id].id), [k.id] + b.free, b.issued)
  }

  /** The facts about a live key that `_free_slot` relies on. */
  ghost predicate EraseReady(t: Table, b: Book, k: Key)
    requires Shape(t, b)
  {
    && k.id < |t.indices| && 0 < t.size && t.indices[k.id].id < t.size
    && t.erase[t.size - 1] < |t.indices|
    && t.erase[t.indices[k.id].id] == k.id
    && b.keys[t.indices[k.id].id] == k
    && t.indices[t.erase[t.size - 1]].id == t.size - 1
    && k.id !in b.free
    && (forall q :: 0 <= q < t.size && q != t.indices[k.id].id ==> t.erase[q] != k.id)
    && Distinct(b.keys)
  }

  lemma EraseFacts(t: Table, b: Book, k: Key)
    requires Inv(t, b) && k in b.keys
    ensures EraseReady(t, b, k)
  {
    var p0 :| 0 <= p0 < |b.keys| && b.keys[p0] == k;
    LiveAt(t, b, p0);
    LiveAt(t, b, t.size - 1);
    LiveKeysDistinct(t, b);
    forall q | 0 <= q < t.size && q != t.indices[k.id].id
      ensures t.erase[q] != k.id
    {
      LiveAt(t, b, q);
    }
  }

  lemma EraseDense(t: Table, b: Book, k: Key)
    requires Inv(t, b) && EraseReady(t, b, k)
    ensures Shape(EraseTable(t, k), EraseBook(t, b, k)) && DenseOk(EraseTable(t, k), EraseBook(t, b, k))
  {
    var t', b' := EraseTable(t, k), EraseBook(t, b, k);
    forall p | 0 <= p < t'.size
      ensures t'.erase[p] < |t'.indices| && t'.indices[t'.erase[p]].id == p
      ensures b'.keys[p] == Key(t'.erase[p], t'.indices[t'.erase[p]].generation)
    {
      EraseDenseAt(t, b, k, p);
    }
  }

  /** Dense position `p` after the erase: the hole holds the moved slot, every other position is as before. */
  lemma EraseDenseAt(t: Table, b: Book, k: Key, p: nat)
    requires Inv(t, b) && EraseReady(t, b, k) && p < t.size - 1
    ensures Shape(EraseTable(t, k), EraseBook(t, b, k))
    ensures var t', b' := EraseTable(t, k), EraseBook(t, b, k);
      && t'.erase[p] < |t'.indices| && t'.indices[t'.erase[p]].id == p
      && b'.keys[p] == Key(t'.erase[p], t'.indices[t'.erase[p]].generation)
  {
    if p != t.indices[k.id].id {
      EraseDenseKept(t, b, k, p);
    } else {
      EraseDenseHole(t, b, k);
    }
  }

  lemma EraseDenseKept(t: Table, b: Book, k: Key, p: nat)
    requires Shape(t, b) && EraseReady(t, b, k) && p < t.size - 1 && p != t.indices[k.id].id
    requires t.erase[p] < |t.indices| && t.indices[t.erase[p]].id == p
    requires b.keys[p] == Key(t.erase[p], t.indices[t.erase[p]].generation)
    ensures Shape(EraseTable(t, k), EraseBook(t, b, k))
    ensures var t', b' := EraseTable(t, k), EraseBook(t, b, k);
      && t'.erase[p] == t.erase[p] && t'.indices[t.erase[p]] == t.indices[t.erase[p]] && b'.keys[p] == b.keys[p]
  {
    var x := t.erase[p];
    assert x != t.erase[t.size - 1];
  }

  lemma EraseDenseHole(t: Table, b: Book, k: Key)
    requires Shape(t, b) && EraseReady(t, b, k) && t.indices[k.id].id < t.size - 1
    requires b.keys[t.size - 1] == Key(t.erase[t.size - 1], t.indices[t.erase[t.size - 1]].generation)
    ensures Shape(EraseTable(t, k), EraseBook(t, b, k))
    ensures var t', b', d := EraseTable(t, k), EraseBook(t, b, k), t.indices[k.id].id;
      && t'.erase[d] < |t'.indices| && t'.indices[t'.erase[d]].id == d
      && b'.keys[d] == Key(t'.erase[d], t'.indices[t'.erase[d]].generation)
  {
    assert t.erase[t.size - 1] != k.id;
  }

  lemma EraseFree(t: Table, b: Book, k: Key)
    requires Inv(t, b) && EraseReady(t, b, k)
    ensures Shape(EraseTable(t, k), EraseBook(t, b, k)) && FreeOk(EraseTable(t, k), EraseBook(t, b, k))
  {
    EraseFreeLinks(t, b, k);
    EraseFreeDistinct(t, b, k);
  }

  /** The erased slot links to the old head; every other free slot keeps its link. */
  lemma EraseFreeLinks(t: Table, b: Book, k: Key)
    requires Shape(t, b) && EraseReady(t, b, k)
    requires t.freelist == (if b.free == [] then |t.indices| else b.free[0])
    requires forall i :: 0 <= i < |b.free| ==> b.free[i] < |t.indices| && !IsLive(t, b.free[i])
    requires forall i {:trigger t.indices[b.free[i]]} :: 0 <= i < |b.free| ==> t.indices[b.free[i]].id == NextFree(b.free, i, |t.indices|)
    ensures Shape(EraseTable(t, k), EraseBook(t, b, k))
    ensures var t', b' := EraseTable(t, k), EraseBook(t, b, k);
      && (forall i :: 0 <= i < |b'.free| ==> b'.free[i] < |t'.indices|)
      && (forall i {:trigger t'.indices[b'.free[i]]} :: 0 <= i < |b'.free| ==> t'.indices[b'.free[i]].id == NextFree(b'.free, i, |t'.indices|))
  {
    var cap := |t.indices|;
    var t', b' := EraseTable(t, k), EraseBook(t, b, k);
    forall i | 0 <= i < |b'.free|
      ensures b'.free[i] < cap && t'.indices[b'.free[i]].id == NextFree(b'.free, i, cap)
    {
      if i == 0 {
        EraseFreeHead(t, b, k);
      } else {
        EraseFreeLink(t, b, k, i - 1);
      }
    }
  }

  /** The erased slot heads the new free list and links to the old head. */
  lemma EraseFreeHead(t: Table, b: Book, k: Key)
    requires Shape(t, b) && EraseReady(t, b, k)
    requires t.freelist == (if b.free == [] then |t.indices| else b.free[0])
    ensures Shape(EraseTable(t, k), EraseBook(t, b, k))
    ensures var t', b' := EraseTable(t, k), EraseBook(t, b, k);
      b'.free[0] == k.id < |t'.indices| && t'.indices[k.id].id == NextFree(b'.free, 0, |t'.indices|)
  {
    var t' := EraseTable(t, k);
    assert t'.indices[k.id] == Key(t.freelist, t.generation);
  }

  /** The new free list is the erased slot in front of the old one, which did not hold it. */
  lemma EraseFreeDistinct(t: Table, b: Book, k: Key)
    requires Shape(t, b) && EraseReady(t, b, k)
    requires forall i, j :: 0 <= i < j < |b.free| ==> b.free[i] != b.free[j]
    ensures Shape(EraseTable(t, k), EraseBook(t, b, k))
    ensures var b' := EraseBook(t, b, k);
      forall i, j :: 0 <= i < j < |b'.free| ==> b'.free[i] != b'.free[j]
  {
    var b' := EraseBook(t, b, k);
    forall i, j | 0 <= i < j < |b'.free|
      ensures b'.free[i] != b'.free[j]
    {
      assert b'.free[j] == b.free[j - 1];
      if i > 0 {
        assert b'.free[i] == b.free[i - 1];
      }
    }
  }

  /** A slot already free keeps its link, one place further down the new list. */
  lemma EraseFreeLink(t: Table, b: Book, k: Key, i: nat)
    requires Shape(t, b) && EraseReady(t, b, k) && i < |b.free|
    requires b.free[i] < |t.indices| && !IsLive(t, b.free[i])
    ensures Shape(EraseTable(t, k), EraseBook(t, b, k))
    ensures var t', b' := EraseTable(t, k), EraseBook(t, b, k);
      b'.free[i + 1] == b.free[i] && t'.indices[b.free[i]] == t.indices[b.free[i]]
      && NextFree(b'.free, i + 1, |t.indices|) == NextFree(b.free, i, |t.indices|)
  {
    var y := b.free[i];
    assert y != t.erase[t.size - 1] && y != k.id;
  }

  lemma EraseCoverAt(t: Table, b: Book, k: Key, x: nat)
    requires Shape(t, b) && EraseReady(t, b, k) && x < |t.indices|
    requires x in b.free <==> !IsLive(t, x)
    requires t.erase[t.size - 1] in b.free <==> !IsLive(t, t.erase[t.size - 1])
    ensures Shape(EraseTable(t, k), EraseBook(t, b, k))
    ensures x in EraseBook(t, b, k).free <==> !IsLive(EraseTable(t, k), x)
  {
    var d, last := t.indices[k.id].id, t.size - 1;
    if x == k.id {
      EraseCoverErased(t, b, k);
    } else if d != last && x == t.erase[last] {
      EraseCoverMoved(t, b, k);
    } else {
      EraseCoverOther(t, b, k, x);
    }
  }

  /** The erased slot heads the new free list and is no longer live. */
  lemma EraseCoverErased(t: Table, b: Book, k: Key)
    requires Shape(t, b) && EraseReady(t, b, k)
    ensures Shape(EraseTable(t, k), EraseBook(t, b, k))
    ensures k.id in EraseBook(t, b, k).free && !IsLive(EraseTable(t, k), k.id)
  {
    var d := t.indices[k.id].id;
    var t', b' := EraseTable(t, k), EraseBook(t, b, k);
    assert b'.free[0] == k.id;
    var q := t'.indices[k.id].id;
    if q < t'.size {
      assert q != d ==> t'.erase[q] == t.erase[q];
    }
  }

  /** The slot whose value moved into the hole stays live, at its new position. */
  lemma EraseCoverMoved(t: Table, b: Book, k: Key)
    requires Shape(t, b) && EraseReady(t, b, k)
    requires t.erase[t.size - 1] in b.free <==> !IsLive(t, t.erase[t.size - 1])
    requires t.indices[k.id].id != t.size - 1
    ensures Shape(EraseTable(t, k), EraseBook(t, b, k))
    ensures t.erase[t.size - 1] !in EraseBook(t, b, k).free && IsLive(EraseTable(t, k), t.erase[t.size - 1])
  {
    var moved := t.erase[t.size - 1];
    assert IsLive(t, moved);
    assert moved !in b.free;
  }

  /** Every other slot keeps its entry and its dense position, so its status. */
  lemma EraseCoverOther(t: Table, b: Book, k: Key, x: nat)
    requires Shape(t, b) && EraseReady(t, b, k) && x < |t.indices| && x != k.id
    requires x in b.free <==> !IsLive(t, x)
    requires t.indices[k.id].id != t.size - 1 ==> x != t.erase[t.size - 1]
    ensures Shape(EraseTable(t, k), EraseBook(t, b, k))
    ensures x in EraseBook(t, b, k).free <==> !IsLive(EraseTable(t, k), x)
  {
    if IsLive(t, x) {
      EraseCoverLive(t, b, k, x);
    } else {
      EraseCoverFree(t, b, k, x);
    }
  }

  lemma EraseCoverLive(t: Table, b: Book, k: Key, x: nat)
    requires Shape(t, b) && EraseReady(t, b, k) && x < |t.indices| && x != k.id
    requires t.indices[k.id].id != t.size - 1 ==> x != t.erase[t.size - 1]
    requires IsLive(t, x) && x !in b.free
    ensures Shape(EraseTable(t, k), EraseBook(t, b, k))
    ensures x !in EraseBook(t, b, k).free && IsLive(EraseTable(t, k), x)
  {
    var t' := EraseTable(t, k);
    assert t'.indices[x] == t.indices[x];
    var q := t.indices[x].id;
    assert q != t.indices[k.id].id && q != t.size - 1;
    assert t'.erase[q] == t.erase[q];
  }

  lemma EraseCoverFree(t: Table, b: Book, k: Key, x: nat)
    requires Shape(t, b) && EraseReady(t, b, k) && x < |t.indices| && x != k.id
    requires t.indices[k.id].id != t.size - 1 ==> x != t.erase[t.size - 1]
    requires !IsLive(t, x) && x in b.free
    ensures Shape(EraseTable(t, k), EraseBook(t, b, k))
    ensures x in EraseBook(t, b, k).free && !IsLive(EraseTable(t, k), x)
  {
    var t', b' := EraseTable(t, k), EraseBook(t, b, k);
    assert t'.indices[x] == t.indices[x];
    var i :| 0 <= i < |b.free| && b.free[i] == x;
    assert b'.free[i + 1] == x;
    var q := t.indices[x].id;
    assert q < t'.size && q != t.indices[k.id].id ==> t'.erase[q] == t.erase[q];
  }

  lemma EraseCover(t: Table, b: Book, k: Key)
    requires Inv(t, b) && EraseReady(t, b, k)
    ensures Shape(EraseTable(t, k), EraseBook(t, b, k)) && CoverOk(EraseTable(t, k), EraseBook(t, b, k))
  {
    forall x | 0 <= x < |t.indices|
      ensures x in EraseBook(t, b, k).free <==> !IsLive(EraseTable(t, k), x)
    {
      EraseCoverAt(t, b, k, x);
    }
  }

  lemma EraseGen(t: Table, b: Book, k: Key)
    requires Inv(t, b) && EraseReady(t, b, k)
    ensures Shape(EraseTable(t, k), EraseBook(t, b, k)) && GenOk(EraseTable(t, k), EraseBook(t, b, k))
  {
    var s, d := k.id, t.indices[k.id].id;
    var t', b' := EraseTable(t, k), EraseBook(t, b, k);
    SwapRemoveDistinct(b.keys, d);
    forall p | 0 <= p < t'.size
      ensures b'.keys[p] in b'.issued
    {
      assert b'.keys[p] in b.keys;
    }
    forall kk | kk in b'.issued && kk !in b'.keys
      ensures t'.indices[kk.id].generation != kk.generation
    {
      if kk.id != s {
        assert kk != k;
        assert kk !in b.keys;
        assert t'.indices[kk.id].generation == t.indices[kk.id].generation;
      }
    }
  }

  /** Erasing a live key keeps the invariant; the key sat at dense position `indices[k.id].id`. */
  lemma EraseKeepsInv(t: Table, b: Book, k: Key)
    requires Inv(t, b) && k in b.keys
    ensures k.id < |t.indices| && 0 < t.size && t.indices[k.id].id < t.size
    ensures t.erase[t.size - 1] < |t.indices|
    ensures b.keys[t.indices[k.id].id] == k
    ensures Inv(EraseTable(t, k), EraseBook(t, b, k))
  {
    EraseFacts(t, b, k);
    EraseDense(t, b, k);
    EraseFree(t, b, k);
    EraseCover(t, b, k);
    EraseGen(t, b, k);
  }

  // ---------------------------------------------------------------------------
  // Validity of issued keys across operations
  // ---------------------------------------------------------------------------

  /** `push_back` makes its new key valid and changes the validity of no earlier issued key. */
  lemma PushKeepsValidity(t: Table, b: Book, k: Key)
    requires Inv(t, b) && t.size < |t.indices|
    ensures t.freelist < |t.indices|
    ensures KeyValid(PushTable(t), PushedKey(t))
    ensures k in b.issued ==> (KeyValid(PushTable(t), k) <==> KeyValid(t, k))
  {
    PushKeepsInv(t, b);
    ValidIffLive(t, b, k);
    ValidIffLive(PushTable(t), PushBook(t, b), k);
  }

  /** `erase(k)` invalidates `k` and changes the validity of no other issued key. */
  lemma EraseValidity(t: Table, b: Book, k: Key, other: Key)
    requires Inv(t, b) && k in b.keys && other in b.issued
    ensures k.id < |t.indices| && 0 < t.size && t.indices[k.id].id < t.size && t.erase[t.size - 1] < |t.indices|
    ensures KeyValid(EraseTable(t, k), other) <==> other != k && KeyValid(t, other)
  {
    EraseKeepsInv(t, b, k);
    LiveKeysDistinct(t, b);
    SwapRemoveDistinct(b.keys, t.indices[k.id].id);
    ValidIffLive(t, b, other);
    ValidIffLive(EraseTable(t, k), EraseBook(t, b, k), other);
  }

  /**
   * `erase(k)` keeps every other live key on its value: its slot names the
   * dense position that now holds the value it named before (the moved last
   * value lands in the hole, and only the moved slot's id is rewritten).
   */
  lemma EraseKeepsOthers<A>(t: Table, b: Book, values: seq<A>, k: Key, other: Key)
    requires Inv(t, b) && k in b.keys && other in b.keys && other != k && |values| == |t.indices|
    ensures k.id < |t.indices| && 0 < t.size && t.indices[k.id].id < t.size && t.erase[t.size - 1] < |t.indices|
    ensures other.id < |t.indices| && t.indices[other.id].id < t.size
    ensures var t', v' := EraseTable(t, k), MoveLastInto(values, t.size, t.indices[k.id].id);
      t'.indices[other.id].id < t'.size && |v'| == |values|
      && v'[t'.indices[other.id].id] == values[t.indices[other.id].id]
  {
    EraseFacts(t, b, k);
    var p :| 0 <= p < |b.keys| && b.keys[p] == other;
    LiveAt(t, b, p);
    EraseKeepsOther(t, b, values, k, other, p);
  }

  /** The other live key sits at dense position `p`: the last one moves into the hole, any other stays. */
  lemma EraseKeepsOther<A>(t: Table, b: Book, values: seq<A>, k: Key, other: Key, p: nat)
    requires Shape(t, b) && EraseReady(t, b, k) && |values| == |t.indices|
    requires p < t.size && b.keys[p] == other && other != k
    requires other.id < |t.indices| && t.erase[p] == other.id && t.indices[other.id].id == p
    ensures var t', v' := EraseTable(t, k), MoveLastInto(values, t.size, t.indices[k.id].id);
      t'.indices[other.id].id < t'.size && |v'| == |values|
      && v'[t'.indices[other.id].id] == values[p]
  {
    var d, last := t.indices[k.id].id, t.size - 1;
    assert p != d;
    assert other.id != k.id;
    if p == last {
      assert t.erase[last] == other.id;
    } else {
      assert t.erase[last] != other.id;
    }
  }

  /** `EraseValidity` for every issued key at once. */
  lemma EraseValidityAll(t: Table, b: Book, k: Key)
    requires Inv(t, b) && k in b.keys
    ensures k.id < |t.indices| && 0 < t.size && t.indices[k.id].id < t.size && t.erase[t.size - 1] < |t.indices|
    ensures forall other :: other in b.issued ==> (KeyValid(EraseTable(t, k), other) <==> other != k && KeyValid(t, other))
  {
    EraseFacts(t, b, k);
    forall other | other in b.issued
      ensures KeyValid(EraseTable(t, k), other) <==> other != k && KeyValid(t, other)
    {
      EraseValidity(t, b, k, other);
    }
  }

  // ---------------------------------------------------------------------------
  // Whole histories
  // ---------------------------------------------------------------------------

  /** Whether the source defines `op` here: an erase must not get a valid key that was never issued. */
  ghost predicate Allowed(t: Table, b: Book, op: Op) {
    op.EraseOp? && KeyValid(t, op.key) ==> op.key in b.issued
  }

  /** One call: a push on a full map and an erase of an invalid key change nothing. */
  ghost function Step(t: Table, b: Book, op: Op): (r: (Table, Book))
    requires Inv(t, b) && Allowed(t, b, op)
    ensures Inv(r.0, r.1) && b.issued <= r.1.issued
  {
    match op
    case PushOp =>
      if t.size < |t.indices| then
        PushKeepsInv(t, b);
        (PushTable(t), PushBook(t, b))
      else
        (t, b)
    case EraseOp(k) =>
      if KeyValid(t, k) then
        ValidIffLive(t, b, k);
        EraseKeepsInv(t, b, k);
        (EraseTable(t, k), EraseBook(t, b, k))
      else
        (t, b)
  }

  ghost predicate AllAllowed(t: Table, b: Book, ops: seq<Op>)
    requires Inv(t, b)
    decreases |ops|
  {
    ops == [] || (Allowed(t, b, ops[0]) && var r := Step(t, b, ops[0]); AllAllowed(r.0, r.1, ops[1..]))
  }

  ghost function Run(t: Table, b: Book, ops: seq<Op>): (r: (Table, Book))
    requires Inv(t, b) && AllAllowed(t, b, ops)
    ensures Inv(r.0, r.1) && b.issued <= r.1.issued
    decreases |ops|
  {
    if ops == [] then (t, b)
    else
      var r := Step(t, b, ops[0]);
      Run(r.0, r.1, ops[1..])
  }

  /** One call never revives an issued key that is invalid. */
  lemma StepKeepsStale(t: Table, b: Book, op: Op, k: Key)
    requires Inv(t, b) && Allowed(t, b, op) && k in b.issued && !KeyValid(t, k)
    ensures !KeyValid(Step(t, b, op).0, k)
  {
    match op
    case PushOp =>
      if t.size < |t.indices| {
        PushKeepsValidity(t, b, k);
      }
    case EraseOp(e) =>
      if KeyValid(t, e) {
        ValidIffLive(t, b, e);
        EraseValidity(t, b, e, k);
      }
  }

  /** Stale detection: once an issued key fails validation, no later sequence of calls makes it valid. */
  lemma {:induction false} StaleForever(t: Table, b: Book, ops: seq<Op>, k: Key)
    requires Inv(t, b) && AllAllowed(t, b, ops) && k in b.issued && !KeyValid(t, k)
    ensures !KeyValid(Run(t, b, ops).0, k)
    decreases |ops|
  {
    if ops != [] {
      var r := Step(t, b, ops[0]);
      StepKeepsStale(t, b, ops[0], k);
      StaleForever(r.0, r.1, ops[1..], k);
    }
  }

  /** After a successful erase of a live key, that key stays invalid whatever follows. */
  lemma ErasedKeyNeverValidAgain(t: Table, b: Book, k: Key, ops: seq<Op>)
    requires Inv(t, b) && k in b.keys
    requires var r := Step(t, b, EraseOp(k)); AllAllowed(r.0, r.1, ops)
    ensures KeyValid(t, k)
    ensures var r := Step(t, b, EraseOp(k)); !KeyValid(r.0, k) && !KeyValid(Run(r.0, r.1, ops).0, k)
  {
    var p :| 0 <= p < |b.keys| && b.keys[p] == k;
    assert k in b.issued;
    ValidIffLive(t, b, k);
    var r := Step(t, b, EraseOp(k));
    EraseValidity(t, b, k, k);
    StaleForever(r.0, r.1, ops, k);
  }

  // ---------------------------------------------------------------------------
  // The free list as a linked list
  // ---------------------------------------------------------------------------

  /** Follows `n` links of the free list from `from`, stopping at an out-of-range id. */
  function Follow(indices: seq<Key>, from: nat, n: nat): nat
    decreases n
  {
    if n == 0 || from >= |indices| then from else Follow(indices, indices[from].id, n - 1)
  }

  function FreeAt(free: seq<nat>, i: nat, cap: nat): nat {
    if i < |free| then free[i] else cap
  }

  /** From the i-th free slot, `n` links lead to the `j`-th, `j == i + n`, or to the sentinel. */
  lemma {:induction false} FollowFree(t: Table, b: Book, i: nat, n: nat, j: nat)
    requires Shape(t, b) && FreeOk(t, b) && j == i + n <= |b.free|
    ensures Follow(t.indices, FreeAt(b.free, i, |t.indices|), n) == FreeAt(b.free, j, |t.indices|)
    decreases n
  {
    var cap := |t.indices|;
    if n > 0 {
      var here, next := b.free[i], FreeAt(b.free, i + 1, cap);
      assert FreeAt(b.free, i, cap) == here < cap;
      assert t.indices[here].id == next by {
        assert t.indices[b.free[i]].id == NextFree(b.free, i, cap);
      }
      FollowStep(t.indices, here, n);
      FollowFree(t, b, i + 1, n - 1, j);
    }
  }

  lemma FollowStep(indices: seq<Key>, from: nat, n: nat)
    requires n > 0 && from < |indices|
    ensures Follow(indices, from, n) == Follow(indices, indices[from].id, n - 1)
  {
  }

  /**
   * Following the links from `freelist` visits the `Capacity - size` free slots,
   * each once, none of them live, and after the last one reaches the sentinel.
   */
  lemma FreeListWalk(t: Table, b: Book)
    requires Inv(t, b)
    ensures |b.free| == |t.indices| - t.size
    ensures forall i :: 0 <= i < |b.free| ==> Follow(t.indices, t.freelist, i) == b.free[i] && !IsLive(t, b.free[i])
    ensures forall i, j :: 0 <= i < j < |b.free| ==> Follow(t.indices, t.freelist, i) != Follow(t.indices, t.freelist, j)
    ensures Follow(t.indices, t.freelist, |b.free|) == |t.indices|
    ensures forall s :: 0 <= s < |t.indices| && !IsLive(t, s) ==> s in b.free
  {
    assert t.freelist == FreeAt(b.free, 0, |t.indices|);
    forall i | 0 <= i <= |b.free|
      ensures Follow(t.indices, t.freelist, i) == FreeAt(b.free, i, |t.indices|)
    {
      FollowFree(t, b, 0, i, i);
    }
  }

  // ---------------------------------------------------------------------------
  // The container
  // ---------------------------------------------------------------------------

  /**
   * `SlotMap<T, Capacity>`: parallel arrays updated in place. `book` is proof-only
   * state (live keys, free list, issued keys) that `Valid()` ties to the arrays.
   */
  class SlotMap<T(0)> {
    const capacity: nat
    var size: nat
    var freelist: nat
    var generation: nat
    const indices: array<Key>
    const data: array<T>
    const erase: array<nat>
    ghost var book: Book

    ghost function Tab(): Table
      reads this, indices, erase
    {
      Table(size, freelist, generation, indices[..], erase[..])
    }

    ghost predicate Valid()
      reads this, indices, data, erase
    {
      && indices.Length == capacity && data.Length == capacity && erase.Length == capacity
      && data as object != indices && data as object != erase
      && Inv(Tab(), book)
    }

    /** `SlotMap()`: zero-initialised fields, then `clear()`. */
    constructor (capacity: nat)
      ensures Valid()
      ensures this.capacity == capacity && fresh(indices) && fresh(data) && fresh(erase)
      ensures Tab() == InitTable(capacity)
      ensures book.keys == [] && book.issued == {}
    {
      this.capacity := capacity;
      indices := new Key[capacity](_ => Key(0, 0));
      data := new T[capacity];
      erase := new nat[capacity](_ => 0);
      size, freelist, generation := 0, 0, 0;
      book := Book([], [], {});
      new;
      Clear();
      assert indices[..] == InitTable(capacity).indices;
      assert erase[..] == InitTable(capacity).erase;
      InitInv(capacity);
    }

    /** `size()`: the number of live elements. */
    function Size(): (n: nat)
      reads this, indices, data, erase
      requires Valid()
      ensures n == |book.keys| && n + |book.free| == capacity
    {
      size
    }

    /** `capacity()`: the compile-time bound, the length of each of the three arrays. */
    function Capacity(): (n: nat)
      reads this, indices, data, erase
      requires Valid()
      ensures n == indices.Length == data.Length == erase.Length
      ensures n == Size() + |book.free|
    {
      capacity
    }

    /** The range [`begin()`, `end()`): the live values in dense order, one per live key. */
    function Elements(): (s: seq<T>)
      reads this, indices, data, erase
      requires Valid()
      ensures |s| == |book.keys|
    {
      data[..size]
    }

    /** `is_key_valid`: a bounds check and a generation comparison. */
    function IsKeyValid(key: Key): (valid: bool)
      reads this, indices, data, erase
      requires Valid()
      ensures valid == KeyValid(Tab(), key)
      ensures key in book.issued ==> (valid <==> key in book.keys)
    {
      ValidIffLive(Tab(), book, key);
      key.id < capacity && key.generation == indices[key.id].generation
    }

    /** `clear()`. */
    method Clear()
      modifies this, indices
      ensures Tab() == ClearTable(old(Tab()))
      ensures book == old(book).(free := Range(capacity))
      ensures old(Valid()) && size == 0 ==> Valid()
    {
      InitFreeList();
      book := book.(free := Range(capacity));
      if old(Valid()) && size == 0 {
        ClearKeepsInvWhenEmpty(old(Tab()), old(book));
      }
    }

    /** `_init_freelist`: slot i links to i+1, the head is slot 0. */
    method InitFreeList()
      modifies this, indices
      ensures Tab() == ClearTable(old(Tab()))
      ensures book == old(book)
    {
      var i := 0;
      while i < indices.Length
        invariant 0 <= i <= indices.Length
        invariant forall j :: 0 <= j < i ==> indices[j] == Key(j + 1, old(indices[j].generation))
        invariant forall j :: i <= j < indices.Length ==> indices[j] == old(indices[j])
        invariant unchanged(this)
      {
        indices[i] := indices[i].(id := i + 1);
        i := i + 1;
      }
      freelist := 0;
    }

    /** `_allocate_slot`: throws when full, otherwise pops the free-list head and stamps it. */
    method AllocateSlot() returns (r: Result<nat>)
      requires Valid()
      modifies this, indices
      ensures r.Err? <==> old(size) >= capacity
      ensures r.Err? ==> r.error == CapacityExceeded && unchanged(this) && unchanged(indices)
      ensures r.Ok? ==> r.value == old(freelist) < capacity
      ensures r.Ok? ==> indices[..] == old(indices[..])[r.value := Key(old(size), old(generation))]
      ensures r.Ok? ==> freelist == old(indices[r.value].id)
      ensures r.Ok? ==> size == old(size) + 1 && generation == old(generation) + 1
      ensures book == old(book)
    {
      if size >= capacity {
        return Err(CapacityExceeded);
      }
      PushFacts(Tab(), book);
      var slotId := freelist;
      freelist := indices[slotId].id;
      indices[slotId] := Key(size, generation);
      size := size + 1;
      generation := generation + 1;
      r := Ok(slotId);
    }

    /** `push_back`: the value goes to dense position `size`; the key is the slot id with its stamp. */
    method PushBack(value: T) returns (r: Result<Key>)
      requires Valid()
      modifies this, indices, data, erase
      ensures Valid()
      ensures r.Err? <==> old(size) == capacity
      ensures r.Err? ==> r.error == CapacityExceeded && Tab() == old(Tab()) && data[..] == old(data[..]) && book == old(book)
      ensures r.Ok? ==> r.value == PushedKey(old(Tab())) && Tab() == PushTable(old(Tab()))
      ensures r.Ok? ==> r.value == Key(old(freelist), old(generation)) && freelist == old(indices[freelist].id)
      ensures r.Ok? ==> size == old(size) + 1 && generation == old(generation) + 1
      ensures r.Ok? ==> indices[r.value.id] == Key(old(size), old(generation)) && erase[old(size)] == r.value.id
      ensures r.Ok? ==> forall j :: 0 <= j < capacity && j != r.value.id ==> indices[j] == old(indices[j])
      ensures r.Ok? ==> data[..] == old(data[..])[old(size) := value] && Elements() == old(Elements()) + [value]
      ensures r.Ok? ==> data[old(size)] == value && forall j :: 0 <= j < capacity && j != old(size) ==> data[j] == old(data[j])
      ensures r.Ok? ==> book.keys == old(book.keys) + [r.value] && book.issued == old(book.issued) + {r.value}
      ensures r.Ok? ==> r.value !in old(book.issued) && IsKeyValid(r.value)
      ensures forall k :: k in old(book.issued) ==> (IsKeyValid(k) <==> old(IsKeyValid(k)))
    {
      ghost var t0, b0 := Tab(), book;
      var reserved := AllocateSlot();
      if reserved.Err? {
        return Err(reserved.error);
      }
      var id := reserved.value;
      assert indices[id] == indices[..][id] == Key(t0.size, t0.generation);
      data[indices[id].id] := value;
      erase[indices[id].id] := id;
      r := Ok(Key(id, indices[id].generation));
      PushKeepsInv(t0, b0);
      book := PushBook(t0, b0);
      assert Tab() == PushTable(t0);
      forall k | k in b0.issued
        ensures KeyValid(Tab(), k) <==> KeyValid(t0, k)
      {
        PushKeepsValidity(t0, b0, k);
      }
      PushKeepsValidity(t0, b0, r.value);
    }

    /** `erase`: a key that fails `is_key_valid` changes nothing; a valid one is swap-removed. */
    method Erase(key: Key) returns (ok: bool)
      requires Valid()
      requires IsKeyValid(key) ==> key in book.issued
      modifies this, indices, data, erase
      ensures Valid()
      ensures ok == old(IsKeyValid(key))
      ensures !ok ==> Tab() == old(Tab()) && data[..] == old(data[..]) && book == old(book)
      ensures ok ==> key in old(book.keys) && EraseReady(old(Tab()), old(book), key)
      ensures ok ==> Tab() == EraseTable(old(Tab()), key) && book == EraseBook(old(Tab()), old(book), key)
      ensures ok ==> indices[key.id] == Key(old(freelist), old(generation)) && freelist == key.id
      ensures ok ==> size == old(size) - 1 && generation == old(generation) + 1
      ensures ok ==> forall j :: 0 <= j < capacity && j != key.id && j != old(erase[size - 1]) ==> indices[j] == old(indices[j])
      ensures ok ==> data[..] == MoveLastInto(old(data[..]), old(size), old(indices[key.id].id))
      ensures ok ==> Elements() == SwapRemove(old(Elements()), old(indices[key.id].id))
      ensures ok ==> data[old(indices[key.id].id)] == old(data[size - 1])
      ensures ok ==> forall j :: 0 <= j < capacity && j != old(indices[key.id].id) ==> data[j] == old(data[j])
      ensures !IsKeyValid(key)
      ensures forall k :: k in book.issued && k != key ==> (IsKeyValid(k) <==> old(IsKeyValid(k)))
    {
      if !IsKeyValid(key) {
        return false;
      }
      ghost var t0, b0, values := Tab(), book, data[..];
      ValidIffLive(t0, b0, key);
      EraseFacts(t0, b0, key);
      FreeSlot(key);
      EraseKeepsInv(t0, b0, key);
      SwapRemoveInPlace(values, t0.size, t0.indices[key.id].id);
      EraseValidityAll(t0, b0, key);
      ok := true;
    }

    /**
     * `_free_slot`: swap-remove the element and push its slot onto the free
     * list. Specified on the arrays alone; `Erase` carries the invariant across.
     */
    method FreeSlot(key: Key)
      requires indices.Length == capacity && data.Length == capacity && erase.Length == capacity
      requires data as object != indices && data as object != erase
      requires Shape(Tab(), book) && EraseReady(Tab(), book, key)
      modifies this, indices, data, erase
      ensures Tab() == EraseTable(old(Tab()), key) && book == EraseBook(old(Tab()), old(book), key)
      ensures data[..] == MoveLastInto(old(data[..]), old(size), old(indices[key.id].id))
      ensures data[old(indices[key.id].id)] == old(data[size - 1])
      ensures forall j :: 0 <= j < capacity && j != old(indices[key.id].id) ==> data[j] == old(data[j])
      ensures indices[key.id] == Key(old(freelist), old(generation)) && freelist == key.id
      ensures size == old(size) - 1 && generation == old(generation) + 1
      ensures forall j :: 0 <= j < capacity && j != key.id && j != old(erase[size - 1]) ==> indices[j] == old(indices[j])
    {
      ghost var t0, b0, values := Tab(), book, data[..];
      ghost var slots := t0.indices[key.id := Key(t0.freelist, t0.generation)];
      var dataId := indices[key.id].id;
      indices[key.id] := Key(freelist, generation);
      freelist := key.id;
      assert indices[..] == slots;
      if dataId != size - 1 {
        data[dataId] := data[size - 1];
        assert data[..] == values[dataId := values[size - 1]];
        erase[dataId] := erase[size - 1];
        var moved := erase[dataId];
        indices[moved] := indices[moved].(id := dataId);
        assert indices[..] == slots[moved := Key(dataId, slots[moved].generation)];
        assert erase[..] == t0.erase[dataId := moved];
      }
      size := size - 1;
      generation := generation + 1;
      book := EraseBook(t0, b0, key);
      assert Tab() == EraseTable(t0, key);
      assert data[..] == MoveLastInto(values, t0.size, dataId);
    }
  }
}
