/** The open-addressing hash table of src/simplemap.h and its two string
    hashes. The table has a fixed power-of-two capacity and probes
    linearly with wrap-around; a slot whose key is the empty string is
    free, and no slot is ever cleared. Keys are strings and values are
    DictHash ids, the instantiation the rest of the program uses. */
module SimpleMapping {
  import opened Text
  import opened Settings

  // ------------------------------------------------------------ the hashes

  /** A character as the hash loops add it to a size_t: its low byte read
      as a signed char and sign-extended to 64 bits. */
  function Widen(c: char): bv64
  {
    var b := (c as int) % 256;
    if b < 128 then b as bv64 else (b as bv64) | 0xFFFF_FFFF_FFFF_FF00
  }

  /** The characters both hashes consume: those before the first NUL
      (the loops stop at the end of the string or at a zero char). */
  function UpToNul(s: string): (r: string)
    ensures r <= s
    ensures forall k :: 0 <= k < |r| ==> r[k] != '\0'
    ensures |r| < |s| ==> s[|r|] == '\0'
  {
    match Find(s, '\0', 0)
    case None => s
    case Some(k) => s[..k]
  }

  /** The NUL-free prefix is the unique prefix of `s` ending at the end of
      `s` or at a NUL. */
  lemma UpToNulAt(s: string, i: nat)
    requires i <= |s| && (i == |s| || s[i] == '\0')
    requires forall k :: 0 <= k < i ==> s[k] != '\0'
    ensures UpToNul(s) == s[..i]
  {
  }

  /** One round of fnv: `hash ^ c`, then `* 16777619`, modulo 2^64. */
  function FnvStep(h: bv64, c: char): bv64
  {
    (h ^ Widen(c)) * 16777619
  }

  /** fnv over every character of `s`, starting from 0x811c9dc5. */
  function FnvFold(s: string): bv64
  {
    if |s| == 0 then 0x811c9dc5 else FnvStep(FnvFold(s[..|s| - 1]), s[|s| - 1])
  }

  /** The value fnv returns for `s`. */
  function FnvHash(s: string): bv64
  {
    FnvFold(UpToNul(s))
  }

  /** One round of hashfn: `(hash << 5) + hash + c`, modulo 2^64. */
  function DjbStep(h: bv64, c: char): bv64
  {
    (h << 5) + h + Widen(c)
  }

  /** hashfn over every character of `s`, starting from 5381. */
  function DjbFold(s: string): bv64
  {
    if |s| == 0 then 5381 else DjbStep(DjbFold(s[..|s| - 1]), s[|s| - 1])
  }

  /** The value hashfn returns for `s`. */
  function DjbHash(s: string): bv64
  {
    DjbFold(UpToNul(s))
  }

  /** fnv: folds FnvStep over the characters up to the first NUL. */
  method Fnv(str: string) returns (hash: bv64)
    ensures hash == FnvHash(str)
  {
    var size := |str|;
    hash := 0x811c9dc5;
    var i := 0;
    while i < size && str[i] != '\0'
      invariant 0 <= i <= size
      invariant forall k :: 0 <= k < i ==> str[k] != '\0'
      invariant hash == FnvFold(str[..i])
    {
      assert str[..i + 1][..i] == str[..i];
      hash := FnvStep(hash, str[i]);
      i := i + 1;
    }
    UpToNulAt(str, i);
  }

  /** hashfn: folds DjbStep over the characters up to the first NUL. */
  method HashFn(str: string) returns (hash: bv64)
    ensures hash == DjbHash(str)
  {
    hash := 5381;
    var size := |str|;
    var i := 0;
    while i < size && str[i] != '\0'
      invariant 0 <= i <= size
      invariant forall k :: 0 <= k < i ==> str[k] != '\0'
      invariant hash == DjbFold(str[..i])
    {
      assert str[..i + 1][..i] == str[..i];
      hash := DjbStep(hash, str[i]);
      i := i + 1;
    }
    UpToNulAt(str, i);
  }

  /** Both hashes start from their seed on the empty string. */
  lemma EmptyHashes()
    ensures FnvHash("") == 0x811c9dc5 && DjbHash("") == 5381
  {
  }

  /** Each further non-NUL character updates the hash by one round. */
  lemma HashesStep(s: string, c: char)
    requires forall k :: 0 <= k < |s| ==> s[k] != '\0'
    requires c != '\0'
    ensures FnvHash(s + [c]) == FnvStep(FnvHash(s), c)
    ensures DjbHash(s + [c]) == DjbStep(DjbHash(s), c)
  {
    UpToNulAt(s, |s|);
    UpToNulAt(s + [c], |s| + 1);
    assert (s + [c])[..|s| + 1] == s + [c];
    assert (s + [c])[..|s|] == s;
    assert s[..|s|] == s;
  }

  /** Whatever follows the first NUL does not affect either hash. */
  lemma HashesStopAtNul(s: string, t: string)
    requires forall k :: 0 <= k < |s| ==> s[k] != '\0'
    ensures FnvHash(s + ['\0'] + t) == FnvHash(s)
    ensures DjbHash(s + ['\0'] + t) == DjbHash(s)
  {
    var w := s + ['\0'] + t;
    assert w[|s|] == '\0';
    UpToNulAt(w, |s|);
    UpToNulAt(s, |s|);
    assert w[..|s|] == s;
    assert s[..|s|] == s;
  }

  // ------------------------------------------------------------- masking

  /** 2^k. */
  function Pow2(k: nat): (r: nat)
    ensures r >= 1
  {
    if k == 0 then 1 else 2 * Pow2(k - 1)
  }

  /** The bitwise and of two non-negative integers; it is at most either
      operand, so `h & (capacity - 1)` is always a slot index below
      capacity. */
  function BitAnd(x: nat, y: nat): (r: nat)
    ensures r <= x && r <= y
    decreases x
  {
    if x == 0 || y == 0 then 0
    else 2 * BitAnd(x / 2, y / 2) + (if x % 2 == 1 && y % 2 == 1 then 1 else 0)
  }

  /** Masking with 2^k - 1 leaves an index below 2^k alone. */
  lemma {:induction false} MaskKeepsLow(x: nat, k: nat)
    requires x < Pow2(k)
    ensures BitAnd(x, Pow2(k) - 1) == x
    decreases k
  {
    if k > 0 && x > 0 {
      MaskKeepsLow(x / 2, k - 1);
      assert (Pow2(k) - 1) / 2 == Pow2(k - 1) - 1;
    }
  }

  /** Masking 2^k with 2^k - 1 gives 0. */
  lemma {:induction false} MaskWraps(k: nat)
    ensures BitAnd(Pow2(k), Pow2(k) - 1) == 0
    decreases k
  {
    if k > 0 {
      MaskWraps(k - 1);
      assert Pow2(k) / 2 == Pow2(k - 1);
      assert (Pow2(k) - 1) / 2 == Pow2(k - 1) - 1;
    }
  }

  /** `(i + 1) & (2^k - 1)` is the next slot with wrap-around when the
      capacity is 2^k. */
  lemma MaskStep(i: nat, k: nat)
    requires i < Pow2(k)
    ensures BitAnd(i + 1, Pow2(k) - 1) == if i + 1 < Pow2(k) then i + 1 else 0
  {
    if i + 1 < Pow2(k) {
      MaskKeepsLow(i + 1, k);
    } else {
      MaskWraps(k);
    }
  }

  // ------------------------------------------------------- probe sequence

  /** SimpleMapNode<std::string, DictHash>. */
  datatype Node = Node(key: string, value: nat)

  /** A default-constructed node: empty key, value 0. */
  const FreeNode: Node := Node("", 0)

  /** A slot is free when its key is the empty string. */
  predicate Free(nd: Node)
  {
    |nd.key| == 0
  }

  /** get stops probing at a free slot or at one holding `key`. */
  predicate Halts(nd: Node, key: string)
  {
    Free(nd) || nd.key == key
  }

  /** The slot visited at step `j` of a probe that starts at `start`
      in a table of `n` slots. */
  function Slot(n: nat, start: nat, j: nat): (r: nat)
    requires start < n && j < n
    ensures r < n
  {
    if start + j < n then start + j else start + j - n
  }

  /** The step at which a probe from `start` reaches slot `i`: every slot
      is reached, and at exactly one step below `n`. */
  function Offset(n: nat, start: nat, i: nat): (j: nat)
    requires start < n && i < n
    ensures j < n && Slot(n, start, j) == i
    ensures forall q :: 0 <= q < n && Slot(n, start, q) == i ==> q == j
  {
    if i >= start then i - start else i + n - start
  }

  /** Distinct steps of one probe visit distinct slots. */
  lemma SlotInjective(n: nat, start: nat, a: nat, b: nat)
    requires start < n && a < n && b < n && a != b
    ensures Slot(n, start, a) != Slot(n, start, b)
  {
  }

  /** The table has at least one free slot. */
  predicate HasFree(s: seq<Node>)
  {
    exists i :: 0 <= i < |s| && Free(s[i])
  }

  /** The first step from `j` on at which a probe from `start` meets a
      free slot; |s| when it meets none. */
  function FirstFree(s: seq<Node>, start: nat, j: nat): (r: nat)
    requires start < |s| && j <= |s|
    ensures j <= r <= |s|
    ensures r < |s| ==> Free(s[Slot(|s|, start, r)])
    ensures forall q :: j <= q < r ==> !Free(s[Slot(|s|, start, q)])
    decreases |s| - j
  {
    if j == |s| || Free(s[Slot(|s|, start, j)]) then j else FirstFree(s, start, j + 1)
  }

  /** The first step from `j` on at which a probe from `start` for `key`
      halts; |s| when it never does. */
  function StopAt(s: seq<Node>, key: string, start: nat, j: nat): (r: nat)
    requires start < |s| && j <= |s|
    ensures j <= r <= |s|
    ensures r < |s| ==> Halts(s[Slot(|s|, start, r)], key)
    ensures forall q :: j <= q < r ==> !Halts(s[Slot(|s|, start, q)], key)
    decreases |s| - j
  {
    if j == |s| || Halts(s[Slot(|s|, start, j)], key) then j else StopAt(s, key, start, j + 1)
  }

  /** With a free slot anywhere, every probe meets one within |s| steps. */
  lemma FreeReached(s: seq<Node>, start: nat)
    requires start < |s| && HasFree(s)
    ensures FirstFree(s, start, 0) < |s|
  {
    var i :| 0 <= i < |s| && Free(s[i]);
    var j := Offset(|s|, start, i);
    assert FirstFree(s, start, 0) <= j;
  }

  /** A probe for a key halts no later than the first free slot. */
  lemma StopBeforeFree(s: seq<Node>, key: string, start: nat)
    requires start < |s| && HasFree(s)
    ensures StopAt(s, key, start, 0) <= FirstFree(s, start, 0) < |s|
  {
    FreeReached(s, start);
    var f := FirstFree(s, start, 0);
    assert Halts(s[Slot(|s|, start, f)], key);
  }

  /** The step at which a probe halts is the unique one before which
      nothing halts and at which it does. */
  lemma StopIs(s: seq<Node>, key: string, start: nat, t: nat)
    requires start < |s| && t <= |s|
    requires forall q :: 0 <= q < t ==> !Halts(s[Slot(|s|, start, q)], key)
    requires t < |s| ==> Halts(s[Slot(|s|, start, t)], key)
    ensures StopAt(s, key, start, 0) == t
  {
  }

  /** The probe from `start` finds `key` in an occupied slot. */
  predicate Present(s: seq<Node>, key: string, start: nat)
    requires start < |s|
  {
    var q := StopAt(s, key, start, 0);
    q < |s| && !Free(s[Slot(|s|, start, q)])
  }

  /** What get and get_hash return for a probe from `start`: the value of
      the first slot holding `key`, or HASH_NOT_FOUND when a free slot
      comes first. */
  function Lookup(s: seq<Node>, key: string, start: nat): nat
    requires start < |s|
  {
    if Present(s, key, start) then s[Slot(|s|, start, StopAt(s, key, start, 0))].value
    else HASH_NOT_FOUND
  }

  /** A found slot holds exactly the key looked for. */
  lemma PresentHoldsKey(s: seq<Node>, key: string, start: nat)
    requires start < |s| && Present(s, key, start)
    ensures s[Slot(|s|, start, StopAt(s, key, start, 0))].key == key
    ensures key != ""
  {
  }

  /** The slot insert and insert_hash write: the first free slot on the
      probe from `start`. */
  function InsertSlot(s: seq<Node>, start: nat): (p: nat)
    requires start < |s| && HasFree(s)
    ensures p < |s| && Free(s[p])
  {
    FreeReached(s, start);
    Slot(|s|, start, FirstFree(s, start, 0))
  }

  /** The table after insert / insert_hash of (key, value) probing from `start`. */
  function Inserted(s: seq<Node>, key: string, value: nat, start: nat): seq<Node>
    requires start < |s| && HasFree(s)
  {
    s[InsertSlot(s, start) := Node(key, value)]
  }

  /** Insertion fills one slot that was free and nothing else: no slot
      changes except that one, and no occupied slot becomes free. */
  lemma InsertFillsFree(s: seq<Node>, key: string, value: nat, start: nat)
    requires start < |s| && HasFree(s)
    ensures var p, r := InsertSlot(s, start), Inserted(s, key, value, start);
      Free(s[p]) && |r| == |s| && r[p] == Node(key, value) &&
      (forall i :: 0 <= i < |s| && i != p ==> r[i] == s[i]) &&
      (forall i :: 0 <= i < |s| && !Free(s[i]) ==> !Free(r[i]))
  {
  }

  /** get after insert: a key that was absent is found with its value. */
  lemma GetAfterInsert(s: seq<Node>, key: string, value: nat, start: nat)
    requires start < |s| && HasFree(s)
    requires key != "" && !Present(s, key, start)
    ensures Lookup(Inserted(s, key, value, start), key, start) == value
  {
    var n := |s|;
    var f := FirstFree(s, start, 0);
    StopBeforeFree(s, key, start);
    var t := StopAt(s, key, start, 0);
    assert Free(s[Slot(n, start, t)]);
    assert t == f;
    var r := Inserted(s, key, value, start);
    forall q | 0 <= q < f
      ensures !Halts(r[Slot(n, start, q)], key)
    {
      SlotInjective(n, start, q, f);
    }
    StopIs(r, key, start, f);
  }

  /** Re-inserting a key already present leaves get unchanged: the earlier
      copy sits before the new one on the probe. */
  lemma GetAfterReinsert(s: seq<Node>, key: string, value: nat, start: nat)
    requires start < |s| && HasFree(s) && Present(s, key, start)
    ensures Lookup(Inserted(s, key, value, start), key, start) == Lookup(s, key, start)
  {
    var n := |s|;
    var f := FirstFree(s, start, 0);
    StopBeforeFree(s, key, start);
    var t := StopAt(s, key, start, 0);
    assert t < f;
    var r := Inserted(s, key, value, start);
    forall q | 0 <= q <= t
      ensures r[Slot(n, start, q)] == s[Slot(n, start, q)]
    {
      SlotInjective(n, start, q, f);
    }
    StopIs(r, key, start, t);
  }

  // ---------------------------------------------- keys at their fnv slots

  /** The slot insert and get start probing at for `key`: fnv(key) masked
      with capacity - 1. */
  function HomeSlot(key: string, n: nat): (r: nat)
    requires n > 0
    ensures r < n
  {
    BitAnd(FnvHash(key) as nat, n - 1)
  }

  /** Every occupied slot is reachable from its key's home slot: all slots
      the probe passes on the way there are occupied. insert keeps this. */
  ghost predicate Clustered(s: seq<Node>)
  {
    |s| > 0 ==>
      forall i, q ::
        0 <= i < |s| && !Free(s[i]) && 0 <= q < Offset(|s|, HomeSlot(s[i].key, |s|), i) ==>
          !Free(s[Slot(|s|, HomeSlot(s[i].key, |s|), q)])
  }

  /** A table of free slots is clustered. */
  lemma FreeTableClustered(n: nat)
    ensures Clustered(seq(n, _ => FreeNode))
  {
  }

  /** insert (probing from the key's home slot) keeps the table clustered. */
  lemma InsertKeepsClustered(s: seq<Node>, key: string, value: nat)
    requires |s| > 0 && HasFree(s) && Clustered(s)
    ensures Clustered(Inserted(s, key, value, HomeSlot(key, |s|)))
  {
    var n := |s|;
    var start := HomeSlot(key, n);
    var f := FirstFree(s, start, 0);
    var p := InsertSlot(s, start);
    var r := Inserted(s, key, value, start);
    forall i, q |
      0 <= i < n && !Free(r[i]) && 0 <= q < Offset(n, HomeSlot(r[i].key, n), i)
      ensures !Free(r[Slot(n, HomeSlot(r[i].key, n), q)])
    {
      if i == p {
        assert Offset(n, start, p) == f;
        SlotInjective(n, start, q, f);
      } else {
        assert r[i] == s[i];
      }
    }
  }

  /** insert or insert_hash of one key, from any start, leaves get for
      every other key unchanged, provided the table is clustered. */
  lemma GetOtherAfterInsert(s: seq<Node>, key: string, value: nat, start: nat, other: string)
    requires start < |s| && HasFree(s) && Clustered(s) && other != key
    ensures Lookup(Inserted(s, key, value, start), other, HomeSlot(other, |s|))
         == Lookup(s, other, HomeSlot(other, |s|))
  {
    var n := |s|;
    var h := HomeSlot(other, n);
    var p := InsertSlot(s, start);
    var r := Inserted(s, key, value, start);
    StopBeforeFree(s, other, h);
    var t := StopAt(s, other, h, 0);
    forall q | 0 <= q < t
      ensures r[Slot(n, h, q)] == s[Slot(n, h, q)]
    {
    }
    if Slot(n, h, t) != p || key == "" {
      StopIs(r, other, h, t);
    } else {
      var t2 := StopAt(r, other, h, 0);
      if t2 < n && !Free(r[Slot(n, h, t2)]) {
        assert false;
      }
    }
  }

  // ----------------------------------------------------------- the table

  /** SimpleMap<std::string, DictHash>: `nodes` is the slot array,
      `bitCapacity` the mask capacity - 1, and `count` the insert counter. */
  class SimpleMap {
    var nodes: array<Node>
    var capacity: nat
    var bitCapacity: nat
    var count: int
    ghost var log2: nat

    /** The capacity is a power of two, the mask is capacity - 1, and the
        array has capacity slots. */
    ghost predicate Valid()
      reads this
    {
      capacity == Pow2(log2) && bitCapacity == capacity - 1 && nodes.Length == capacity
    }

    /** A table of `capacity` default nodes; `preallocate` is unused. */
    constructor (capacity: nat, preallocate: int)
      requires exists k :: capacity == Pow2(k)
      ensures Valid() && fresh(nodes) && this.capacity == capacity
      ensures nodes[..] == seq(capacity, _ => FreeNode)
    {
      this.capacity := capacity;
      bitCapacity := capacity - 1;
      nodes := new Node[capacity](_ => FreeNode);
      ghost var k :| capacity == Pow2(k);
      log2 := k;
    }

    /** insert_hash: writes (key, value) into the first free slot on the
        probe from `hash & bitCapacity` and bumps the counter. */
    method InsertHash(key: string, value: nat, hash: nat)
      requires Valid() && HasFree(nodes[..])
      modifies nodes, this`count
      ensures Valid()
      ensures nodes[..] == Inserted(old(nodes[..]), key, value, BitAnd(hash, bitCapacity))
      ensures count == old(count) + 1
    {
      ghost var s := nodes[..];
      var i := BitAnd(hash, bitCapacity);
      ghost var start := i;
      FreeReached(s, start);
      ghost var f := FirstFree(s, start, 0);
      ghost var j := 0;
      while true
        invariant nodes[..] == s
        invariant count == old(count)
        invariant j <= f && i == Slot(|s|, start, j)
        decreases f - j
      {
        if |nodes[i].key| == 0 {
          assert j == f;
          nodes[i] := Node(key, value);
          count := count + 1;
          return;
        }
        MaskStep(i, log2);
        i := BitAnd(i + 1, bitCapacity);
        j := j + 1;
      }
    }

    /** insert: insert_hash with the key's fnv hash. */
    method Insert(key: string, value: nat)
      requires Valid() && HasFree(nodes[..])
      modifies nodes, this`count
      ensures Valid()
      ensures nodes[..] == Inserted(old(nodes[..]), key, value, HomeSlot(key, capacity))
      ensures count == old(count) + 1
    {
      var hash := Fnv(key);
      InsertHash(key, value, hash as nat);
    }

    /** get_hash: the value of the first slot holding `key` on the probe
        from `hash & bitCapacity`, HASH_NOT_FOUND when a free slot comes
        first. The loop ends once it meets the key or a free slot, so a
        full table is fine as long as the key is on the probe. */
    method GetHash(key: string, hash: nat) returns (v: nat)
      requires Valid()
      requires HasFree(nodes[..]) || Present(nodes[..], key, BitAnd(hash, bitCapacity))
      ensures v == Lookup(nodes[..], key, BitAnd(hash, bitCapacity))
    {
      var i := BitAnd(hash, bitCapacity);
      ghost var start := i;
      if HasFree(nodes[..]) {
        StopBeforeFree(nodes[..], key, start);
      }
      ghost var t := StopAt(nodes[..], key, start, 0);
      ghost var j := 0;
      while true
        invariant t < nodes.Length
        invariant j <= t && i == Slot(nodes.Length, start, j)
        decreases t - j
      {
        if |nodes[i].key| == 0 {
          assert j == t;
          v := HASH_NOT_FOUND;
          return;
        } else if nodes[i].key == key {
          assert j == t;
          v := nodes[i].value;
          return;
        }
        MaskStep(i, log2);
        i := BitAnd(i + 1, bitCapacity);
        j := j + 1;
      }
    }

    /** get: get_hash with the key's fnv hash. */
    method Get(key: string) returns (v: nat)
      requires Valid()
      requires HasFree(nodes[..]) || Present(nodes[..], key, HomeSlot(key, capacity))
      ensures v == Lookup(nodes[..], key, HomeSlot(key, capacity))
    {
      var hash := Fnv(key);
      v := GetHash(key, hash as nat);
    }

    /** size: the insert counter. */
    function Size(): (n: int)
      reads this
      ensures n == count
    {
      count
    }
  }
}
