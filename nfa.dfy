/** The token automaton of src/nfa.h: per-state arc maps in three
    representations (hash map, one shared direct-indexed array, linear
    list) and the combined state that starts as a linear list and switches
    to a hash map once it grows past MAX_LINEAR_MAP_SIZE arcs; the
    automaton's state vector; and the double-buffered visitor that
    feedWord advances by one input token. The input type is a DictHash
    token id. LOCK/UNLOCK are no-ops in this sequential model. */
module Automaton {
  import opened Wrappers
  import opened Settings
  import opened Seqs

  /** NO_ARC: (ssize_t) -1, returned when a state has no arc for an input. */
  const NO_ARC: int := -1

  /** 2^32: the range of the `unsigned int` that arc targets are stored in. */
  const UINT_RANGE: nat := 0x1_0000_0000

  /** The conversion of a size_t index to `unsigned int`. */
  function Trunc32(x: nat): (r: nat)
    ensures r < UINT_RANGE
    ensures x < UINT_RANGE ==> r == x
  {
    x % UINT_RANGE
  }

  // ------------------------------------------------------------------ Word

  /** The word of a state, from its uses in nfa.h: an activation window
      and the byte length of the pattern the state ends. `validTo` None is
      an open window. */
  datatype Word = Word(validFrom: nat, validTo: Option<nat>, length: nat)

  /** The word of a fresh state: active at no timestamp. */
  const NoWord: Word := Word(0, Some(0), 0)

  /** is_active(t), assumed to be validFrom <= t < validTo. */
  predicate IsActive(w: Word, t: nat)
  {
    w.validFrom <= t && (w.validTo.None? || t < w.validTo.value)
  }

  // ------------------------------------------------------------ arc lists

  /** An (input, target) pair of a linear arc list. */
  type ArcPair = (nat, nat)

  /** The first position from `j` on whose input is `x`; |ps| when none is. */
  function FirstIndex(ps: seq<ArcPair>, x: nat, j: nat): (r: nat)
    requires j <= |ps|
    ensures j <= r <= |ps|
    ensures r < |ps| ==> ps[r].0 == x
    ensures forall k :: j <= k < r ==> ps[k].0 != x
    decreases |ps| - j
  {
    if j == |ps| || ps[j].0 == x then j else FirstIndex(ps, x, j + 1)
  }

  /** What a linear scan returns: the target of the earliest pair for `x`,
      NO_ARC when there is none. */
  function FirstValue(ps: seq<ArcPair>, x: nat): int
  {
    var i := FirstIndex(ps, x, 0);
    if i < |ps| then ps[i].1 else NO_ARC
  }

  /** The arc a map holds for `x`, NO_ARC when it has none. */
  function ArcValue(m: map<nat, nat>, x: nat): int
  {
    if x in m then m[x] else NO_ARC
  }

  /** std::unordered_map::insert: adds (k, v) unless `k` is already a key. */
  function AddFirst(m: map<nat, nat>, k: nat, v: nat): map<nat, nat>
  {
    if k in m then m else m[k := v]
  }

  /** `m` after inserting the pairs of `ps` in order with AddFirst. */
  function InsertAll(m: map<nat, nat>, ps: seq<ArcPair>): map<nat, nat>
  {
    if |ps| == 0 then m
    else AddFirst(InsertAll(m, ps[..|ps| - 1]), ps[|ps| - 1].0, ps[|ps| - 1].1)
  }

  /** The hash map a linear list is promoted to. */
  function FirstMap(ps: seq<ArcPair>): map<nat, nat>
  {
    InsertAll(map[], ps)
  }

  /** FirstIndex is determined by the pairs before it and at it. */
  lemma FirstIndexIs(ps: seq<ArcPair>, x: nat, i: nat)
    requires i <= |ps|
    requires forall k :: 0 <= k < i ==> ps[k].0 != x
    requires i < |ps| ==> ps[i].0 == x
    ensures FirstIndex(ps, x, 0) == i
  {
  }

  /** Appending a pair changes a scan only when no earlier pair matched. */
  lemma FirstValueAppend(ps: seq<ArcPair>, p: ArcPair, x: nat)
    ensures FirstValue(ps + [p], x)
         == if FirstValue(ps, x) != NO_ARC then FirstValue(ps, x)
            else if p.0 == x then p.1 else NO_ARC
  {
    var i := FirstIndex(ps, x, 0);
    var qs := ps + [p];
    if i < |ps| {
      FirstIndexIs(qs, x, i);
    } else if p.0 == x {
      FirstIndexIs(qs, x, |ps|);
    } else {
      FirstIndexIs(qs, x, |qs|);
    }
  }

  /** Promotion preserves every arc: the hash map built by inserting the
      pairs in order answers each input exactly as the linear scan does. */
  lemma {:induction false} FirstMapAgrees(ps: seq<ArcPair>, x: nat)
    ensures ArcValue(FirstMap(ps), x) == FirstValue(ps, x)
    decreases |ps|
  {
    if |ps| > 0 {
      var init, p := ps[..|ps| - 1], ps[|ps| - 1];
      assert ps == init + [p];
      FirstMapAgrees(init, x);
      FirstValueAppend(init, p, x);
    }
  }

  /** The arc map of a linear list grows first-write-wins. */
  lemma FirstMapAppend(ps: seq<ArcPair>, p: ArcPair)
    ensures FirstMap(ps + [p]) == AddFirst(FirstMap(ps), p.0, p.1)
  {
    assert (ps + [p])[..|ps|] == ps;
  }

  // --------------------------------------------------------------- visitor

  /** NfaVisitor: two buffers of active state ids; `stateIndex` selects
      the current one. */
  class NfaVisitor {
    var states: seq<seq<int>>
    var stateIndex: nat

    ghost predicate Valid()
      reads this
    {
      |states| == 2 && stateIndex < 2
    }

    /** Both buffers empty, buffer 0 current. */
    constructor ()
      ensures Valid() && states == [[], []] && stateIndex == 0
    {
      states := [[], []];
      stateIndex := 0;
    }

    /** The end of feedWord: `next` becomes the other buffer, and the
        other buffer becomes current. */
    method Advance(next: seq<int>)
      requires Valid()
      modifies this
      ensures Valid() && stateIndex == 1 - old(stateIndex)
      ensures states[stateIndex] == next && states[old(stateIndex)] == old(states[stateIndex])
    {
      var nextStateIndex := 1 - stateIndex;
      states := states[nextStateIndex := next];
      stateIndex := nextStateIndex;
    }

    /** reset: empties both buffers and keeps `stateIndex`. */
    method Reset()
      modifies this
      ensures states == [[], []] && stateIndex == old(stateIndex)
    {
      states := [[], []];
    }
  }

  // ------------------------------------------------- single-representation states

  /** HashNfaState: arcs in a hash map; add_arc overwrites. */
  class HashNfaState {
    var arcs: map<nat, nat>

    constructor ()
      ensures arcs == map[]
    {
      arcs := map[];
    }

    /** get_arc: the stored target, NO_ARC exactly when there is none. */
    function GetArc(input: nat): (r: int)
      reads this
      ensures r == NO_ARC <==> input !in arcs
      ensures input in arcs ==> r == arcs[input]
    {
      if input in arcs then arcs[input] else NO_ARC
    }

    /** add_arc: the last write for an input wins. */
    method AddArc(input: nat, index: nat)
      modifies this
      ensures arcs == old(arcs)[input := index]
      ensures GetArc(input) == index
      ensures forall x :: x != input ==> GetArc(x) == old(GetArc(x))
    {
      arcs := arcs[input := index];
    }
  }

  /** LinearMapNfaState: every instance reads and writes the one global
      array `linearMap`, indexed directly by the input. */
  class LinearMapNfaState {
    const linearMap: array<int>

    /** Binds the state to the global array. */
    constructor (linearMap: array<int>)
      ensures this.linearMap == linearMap
    {
      this.linearMap := linearMap;
    }

    /** get_arc: the global entry for `input`. */
    function GetArc(input: nat): (r: int)
      reads linearMap
      requires input < linearMap.Length
      ensures r == linearMap[..][input]
    {
      linearMap[input]
    }

    /** add_arc: overwrites the global entry for `input`; last write wins. */
    method AddArc(input: nat, index: nat)
      requires input < linearMap.Length
      modifies linearMap
      ensures linearMap[..] == old(linearMap[..])[input := index]
      ensures GetArc(input) == index
      ensures forall x: nat :: x < linearMap.Length && x != input ==> GetArc(x) == old(GetArc(x))
    {
      linearMap[input] := index;
    }
  }

  /** LinearNfaState: an append-only list of (input, target) pairs. */
  class LinearNfaState {
    var keys: seq<ArcPair>

    constructor ()
      ensures keys == []
    {
      keys := [];
    }

    /** get_arc: the target of the earliest pair for `input`, NO_ARC when
        there is none. */
    method GetArc(input: nat) returns (r: int)
      ensures r == FirstValue(keys, input)
    {
      var size := |keys|;
      for i := 0 to size
        invariant forall k :: 0 <= k < i ==> keys[k].0 != input
      {
        if keys[i].0 == input {
          FirstIndexIs(keys, input, i);
          return keys[i].1;
        }
      }
      FirstIndexIs(keys, input, size);
      return NO_ARC;
    }

    /** add_arc: appends the pair, the target cut to `unsigned int`. */
    method AddArc(input: nat, index: nat)
      modifies this
      ensures keys == old(keys) + [(input, Trunc32(index))]
      ensures GetSize() == old(GetSize()) + 1
    {
      keys := keys + [(input, Trunc32(index))];
    }

    /** get_size: the number of pairs. */
    function GetSize(): (n: nat)
      reads this
      ensures n == |keys|
    {
      |keys|
    }
  }

  // --------------------------------------------------------- combined state

  /** Which member function get_fn / add_fn points to. */
  datatype Arm = LinearArm | HashArm

  /** CombinedNfaState: a linear list until it holds more than
      MAX_LINEAR_MAP_SIZE pairs, then a hash map filled from it. */
  class CombinedNfaState {
    var linearMap: seq<ArcPair>
    var hashMap: map<nat, nat>
    var getFn: Arm
    var addFn: Arm
    var word: Word

    /** Both pointers select the same arm, and while it is the linear arm
        the hash map is untouched and the list is within the limit. */
    ghost predicate Valid()
      reads this
    {
      getFn == addFn &&
      (getFn == LinearArm ==> |linearMap| <= MAX_LINEAR_MAP_SIZE && hashMap == map[])
    }

    /** The arcs as get_fn answers them. */
    function Arcs(): map<nat, nat>
      reads this
    {
      if getFn == LinearArm then FirstMap(linearMap) else hashMap
    }

    /** A state with no arcs, on the linear arm, with the default word. */
    constructor ()
      ensures Valid() && Arcs() == map[] && word == NoWord
      ensures linearMap == [] && hashMap == map[] && getFn == LinearArm
    {
      linearMap := [];
      hashMap := map[];
      getFn := LinearArm;
      addFn := LinearArm;
      word := NoWord;
    }

    /** get_arc_linear: the target of the earliest pair for `input`,
        NO_ARC when there is none. */
    method GetArcLinear(input: nat) returns (r: int)
      ensures r == FirstValue(linearMap, input)
    {
      var size := |linearMap|;
      for i := 0 to size
        invariant forall k :: 0 <= k < i ==> linearMap[k].0 != input
      {
        if linearMap[i].0 == input {
          FirstIndexIs(linearMap, input, i);
          return linearMap[i].1;
        }
      }
      FirstIndexIs(linearMap, input, size);
      return NO_ARC;
    }

    /** add_arc_linear: appends the pair; once the list is longer than
        MAX_LINEAR_MAP_SIZE, inserts every pair into the hash map (an
        existing key keeps its target) and switches both arms. */
    method AddArcLinear(input: nat, index: nat)
      modifies this
      ensures linearMap == old(linearMap) + [(input, Trunc32(index))]
      ensures word == old(word)
      ensures |linearMap| > MAX_LINEAR_MAP_SIZE ==>
        hashMap == InsertAll(old(hashMap), linearMap) && getFn == HashArm && addFn == HashArm
      ensures |linearMap| <= MAX_LINEAR_MAP_SIZE ==>
        hashMap == old(hashMap) && getFn == old(getFn) && addFn == old(addFn)
    {
      linearMap := linearMap + [(input, Trunc32(index))];
      if |linearMap| > MAX_LINEAR_MAP_SIZE {
        var pairs := linearMap;
        var size := |pairs|;
        for i := 0 to size
          invariant linearMap == pairs
          invariant word == old(word)
          invariant hashMap == InsertAll(old(hashMap), pairs[..i])
        {
          assert pairs[..i + 1][..i] == pairs[..i];
          var pair := pairs[i];
          if pair.0 !in hashMap {
            hashMap := hashMap[pair.0 := pair.1];
          }
        }
        assert pairs[..size] == pairs;
        getFn := HashArm;
        addFn := HashArm;
      }
    }

    /** get_arc_hash: the hash map's target, NO_ARC when it has none. */
    function GetArcHash(input: nat): (r: int)
      reads this
      ensures r == NO_ARC <==> input !in hashMap
      ensures input in hashMap ==> r == hashMap[input]
    {
      if input in hashMap then hashMap[input] else NO_ARC
    }

    /** add_arc_hash: inserts unless the input already has an arc. */
    method AddArcHash(input: nat, index: nat)
      modifies this
      ensures hashMap == AddFirst(old(hashMap), input, Trunc32(index))
      ensures linearMap == old(linearMap) && getFn == old(getFn) && addFn == old(addFn)
      ensures word == old(word)
    {
      if input !in hashMap {
        hashMap := hashMap[input := Trunc32(index)];
      }
    }

    /** (state.*get_fn)(input): under either arm, the target of the first
        arc ever added for `input`. */
    method GetArc(input: nat) returns (r: int)
      ensures r == ArcValue(Arcs(), input)
    {
      if getFn == LinearArm {
        r := GetArcLinear(input);
        FirstMapAgrees(linearMap, input);
      } else {
        r := GetArcHash(input);
      }
    }

    /** (state.*add_fn)(input, index): first write wins under either arm,
        across the promotion too. */
    method AddArc(input: nat, index: nat)
      requires Valid()
      modifies this
      ensures Valid()
      ensures Arcs() == AddFirst(old(Arcs()), input, Trunc32(index))
      ensures word == old(word)
    {
      if addFn == LinearArm {
        FirstMapAppend(linearMap, (input, Trunc32(index)));
        AddArcLinear(input, index);
      } else {
        AddArcHash(input, index);
      }
    }
  }

  // ------------------------------------------------- the automaton as a value

  /** What a state shows the walk: the arcs get_fn answers and its word. */
  datatype StateView = StateView(arcs: map<nat, nat>, word: Word)

  /** Every id in `ids` names one of `n` states. */
  predicate InRange(ids: seq<int>, n: nat)
  {
    forall k :: 0 <= k < |ids| ==> 0 <= ids[k] < n
  }

  /** Every arc of every state names a state. */
  predicate Closed(v: seq<StateView>)
  {
    forall i, x :: 0 <= i < |v| && x in v[i].arcs ==> v[i].arcs[x] < |v|
  }

  /** The state state `id` leads to on `input`, NO_ARC if none. */
  function ArcFrom(v: seq<StateView>, id: int, input: nat): (r: int)
    requires Closed(v) && 0 <= id < |v|
    ensures r == NO_ARC || 0 <= r < |v|
  {
    ArcValue(v[id].arcs, input)
  }

  /** The successors of the states `cur` on `input`, in order, skipping
      states that have no arc. */
  function Successors(v: seq<StateView>, cur: seq<int>, input: nat): (r: seq<int>)
    requires Closed(v) && InRange(cur, |v|)
    ensures InRange(r, |v|) && |r| <= |cur|
  {
    if |cur| == 0 then []
    else
      var a := ArcFrom(v, cur[|cur| - 1], input);
      var rest := Successors(v, cur[..|cur| - 1], input);
      if a != NO_ARC then rest + [a] else rest
  }

  /** The (id, length) pairs of the states `ids` whose word is active at
      `t`, in order. */
  function Harvest(v: seq<StateView>, ids: seq<int>, t: nat): (r: seq<(nat, nat)>)
    requires InRange(ids, |v|)
    ensures |r| <= |ids|
  {
    if |ids| == 0 then []
    else
      var id := ids[|ids| - 1];
      var rest := Harvest(v, ids[..|ids| - 1], t);
      if IsActive(v[id].word, t) then rest + [(id as nat, v[id].word.length)] else rest
  }

  /** Harvest is a filter over the pushed ids: it distributes over
      concatenation. */
  lemma {:induction false} HarvestAppend(v: seq<StateView>, a: seq<int>, b: seq<int>, t: nat)
    requires InRange(a, |v|) && InRange(b, |v|)
    ensures InRange(a + b, |v|)
    ensures Harvest(v, a + b, t) == Harvest(v, a, t) + Harvest(v, b, t)
    decreases |b|
  {
    if |b| > 0 {
      var b0 := b[..|b| - 1];
      assert (a + b)[..|a + b| - 1] == a + b0;
      HarvestAppend(v, a, b0, t);
    } else {
      assert a + b == a;
    }
  }

  /** A single id is harvested exactly when its word is active. */
  lemma HarvestOne(v: seq<StateView>, id: int, t: nat)
    requires 0 <= id < |v|
    ensures InRange([id], |v|)
    ensures Harvest(v, [id], t) == if IsActive(v[id].word, t) then [(id as nat, v[id].word.length)] else []
  {
    assert [id][..0] == [];
  }

  /** Successors distributes over concatenation: each current state
      contributes its own successor (or none) in turn. */
  lemma {:induction false} SuccessorsAppend(v: seq<StateView>, a: seq<int>, b: seq<int>, input: nat)
    requires Closed(v) && InRange(a, |v|) && InRange(b, |v|)
    ensures InRange(a + b, |v|)
    ensures Successors(v, a + b, input) == Successors(v, a, input) + Successors(v, b, input)
    decreases |b|
  {
    if |b| > 0 {
      var b0 := b[..|b| - 1];
      assert (a + b)[..|a + b| - 1] == a + b0;
      SuccessorsAppend(v, a, b0, input);
    } else {
      assert a + b == a;
    }
  }

  /** One more pushed id is harvested exactly when its word is active. */
  lemma HarvestStep(v: seq<StateView>, ids: seq<int>, id: int, t: nat)
    requires InRange(ids, |v|) && 0 <= id < |v|
    ensures InRange(ids + [id], |v|)
    ensures Harvest(v, ids + [id], t)
         == Harvest(v, ids, t) + (if IsActive(v[id].word, t) then [(id as nat, v[id].word.length)] else [])
  {
    assert (ids + [id])[..|ids|] == ids;
  }

  /** What the loop of feedWord reports for the states `cur`: for each
      one with a successor whose word is active at `t`, that successor's
      (id, length), in order. */
  function Reported(v: seq<StateView>, cur: seq<int>, input: nat, t: nat): seq<(nat, nat)>
    requires Closed(v) && InRange(cur, |v|)
  {
    if |cur| == 0 then []
    else
      var a := ArcFrom(v, cur[|cur| - 1], input);
      var rest := Reported(v, cur[..|cur| - 1], input, t);
      if a != NO_ARC && IsActive(v[a].word, t) then rest + [(a as nat, v[a].word.length)] else rest
  }

  /** Reporting along the walk is harvesting the successors it pushes. */
  lemma {:induction false} ReportedIsHarvest(v: seq<StateView>, cur: seq<int>, input: nat, t: nat)
    requires Closed(v) && InRange(cur, |v|)
    ensures Reported(v, cur, input, t) == Harvest(v, Successors(v, cur, input), t)
    decreases |cur|
  {
    if |cur| > 0 {
      var init := cur[..|cur| - 1];
      ReportedIsHarvest(v, init, input, t);
      var a := ArcFrom(v, cur[|cur| - 1], input);
      if a != NO_ARC {
        HarvestStep(v, Successors(v, init, input), a, t);
      }
    }
  }

  /** The views of the states `ss`, in order. */
  ghost function Views(ss: seq<CombinedNfaState>): (r: seq<StateView>)
    reads ss
    ensures |r| == |ss|
    ensures forall i :: 0 <= i < |ss| ==> r[i] == StateView(ss[i].Arcs(), ss[i].word)
  {
    if |ss| == 0 then []
    else Views(ss[..|ss| - 1]) + [StateView(ss[|ss| - 1].Arcs(), ss[|ss| - 1].word)]
  }

  // -------------------------------------------------------------- the NFA

  /** Nfa: the global-array root state and the vector of states. */
  class Nfa {
    var rootState: LinearMapNfaState
    var states: seq<CombinedNfaState>

    /** Every arc of every state names a state. */
    ghost predicate ArcsInRange()
      reads this, states
    {
      forall i, x :: 0 <= i < |states| && x in states[i].Arcs() ==> states[i].Arcs()[x] < |states|
    }

    /** Every root entry other than NO_ARC names a state. */
    ghost predicate RootInRange()
      reads this, rootState, rootState.linearMap
    {
      forall k :: 0 <= k < rootState.linearMap.Length ==>
        rootState.linearMap[k] == NO_ARC || 0 <= rootState.linearMap[k] < |states|
    }

    ghost predicate Valid()
      reads this, rootState, rootState.linearMap, states
    {
      ArcsInRange() && RootInRange() &&
      forall i :: 0 <= i < |states| ==> states[i].Valid()
    }

    /** The states as values. */
    ghost function View(): (r: seq<StateView>)
      reads this, states
      ensures |r| == |states|
      ensures ArcsInRange() ==> Closed(r)
    {
      Views(states)
    }

    /** The automaton with only the root state 0; `linearMap` is the global
        array, which initLinearMap is taken to have filled with NO_ARC. */
    constructor (linearMap: array<int>)
      requires forall k :: 0 <= k < linearMap.Length ==> linearMap[k] == NO_ARC
      ensures Valid() && |states| == 1 && fresh(states[0])
      ensures states[0].Arcs() == map[] && states[0].word == NoWord
      ensures rootState.linearMap == linearMap
    {
      rootState := new LinearMapNfaState(linearMap);
      states := [];
      new;
      var root := CreateState();
    }

    /** createState: appends one fresh state and returns its index, the
        old number of states. */
    method CreateState() returns (id: nat)
      requires Valid()
      modifies this
      ensures Valid() && rootState == old(rootState)
      ensures id == old(|states|) && |states| == id + 1 && states[..id] == old(states)
      ensures fresh(states[id]) && states[id].Arcs() == map[] && states[id].word == NoWord
    {
      var s := new CombinedNfaState();
      states := states + [s];
      id := |states| - 1;
    }

    /** The root state's arc on `input` as a buffer of length 0 or 1. */
    function RootStep(input: nat, includeStartState: bool): (r: seq<int>)
      reads this, rootState, rootState.linearMap
      requires RootInRange() && input < rootState.linearMap.Length
      ensures InRange(r, |states|) && |r| <= 1
      ensures |r| == 1 <==> includeStartState && rootState.linearMap[input] != NO_ARC
    {
      if includeStartState && rootState.GetArc(input) != NO_ARC then [rootState.GetArc(input)] else []
    }

    /** The loop of feedWord over the current buffer: appends to `next`
        the successor of each state of `current` that has one, and to `out`
        the (id, length) of each appended state whose word is active. */
    method PushSuccessors(current: seq<int>, input: nat, timestamp: nat,
                          next0: seq<int>, out0: seq<(nat, nat)>)
      returns (next: seq<int>, out: seq<(nat, nat)>)
      requires ArcsInRange() && InRange(current, |states|)
      ensures next == next0 + Successors(View(), current, input)
      ensures out == out0 + Harvest(View(), Successors(View(), current, input), timestamp)
    {
      ghost var v := View();
      next, out := next0, out0;
      for i := 0 to |current|
        invariant next == next0 + Successors(v, current[..i], input)
        invariant out == out0 + Reported(v, current[..i], input, timestamp)
      {
        assert current[..i + 1][..i] == current[..i];
        var state := states[current[i]];
        var a := state.GetArc(input);
        if a != NO_ARC {
          next := next + [a];
          var nextState := states[a];
          if IsActive(nextState.word, timestamp) {
            out := out + [(a as nat, nextState.word.length)];
          }
        }
      }
      assert current[..|current|] == current;
      ReportedIsHarvest(v, current, input, timestamp);
    }

    /** The buffer and results feedWord computes from the current buffer
        `current`: the root arc (when asked for and present) followed by
        the successors of `current`, and `results` extended with the
        (id, length) of each of them whose word is active at `timestamp`. */
    method FeedStep(current: seq<int>, input: nat, results: seq<(nat, nat)>,
                    timestamp: nat, includeStartState: bool)
      returns (next: seq<int>, out: seq<(nat, nat)>)
      requires ArcsInRange() && RootInRange()
      requires input < rootState.linearMap.Length
      requires InRange(current, |states|)
      ensures next == RootStep(input, includeStartState) + Successors(View(), current, input)
      ensures out == results + Harvest(View(), next, timestamp)
    {
      ghost var v := View();
      next := [];
      out := results;
      if includeStartState {
        var arc := rootState.GetArc(input);
        if arc != NO_ARC {
          HarvestOne(v, arc, timestamp);
          next := [arc];
          var nextState := states[arc];
          if IsActive(nextState.word, timestamp) {
            out := out + [(arc as nat, nextState.word.length)];
          }
        }
      }
      ghost var root, rootOut := next, out;
      assert root == RootStep(input, includeStartState);
      assert rootOut == results + Harvest(v, root, timestamp);
      next, out := PushSuccessors(current, input, timestamp, next, out);
      ghost var succ := Successors(v, current, input);
      assert View() == v;
      HarvestAppend(v, root, succ, timestamp);
      AppendAssoc(results, Harvest(v, root, timestamp), Harvest(v, succ, timestamp));
    }

    /** feedWord: fills the other buffer as FeedStep computes it, returns
        the extended results, and makes the other buffer current. */
    method FeedWord(visitor: NfaVisitor, input: nat, results: seq<(nat, nat)>,
                    timestamp: nat, includeStartState: bool)
      returns (out: seq<(nat, nat)>)
      requires ArcsInRange() && RootInRange() && visitor.Valid()
      requires input < rootState.linearMap.Length
      requires InRange(visitor.states[visitor.stateIndex], |states|)
      modifies visitor
      ensures visitor.Valid() && visitor.stateIndex == 1 - old(visitor.stateIndex)
      ensures visitor.states[old(visitor.stateIndex)] == old(visitor.states[visitor.stateIndex])
      ensures visitor.states[visitor.stateIndex]
           == RootStep(input, includeStartState) + Successors(View(), old(visitor.states[visitor.stateIndex]), input)
      ensures out == results + Harvest(View(), visitor.states[visitor.stateIndex], timestamp)
    {
      var next;
      next, out := FeedStep(visitor.states[visitor.stateIndex], input, results, timestamp, includeStartState);
      ghost var v := View();
      visitor.Advance(next);
      assert View() == v;
    }

    /** feedWordWithInitial: feedWord with the root arc included. */
    method FeedWordWithInitial(visitor: NfaVisitor, input: nat, results: seq<(nat, nat)>, timestamp: nat)
      returns (out: seq<(nat, nat)>)
      requires Valid() && visitor.Valid()
      requires input < rootState.linearMap.Length
      requires InRange(visitor.states[visitor.stateIndex], |states|)
      modifies visitor
      ensures visitor.Valid() && visitor.stateIndex == 1 - old(visitor.stateIndex)
      ensures visitor.states[old(visitor.stateIndex)] == old(visitor.states[visitor.stateIndex])
      ensures visitor.states[visitor.stateIndex]
           == RootStep(input, true) + Successors(View(), old(visitor.states[visitor.stateIndex]), input)
      ensures out == results + Harvest(View(), visitor.states[visitor.stateIndex], timestamp)
    {
      out := FeedWord(visitor, input, results, timestamp, true);
    }
  }
}
