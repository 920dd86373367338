/** The brute-force matcher of src/main.cpp: the list of n-grams, the prefix
    map from first token id to n-gram indices, the Add and Delete updates,
    and find_in_document, which collects, sorts, deduplicates and renders
    the matches of a document. */
module BruteForce {
  import opened Text
  import opened Settings
  import opened Dict
  import opened Seqs

  /** An n-gram as main.cpp uses it: the ids of its tokens and whether it
      is live. Delete only clears the flag; the entry and its index stay. */
  datatype NGram = NGram(hashList: seq<nat>, active: bool)

  /** A match: the document token position and the n-gram's text. */
  datatype Match = Match(index: nat, word: string)

  // ------------------------------------------------------ n-grams and phrases

  /** The tokens of phrase `p` are interned in `d` and `g` holds their ids. */
  ghost predicate Interns(d: map<string, nat>, g: NGram, p: string)
  {
    (forall j :: 0 <= j < |Split(p)| ==> Split(p)[j] in d) && g.hashList == Lookups(d, Split(p))
  }

  /** Every n-gram holds the ids of the phrase at the same index. */
  ghost predicate Interned(d: map<string, nat>, ns: seq<NGram>, ps: seq<string>)
  {
    |ps| == |ns| && forall k :: 0 <= k < |ns| ==> Interns(d, ns[k], ps[k])
  }

  /** Interning more tokens does not change the ids of the n-grams. */
  lemma InternedExtends(d: map<string, nat>, d': map<string, nat>, ns: seq<NGram>, ps: seq<string>)
    requires Interned(d, ns, ps) && Extends(d, d')
    ensures Interned(d', ns, ps)
  {
    forall k | 0 <= k < |ns|
      ensures Interns(d', ns[k], ps[k])
    {
      LookupsExtends(d, d', Split(ps[k]));
    }
  }

  /** One more n-gram made from one more phrase. */
  lemma InternedAppend(d: map<string, nat>, ns: seq<NGram>, ps: seq<string>, g: NGram, p: string)
    requires Interned(d, ns, ps) && Interns(d, g, p)
    ensures Interned(d, ns + [g], ps + [p])
  {
    assert forall k :: 0 <= k < |ns| ==> (ns + [g])[k] == ns[k] && (ps + [p])[k] == ps[k];
  }

  // ------------------------------------------------------------ the prefix map

  /** The n-gram's first token id is `p`. */
  predicate HasKey(g: NGram, p: nat)
  {
    |g.hashList| >= 1 && g.hashList[0] == p
  }

  /** The indices of the n-grams whose first token id is `p`, in index
      order: what main's registration loop lists under key `p`. */
  function KeyIndices(ns: seq<NGram>, p: nat): (r: seq<nat>)
    ensures |r| <= |ns|
  {
    if |ns| == 0 then []
    else KeyIndices(ns[..|ns| - 1], p) + (if HasKey(ns[|ns| - 1], p) then [|ns| - 1] else [])
  }

  /** The prefix-map invariant: every n-gram has a first token id and it
      is a key, the list under every key is exactly the indices of the
      n-grams with that first token id, in index order, and no key has an
      empty list, so the keys are exactly the first token ids in use. */
  ghost predicate Indexed(ns: seq<NGram>, pm: map<nat, seq<nat>>)
  {
    (forall k :: 0 <= k < |ns| ==> |ns[k].hashList| >= 1 && ns[k].hashList[0] in pm) &&
    (forall p :: p in pm ==> pm[p] == KeyIndices(ns, p) && |pm[p]| >= 1)
  }

  /** Every index listed under any key is below `n`. */
  predicate ListedBelow(pm: map<nat, seq<nat>>, n: nat)
  {
    forall p, j :: p in pm && 0 <= j < |pm[p]| ==> pm[p][j] < n
  }

  /** The prefix map after index `i` is appended under key `p`, creating
      the key's list when it is missing. */
  function Registered(pm: map<nat, seq<nat>>, p: nat, i: nat): map<nat, seq<nat>>
  {
    pm[p := (if p in pm then pm[p] else []) + [i]]
  }

  /** Every listed index names an n-gram with that first token id. */
  lemma {:induction false} KeyIndicesSound(ns: seq<NGram>, p: nat, j: nat)
    requires j < |KeyIndices(ns, p)|
    ensures KeyIndices(ns, p)[j] < |ns| && HasKey(ns[KeyIndices(ns, p)[j]], p)
    decreases |ns|
  {
    var init := ns[..|ns| - 1];
    if j < |KeyIndices(init, p)| {
      KeyIndicesSound(init, p, j);
      assert ns[KeyIndices(init, p)[j]] == init[KeyIndices(init, p)[j]];
    }
  }

  /** Every n-gram with first token id `p` is listed under `p`. */
  lemma {:induction false} KeyIndicesComplete(ns: seq<NGram>, p: nat, k: nat)
    requires k < |ns| && HasKey(ns[k], p)
    ensures k in KeyIndices(ns, p)
    decreases |ns|
  {
    var init := ns[..|ns| - 1];
    if k < |ns| - 1 {
      assert init[k] == ns[k];
      KeyIndicesComplete(init, p, k);
    }
  }

  /** The list under a key is strictly increasing, so no index is listed
      twice. */
  lemma {:induction false} KeyIndicesIncreasing(ns: seq<NGram>, p: nat)
    ensures forall a, b :: 0 <= a < b < |KeyIndices(ns, p)| ==> KeyIndices(ns, p)[a] < KeyIndices(ns, p)[b]
    decreases |ns|
  {
    if |ns| > 0 {
      var init := ns[..|ns| - 1];
      KeyIndicesIncreasing(init, p);
      forall j | 0 <= j < |KeyIndices(init, p)|
        ensures KeyIndices(init, p)[j] < |ns| - 1
      {
        KeyIndicesSound(init, p, j);
      }
    }
  }

  /** No n-gram has first token id `p`: nothing is listed under it. */
  lemma {:induction false} KeyIndicesAbsent(ns: seq<NGram>, p: nat)
    requires forall k :: 0 <= k < |ns| ==> !HasKey(ns[k], p)
    ensures KeyIndices(ns, p) == []
    decreases |ns|
  {
    if |ns| > 0 {
      var init := ns[..|ns| - 1];
      assert forall k :: 0 <= k < |init| ==> init[k] == ns[k];
      KeyIndicesAbsent(init, p);
    }
  }

  /** The lists depend on the token lists only, not on the flags. */
  lemma {:induction false} KeyIndicesSameKeys(ns: seq<NGram>, ns': seq<NGram>, p: nat)
    requires |ns| == |ns'| && forall k :: 0 <= k < |ns| ==> ns[k].hashList == ns'[k].hashList
    ensures KeyIndices(ns, p) == KeyIndices(ns', p)
    decreases |ns|
  {
    if |ns| > 0 {
      var init, init' := ns[..|ns| - 1], ns'[..|ns| - 1];
      assert forall k :: 0 <= k < |init| ==> init[k] == ns[k] && init'[k] == ns'[k];
      KeyIndicesSameKeys(init, init', p);
    }
  }

  /** Appending an n-gram extends only the list of its own first token id. */
  lemma KeyIndicesSnoc(ns: seq<NGram>, g: NGram, p: nat)
    ensures KeyIndices(ns + [g], p) == KeyIndices(ns, p) + (if HasKey(g, p) then [|ns|] else [])
  {
    assert (ns + [g])[..|ns|] == ns;
  }

  /** Appending an n-gram and registering its index under its first token
      id keeps the prefix-map invariant. */
  lemma RegisterIndexes(ns: seq<NGram>, pm: map<nat, seq<nat>>, g: NGram)
    requires Indexed(ns, pm) && |g.hashList| >= 1
    ensures Indexed(ns + [g], Registered(pm, g.hashList[0], |ns|))
  {
    var q := g.hashList[0];
    var pm' := Registered(pm, q, |ns|);
    var ns' := ns + [g];
    forall p | p in pm'
      ensures pm'[p] == KeyIndices(ns', p)
    {
      KeyIndicesSnoc(ns, g, p);
      if p == q && q !in pm {
        forall k | 0 <= k < |ns|
          ensures !HasKey(ns[k], q)
        {
          assert ns[k].hashList[0] in pm;
        }
        KeyIndicesAbsent(ns, q);
      }
    }
    forall k | 0 <= k < |ns'|
      ensures |ns'[k].hashList| >= 1 && ns'[k].hashList[0] in pm'
    {
      if k < |ns| {
        assert ns'[k] == ns[k];
      }
    }
  }

  /** The prefix-map invariant bounds every listed index. */
  lemma IndexedListed(ns: seq<NGram>, pm: map<nat, seq<nat>>)
    requires Indexed(ns, pm)
    ensures ListedBelow(pm, |ns|)
  {
    forall p, j | p in pm && 0 <= j < |pm[p]|
      ensures pm[p][j] < |ns|
    {
      KeyIndicesSound(ns, p, j);
    }
  }

  /** Under the prefix-map invariant every n-gram is listed under its own
      first token id. */
  lemma IndexedFinds(ns: seq<NGram>, pm: map<nat, seq<nat>>, k: nat)
    requires Indexed(ns, pm) && k < |ns|
    ensures |ns[k].hashList| >= 1 && ns[k].hashList[0] in pm && k in pm[ns[k].hashList[0]]
  {
    KeyIndicesComplete(ns, ns[k].hashList[0], k);
  }

  /** Under the invariant the keys of the prefix map are exactly the first
      token ids of the n-grams. */
  lemma IndexedKeys(ns: seq<NGram>, pm: map<nat, seq<nat>>, p: nat)
    requires Indexed(ns, pm)
    ensures p in pm <==> exists k :: 0 <= k < |ns| && HasKey(ns[k], p)
  {
    if p in pm {
      KeyIndicesSound(ns, p, 0);
    }
  }

  // ------------------------------------------------------------------ Delete

  /** One n-gram after deleting the phrase with ids `w`: cleared when it is
      active and has exactly those ids. */
  function Cleared(g: NGram, w: seq<nat>): NGram
  {
    if g.active && g.hashList == w then g.(active := false) else g
  }

  /** The n-grams after deleting the phrase with ids `w`. */
  function Deleted(ns: seq<NGram>, w: seq<nat>): (r: seq<NGram>)
    ensures |r| == |ns|
    ensures forall k :: 0 <= k < |ns| ==>
      r[k].hashList == ns[k].hashList && (r[k].active <==> ns[k].active && ns[k].hashList != w)
  {
    seq(|ns|, k requires 0 <= k < |ns| => Cleared(ns[k], w))
  }

  /** Delete changes no token list, so the prefix map stays valid. */
  lemma DeletedIndexed(ns: seq<NGram>, pm: map<nat, seq<nat>>, w: seq<nat>)
    requires Indexed(ns, pm)
    ensures Indexed(Deleted(ns, w), pm)
  {
    var r := Deleted(ns, w);
    forall p | p in pm
      ensures pm[p] == KeyIndices(r, p)
    {
      KeyIndicesSameKeys(ns, r, p);
    }
  }

  /** The loop of the `D` branch over the indices `list`: clears every
      listed n-gram that is active and has the ids `w`. */
  method Unflag(ns: seq<NGram>, list: seq<nat>, w: seq<nat>) returns (r: seq<NGram>)
    requires Below(list, |ns|)
    ensures |r| == |ns|
    ensures forall k :: 0 <= k < |ns| ==> r[k] == if k in list then Cleared(ns[k], w) else ns[k]
  {
    r := ns;
    for j := 0 to |list|
      invariant |r| == |ns|
      invariant forall k :: 0 <= k < |ns| ==> r[k] == if k in list[..j] then Cleared(ns[k], w) else ns[k]
    {
      var i := list[j];
      assert list[..j + 1] == list[..j] + [i];
      var ngram := r[i];
      if ngram.active && ngram.hashList == w {
        r := r[i := ngram.(active := false)];
      }
    }
    assert list[..|list|] == list;
  }

  /** The `D` branch on ids `w`: walks the indices listed under the first
      id of `w`, if any, and clears each active n-gram with exactly the ids
      `w`; by the prefix-map invariant this reaches every such n-gram. */
  method DeleteIds(ns: seq<NGram>, pm: map<nat, seq<nat>>, w: seq<nat>) returns (r: seq<NGram>)
    requires Indexed(ns, pm) && |w| >= 1
    ensures r == Deleted(ns, w) && Indexed(r, pm)
  {
    r := ns;
    var prefix := w[0];
    if prefix in pm {
      IndexedListed(ns, pm);
      var list := pm[prefix];
      assert Below(list, |ns|);
      r := Unflag(ns, list, w);
    }
    forall k | 0 <= k < |ns|
      ensures r[k] == Cleared(ns[k], w)
    {
      if ns[k].hashList == w {
        IndexedFinds(ns, pm, k);
      }
    }
    DeletedIndexed(ns, pm, w);
  }

  /** Delete changes no token list, so every n-gram keeps its phrase. */
  lemma DeletedInterned(d: map<string, nat>, ns: seq<NGram>, ps: seq<string>, w: seq<nat>)
    requires Interned(d, ns, ps)
    ensures Interned(d, Deleted(ns, w), ps)
  {
    var r := Deleted(ns, w);
    forall k | 0 <= k < |ns|
      ensures Interns(d, r[k], ps[k])
    {
      assert r[k].hashList == ns[k].hashList;
    }
  }

  /** Deleting twice is deleting once. */
  lemma DeleteIdempotent(ns: seq<NGram>, w: seq<nat>)
    ensures Deleted(Deleted(ns, w), w) == Deleted(ns, w)
  {
  }

  /** Deleting a phrase no n-gram has changes nothing. */
  lemma DeleteAbsent(ns: seq<NGram>, w: seq<nat>)
    requires forall k :: 0 <= k < |ns| ==> ns[k].hashList != w
    ensures Deleted(ns, w) == ns
  {
  }

  // ---------------------------------------------------------------- matching

  /** `gram` is the run of document ids at positions i .. i + |gram| - 1. */
  predicate OccursAt(gram: seq<nat>, doc: seq<nat>, i: nat)
  {
    i + |gram| <= |doc| && doc[i..i + |gram|] == gram
  }

  /** `m` records an occurrence of an active n-gram at `m`'s position, with
      the phrase that n-gram was made from. */
  ghost predicate Found(ns: seq<NGram>, ps: seq<string>, doc: seq<nat>, m: Match)
    requires |ps| == |ns|
  {
    exists k :: 0 <= k < |ns| && ns[k].active && OccursAt(ns[k].hashList, doc, m.index) && m.word == ps[k]
  }

  /** Every index of `ids` is below `n`. */
  predicate Below(ids: seq<nat>, n: nat)
  {
    forall j :: 0 <= j < |ids| ==> ids[j] < n
  }

  /** The matchedLength loop: how many leading ids of `gram` agree with the
      document from position `i` on, stopping at the end of either. */
  method MatchedLength(gram: seq<nat>, doc: seq<nat>, i: nat) returns (m: nat)
    requires i <= |doc|
    ensures m <= |gram| && i + m <= |doc| && doc[i..i + m] == gram[..m]
    ensures m == |gram| <==> OccursAt(gram, doc, i)
  {
    m := 0;
    while m < |gram| && i + m < |doc|
      invariant m <= |gram| && i + m <= |doc| && doc[i..i + m] == gram[..m]
    {
      if gram[m] != doc[i + m] {
        if i + |gram| <= |doc| {
          assert doc[i..i + |gram|][m] != gram[m];
        }
        break;
      }
      assert doc[i..i + m + 1] == doc[i..i + m] + [doc[i + m]];
      assert gram[..m + 1] == gram[..m] + [gram[m]];
      m := m + 1;
    }
    if m == |gram| {
      assert gram[..m] == gram;
    }
  }

  /** The matches found at position `i` by walking the indices `ids`: the
      active n-grams among them that occur at `i`, in list order. */
  function Hits(ns: seq<NGram>, ps: seq<string>, doc: seq<nat>, i: nat, ids: seq<nat>): seq<Match>
    requires |ps| == |ns| && Below(ids, |ns|)
    decreases |ids|
  {
    if |ids| == 0 then []
    else
      var k := ids[|ids| - 1];
      Hits(ns, ps, doc, i, ids[..|ids| - 1])
        + (if ns[k].active && OccursAt(ns[k].hashList, doc, i) then [Match(i, ps[k])] else [])
  }

  /** The matches find_in_document collects at positions 0 .. n-1, in the
      order its loops find them. */
  function Collected(ns: seq<NGram>, ps: seq<string>, pm: map<nat, seq<nat>>, doc: seq<nat>, n: nat): seq<Match>
    requires |ps| == |ns| && ListedBelow(pm, |ns|) && n <= |doc|
  {
    if n == 0 then []
    else
      Collected(ns, ps, pm, doc, n - 1)
        + (if doc[n - 1] in pm then Hits(ns, ps, doc, n - 1, pm[doc[n - 1]]) else [])
  }

  /** Walking one more listed index adds at most its own match. */
  lemma HitsStep(ns: seq<NGram>, ps: seq<string>, doc: seq<nat>, i: nat, ids: seq<nat>, j: nat)
    requires |ps| == |ns| && Below(ids, |ns|) && j < |ids|
    ensures Below(ids[..j], |ns|) && Below(ids[..j + 1], |ns|)
    ensures Hits(ns, ps, doc, i, ids[..j + 1])
         == Hits(ns, ps, doc, i, ids[..j])
            + (if ns[ids[j]].active && OccursAt(ns[ids[j]].hashList, doc, i) then [Match(i, ps[ids[j]])] else [])
  {
    assert ids[..j + 1][..j] == ids[..j];
  }

  /** Every hit is an active listed n-gram that occurs at `i`, with its text. */
  lemma {:induction false} HitsSound(ns: seq<NGram>, ps: seq<string>, doc: seq<nat>, i: nat, ids: seq<nat>, m: Match)
    requires |ps| == |ns| && Below(ids, |ns|)
    requires m in Hits(ns, ps, doc, i, ids)
    ensures m.index == i && Found(ns, ps, doc, m)
    decreases |ids|
  {
    var k := ids[|ids| - 1];
    if m !in Hits(ns, ps, doc, i, ids[..|ids| - 1]) {
      assert ns[k].active && OccursAt(ns[k].hashList, doc, i) && m == Match(i, ps[k]);
    } else {
      HitsSound(ns, ps, doc, i, ids[..|ids| - 1], m);
    }
  }

  /** Every listed active n-gram that occurs at `i` is a hit. */
  lemma {:induction false} HitsComplete(ns: seq<NGram>, ps: seq<string>, doc: seq<nat>, i: nat, ids: seq<nat>, k: nat)
    requires |ps| == |ns| && Below(ids, |ns|)
    requires k in ids && ns[k].active && OccursAt(ns[k].hashList, doc, i)
    ensures Match(i, ps[k]) in Hits(ns, ps, doc, i, ids)
    decreases |ids|
  {
    if ids[|ids| - 1] != k {
      var init := ids[..|ids| - 1];
      assert ids == init + [ids[|ids| - 1]];
      assert k in init;
      HitsComplete(ns, ps, doc, i, init, k);
    }
  }

  /** Every collected match is an active n-gram occurring at its position. */
  lemma {:induction false} CollectedSound(ns: seq<NGram>, ps: seq<string>, pm: map<nat, seq<nat>>, doc: seq<nat>, n: nat, m: Match)
    requires |ps| == |ns| && ListedBelow(pm, |ns|) && n <= |doc|
    requires m in Collected(ns, ps, pm, doc, n)
    ensures m.index < n && Found(ns, ps, doc, m)
    decreases n
  {
    if m in Collected(ns, ps, pm, doc, n - 1) {
      CollectedSound(ns, ps, pm, doc, n - 1, m);
    } else {
      var p := doc[n - 1];
      assert p in pm;
      HitsSound(ns, ps, doc, n - 1, pm[p], m);
    }
  }

  /** Every active n-gram occurring at a position below `n` is collected
      there, given that it is listed under its first token id. */
  lemma {:induction false} CollectedComplete(ns: seq<NGram>, ps: seq<string>, pm: map<nat, seq<nat>>, doc: seq<nat>,
                                             n: nat, k: nat, i: nat)
    requires |ps| == |ns| && ListedBelow(pm, |ns|) && n <= |doc|
    requires k < |ns| && ns[k].active && OccursAt(ns[k].hashList, doc, i) && i < n
    requires |ns[k].hashList| >= 1 && ns[k].hashList[0] in pm && k in pm[ns[k].hashList[0]]
    ensures Match(i, ps[k]) in Collected(ns, ps, pm, doc, n)
    decreases n
  {
    if i < n - 1 {
      CollectedComplete(ns, ps, pm, doc, n - 1, k, i);
    } else {
      var g := ns[k].hashList;
      assert doc[i..i + |g|][0] == g[0];
      assert doc[i] == g[0];
      HitsComplete(ns, ps, doc, i, pm[doc[i]], k);
    }
  }

  // ----------------------------------------------------------------- sorting

  /** The comparator handed to std::sort, as written: position first, then
      text length, with `<=` on the length. */
  predicate SourceComparator(m1: Match, m2: Match)
  {
    if m1.index < m2.index then true
    else if m1.index > m2.index then false
    else |m1.word| <= |m2.word|
  }

  /** The comparator as written holds between a match and itself, so it is
      not the strict weak ordering std::sort requires. */
  lemma SourceComparatorReflexive(m: Match)
    ensures SourceComparator(m, m)
  {
  }

  /** The intended ordering: earlier position, or the same position and a
      shorter text. */
  predicate Precedes(m1: Match, m2: Match)
  {
    m1.index < m2.index || (m1.index == m2.index && |m1.word| < |m2.word|)
  }

  /** Neither precedes the other: same position and same text length. */
  predicate SameKey(m1: Match, m2: Match)
  {
    m1.index == m2.index && |m1.word| == |m2.word|
  }

  /** Precedes is a strict weak ordering: irreflexive and transitive, and
      its incomparability is SameKey, an equivalence. */
  lemma PrecedesStrictWeak(a: Match, b: Match, c: Match)
    ensures !Precedes(a, a)
    ensures Precedes(a, b) && Precedes(b, c) ==> Precedes(a, c)
    ensures (!Precedes(a, b) && !Precedes(b, a)) <==> SameKey(a, b)
    ensures SameKey(a, b) && SameKey(b, c) ==> SameKey(a, c)
  {
  }

  /** Where the intended ordering decides, it agrees with the source's. */
  lemma PrecedesRefinesSource(a: Match, b: Match)
    ensures Precedes(a, b) ==> SourceComparator(a, b) && !SourceComparator(b, a)
    ensures SameKey(a, b) ==> SourceComparator(a, b) && SourceComparator(b, a)
  {
  }

  /** No later match precedes an earlier one. */
  predicate Sorted(s: seq<Match>)
  {
    forall j, k :: 0 <= j < k < |s| ==> !Precedes(s[k], s[j])
  }

  /** Matches with the same key are equal. */
  predicate TiesEqual(s: seq<Match>)
  {
    forall j, k :: 0 <= j < |s| && 0 <= k < |s| && SameKey(s[j], s[k]) ==> s[j] == s[k]
  }

  /** No element of `s` precedes `x`. */
  predicate NotBefore(s: seq<Match>, x: Match)
  {
    forall i :: 0 <= i < |s| ==> !Precedes(s[i], x)
  }

  /** `m` placed before the first element it does not follow. */
  function InsertMatch(m: Match, s: seq<Match>): (r: seq<Match>)
    ensures multiset(r) == multiset(s) + multiset{m}
    ensures |r| == |s| + 1 && (r[0] == m || (|s| > 0 && r[0] == s[0]))
  {
    if |s| == 0 || !Precedes(s[0], m) then [m] + s
    else
      assert s == [s[0]] + s[1..];
      [s[0]] + InsertMatch(m, s[1..])
  }

  /** A sorted sequence stays sorted with an element in front that none of
      its elements precedes. */
  lemma SortedCons(a: Match, t: seq<Match>)
    requires Sorted(t) && NotBefore(t, a)
    ensures Sorted([a] + t)
  {
    var r := [a] + t;
    forall j, k | 0 <= j < k < |r|
      ensures !Precedes(r[k], r[j])
    {
      assert r[k] == t[k - 1];
      if j > 0 {
        assert r[j] == t[j - 1];
      }
    }
  }

  /** Inserting an element none of whose neighbours precede `x` keeps
      that bound. */
  lemma {:induction false} InsertNotBefore(m: Match, s: seq<Match>, x: Match)
    requires NotBefore(s, x) && !Precedes(m, x)
    ensures NotBefore(InsertMatch(m, s), x)
    decreases |s|
  {
    if |s| > 0 && Precedes(s[0], m) {
      var t := InsertMatch(m, s[1..]);
      assert NotBefore(s[1..], x) by {
        forall i | 0 <= i < |s| - 1
          ensures !Precedes(s[1..][i], x)
        {
          assert s[1..][i] == s[i + 1];
        }
      }
      InsertNotBefore(m, s[1..], x);
      assert InsertMatch(m, s) == [s[0]] + t;
      forall i | 0 <= i < |t| + 1
        ensures !Precedes(([s[0]] + t)[i], x)
      {
        if i > 0 {
          assert ([s[0]] + t)[i] == t[i - 1];
        }
      }
    }
  }

  /** Insertion keeps a sorted sequence sorted. */
  lemma {:induction false} InsertSorted(m: Match, s: seq<Match>)
    requires Sorted(s)
    ensures Sorted(InsertMatch(m, s))
    decreases |s|
  {
    if |s| == 0 || !Precedes(s[0], m) {
      forall i | 0 <= i < |s|
        ensures !Precedes(s[i], m)
      {
        if i > 0 {
          assert !Precedes(s[i], s[0]);
        }
      }
      SortedCons(m, s);
    } else {
      var tail := s[1..];
      assert Sorted(tail) && NotBefore(tail, s[0]) by {
        forall j, k | 0 <= j < k < |tail|
          ensures !Precedes(tail[k], tail[j])
        {
          assert tail[k] == s[k + 1] && tail[j] == s[j + 1];
        }
        forall i | 0 <= i < |tail|
          ensures !Precedes(tail[i], s[0])
        {
          assert tail[i] == s[i + 1];
        }
      }
      InsertSorted(m, tail);
      InsertNotBefore(m, tail, s[0]);
      SortedCons(s[0], InsertMatch(m, tail));
    }
  }

  /** A sorted permutation of the matches: the std::sort call. */
  function SortMatches(ms: seq<Match>): (r: seq<Match>)
    ensures Sorted(r) && multiset(r) == multiset(ms)
  {
    if |ms| == 0 then []
    else
      assert ms == [ms[0]] + ms[1..];
      InsertSorted(ms[0], SortMatches(ms[1..]));
      InsertMatch(ms[0], SortMatches(ms[1..]))
  }

  /** The first element of a sorted sequence comes no later than any
      element. */
  lemma SortedHead(s: seq<Match>, x: Match)
    requires Sorted(s) && x in s
    ensures !Precedes(x, s[0])
  {
    var k :| 0 <= k < |s| && s[k] == x;
  }

  /** The tail of a list whose ties are equal has equal ties, and the tail
      of a sorted list is sorted. */
  lemma TailKeeps(a: seq<Match>)
    requires |a| > 0
    ensures TiesEqual(a) ==> TiesEqual(a[1..])
    ensures Sorted(a) ==> Sorted(a[1..])
  {
    assert forall j :: 0 <= j < |a[1..]| ==> a[1..][j] == a[j + 1];
  }

  /** Two sorted permutations of a list whose ties are equal start with
      the same match. */
  lemma SortedHeads(a: seq<Match>, b: seq<Match>)
    requires Sorted(a) && Sorted(b) && multiset(a) == multiset(b) && TiesEqual(a) && |a| > 0
    ensures |b| > 0 && a[0] == b[0]
  {
    assert a[0] in multiset(b);
    assert |b| > 0;
    assert b[0] in multiset(a);
    SortedHead(b, a[0]);
    SortedHead(a, b[0]);
    var k :| 0 <= k < |a| && a[k] == b[0];
    assert SameKey(a[0], a[k]);
  }

  /** Removing the same first element from two permutations leaves two
      permutations. */
  lemma TailsPermute(a: seq<Match>, b: seq<Match>)
    requires multiset(a) == multiset(b) && |a| > 0 && |b| > 0 && a[0] == b[0]
    ensures multiset(a[1..]) == multiset(b[1..])
  {
    var x := a[0];
    assert a == [x] + a[1..] && b == [x] + b[1..];
    assert multiset(a) == multiset{x} + multiset(a[1..]);
    assert multiset(b) == multiset{x} + multiset(b[1..]);
    assert multiset(a[1..]) == multiset(a) - multiset{x};
    assert multiset(b[1..]) == multiset(b) - multiset{x};
  }

  /** When ties are equal there is only one sorted permutation, so the
      result does not depend on how the sort breaks ties. */
  lemma {:induction false} SortedUnique(a: seq<Match>, b: seq<Match>)
    requires Sorted(a) && Sorted(b) && multiset(a) == multiset(b) && TiesEqual(a)
    ensures a == b
    decreases |a|
  {
    if |a| > 0 {
      SortedHeads(a, b);
      TailsPermute(a, b);
      TailKeeps(a);
      TailKeeps(b);
      SortedUnique(a[1..], b[1..]);
      assert a == [a[0]] + a[1..] && b == [b[0]] + b[1..];
    } else {
      assert |b| == |multiset(b)| == 0;
    }
  }

  // --------------------------------------------------------------- rendering

  /** The texts of the matches, in order. */
  function Words(ms: seq<Match>): seq<string>
  {
    seq(|ms|, k requires 0 <= k < |ms| => ms[k].word)
  }

  /** The texts of `ws` with every repeat of an earlier text dropped. */
  function Dedup(ws: seq<string>): seq<string>
  {
    if |ws| == 0 then []
    else
      var r := Dedup(ws[..|ws| - 1]);
      if ws[|ws| - 1] in r then r else r + [ws[|ws| - 1]]
  }

  /** No text occurs twice. */
  predicate NoRepeats(ws: seq<string>)
  {
    forall j, k :: 0 <= j < k < |ws| ==> ws[j] != ws[k]
  }

  /** Dedup keeps exactly the texts of `ws`. */
  lemma {:induction false} DedupElements(ws: seq<string>)
    ensures forall w :: w in Dedup(ws) <==> w in ws
  {
    if |ws| > 0 {
      var init := ws[..|ws| - 1];
      DedupElements(init);
      assert ws == init + [ws[|ws| - 1]];
    }
  }

  /** Dedup lists each text once. */
  lemma {:induction false} DedupNoRepeats(ws: seq<string>)
    ensures NoRepeats(Dedup(ws))
  {
    if |ws| > 0 {
      DedupNoRepeats(ws[..|ws| - 1]);
    }
  }

  /** The index of the first occurrence of `w` in `ws`. */
  function FirstPos(ws: seq<string>, w: string): (r: nat)
    requires w in ws
    ensures r < |ws| && ws[r] == w && w !in ws[..r]
  {
    if ws[0] == w then 0
    else
      assert ws == [ws[0]] + ws[1..];
      var r := 1 + FirstPos(ws[1..], w);
      assert ws[..r] == [ws[0]] + ws[1..][..r - 1];
      r
  }

  /** The first occurrence inside a prefix is the first occurrence. */
  lemma FirstPosPrefix(ws: seq<string>, n: nat, w: string)
    requires n <= |ws| && w in ws[..n]
    ensures w in ws && FirstPos(ws[..n], w) == FirstPos(ws, w)
  {
    var i := FirstPos(ws[..n], w);
    var j := FirstPos(ws, w);
    assert ws[..n][..i] == ws[..i];
  }

  /** Dedup lists the texts in the order of their first occurrence. */
  lemma {:induction false} DedupOrder(ws: seq<string>)
    ensures forall w :: w in Dedup(ws) ==> w in ws
    ensures forall j, k :: 0 <= j < k < |Dedup(ws)| ==> FirstPos(ws, Dedup(ws)[j]) < FirstPos(ws, Dedup(ws)[k])
  {
    DedupElements(ws);
    if |ws| > 0 {
      var n := |ws| - 1;
      var init := ws[..n];
      var r := Dedup(init);
      DedupOrder(init);
      DedupElements(init);
      forall w | w in r
        ensures FirstPos(ws, w) == FirstPos(init, w) < n
      {
        FirstPosPrefix(ws, n, w);
      }
      if ws[n] !in r {
        assert ws[n] !in init;
        assert FirstPos(ws, ws[n]) == n;
      }
    }
  }

  /** The texts joined by `|`. */
  function Bars(ws: seq<string>): string
  {
    if |ws| == 0 then ""
    else if |ws| == 1 then ws[0]
    else Bars(ws[..|ws| - 1]) + "|" + ws[|ws| - 1]
  }

  /** What find_in_document prints for the sorted matches: `-1` when there
      are none, otherwise each distinct text once, in order, joined by `|`. */
  function Output(ms: seq<Match>): string
  {
    if |ms| == 0 then "-1" else Bars(Dedup(Words(ms)))
  }

  /** Dedup of one more text: the text is appended unless already there. */
  lemma DedupNext(ws: seq<string>, i: nat)
    requires i < |ws|
    ensures Dedup(ws[..i + 1]) == if ws[i] in Dedup(ws[..i]) then Dedup(ws[..i]) else Dedup(ws[..i]) + [ws[i]]
  {
    assert ws[..i + 1][..i] == ws[..i];
  }

  /** One more text joined on. */
  lemma BarsNext(ws: seq<string>, w: string)
    requires |ws| >= 1
    ensures Bars(ws + [w]) == Bars(ws) + "|" + w
  {
    assert (ws + [w])[..|ws|] == ws;
  }

  /** The output loop with the `found` set. */
  method Render(matches: seq<Match>) returns (output: string)
    ensures output == Output(matches)
  {
    ghost var ws := Words(matches);
    var found: set<string> := {};
    if |matches| == 0 {
      output := "-1";
      return;
    }
    found := found + {matches[0].word};
    output := matches[0].word;
    DedupNext(ws, 0);
    assert ws[..0] == [];
    var i := 1;
    while i < |matches|
      invariant 1 <= i <= |matches|
      invariant |Dedup(ws[..i])| >= 1
      invariant forall w :: w in found <==> w in ws[..i]
      invariant output == Bars(Dedup(ws[..i]))
    {
      var match_ := matches[i];
      assert match_.word == ws[i];
      DedupNext(ws, i);
      DedupElements(ws[..i]);
      TakeNext(ws, i);
      if match_.word !in found {
        BarsNext(Dedup(ws[..i]), ws[i]);
        output := output + "|" + match_.word;
        found := found + {match_.word};
      }
      i := i + 1;
    }
    assert ws[..i] == ws;
  }

  /** Permuting a list keeps its ties equal. */
  lemma TiesEqualPermute(a: seq<Match>, b: seq<Match>)
    requires multiset(a) == multiset(b) && TiesEqual(a)
    ensures TiesEqual(b)
  {
    forall j, k | 0 <= j < |b| && 0 <= k < |b| && SameKey(b[j], b[k])
      ensures b[j] == b[k]
    {
      assert b[j] in multiset(a) && b[k] in multiset(a);
      var j' :| 0 <= j' < |a| && a[j'] == b[j];
      var k' :| 0 <= k' < |a| && a[k'] == b[k];
    }
  }

  // -------------------------------------------------------- texts of prefixes

  /** Joining fewer leading tokens gives a strictly shorter text. */
  lemma {:induction false} JoinPrefixShorter(ts: seq<string>, n: nat)
    requires 1 <= n < |ts|
    ensures |Join(ts[..n])| < |Join(ts)|
    decreases |ts|
  {
    var init := ts[..|ts| - 1];
    assert ts == init + [ts[|ts| - 1]];
    JoinAppend(init, ts[|ts| - 1]);
    if n < |ts| - 1 {
      assert ts[..n] == init[..n];
      JoinPrefixShorter(init, n);
    } else {
      assert ts[..n] == init;
    }
  }

  /** The texts of a prefix of ids are a prefix of the texts. */
  lemma {:induction false} StringsPrefix(back: map<nat, string>, ids: seq<nat>, n: nat)
    requires AllIn(back, ids) && n <= |ids|
    ensures AllIn(back, ids[..n]) && Strings(back, ids[..n]) == Strings(back, ids)[..n]
    decreases |ids|
  {
    if n < |ids| {
      var init := ids[..|ids| - 1];
      assert ids[..n] == init[..n];
      StringsPrefix(back, init, n);
    } else {
      assert ids[..n] == ids;
    }
  }

  /** The tokens a list of phrases interns at most: one more than its
      spaces, per phrase. */
  function TokenCount(lines: seq<string>): nat
  {
    if |lines| == 0 then 0 else Spaces(lines[0]) + 1 + TokenCount(lines[1..])
  }

  // ------------------------------------------------------- what a query finds

  /** The text createString renders for `g` is the phrase `p`. */
  ghost predicate Spelled(back: map<nat, string>, g: NGram, p: string)
  {
    |g.hashList| >= 1 && AllIn(back, g.hashList) && p == Join(Strings(back, g.hashList))
  }

  /** Every n-gram renders as the phrase at the same index. */
  ghost predicate Spells(back: map<nat, string>, ns: seq<NGram>, ps: seq<string>)
  {
    |ps| == |ns| && forall k :: 0 <= k < |ns| ==> Spelled(back, ns[k], ps[k])
  }

  /** A match is collected exactly when an active n-gram made from its
      text occurs in the document at its position. */
  lemma CollectedIff(ns: seq<NGram>, ps: seq<string>, pm: map<nat, seq<nat>>, doc: seq<nat>, m: Match)
    requires |ps| == |ns| && Indexed(ns, pm)
    ensures ListedBelow(pm, |ns|)
    ensures m in Collected(ns, ps, pm, doc, |doc|) <==> m.index < |doc| && Found(ns, ps, doc, m)
  {
    IndexedListed(ns, pm);
    if m in Collected(ns, ps, pm, doc, |doc|) {
      CollectedSound(ns, ps, pm, doc, |doc|, m);
    }
    if m.index < |doc| && Found(ns, ps, doc, m) {
      var k :| 0 <= k < |ns| && ns[k].active && OccursAt(ns[k].hashList, doc, m.index) && m.word == ps[k];
      IndexedFinds(ns, pm, k);
      CollectedComplete(ns, ps, pm, doc, |doc|, k, m.index);
    }
  }

  /** A document yields no matches, and so renders as `-1`, exactly when no
      active n-gram occurs in it anywhere. */
  lemma NothingFound(ns: seq<NGram>, ps: seq<string>, pm: map<nat, seq<nat>>, doc: seq<nat>)
    requires |ps| == |ns| && Indexed(ns, pm)
    ensures ListedBelow(pm, |ns|)
    ensures |Collected(ns, ps, pm, doc, |doc|)| == 0 <==>
      forall k, i :: 0 <= k < |ns| && ns[k].active ==> !OccursAt(ns[k].hashList, doc, i)
  {
    IndexedListed(ns, pm);
    var c := Collected(ns, ps, pm, doc, |doc|);
    forall k, i | 0 <= k < |ns| && ns[k].active && OccursAt(ns[k].hashList, doc, i)
      ensures Match(i, ps[k]) in c
    {
      IndexedFinds(ns, pm, k);
      CollectedComplete(ns, ps, pm, doc, |doc|, k, i);
    }
    if |c| > 0 {
      CollectedSound(ns, ps, pm, doc, |doc|, c[0]);
      var k :| 0 <= k < |ns| && ns[k].active && OccursAt(ns[k].hashList, doc, c[0].index) && c[0].word == ps[k];
    }
  }

  /** Of two n-grams occurring at the same position, the one with fewer
      tokens has the shorter text. */
  lemma ShorterRunShorterText(back: map<nat, string>, ns: seq<NGram>, ps: seq<string>, doc: seq<nat>,
                              i: nat, k1: nat, k2: nat)
    requires Spells(back, ns, ps) && k1 < |ns| && k2 < |ns|
    requires OccursAt(ns[k1].hashList, doc, i) && OccursAt(ns[k2].hashList, doc, i)
    requires |ns[k1].hashList| < |ns[k2].hashList|
    ensures |ps[k1]| < |ps[k2]|
  {
    assert Spelled(back, ns[k1], ps[k1]) && Spelled(back, ns[k2], ps[k2]);
    var g1, g2 := ns[k1].hashList, ns[k2].hashList;
    assert g1 == g2[..|g1|];
    StringsPrefix(back, g2, |g1|);
    JoinPrefixShorter(Strings(back, g2), |g1|);
  }

  /** Two collected matches with the same position and text length are the
      same match. */
  lemma TieAt(back: map<nat, string>, ns: seq<NGram>, ps: seq<string>, pm: map<nat, seq<nat>>, doc: seq<nat>,
              a: Match, b: Match)
    requires Spells(back, ns, ps) && ListedBelow(pm, |ns|)
    requires a in Collected(ns, ps, pm, doc, |doc|) && b in Collected(ns, ps, pm, doc, |doc|)
    requires SameKey(a, b)
    ensures a == b
  {
    CollectedSound(ns, ps, pm, doc, |doc|, a);
    CollectedSound(ns, ps, pm, doc, |doc|, b);
    var i := a.index;
    var k1 :| 0 <= k1 < |ns| && ns[k1].active && OccursAt(ns[k1].hashList, doc, i) && a.word == ps[k1];
    var k2 :| 0 <= k2 < |ns| && ns[k2].active && OccursAt(ns[k2].hashList, doc, i) && b.word == ps[k2];
    if |ns[k1].hashList| < |ns[k2].hashList| {
      ShorterRunShorterText(back, ns, ps, doc, i, k1, k2);
    }
    if |ns[k2].hashList| < |ns[k1].hashList| {
      ShorterRunShorterText(back, ns, ps, doc, i, k2, k1);
    }
    assert ns[k1].hashList == ns[k2].hashList;
    assert Spelled(back, ns[k1], ps[k1]) && Spelled(back, ns[k2], ps[k2]);
  }

  /** The ties of the comparator among the collected matches are between
      equal matches. */
  lemma TiesAreEqual(back: map<nat, string>, ns: seq<NGram>, ps: seq<string>, pm: map<nat, seq<nat>>, doc: seq<nat>)
    requires Spells(back, ns, ps) && ListedBelow(pm, |ns|)
    ensures TiesEqual(Collected(ns, ps, pm, doc, |doc|))
  {
    var c := Collected(ns, ps, pm, doc, |doc|);
    forall j, k | 0 <= j < |c| && 0 <= k < |c| && SameKey(c[j], c[k])
      ensures c[j] == c[k]
    {
      TieAt(back, ns, ps, pm, doc, c[j], c[k]);
    }
  }

  /** Whatever sorted permutation the sort produces, it is the one the
      model computes, so the output does not depend on how ties are
      broken. */
  lemma AnySortAgrees(back: map<nat, string>, ns: seq<NGram>, ps: seq<string>, pm: map<nat, seq<nat>>,
                      doc: seq<nat>, other: seq<Match>)
    requires Spells(back, ns, ps) && ListedBelow(pm, |ns|)
    requires Sorted(other) && multiset(other) == multiset(Collected(ns, ps, pm, doc, |doc|))
    ensures other == SortMatches(Collected(ns, ps, pm, doc, |doc|))
  {
    var c := Collected(ns, ps, pm, doc, |doc|);
    TiesAreEqual(back, ns, ps, pm, doc);
    TiesEqualPermute(c, other);
    SortedUnique(other, SortMatches(c));
  }

  /** The indexing loop of main over the loaded n-grams: registers every
      index under its n-gram's first token id, in index order. */
  method Index(ns: seq<NGram>) returns (pm: map<nat, seq<nat>>)
    requires forall k :: 0 <= k < |ns| ==> |ns[k].hashList| >= 1
    ensures Indexed(ns, pm)
  {
    pm := map[];
    for i: nat := 0 to |ns|
      invariant Indexed(ns[..i], pm)
    {
      RegisterIndexes(ns[..i], pm, ns[i]);
      TakeNext(ns, i);
      var prefix := ns[i].hashList[0];
      var list: seq<nat> := if prefix in pm then pm[prefix] else [];
      pm := pm[prefix := list + [i]];
    }
    assert ns[..|ns|] == ns;
  }

  // ------------------------------------------------------------- the matcher

  /** The state main.cpp keeps in globals: the dictionary, the n-grams, the
      prefix map and the query counter. The phrases the n-grams were made
      from are ghost state, so that a match's text can be stated. */
  class Matcher {
    const dict: Dictionary
    var ngrams: seq<NGram>
    ghost var phrases: seq<string>
    var prefixMap: map<nat, seq<nat>>
    var queryId: int

    ghost predicate Valid()
      reads this`ngrams, this`phrases, this`prefixMap, dict
    {
      dict.Valid() && Interned(dict.dictionary, ngrams, phrases) && Indexed(ngrams, prefixMap)
    }

    /** The globals before main runs: empty dictionary, no n-grams. */
    constructor ()
      ensures Valid() && fresh(dict) && dict.dictionary == map[]
      ensures ngrams == [] && phrases == [] && prefixMap == map[] && queryId == 0
    {
      dict := new Dictionary();
      ngrams := [];
      phrases := [];
      prefixMap := map[];
      queryId := 0;
    }

    /** The text createString renders for n-gram `k` is the phrase it was
        made from. */
    lemma PhraseOf(k: nat)
      requires Valid() && k < |ngrams|
      ensures Spelled(dict.backMapping, ngrams[k], phrases[k])
    {
      var ts := Split(phrases[k]);
      dict.TextOfLookups(ts);
      JoinSplit(phrases[k]);
    }

    /** Every n-gram renders as the phrase it was made from. */
    lemma AllSpelled()
      requires Valid()
      ensures Spells(dict.backMapping, ngrams, phrases)
    {
      forall k | 0 <= k < |ngrams|
        ensures Spelled(dict.backMapping, ngrams[k], phrases[k])
      {
        PhraseOf(k);
      }
    }

    /** An n-gram has the ids of a phrase exactly when it was made from
        that phrase. */
    lemma SameIdsSamePhrase(k: nat, line: string)
      requires Valid() && k < |ngrams|
      requires forall j :: 0 <= j < |Split(line)| ==> Split(line)[j] in dict.dictionary
      ensures ngrams[k].hashList == Lookups(dict.dictionary, Split(line)) <==> phrases[k] == line
    {
      PhraseOf(k);
      dict.TextOfLookups(Split(line));
      JoinSplit(line);
    }

    /** createWord as main.cpp uses it: interns the tokens of `line` and
        returns the active n-gram holding their ids; the n-grams and their
        phrases stay valid. */
    method MakeNGram(line: string) returns (g: NGram)
      requires Valid() && dict.HasRoom(Spaces(line) + 1)
      modifies dict
      ensures Valid() && Extends(old(dict.dictionary), dict.dictionary)
      ensures dict.dictionary == InternAll(old(dict.dictionary), Split(line))
      ensures |dict.dictionary| <= old(|dict.dictionary|) + Spaces(line) + 1
      ensures Interns(dict.dictionary, g, line)
      ensures g == NGram(Lookups(dict.dictionary, Split(line)), true)
    {
      ghost var before := dict.dictionary;
      var hashList := dict.CreateWord(line, []);
      ghost var after := dict.dictionary;
      assert after == InternAll(before, Split(line));
      assert hashList == Lookups(after, Split(line));
      InternedExtends(before, after, ngrams, phrases);
      g := NGram(hashList, true);
    }

    /** load_init_data: one active n-gram per line, interning its tokens. */
    method LoadInitData(lines: seq<string>) returns (loaded: seq<NGram>)
      requires Valid() && dict.HasRoom(TokenCount(lines))
      modifies dict
      ensures Valid() && Extends(old(dict.dictionary), dict.dictionary)
      ensures dict.dictionary == InternLines(old(dict.dictionary), lines)
      ensures Interned(dict.dictionary, loaded, lines)
      ensures forall k :: 0 <= k < |loaded| ==> loaded[k].active
    {
      loaded := [];
      for i := 0 to |lines|
        invariant Valid() && Extends(old(dict.dictionary), dict.dictionary)
        invariant dict.dictionary == InternLines(old(dict.dictionary), lines[..i])
        invariant Interned(dict.dictionary, loaded, lines[..i])
        invariant forall k :: 0 <= k < |loaded| ==> loaded[k].active
        invariant dict.HasRoom(TokenCount(lines[i..]))
      {
        DropNext(lines, i);
        ghost var before := dict.dictionary;
        var g := MakeNGram(lines[i]);
        InternedExtends(before, dict.dictionary, loaded, lines[..i]);
        TakeNext(lines, i);
        assert lines[..i + 1][..i] == lines[..i];
        InternedAppend(dict.dictionary, loaded, lines[..i], g, lines[i]);
        loaded := loaded + [g];
      }
      assert lines[..|lines|] == lines;
    }

    /** The indexing loop of main: registers every n-gram's index under its
        first token id, in index order. */
    method BuildIndex()
      requires dict.Valid() && Interned(dict.dictionary, ngrams, phrases) && prefixMap == map[]
      modifies this
      ensures Valid()
      ensures ngrams == old(ngrams) && phrases == old(phrases) && queryId == old(queryId)
    {
      var ns := ngrams;
      assert forall k :: 0 <= k < |ns| ==> |ns[k].hashList| >= 1 by {
        forall k | 0 <= k < |ns|
          ensures |ns[k].hashList| >= 1
        {
          assert Interns(dict.dictionary, ns[k], phrases[k]);
        }
      }
      prefixMap := Index(ns);
    }

    /** Start-up: load the initial phrases, then index them. */
    method Load(lines: seq<string>)
      requires Valid() && ngrams == [] && prefixMap == map[]
      requires dict.HasRoom(TokenCount(lines))
      modifies this, dict
      ensures Valid() && Extends(old(dict.dictionary), dict.dictionary)
      ensures dict.dictionary == InternLines(old(dict.dictionary), lines)
      ensures phrases == lines && |ngrams| == |lines| && queryId == old(queryId)
      ensures forall k :: 0 <= k < |lines| ==> ngrams[k] == NGram(Lookups(dict.dictionary, Split(lines[k])), true)
    {
      var loaded := LoadInitData(lines);
      ngrams := loaded;
      phrases := lines;
      BuildIndex();
    }

    /** The `A` branch: appends one active n-gram and registers its index
        under its first token id; no other n-gram changes. */
    method Add(line: string)
      requires Valid() && dict.HasRoom(Spaces(line) + 1)
      modifies this, dict
      ensures Valid() && Extends(old(dict.dictionary), dict.dictionary)
      ensures dict.dictionary == InternAll(old(dict.dictionary), Split(line))
      ensures ngrams == old(ngrams) + [NGram(Lookups(dict.dictionary, Split(line)), true)]
      ensures phrases == old(phrases) + [line] && queryId == old(queryId)
      ensures prefixMap == Registered(old(prefixMap), Lookups(dict.dictionary, Split(line))[0], |old(ngrams)|)
    {
      var g := MakeNGram(line);
      Append(g.hashList, line);
    }

    /** The rest of the `A` branch once the phrase's ids are known. */
    method Append(hashList: seq<nat>, ghost line: string)
      requires Valid() && Interns(dict.dictionary, NGram(hashList, true), line)
      modifies this
      ensures Valid()
      ensures ngrams == old(ngrams) + [NGram(hashList, true)]
      ensures phrases == old(phrases) + [line] && queryId == old(queryId)
      ensures prefixMap == Registered(old(prefixMap), hashList[0], |old(ngrams)|)
    {
      var g := NGram(hashList, true);
      InternedAppend(dict.dictionary, ngrams, phrases, g, line);
      RegisterIndexes(ngrams, prefixMap, g);
      var index := |ngrams|;
      var prefix := hashList[0];
      var list: seq<nat> := if prefix in prefixMap then prefixMap[prefix] else [];
      ngrams := ngrams + [g];
      phrases := phrases + [line];
      prefixMap := prefixMap[prefix := list + [index]];
    }

    /** The `D` branch: clears the flag of every active n-gram made from
        `line` and touches nothing else. The phrase's tokens are interned
        on the way, as createWord does. */
    method Delete(line: string)
      requires Valid() && dict.HasRoom(Spaces(line) + 1)
      modifies this, dict
      ensures Valid() && Extends(old(dict.dictionary), dict.dictionary)
      ensures dict.dictionary == InternAll(old(dict.dictionary), Split(line))
      ensures ngrams == Deleted(old(ngrams), Lookups(dict.dictionary, Split(line)))
      ensures forall k :: 0 <= k < |ngrams| ==> (ngrams[k].active <==> old(ngrams[k].active) && phrases[k] != line)
      ensures phrases == old(phrases) && prefixMap == old(prefixMap) && queryId == old(queryId)
    {
      var g := MakeNGram(line);
      Clear(g.hashList, line);
    }

    /** The rest of the `D` branch once the phrase's ids are known. */
    method Clear(word: seq<nat>, ghost line: string)
      requires Valid()
      requires forall j :: 0 <= j < |Split(line)| ==> Split(line)[j] in dict.dictionary
      requires word == Lookups(dict.dictionary, Split(line))
      modifies this
      ensures Valid()
      ensures ngrams == Deleted(old(ngrams), word)
      ensures forall k :: 0 <= k < |ngrams| ==> (ngrams[k].active <==> old(ngrams[k].active) && phrases[k] != line)
      ensures phrases == old(phrases) && prefixMap == old(prefixMap) && queryId == old(queryId)
    {
      forall k | 0 <= k < |ngrams|
        ensures ngrams[k].hashList == word <==> phrases[k] == line
      {
        SameIdsSamePhrase(k, line);
      }
      DeletedInterned(dict.dictionary, ngrams, phrases, word);
      ngrams := DeleteIds(ngrams, prefixMap, word);
    }

    /** The inner loop of find_in_document at document position `i`: walks
        the indices `list` and keeps each active n-gram whose whole token
        list occurs at `i`, with the text createString renders for it. */
    method HitsAt(doc: seq<nat>, i: nat, list: seq<nat>) returns (found: seq<Match>)
      requires dict.Valid() && Spells(dict.backMapping, ngrams, phrases)
      requires i <= |doc| && Below(list, |ngrams|)
      ensures found == Hits(ngrams, phrases, doc, i, list)
    {
      found := [];
      for j := 0 to |list|
        invariant Below(list[..j], |ngrams|)
        invariant found == Hits(ngrams, phrases, doc, i, list[..j])
      {
        HitsStep(ngrams, phrases, doc, i, list, j);
        var index := list[j];
        var ngram := ngrams[index];
        if ngram.active {
          var matchedLength := MatchedLength(ngram.hashList, doc, i);
          if matchedLength == |ngram.hashList| {
            assert Spelled(dict.backMapping, ngram, phrases[index]);
            var text := dict.CreateString(ngram.hashList);
            found := found + [Match(i, text.value)];
          }
        }
      }
      assert list[..|list|] == list;
    }

    /** The nested loops of find_in_document: for each document position,
        the hits among the n-grams listed under the token there. */
    method CollectMatches(doc: seq<nat>) returns (matches: seq<Match>)
      requires dict.Valid() && Spells(dict.backMapping, ngrams, phrases) && ListedBelow(prefixMap, |ngrams|)
      ensures matches == Collected(ngrams, phrases, prefixMap, doc, |doc|)
    {
      matches := [];
      for i := 0 to |doc|
        invariant matches == Collected(ngrams, phrases, prefixMap, doc, i)
      {
        var prefix := doc[i];
        if prefix in prefixMap {
          var list := prefixMap[prefix];
          assert Below(list, |ngrams|);
          var found := HitsAt(doc, i, list);
          matches := matches + found;
        }
      }
    }

    /** find_in_document after interning: collects the matches, sorts them
        by position and then text length, and renders each distinct text
        once. */
    method Answer(doc: seq<nat>) returns (output: string)
      requires Valid()
      ensures ListedBelow(prefixMap, |ngrams|)
      ensures output == Output(SortMatches(Collected(ngrams, phrases, prefixMap, doc, |doc|)))
    {
      IndexedListed(ngrams, prefixMap);
      AllSpelled();
      var matches := CollectMatches(doc);
      var sorted := SortMatches(matches);
      output := Render(sorted);
    }

    /** find_in_document without the counter: interns the document's
        tokens and answers the query over their ids. */
    method Query(line: string) returns (output: string)
      requires Valid() && dict.HasRoom(Spaces(line) + 1)
      modifies dict
      ensures Valid() && Extends(old(dict.dictionary), dict.dictionary)
      ensures dict.dictionary == InternAll(old(dict.dictionary), Split(line))
      ensures ListedBelow(prefixMap, |ngrams|)
      ensures output == Output(SortMatches(Collected(ngrams, phrases, prefixMap,
                                                     Lookups(dict.dictionary, Split(line)), |Split(line)|)))
    {
      var lineWord := MakeNGram(line);
      output := Answer(lineWord.hashList);
    }

    /** find_in_document: answers the query and counts it. */
    method FindInDocument(line: string) returns (output: string)
      requires Valid() && dict.HasRoom(Spaces(line) + 1)
      modifies this, dict
      ensures Valid() && Extends(old(dict.dictionary), dict.dictionary)
      ensures dict.dictionary == InternAll(old(dict.dictionary), Split(line))
      ensures ngrams == old(ngrams) && phrases == old(phrases) && prefixMap == old(prefixMap)
      ensures queryId == old(queryId) + 1
      ensures ListedBelow(prefixMap, |ngrams|)
      ensures output == Output(SortMatches(Collected(ngrams, phrases, prefixMap,
                                                     Lookups(dict.dictionary, Split(line)), |Split(line)|)))
    {
      output := Query(line);
      queryId := queryId + 1;
    }
  }
}
