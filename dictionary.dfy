/** The token dictionary of src/dictionary.h: interns tokens to dense ids
    0, 1, 2, ... in order of first sighting and maps ids back to text. */
module Dict {
  import opened Wrappers
  import opened Text
  import opened Settings
  import opened Seqs

  /** The id of token `t` in `m`, HASH_NOT_FOUND when `m` lacks it. */
  function IdOf(m: map<string, nat>, t: string): nat
  {
    if t in m then m[t] else HASH_NOT_FOUND
  }

  /** The ids of the tokens `ts` in `m`, in order. */
  function Lookups(m: map<string, nat>, ts: seq<string>): (r: seq<nat>)
    ensures |r| == |ts|
  {
    if |ts| == 0 then [] else Lookups(m, ts[..|ts| - 1]) + [IdOf(m, ts[|ts| - 1])]
  }

  /** The k-th looked-up id is the id of the k-th token. */
  lemma {:induction false} LookupsAt(m: map<string, nat>, ts: seq<string>, k: nat)
    requires k < |ts|
    ensures Lookups(m, ts)[k] == IdOf(m, ts[k])
  {
    if k < |ts| - 1 {
      LookupsAt(m, ts[..|ts| - 1], k);
    }
  }

  /** Every id of `ids` is known to `back`. */
  predicate AllIn(back: map<nat, string>, ids: seq<nat>)
  {
    forall k :: 0 <= k < |ids| ==> ids[k] in back
  }

  /** The texts of the ids `ids` in `back`, in order. */
  function Strings(back: map<nat, string>, ids: seq<nat>): (r: seq<string>)
    requires AllIn(back, ids)
    ensures |r| == |ids|
  {
    if |ids| == 0 then [] else Strings(back, ids[..|ids| - 1]) + [back[ids[|ids| - 1]]]
  }

  /** The k-th text is the text of the k-th id. */
  lemma {:induction false} StringsAt(back: map<nat, string>, ids: seq<nat>, k: nat)
    requires AllIn(back, ids) && k < |ids|
    ensures Strings(back, ids)[k] == back[ids[k]]
  {
    if k < |ids| - 1 {
      StringsAt(back, ids[..|ids| - 1], k);
    }
  }

  /** The texts of one more id. */
  lemma StringsNext(back: map<nat, string>, ids: seq<nat>, i: nat)
    requires i < |ids| && AllIn(back, ids[..i]) && ids[i] in back
    ensures AllIn(back, ids[..i + 1])
    ensures Strings(back, ids[..i + 1]) == Strings(back, ids[..i]) + [back[ids[i]]]
  {
    assert ids[..i + 1][..i] == ids[..i];
  }

  /** `big` keeps every entry of `small`. */
  ghost predicate Extends(small: map<string, nat>, big: map<string, nat>)
  {
    forall w :: w in small ==> w in big && big[w] == small[w]
  }

  /** Lookups only depends on the entries the tokens use. */
  lemma {:induction false} LookupsExtends(m: map<string, nat>, m': map<string, nat>, ts: seq<string>)
    requires Extends(m, m') && forall k :: 0 <= k < |ts| ==> ts[k] in m
    ensures Lookups(m', ts) == Lookups(m, ts)
  {
    if |ts| > 0 {
      LookupsExtends(m, m', ts[..|ts| - 1]);
    }
  }

  /** Lookups of one more token. */
  lemma LookupsAppend(m: map<string, nat>, ts: seq<string>, t: string)
    ensures Lookups(m, ts + [t]) == Lookups(m, ts) + [IdOf(m, t)]
  {
    assert (ts + [t])[..|ts|] == ts;
  }

  /** The token map after interning `ts` in order into `m`: a token not yet
      present gets the current size as its id, a present one is left alone. */
  function InternAll(m: map<string, nat>, ts: seq<string>): map<string, nat>
  {
    if |ts| == 0 then m
    else
      var before := InternAll(m, ts[..|ts| - 1]);
      var t := ts[|ts| - 1];
      if t in before then before else before[t := |before|]
  }

  /** Interning adds exactly the tokens of `ts`, keeps every id already
      handed out, and gives the new tokens the ids |m| .. |r| - 1. */
  lemma {:induction false} InternAllKeys(m: map<string, nat>, ts: seq<string>)
    ensures var r := InternAll(m, ts);
      (forall w :: w in r <==> w in m || w in ts) &&
      Extends(m, r) &&
      |m| <= |r| <= |m| + |ts| &&
      (forall w :: w in r && w !in m ==> |m| <= r[w] < |r|)
  {
    if |ts| > 0 {
      var front := ts[..|ts| - 1];
      InternAllKeys(m, front);
      assert ts == front + [ts[|ts| - 1]];
    }
  }

  /** Interning the tokens `a + b` is interning `a`, then `b`. */
  lemma {:induction false} InternAllAppend(m: map<string, nat>, a: seq<string>, b: seq<string>)
    ensures InternAll(m, a + b) == InternAll(InternAll(m, a), b)
    decreases |b|
  {
    if |b| == 0 {
      assert a + b == a;
    } else {
      var b' := b[..|b| - 1];
      assert (a + b)[..|a + b| - 1] == a + b';
      assert (a + b)[|a + b| - 1] == b[|b| - 1];
      InternAllAppend(m, a, b');
    }
  }

  /** Tokens interned earlier keep their ids as later ones are interned. */
  lemma {:induction false} InternAllPrefix(m: map<string, nat>, ts: seq<string>, i: nat)
    requires i <= |ts|
    ensures Extends(InternAll(m, ts[..i]), InternAll(m, ts))
    decreases |ts|
  {
    if i == |ts| {
      assert ts[..i] == ts;
    } else {
      var front := ts[..|ts| - 1];
      assert front[..i] == ts[..i];
      InternAllPrefix(m, front, i);
    }
  }

  /** New tokens get their ids in order of first sighting: a token that
      first appears at position `j` gets a larger id than every new token
      that appears before it. */
  lemma InternAllOrder(m: map<string, nat>, ts: seq<string>, i: nat, j: nat)
    requires i < j < |ts| && ts[i] !in m && ts[j] !in m && ts[j] !in ts[..j]
    ensures ts[i] in InternAll(m, ts) && ts[j] in InternAll(m, ts)
    ensures InternAll(m, ts)[ts[i]] < InternAll(m, ts)[ts[j]]
  {
    var a := InternAll(m, ts[..j]);
    InternAllKeys(m, ts[..j]);
    assert ts[..j + 1][..j] == ts[..j];
    assert ts[..j + 1][j] == ts[j];
    assert ts[i] in ts[..j];
    assert InternAll(m, ts[..j + 1]) == a[ts[j] := |a|];
    InternAllPrefix(m, ts, j + 1);
  }

  /** The token map after interning the tokens of each line in turn. */
  function InternLines(m: map<string, nat>, lines: seq<string>): map<string, nat>
  {
    if |lines| == 0 then m else InternAll(InternLines(m, lines[..|lines| - 1]), Split(lines[|lines| - 1]))
  }

  /** What interning one more token does to the ids collected so far. */
  lemma AfterIntern(origin: map<string, nat>, before: map<string, nat>, after: map<string, nat>,
                    done: seq<string>, prefix: string, id: nat, hashList: seq<nat>, out: seq<nat>)
    requires Extends(origin, before) && Extends(before, after) && prefix in after && after[prefix] == id
    requires forall k :: 0 <= k < |done| ==> done[k] in before
    requires out == hashList + Lookups(before, done)
    ensures Extends(origin, after)
    ensures forall k :: 0 <= k < |done + [prefix]| ==> (done + [prefix])[k] in after
    ensures out + [id] == hashList + Lookups(after, done + [prefix])
  {
    LookupsExtends(before, after, done);
    LookupsAppend(after, done, prefix);
    AppendAssoc(hashList, Lookups(after, done), [id]);
  }

  /** The loop state of createWord after one more character. */
  lemma SplitStepWith(s: string, i: nat, done: seq<string>, prefix: string)
    requires i < |s| && Split(s[..i]) == done + [prefix]
    ensures s[i] == ' ' ==> Split(s[..i + 1]) == (done + [prefix]) + [""]
    ensures s[i] != ' ' ==> Split(s[..i + 1]) == done + [prefix + [s[i]]]
  {
    SplitStep(s, i);
    var init := Split(s[..i]);
    assert init[..|init| - 1] == done;
  }

  /** One more character of a string either closes the last token or extends it. */
  lemma SplitStep(s: string, i: nat)
    requires i < |s|
    ensures var init := Split(s[..i]);
      Split(s[..i + 1]) == if s[i] == ' ' then init + [""] else init[..|init| - 1] + [init[|init| - 1] + [s[i]]]
  {
    assert s[..i + 1][..i] == s[..i];
  }

  class Dictionary {
    var dictionary: map<string, nat>
    var backMapping: map<nat, string>

    /** The two maps are mutually inverse and the ids are exactly 0 .. size-1,
        all below the HASH_NOT_FOUND sentinel. */
    ghost predicate Valid()
      reads this
    {
      |dictionary| <= HASH_NOT_FOUND && |backMapping| == |dictionary| &&
      (forall w :: w in dictionary ==>
         dictionary[w] < |dictionary| && dictionary[w] in backMapping && backMapping[dictionary[w]] == w) &&
      (forall h :: h in backMapping ==>
         h < |dictionary| && backMapping[h] in dictionary && dictionary[backMapping[h]] == h) &&
      (forall h: nat :: h < |dictionary| ==> h in backMapping)
    }

    /** Interning `n` more tokens keeps every id below the sentinel. */
    ghost predicate HasRoom(n: nat)
      reads this
    {
      |dictionary| + n <= HASH_NOT_FOUND
    }

    constructor ()
      ensures Valid() && dictionary == map[] && backMapping == map[]
    {
      dictionary := map[];
      backMapping := map[];
    }

    /** size(): the number of interned tokens, which both maps agree on. */
    function Size(): (n: nat)
      reads this
      requires Valid()
      ensures n == |backMapping| && n <= HASH_NOT_FOUND
    {
      |dictionary|
    }

    /** get_hash: the id of a known token; unordered_map::at throws for an unknown one. */
    function GetHash(word: string): (r: Result<nat>)
      reads this
      requires Valid()
      ensures r.Ok? <==> word in dictionary
      ensures r.Ok? ==> r.value < |dictionary| && r.value in backMapping && backMapping[r.value] == word
    {
      if word in dictionary then Ok(dictionary[word]) else OutOfRange
    }

    /** get_hash_maybe: the id of a known token, HASH_NOT_FOUND exactly for an unknown one. */
    function GetHashMaybe(word: string): (r: nat)
      reads this
      requires Valid()
      ensures r == HASH_NOT_FOUND <==> word !in dictionary
      ensures r != HASH_NOT_FOUND ==> r in backMapping && backMapping[r] == word
    {
      if word !in dictionary then HASH_NOT_FOUND else dictionary[word]
    }

    /** get_string: the text of an id; an id that was never handed out makes the
        source report an error and throw from unordered_map::at. */
    function GetString(hash: nat): (r: Result<string>)
      reads this
      requires Valid()
      ensures r.Ok? <==> hash < |dictionary|
      ensures r.Ok? ==> r.value in dictionary && dictionary[r.value] == hash
      ensures r.Ok? ==> hash in backMapping && backMapping[hash] == r.value
    {
      if hash in backMapping then Ok(backMapping[hash]) else OutOfRange
    }

    /** insert: a new token gets the next id, the old size; a known token keeps
        its id and nothing changes. */
    method Insert(word: string) returns (hash: nat)
      requires Valid()
      requires word in dictionary || HasRoom(1)
      modifies this
      ensures Valid()
      ensures old(word in dictionary) ==> hash == old(dictionary[word]) && unchanged(this)
      ensures old(word !in dictionary) ==> hash == old(|dictionary|) && |dictionary| == old(|dictionary|) + 1
      ensures dictionary == old(dictionary)[word := hash] && backMapping == old(backMapping)[hash := word]
      ensures Extends(old(dictionary), dictionary)
      ensures word in dictionary && dictionary[word] == hash
      ensures hash in backMapping && backMapping[hash] == word
    {
      if word !in dictionary {
        hash := |dictionary|;
        assert hash !in backMapping;
        dictionary := dictionary[word := hash];
        backMapping := backMapping[hash := word];
        return;
      }
      var r := GetHash(word);
      hash := r.value;
    }

    /** createWord: interns every space-separated token of `word` (empty ones
        included) and appends their ids, in order, to `hashList`. */
    method CreateWord(word: string, hashList: seq<nat>) returns (out: seq<nat>)
      requires Valid() && HasRoom(Spaces(word) + 1)
      modifies this
      ensures Valid()
      ensures Extends(old(dictionary), dictionary)
      ensures |dictionary| <= old(|dictionary|) + Spaces(word) + 1
      ensures dictionary == InternAll(old(dictionary), Split(word))
      ensures forall w :: w in dictionary <==> w in old(dictionary) || w in Split(word)
      ensures forall k :: 0 <= k < |Split(word)| ==> Split(word)[k] in dictionary
      ensures out == hashList + Lookups(dictionary, Split(word))
      ensures |out| == |hashList| + Spaces(word) + 1
    {
      ghost var total := |Split(word)|;
      assert total == Spaces(word) + 1 by {
        SplitCount(word);
      }
      out := hashList;
      var prefix: string := "";
      ghost var done: seq<string> := [];
      for i := 0 to |word|
        invariant Valid()
        invariant Split(word[..i]) == done + [prefix]
        invariant |done| < total
        invariant Extends(old(dictionary), dictionary)
        invariant dictionary == InternAll(old(dictionary), done)
        invariant |dictionary| <= old(|dictionary|) + |done|
        invariant forall k :: 0 <= k < |done| ==> done[k] in dictionary
        invariant out == hashList + Lookups(dictionary, done)
      {
        SplitStepWith(word, i, done, prefix);
        SplitPrefixCount(word, i + 1);
        var c := word[i];
        if c == ' ' {
          out := PushToken(prefix, old(dictionary), done, hashList, out);
          done := done + [prefix];
          prefix := "";
        } else {
          prefix := prefix + [c];
        }
      }
      assert word[..|word|] == word;
      out := PushToken(prefix, old(dictionary), done, hashList, out);
      InternAllKeys(old(dictionary), Split(word));
    }

    /** One `hashList.push_back(insert(prefix))` of createWord: interns the
        token and appends its id to the ids of the tokens before it. */
    method PushToken(token: string, ghost origin: map<string, nat>, ghost done: seq<string>,
                     hashList: seq<nat>, out: seq<nat>) returns (next: seq<nat>)
      requires Valid() && (token in dictionary || HasRoom(1)) && Extends(origin, dictionary)
      requires forall k :: 0 <= k < |done| ==> done[k] in dictionary
      requires out == hashList + Lookups(dictionary, done)
      requires dictionary == InternAll(origin, done)
      modifies this
      ensures Valid() && Extends(origin, dictionary) && Extends(old(dictionary), dictionary)
      ensures dictionary == InternAll(origin, done + [token])
      ensures |dictionary| <= old(|dictionary|) + 1
      ensures forall k :: 0 <= k < |done| + 1 ==> (done + [token])[k] in dictionary
      ensures next == hashList + Lookups(dictionary, done + [token])
    {
      ghost var before := dictionary;
      var id := Insert(token);
      AfterIntern(origin, before, dictionary, done, token, id, hashList, out);
      assert (done + [token])[..|done|] == done;
      next := out + [id];
    }

    /** createWordNoInsert: the ids createWord would append, without interning:
        HASH_NOT_FOUND for each unknown token. */
    method CreateWordNoInsert(word: string, hashList: seq<nat>) returns (out: seq<nat>)
      requires Valid()
      ensures out == hashList + Lookups(dictionary, Split(word))
      ensures |out| == |hashList| + Spaces(word) + 1
    {
      out := hashList;
      var prefix: string := "";
      ghost var done: seq<string> := [];
      for i := 0 to |word|
        invariant Split(word[..i]) == done + [prefix]
        invariant out == hashList + Lookups(dictionary, done)
      {
        SplitStepWith(word, i, done, prefix);
        var c := word[i];
        if c == ' ' {
          LookupsAppend(dictionary, done, prefix);
          AppendAssoc(hashList, Lookups(dictionary, done), [IdOf(dictionary, prefix)]);
          out := out + [GetHashMaybe(prefix)];
          done := done + [prefix];
          prefix := "";
        } else {
          prefix := prefix + [c];
        }
      }
      assert word[..|word|] == word;
      LookupsAppend(dictionary, done, prefix);
      AppendAssoc(hashList, Lookups(dictionary, done), [IdOf(dictionary, prefix)]);
      out := out + [GetHashMaybe(prefix)];
      assert |out| == |hashList| + Spaces(word) + 1 by {
        SplitCount(word);
      }
    }

    /** createString: the texts of the ids joined by single spaces. The source
        throws when the list is empty (hashList.at(0)) or an id is unknown. */
    method CreateString(hashList: seq<nat>) returns (r: Result<string>)
      requires Valid()
      ensures r.Ok? <==> |hashList| >= 1 && forall k :: 0 <= k < |hashList| ==> hashList[k] < |dictionary|
      ensures r.Ok? ==> AllIn(backMapping, hashList) && r.value == Join(Strings(backMapping, hashList))
    {
      if |hashList| == 0 {
        return OutOfRange;
      }
      var first := GetString(hashList[0]);
      if first.OutOfRange? {
        return OutOfRange;
      }
      var result := first.value;
      StringsNext(backMapping, hashList, 0);
      assert hashList[..0] == [];
      var size := |hashList|;
      for i := 1 to size
        invariant AllIn(backMapping, hashList[..i])
        invariant result == Join(Strings(backMapping, hashList[..i]))
      {
        var next := GetString(hashList[i]);
        if next.OutOfRange? {
          return OutOfRange;
        }
        var before := Strings(backMapping, hashList[..i]);
        result := result + " " + next.value;
        StringsNext(backMapping, hashList, i);
        JoinAppend(before, next.value);
      }
      assert hashList[..size] == hashList;
      KnownBelow(hashList);
      r := Ok(result);
    }

    /** Ids with a text are below the number of tokens. */
    lemma KnownBelow(ids: seq<nat>)
      requires Valid() && AllIn(backMapping, ids)
      ensures forall k :: 0 <= k < |ids| ==> ids[k] < |dictionary|
    {
    }

    /** Interning a phrase and rendering its ids gives the phrase back. */
    method RoundTrip(word: string) returns (r: Result<string>)
      requires Valid() && HasRoom(Spaces(word) + 1)
      modifies this
      ensures Valid() && Extends(old(dictionary), dictionary)
      ensures r == Ok(word)
    {
      var ids := CreateWord(word, []);
      assert ids == Lookups(dictionary, Split(word));
      TextOfLookups(Split(word));
      r := CreateString(ids);
      JoinSplit(word);
    }

    /** Every token's id maps back to the token. */
    lemma {:induction false} TextOfLookups(ts: seq<string>)
      requires Valid()
      requires forall k :: 0 <= k < |ts| ==> ts[k] in dictionary
      ensures AllIn(backMapping, Lookups(dictionary, ts))
      ensures Strings(backMapping, Lookups(dictionary, ts)) == ts
    {
      if |ts| > 0 {
        var front := ts[..|ts| - 1];
        TextOfLookups(front);
        var ids := Lookups(dictionary, ts);
        assert ids == Lookups(dictionary, front) + [dictionary[ts[|ts| - 1]]];
        assert ids[..|ids| - 1] == Lookups(dictionary, front);
        assert ts == front + [ts[|ts| - 1]];
      }
    }
  }
}
