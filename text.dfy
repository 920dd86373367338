/** The string helpers of src/util.cpp, and the space-separated token
    structure (Split / Join) that the dictionary and the matcher rely on. */
module Text {
  import opened Wrappers

  /** Number of space characters in `s`. */
  function Spaces(s: string): nat
  {
    if |s| == 0 then 0
    else Spaces(s[..|s| - 1]) + (if s[|s| - 1] == ' ' then 1 else 0)
  }

  /** The tokens of `s`: the pieces between single spaces, in order, including
      the empty pieces made by adjacent, leading or trailing spaces. This is the
      reference definition of the character loop of Dictionary::createWord,
      written the same way: the last character either closes a token or extends it. */
  function Split(s: string): (r: seq<string>)
    ensures |r| >= 1
  {
    if |s| == 0 then [""]
    else
      var init := Split(s[..|s| - 1]);
      var c := s[|s| - 1];
      if c == ' ' then init + [""]
      else init[..|init| - 1] + [init[|init| - 1] + [c]]
  }

  /** The tokens glued back together with one space between neighbours. */
  function Join(ts: seq<string>): string
    requires |ts| >= 1
  {
    if |ts| == 1 then ts[0] else Join(ts[..|ts| - 1]) + " " + ts[|ts| - 1]
  }

  /** No token contains a space. */
  predicate SpaceFree(ts: seq<string>)
  {
    forall k :: 0 <= k < |ts| ==> ' ' !in ts[k]
  }

  /** A string has one token more than it has spaces. */
  lemma {:induction false} SplitCount(s: string)
    ensures |Split(s)| == Spaces(s) + 1
  {
    if |s| > 0 {
      SplitCount(s[..|s| - 1]);
    }
  }

  /** A prefix of a string has at most as many tokens as the string. */
  lemma {:induction false} SplitPrefixCount(s: string, i: nat)
    requires i <= |s|
    ensures |Split(s[..i])| <= |Split(s)|
    decreases |s|
  {
    if i < |s| {
      var p := s[..|s| - 1];
      assert p[..i] == s[..i];
      SplitPrefixCount(p, i);
      SplitCount(p);
      SplitCount(s);
    } else {
      assert s[..i] == s;
    }
  }

  /** Tokens never contain the separator. */
  lemma {:induction false} SplitSpaceFree(s: string)
    ensures SpaceFree(Split(s))
  {
    if |s| > 0 {
      SplitSpaceFree(s[..|s| - 1]);
      var init := Split(s[..|s| - 1]);
      var c := s[|s| - 1];
      if c != ' ' {
        var last := init[|init| - 1] + [c];
        assert ' ' !in init[|init| - 1];
        assert ' ' !in last;
      }
    }
  }

  /** Join grows by one space and the new token. */
  lemma JoinAppend(ts: seq<string>, t: string)
    requires |ts| >= 1
    ensures Join(ts + [t]) == Join(ts) + " " + t
  {
    assert (ts + [t])[..|ts|] == ts;
  }

  /** Joining the tokens of a string gives the string back. */
  lemma {:induction false} JoinSplit(s: string)
    ensures Join(Split(s)) == s
  {
    if |s| > 0 {
      var p := s[..|s| - 1];
      var c := s[|s| - 1];
      assert s == p + [c];
      JoinSplit(p);
      var init := Split(p);
      if c == ' ' {
        assert Split(s) == init + [""];
        JoinAppend(init, "");
      } else {
        var front := init[..|init| - 1];
        var last := init[|init| - 1];
        assert Split(s) == front + [last + [c]];
        if |init| == 1 {
          assert Split(s) == [last + [c]];
        } else {
          assert init == front + [last];
          JoinAppend(front, last);
          JoinAppend(front, last + [c]);
        }
      }
    }
  }

  /** Appending characters that are not spaces extends the last token. */
  lemma {:induction false} SplitExtend(a: string, t: string)
    requires ' ' !in t
    ensures var r := Split(a); Split(a + t) == r[..|r| - 1] + [r[|r| - 1] + t]
    decreases |t|
  {
    var r := Split(a);
    if |t| == 0 {
      assert a + t == a;
      assert r[|r| - 1] + t == r[|r| - 1];
      assert r == r[..|r| - 1] + [r[|r| - 1]];
    } else {
      var t' := t[..|t| - 1];
      var c := t[|t| - 1];
      assert ' ' !in t';
      SplitExtend(a, t');
      assert (a + t)[..|a + t| - 1] == a + t';
      assert (a + t)[|a + t| - 1] == c;
      var r' := Split(a + t');
      assert r' == r[..|r| - 1] + [r[|r| - 1] + t'];
      assert r'[..|r'| - 1] == r[..|r| - 1];
      assert r[|r| - 1] + t' + [c] == r[|r| - 1] + t;
    }
  }

  /** A space followed by a space-free token adds exactly that token. */
  lemma SplitAppendToken(a: string, t: string)
    requires ' ' !in t
    ensures Split(a + " " + t) == Split(a) + [t]
  {
    var b := a + " ";
    assert b[..|b| - 1] == a && b[|b| - 1] == ' ';
    var r := Split(b);
    assert r == Split(a) + [""];
    SplitExtend(b, t);
    assert r[..|r| - 1] == Split(a);
    assert r[|r| - 1] + t == t;
    assert a + " " + t == b + t;
  }

  /** Splitting joined space-free tokens gives the tokens back. */
  lemma {:induction false} SplitJoin(ts: seq<string>)
    requires |ts| >= 1 && SpaceFree(ts)
    ensures Split(Join(ts)) == ts
  {
    if |ts| == 1 {
      SplitExtend("", ts[0]);
      assert "" + ts[0] == ts[0];
    } else {
      var front := ts[..|ts| - 1];
      assert ' ' !in ts[|ts| - 1];
      assert SpaceFree(front) by {
        forall k | 0 <= k < |front| ensures ' ' !in front[k] {
          assert front[k] == ts[k];
        }
      }
      SplitJoin(front);
      SplitAppendToken(Join(front), ts[|ts| - 1]);
      assert ts == front + [ts[|ts| - 1]];
    }
  }

  /** std::string::find(c, from): the first index at or after `from` that holds `c`. */
  function Find(s: string, c: char, from: nat): (r: Option<nat>)
    ensures r.Some? ==> from <= r.value < |s| && s[r.value] == c
    ensures r.Some? ==> forall k :: from <= k < r.value ==> s[k] != c
    ensures r.None? ==> forall k :: from <= k < |s| ==> s[k] != c
    decreases |s| - from
  {
    if from >= |s| then None
    else if s[from] == c then Some(from)
    else Find(s, c, from + 1)
  }

  /** find_prefix: the text before the first space, or all of `word` when it has none. */
  function FindPrefix(word: string): (r: string)
    ensures ' ' !in r && r <= word
    ensures |r| == |word| || word[|r|] == ' '
  {
    match Find(word, ' ', 0)
    case None => word
    case Some(pos) => word[..pos]
  }

  /** find_prefix_from: the run of non-space characters starting at `from`.
      std::string::substr throws when `from` is past the end. */
  function FindPrefixFrom(word: string, from: nat): (r: Result<string>)
    ensures r.Ok? <==> from <= |word|
    ensures r.Ok? ==> from + |r.value| <= |word| && r.value == word[from..from + |r.value|]
    ensures r.Ok? ==> ' ' !in r.value
    ensures r.Ok? ==> from + |r.value| == |word| || word[from + |r.value|] == ' '
  {
    match Find(word, ' ', from)
    case None => if from <= |word| then Ok(word[from..]) else OutOfRange
    case Some(pos) => Ok(word[from..pos])
  }

  /** The maximal space-free run at the start of a string is unique. */
  lemma MaximalRunUnique(w: string, r1: string, r2: string)
    requires r1 <= w && ' ' !in r1 && (|r1| == |w| || w[|r1|] == ' ')
    requires r2 <= w && ' ' !in r2 && (|r2| == |w| || w[|r2|] == ' ')
    ensures r1 == r2
  {
  }

  /** find_prefix is find_prefix_from at offset 0, and find_prefix_from at any
      offset is find_prefix of the rest of the string. */
  lemma FindPrefixFromShift(w: string, from: nat)
    requires from <= |w|
    ensures FindPrefixFrom(w, from) == Ok(FindPrefix(w[from..]))
    ensures FindPrefixFrom(w, 0) == Ok(FindPrefix(w))
  {
    var r1 := FindPrefixFrom(w, from).value;
    var r2 := FindPrefix(w[from..]);
    assert r1 <= w[from..];
    MaximalRunUnique(w[from..], r1, r2);
    var q := FindPrefixFrom(w, 0).value;
    assert q <= w;
    MaximalRunUnique(w, q, FindPrefix(w));
  }

  /** A string has a space exactly when it has a positive number of them. */
  lemma {:induction false} SpacesZero(s: string)
    ensures Spaces(s) == 0 <==> ' ' !in s
  {
    if |s| > 0 {
      var p := s[..|s| - 1];
      SpacesZero(p);
      assert s == p + [s[|s| - 1]];
    }
  }

  /** find_prefix is the first token of the string. */
  lemma {:induction false} FindPrefixIsFirstToken(w: string)
    ensures FindPrefix(w) == Split(w)[0]
  {
    if |w| > 0 {
      var p := w[..|w| - 1];
      var c := w[|w| - 1];
      assert w == p + [c];
      FindPrefixIsFirstToken(p);
      var f := FindPrefix(p);
      var init := Split(p);
      SplitCount(p);
      SpacesZero(p);
      if ' ' in p {
        assert |f| < |p|;
        assert f <= w && w[|f|] == ' ';
        MaximalRunUnique(w, f, FindPrefix(w));
        assert |init| >= 2;
        assert Split(w)[0] == init[0];
      } else if c == ' ' {
        assert f == p;
        assert f <= w && w[|f|] == ' ';
        MaximalRunUnique(w, f, FindPrefix(w));
        assert Split(w)[0] == init[0];
      } else {
        assert f == p;
        assert ' ' !in w;
        MaximalRunUnique(w, w, FindPrefix(w));
        assert |init| == 1;
        assert Split(w) == [init[0] + [c]];
      }
    }
  }

  /** find_prefix_length: the number of consecutive non-space characters from
      `startIndex`, that is, the length of find_prefix_from at that offset. */
  method FindPrefixLength(word: string, startIndex: nat) returns (length: nat)
    ensures startIndex >= |word| ==> length == 0
    ensures startIndex < |word| ==> startIndex + length <= |word|
    ensures forall k :: startIndex <= k < startIndex + length ==> word[k] != ' '
    ensures startIndex < |word| ==> startIndex + length == |word| || word[startIndex + length] == ' '
    ensures startIndex <= |word| ==> FindPrefixFrom(word, startIndex) == Ok(word[startIndex..startIndex + length])
  {
    length := 0;
    var i := startIndex;
    while i < |word|
      invariant i == startIndex + length
      invariant length > 0 ==> i <= |word|
      invariant forall k :: startIndex <= k < i ==> word[k] != ' '
    {
      if word[i] == ' ' {
        break;
      }
      length := length + 1;
      i := i + 1;
    }
    if startIndex <= |word| {
      var r := FindPrefixFrom(word, startIndex).value;
      MaximalRunUnique(word[startIndex..], r, word[startIndex..startIndex + length]);
    }
  }
}
