/** The two get_prefix overloads of src/nfa.cpp: the length of the common
    prefix of a suffix of one string and a suffix of another. */
module CommonPrefix {

  /** Length of the longest common prefix of `a` and `b`. */
  function CommonPrefixLength(a: string, b: string): (r: nat)
    ensures r <= |a| && r <= |b|
    ensures a[..r] == b[..r]
    ensures r < |a| && r < |b| ==> a[r] != b[r]
  {
    if |a| == 0 || |b| == 0 || a[0] != b[0] then 0
    else 1 + CommonPrefixLength(a[1..], b[1..])
  }

  /** The three properties above single the length out. */
  lemma CommonPrefixUnique(a: string, b: string, r: nat)
    requires r <= |a| && r <= |b| && a[..r] == b[..r]
    requires r < |a| && r < |b| ==> a[r] != b[r]
    ensures r == CommonPrefixLength(a, b)
  {
  }

  /** The whole of `b` is matched exactly when `b` is a prefix of `a`. */
  lemma WholeNeedleIffPrefix(a: string, b: string)
    ensures CommonPrefixLength(a, b) == |b| <==> b <= a
  {
    var r := CommonPrefixLength(a, b);
    if b <= a {
      assert a[..|b|] == b;
      CommonPrefixUnique(a, b, |b|);
    }
    if r == |b| {
      assert b == b[..r] == a[..r];
    }
  }

  /** get_prefix(word, start, needle). `word.size() - start` is unsigned in the
      source, so a start past the end of `word` would wrap around: callers must
      not pass one. */
  method GetPrefix(word: string, start: nat, needle: string) returns (prefix: int)
    requires start <= |word|
    ensures 0 <= prefix <= |needle| && prefix <= |word| - start
    ensures prefix == CommonPrefixLength(word[start..], needle)
  {
    var end := if |needle| < |word| - start then |needle| else |word| - start;
    prefix := 0;
    while prefix < end
      invariant 0 <= prefix <= end
      invariant forall k :: 0 <= k < prefix ==> word[start + k] == needle[k]
    {
      if word[start + prefix] != needle[prefix] {
        assert word[start..][..prefix] == needle[..prefix];
        CommonPrefixUnique(word[start..], needle, prefix);
        return;
      }
      prefix := prefix + 1;
    }
    assert word[start..][..prefix] == needle[..prefix];
    CommonPrefixUnique(word[start..], needle, prefix);
  }

  /** get_prefix(word, wordStart, needle, needleStart): the same comparison with
      the needle also read from an offset; both offsets must be in range for the
      same unsigned-subtraction reason. */
  method GetPrefixFrom(word: string, wordStart: nat, needle: string, needleStart: nat) returns (prefix: int)
    requires wordStart <= |word| && needleStart <= |needle|
    ensures 0 <= prefix <= |needle| - needleStart && prefix <= |word| - wordStart
    ensures prefix == CommonPrefixLength(word[wordStart..], needle[needleStart..])
  {
    var end := if |needle| - needleStart < |word| - wordStart then |needle| - needleStart else |word| - wordStart;
    ghost var w, n := word[wordStart..], needle[needleStart..];
    prefix := 0;
    while prefix < end
      invariant 0 <= prefix <= end
      invariant w[..prefix] == n[..prefix]
    {
      if word[wordStart + prefix] != needle[needleStart + prefix] {
        CommonPrefixUnique(w, n, prefix);
        return;
      }
      assert w[..prefix + 1] == w[..prefix] + [w[prefix]];
      assert n[..prefix + 1] == n[..prefix] + [n[prefix]];
      prefix := prefix + 1;
    }
    CommonPrefixUnique(w, n, prefix);
  }
}
