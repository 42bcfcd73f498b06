/** The one string primitive the navigation rule relies on: JavaScript's
    `String.prototype.startsWith(searchString)` called without a position,
    on strings modelled as sequences of characters. */
module JsString {

  /** True when `s` begins with `prefix`, compared one character at a time
      from the front. The empty prefix begins every string, and a string
      never begins with anything longer than itself. */
  predicate StartsWith(s: string, prefix: string)
    ensures StartsWith(s, prefix) ==> |prefix| <= |s|
    ensures StartsWith(s, prefix) ==> forall i :: 0 <= i < |prefix| ==> s[i] == prefix[i]
    decreases prefix
  {
    prefix == [] || (s != [] && s[0] == prefix[0] && StartsWith(s[1..], prefix[1..]))
  }

  /** Reference definition: `prefix` is no longer than `s` and equals the
      slice of `s` of the same length. */
  predicate IsPrefixSlice(s: string, prefix: string)
  {
    |prefix| <= |s| && s[..|prefix|] == prefix
  }

  /** The character-by-character test and the slice definition agree on
      every pair of strings, in both directions. */
  lemma {:induction false} StartsWithIffPrefixSlice(s: string, prefix: string)
    ensures StartsWith(s, prefix) <==> IsPrefixSlice(s, prefix)
    decreases prefix
  {
    if prefix != [] && s != [] {
      StartsWithIffPrefixSlice(s[1..], prefix[1..]);
      if IsPrefixSlice(s, prefix) {
        assert s[0] == prefix[0];
        assert s[1..][..|prefix| - 1] == prefix[1..];
      }
      if IsPrefixSlice(s[1..], prefix[1..]) && s[0] == prefix[0] {
        assert s[..|prefix|] == [s[0]] + s[1..][..|prefix| - 1];
        assert prefix == [prefix[0]] + prefix[1..];
      }
    }
  }

  /** Every string begins with itself. */
  lemma {:induction false} StartsWithReflexive(s: string)
    ensures StartsWith(s, s)
    decreases s
  {
    if s != [] {
      StartsWithReflexive(s[1..]);
    }
  }

  /** Appending characters at the end never breaks a prefix. */
  lemma {:induction false} StartsWithAppend(s: string, suffix: string, prefix: string)
    requires StartsWith(s, prefix)
    ensures StartsWith(s + suffix, prefix)
    decreases prefix
  {
    if prefix != [] {
      assert (s + suffix)[0] == s[0];
      assert (s + suffix)[1..] == s[1..] + suffix;
      StartsWithAppend(s[1..], suffix, prefix[1..]);
    }
  }

  /** A prefix of a prefix of `s` is itself a prefix of `s`. */
  lemma {:induction false} StartsWithTransitive(s: string, mid: string, prefix: string)
    requires StartsWith(s, mid) && StartsWith(mid, prefix)
    ensures StartsWith(s, prefix)
    decreases prefix
  {
    if prefix != [] {
      StartsWithTransitive(s[1..], mid[1..], prefix[1..]);
    }
  }
}
