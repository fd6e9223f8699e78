/**
 The label transform of the content script (content_script.js:20-27): the
 first configured prefix, in list order, that starts a channel name is cut
 off, and then at most one separator character ('_', '-' or ' ') is dropped
 from what remains. Names that no prefix starts are shown unchanged.
 */
module PrefixTransform {

  /** `name.startsWith(prefix)`; every name starts with the empty prefix. */
  predicate StartsWith(name: string, prefix: string) {
    |prefix| <= |name| && name[..|prefix|] == prefix
  }

  /** `suffix` is a tail of `s`. */
  predicate IsSuffix(suffix: string, s: string) {
    |suffix| <= |s| && s[|s| - |suffix|..] == suffix
  }

  /** The character class `[_\- ]` of the regular expression at line 23. */
  predicate IsSeparator(c: char) {
    c == '_' || c == '-' || c == ' '
  }

  /** `s.replace(/^[_\- ]/, '')`: one leading separator goes, nothing else. */
  function StripSeparator(s: string): (r: string)
    ensures IsSuffix(r, s)
    ensures |r| == |s| || |r| == |s| - 1
    ensures |r| < |s| <==> |s| > 0 && IsSeparator(s[0])
  {
    if |s| > 0 && IsSeparator(s[0]) then s[1..] else s
  }

  /** `computeHiddenName`: the text shown for a channel called `name`. */
  function ComputeHiddenName(name: string, prefixes: seq<string>): (r: string)
    ensures IsSuffix(r, name)
    decreases |prefixes|
  {
    if |prefixes| == 0 then name
    else if StartsWith(name, prefixes[0]) then StripSeparator(name[|prefixes[0]|..])
    else ComputeHiddenName(name, prefixes[1..])
  }

  /** A name that no configured prefix starts is shown as it is. */
  lemma {:induction false} NoMatchKeepsName(name: string, prefixes: seq<string>)
    requires forall i :: 0 <= i < |prefixes| ==> !StartsWith(name, prefixes[i])
    ensures ComputeHiddenName(name, prefixes) == name
  {
    if |prefixes| > 0 {
      assert !StartsWith(name, prefixes[0]);
      NoMatchKeepsName(name, prefixes[1..]);
    }
  }

  /** The first matching prefix in list order decides the result, whatever
      the later (possibly longer) prefixes are. */
  lemma {:induction false} FirstMatchWins(name: string, prefixes: seq<string>, k: nat)
    requires k < |prefixes| && StartsWith(name, prefixes[k])
    requires forall i :: 0 <= i < k ==> !StartsWith(name, prefixes[i])
    ensures ComputeHiddenName(name, prefixes) == StripSeparator(name[|prefixes[k]|..])
  {
    if k > 0 {
      assert !StartsWith(name, prefixes[0]);
      FirstMatchWins(name, prefixes[1..], k - 1);
    }
  }

  /** A name changes only when some prefix starts it, and then it loses that
      prefix and at most one more character, which is a separator. */
  lemma {:induction false} ChangedNameLostAPrefix(name: string, prefixes: seq<string>)
    requires ComputeHiddenName(name, prefixes) != name
    ensures exists k ::
              0 <= k < |prefixes| && StartsWith(name, prefixes[k]) &&
              ComputeHiddenName(name, prefixes) == StripSeparator(name[|prefixes[k]|..])
  {
    if StartsWith(name, prefixes[0]) {
      assert 0 < |prefixes|;
    } else {
      ChangedNameLostAPrefix(name, prefixes[1..]);
      var k :|
        0 <= k < |prefixes[1..]| && StartsWith(name, prefixes[1..][k]) &&
        ComputeHiddenName(name, prefixes[1..]) == StripSeparator(name[|prefixes[1..][k]|..]);
      assert prefixes[k + 1] == prefixes[1..][k];
    }
  }

  /** `["foo", "foo-bar"]` on "foo-bar-baz": "foo" is listed first, so the
      result is "bar-baz", not "baz". */
  lemma FirstNotLongestExample()
    ensures ComputeHiddenName("foo-bar-baz", ["foo", "foo-bar"]) == "bar-baz"
  {
    assert StartsWith("foo-bar-baz", "foo");
    assert "foo-bar-baz"[3..] == "-bar-baz";
  }

  /** Only one of two leading separators is removed. */
  lemma SingleSeparatorExample()
    ensures ComputeHiddenName("foo__baz", ["foo"]) == "_baz"
  {
    assert StartsWith("foo__baz", "foo");
    assert "foo__baz"[3..] == "__baz";
  }

  /** A name without a configured prefix passes through. */
  lemma NoMatchExample()
    ensures ComputeHiddenName("baz", ["foo"]) == "baz"
  {
    assert !StartsWith("baz", "foo") by { assert "baz"[..3][0] != 'f'; }
  }

  /** Prefix "team" on "team-design": the label shows "design". */
  lemma TeamDesignExample()
    ensures ComputeHiddenName("team-design", ["team"]) == "design"
  {
    assert StartsWith("team-design", "team");
    assert "team-design"[4..] == "-design";
  }

  /** Only one occurrence of a prefix is stripped per application. */
  lemma RepeatedPrefixExample()
    ensures ComputeHiddenName("foo-foo-x", ["foo"]) == "foo-x"
    ensures ComputeHiddenName("foo-x", ["foo"]) == "x"
  {
    assert StartsWith("foo-foo-x", "foo");
    assert "foo-foo-x"[3..] == "-foo-x";
    assert StartsWith("foo-x", "foo");
    assert "foo-x"[3..] == "-x";
  }
}
