/** The two Python string operations the control-name rule relies on:
    substring membership (`sub in s`) and `str.replace`. */
module PyStrings {

  /** Python's `sub in s`; the empty string occurs in every string. */
  predicate Contains(s: string, sub: string): (b: bool)
    ensures sub == [] ==> b
    ensures b ==> |sub| <= |s|
    decreases |s|
  {
    |sub| <= |s| && (s[..|sub|] == sub || Contains(s[1..], sub))
  }

  /** `sub` occurs in `s` starting at index `i`. */
  predicate OccursAt(s: string, sub: string, i: int)
  {
    0 <= i && i + |sub| <= |s| && s[i..i + |sub|] == sub
  }

  /** Contains agrees with the positional definition of an occurrence. */
  lemma {:induction false} ContainsAt(s: string, sub: string)
    ensures Contains(s, sub) <==> exists i :: OccursAt(s, sub, i)
    decreases |s|
  {
    if |sub| <= |s| && s[..|sub|] == sub {
      assert OccursAt(s, sub, 0);
    } else if |sub| <= |s| {
      ContainsAt(s[1..], sub);
      if exists i :: OccursAt(s, sub, i) {
        var i :| OccursAt(s, sub, i);
        assert i != 0;
        assert s[1..][i - 1..i - 1 + |sub|] == s[i..i + |sub|];
        assert OccursAt(s[1..], sub, i - 1);
      }
      if exists i :: OccursAt(s[1..], sub, i) {
        var i :| OccursAt(s[1..], sub, i);
        assert s[1..][i..i + |sub|] == s[i + 1..i + 1 + |sub|];
        assert OccursAt(s, sub, i + 1);
      }
    }
  }

  /** Python's `s.replace(pattern, replacement)`: scans left to right and replaces
      every non-overlapping occurrence of `pattern`; an empty pattern matches
      before every character and at the end. */
  function Replace(s: string, pattern: string, replacement: string): (r: string)
    ensures pattern != [] && |replacement| <= |pattern| ==> |r| <= |s|
    ensures pattern != [] && |replacement| >= |pattern| ==> |r| >= |s|
    decreases |s|
  {
    if pattern == [] then
      if s == [] then replacement else replacement + [s[0]] + Replace(s[1..], pattern, replacement)
    else if |pattern| <= |s| && s[..|pattern|] == pattern then
      replacement + Replace(s[|pattern|..], pattern, replacement)
    else if s == [] then []
    else [s[0]] + Replace(s[1..], pattern, replacement)
  }

  /** Replacing a name by itself changes nothing. */
  lemma {:induction false} ReplaceBySelf(s: string, pattern: string)
    ensures Replace(s, pattern, pattern) == s
    decreases |s|
  {
    if pattern == [] {
      if s != [] {
        ReplaceBySelf(s[1..], pattern);
        assert [s[0]] + s[1..] == s;
      }
    } else if |pattern| <= |s| && s[..|pattern|] == pattern {
      ReplaceBySelf(s[|pattern|..], pattern);
      assert s[..|pattern|] + s[|pattern|..] == s;
    } else if s != [] {
      ReplaceBySelf(s[1..], pattern);
      assert [s[0]] + s[1..] == s;
    }
  }

  /** A non-empty pattern that does not occur leaves the string unchanged. */
  lemma {:induction false} ReplaceAbsent(s: string, pattern: string, replacement: string)
    requires pattern != [] && !Contains(s, pattern)
    ensures Replace(s, pattern, replacement) == s
    decreases |s|
  {
    if s != [] {
      ReplaceAbsent(s[1..], pattern, replacement);
      assert [s[0]] + s[1..] == s;
    }
  }

  /** The scan finds the first occurrence of a non-empty pattern, puts the
      replacement in its place and carries on after it. */
  lemma ReplaceFirst(s: string, pattern: string, replacement: string, i: nat)
    requires pattern != [] && OccursAt(s, pattern, i)
    requires forall j :: 0 <= j < i ==> !OccursAt(s, pattern, j)
    ensures Replace(s, pattern, replacement) ==
      s[..i] + replacement + Replace(s[i + |pattern|..], pattern, replacement)
  {
    ReplaceFrom(s, pattern, replacement, 0, i);
    assert s[0..] == s;
  }

  /** ReplaceFirst for the scan resumed at index `k`: the characters before
      the first occurrence at or after `k` are copied. */
  lemma {:induction false} ReplaceFrom(s: string, pattern: string, replacement: string, k: nat, i: nat)
    requires pattern != [] && k <= i && OccursAt(s, pattern, i)
    requires forall j :: k <= j < i ==> !OccursAt(s, pattern, j)
    ensures Replace(s[k..], pattern, replacement) ==
      s[k..i] + replacement + Replace(s[i + |pattern|..], pattern, replacement)
    decreases i - k
  {
    var rest := Replace(s[i + |pattern|..], pattern, replacement);
    if k == i {
      assert s[k..][..|pattern|] == pattern;
      assert s[k..][|pattern|..] == s[i + |pattern|..];
      assert s[k..i] == [];
    } else {
      assert !(|pattern| <= |s[k..]| && s[k..][..|pattern|] == pattern) by {
        assert !OccursAt(s, pattern, k);
        if |pattern| <= |s[k..]| {
          assert s[k..][..|pattern|] == s[k..k + |pattern|];
        }
      }
      ReplaceSkip(s[k..], pattern, replacement);
      ReplaceFrom(s, pattern, replacement, k + 1, i);
      SuffixStep(s, k, i, replacement, rest);
    }
  }

  /** A string that does not start with a non-empty pattern keeps its first
      character. */
  lemma ReplaceSkip(s: string, pattern: string, replacement: string)
    requires pattern != [] && s != [] && !(|pattern| <= |s| && s[..|pattern|] == pattern)
    ensures Replace(s, pattern, replacement) == [s[0]] + Replace(s[1..], pattern, replacement)
  {
  }

  /** One character of the suffix from `k` moved in front of the copied part. */
  lemma SuffixStep(s: string, k: nat, i: nat, mid: string, rest: string)
    requires k < i <= |s|
    ensures s[k..][1..] == s[k + 1..] && s[k..][0] == s[k]
    ensures [s[k]] + (s[k + 1..i] + mid + rest) == s[k..i] + mid + rest
  {
    assert s[k..i] == [s[k]] + s[k + 1..i];
  }

  /** Every occurrence is replaced, including the one at the end. */
  lemma ReplaceExamples()
    ensures Replace("Gain_Gain", "Gain", "FIRMWARE") == "FIRMWARE_FIRMWARE"
    ensures Replace("aaa", "aa", "b") == "ba"
    ensures Replace("ab", "", "X") == "XaXbX"
  {
    assert Replace("", "Gain", "FIRMWARE") == "";
    assert "Gain"[..4] == "Gain" && "Gain"[4..] == "";
    assert Replace("Gain", "Gain", "FIRMWARE") == "FIRMWARE";
    assert "_Gain"[0] != "Gain"[0] && "_Gain"[1..] == "Gain";
    assert Replace("_Gain", "Gain", "FIRMWARE") == "_FIRMWARE";
    assert "Gain_Gain"[..4] == "Gain" && "Gain_Gain"[4..] == "_Gain";
    assert "aaa"[..2] == "aa";
    assert "aaa"[2..] == "a";
    assert "ab"[1..] == "b";
  }
}
