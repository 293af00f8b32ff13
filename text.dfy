/**
 The two string primitives the widget leans on: `String.prototype.trim`, used to
 validate the typed city name, and `String.prototype.toLowerCase`, used to match
 a condition description against the keyword table.
 */
module Text {

  /** The characters `trim` removes: the WhiteSpace and LineTerminator code
      points of ECMA-262 (sections 12.2 and 12.3), including the Unicode
      space separators (category Zs). */
  predicate IsTrimmable(c: char) {
    || c == '\t' || c == '\n' || c == '\U{000B}' || c == '\U{000C}' || c == '\r'
    || c == ' ' || c == '\U{00A0}' || c == '\U{1680}'
    || ('\U{2000}' <= c <= '\U{200A}')
    || c == '\U{2028}' || c == '\U{2029}' || c == '\U{202F}' || c == '\U{205F}'
    || c == '\U{3000}' || c == '\U{FEFF}'
  }

  /** A string that holds nothing but trimmable characters (the empty string included). */
  predicate IsBlank(s: string) {
    forall i :: 0 <= i < |s| ==> IsTrimmable(s[i])
  }

  /** Where the text of `s` starts, looking from index `i`: the first index
      at or after `i` whose character is not trimmable, or `|s|` when there
      is none. */
  function TextStart(s: string, i: nat): (k: nat)
    requires i <= |s|
    ensures i <= k <= |s|
    ensures forall j :: i <= j < k ==> IsTrimmable(s[j])
    ensures k < |s| ==> !IsTrimmable(s[k])
    decreases |s| - i
  {
    if i < |s| && IsTrimmable(s[i]) then TextStart(s, i + 1) else i
  }

  /** Where the text of `s[lo..hi]` ends: the index just after its last
      character that is not trimmable, or `lo` when there is none. */
  function TextEnd(s: string, lo: nat, hi: nat): (k: nat)
    requires lo <= hi <= |s|
    ensures lo <= k <= hi
    ensures forall j :: k <= j < hi ==> IsTrimmable(s[j])
    ensures lo < k ==> !IsTrimmable(s[k - 1])
    decreases hi - lo
  {
    if lo < hi && IsTrimmable(s[hi - 1]) then TextEnd(s, lo, hi - 1) else hi
  }

  /** `r` occurs in `s` starting at index `k`. */
  predicate OccursAt(r: string, s: string, k: int) {
    0 <= k <= |s| - |r| && r == s[k..k + |r|]
  }

  /** Whatever stands between a prefix `a` and a rest `z` occurs right after `a`,
      together with the start `y` of the rest. */
  lemma OccursAfterPrefix(a: string, x: string, y: string, z: string)
    ensures OccursAt(x + y, a + x + (y + z), |a|)
  {
    var m := a + x + (y + z);
    assert m[|a|..|a| + |x + y|] == x + y;
  }

  /** `s.trim()`: the infix of `s` left after removing trimmable characters at
      both ends. What is removed before and after it is blank, and it neither
      starts nor ends with a trimmable character, which fixes it uniquely. It
      is empty exactly when `s` is blank. */
  function Trim(s: string): (r: string)
    ensures exists k :: OccursAt(r, s, k) && IsBlank(s[..k]) && IsBlank(s[k + |r|..])
    ensures r != [] ==> !IsTrimmable(r[0]) && !IsTrimmable(r[|r| - 1])
    ensures r == [] <==> IsBlank(s)
  {
    var a := TextStart(s, 0);
    var b := TextEnd(s, a, |s|);
    assert OccursAt(s[a..b], s, a);
    assert IsBlank(s[..a]);
    assert IsBlank(s[b..]);
    s[a..b]
  }

  /** The conditions in `Trim`'s contract fix its result: an infix of `s` with
      blank text around it that neither starts nor ends with a trimmable
      character is the trimmed string. */
  lemma TrimIsUnique(s: string, r: string, k: nat)
    requires OccursAt(r, s, k) && IsBlank(s[..k]) && IsBlank(s[k + |r|..])
    requires r != [] ==> !IsTrimmable(r[0]) && !IsTrimmable(r[|r| - 1])
    ensures r == Trim(s)
  {
    if r == [] {
      forall i | 0 <= i < |s| ensures IsTrimmable(s[i]) {
        if i < k {
          assert s[i] == s[..k][i];
        } else {
          assert s[i] == s[k..][i - k];
        }
      }
    } else {
      var a := TextStart(s, 0);
      var b := TextEnd(s, a, |s|);
      assert s[k] == r[0];
      assert a == k;
      var e := k + |r|;
      assert s[e - 1] == r[|r| - 1];
      assert b == e;
    }
  }

  /** `toLowerCase` on one character, restricted to ASCII: `A`..`Z` become
      `a`..`z`, every other character is kept. */
  function LowerChar(c: char): (d: char)
    ensures !('A' <= d <= 'Z')
    ensures 'A' <= c <= 'Z' ==> d as int == c as int + 32
    ensures !('A' <= c <= 'Z') ==> d == c
  {
    if 'A' <= c <= 'Z' then (c as int + ('a' as int - 'A' as int)) as char else c
  }

  /** `s.toLowerCase()` restricted to ASCII letters: same length, each
      character lowered on its own. */
  function Lower(s: string): (r: string)
    ensures |r| == |s|
    ensures forall i :: 0 <= i < |s| ==> r[i] == LowerChar(s[i])
  {
    if s == [] then [] else [LowerChar(s[0])] + Lower(s[1..])
  }

  /** No upper-case ASCII letter at index `i` or after it. Written as a
      recursion on the index so that it can be decided for a literal. */
  predicate NoUpperFrom(s: string, i: nat)
    decreases |s| - i
  {
    i >= |s| || (!('A' <= s[i] <= 'Z') && NoUpperFrom(s, i + 1))
  }

  lemma {:induction false} NoUpperFromAll(s: string, i: nat)
    requires NoUpperFrom(s, i)
    ensures forall j :: i <= j < |s| ==> !('A' <= s[j] <= 'Z')
    decreases |s| - i
  {
    if i < |s| {
      NoUpperFromAll(s, i + 1);
    }
  }

  /** A string with no upper-case ASCII letter is its own lower-case form. */
  lemma LowerFixesLowerCase(s: string)
    requires NoUpperFrom(s, 0)
    ensures Lower(s) == s
  {
    NoUpperFromAll(s, 0);
  }

  /** Two characters are the same letter up to ASCII case: equal, or one is an
      upper-case letter and the other its lower-case partner. */
  predicate SameIgnoringCase(a: char, b: char) {
    || a == b
    || ('A' <= a <= 'Z' && b as int == a as int + 32)
    || ('A' <= b <= 'Z' && a as int == b as int + 32)
  }

  /** Two strings are equal up to ASCII case, character by character. */
  predicate EqualsIgnoringCase(a: string, b: string) {
    |a| == |b| && forall i :: 0 <= i < |a| ==> SameIgnoringCase(a[i], b[i])
  }

  lemma LowerCharAgrees(a: char, b: char)
    ensures LowerChar(a) == LowerChar(b) <==> SameIgnoringCase(a, b)
  {
  }

  /** Lowering identifies exactly the strings that are equal up to ASCII case. */
  lemma LowerAgreesIffEqualsIgnoringCase(a: string, b: string)
    ensures Lower(a) == Lower(b) <==> EqualsIgnoringCase(a, b)
  {
    if Lower(a) == Lower(b) {
      forall i | 0 <= i < |a| ensures SameIgnoringCase(a[i], b[i]) {
        assert Lower(a)[i] == Lower(b)[i];
        LowerCharAgrees(a[i], b[i]);
      }
    }
    if EqualsIgnoringCase(a, b) {
      forall i | 0 <= i < |a| ensures Lower(a)[i] == Lower(b)[i] {
        LowerCharAgrees(a[i], b[i]);
      }
    }
  }
}
