/**
 * The two pieces of Python's string semantics the extractor relies on:
 * the whitespace class (shared by `\s` in a str pattern and by str.isspace)
 * and str.strip() without arguments.
 */
module PyText {

  /** Python's str.isspace on one code point: the class `\s` matches and strip() removes. */
  predicate IsSpace(c: char) {
    var n := c as int;
    n == 0x20 || 0x09 <= n <= 0x0D || 0x1C <= n <= 0x1F || n == 0x85 || n == 0xA0
    || n == 0x1680 || 0x2000 <= n <= 0x200A || n == 0x2028 || n == 0x2029
    || n == 0x202F || n == 0x205F || n == 0x3000
  }

  predicate AllSpace(s: string) {
    forall k :: 0 <= k < |s| ==> IsSpace(s[k])
  }

  /** Neither the first nor the last character is whitespace. */
  predicate NoEdgeSpace(s: string) {
    s == [] || (!IsSpace(s[0]) && !IsSpace(s[|s| - 1]))
  }

  /** Scanning forward from i: the first position that is not whitespace, or |s|. */
  function SkipSpace(s: string, i: nat): (k: nat)
    requires i <= |s|
    ensures i <= k <= |s|
    ensures forall j :: i <= j < k ==> IsSpace(s[j])
    ensures k == |s| || !IsSpace(s[k])
    decreases |s| - i
  {
    if i < |s| && IsSpace(s[i]) then SkipSpace(s, i + 1) else i
  }

  /** Scanning back from j, never below lo: the end of the last non-whitespace character, or lo. */
  function SkipSpaceBack(s: string, lo: nat, j: nat): (k: nat)
    requires lo <= j <= |s|
    ensures lo <= k <= j
    ensures forall m :: k <= m < j ==> IsSpace(s[m])
    ensures k == lo || !IsSpace(s[k - 1])
  {
    if lo < j && IsSpace(s[j - 1]) then SkipSpaceBack(s, lo, j - 1) else j
  }

  /** A scan forward stops exactly at the first non-whitespace position. */
  lemma {:induction false} SkipSpaceAt(s: string, i: nat, k: nat)
    requires i <= k <= |s|
    requires forall j :: i <= j < k ==> IsSpace(s[j])
    requires k == |s| || !IsSpace(s[k])
    ensures SkipSpace(s, i) == k
    decreases k - i
  {
    if i < k {
      SkipSpaceAt(s, i + 1, k);
    }
  }

  /** A scan back stops exactly past the last non-whitespace character. */
  lemma {:induction false} SkipSpaceBackAt(s: string, lo: nat, j: nat, k: nat)
    requires lo <= k <= j <= |s|
    requires forall m :: k <= m < j ==> IsSpace(s[m])
    requires k == lo || !IsSpace(s[k - 1])
    ensures SkipSpaceBack(s, lo, j) == k
    decreases j - k
  {
    if k < j {
      SkipSpaceBackAt(s, lo, j - 1, k);
    }
  }

  /**
   * str.strip(): skip the whitespace at the front, then the whitespace at the
   * back down to that point, and keep what lies between; no whitespace is
   * left at either end.
   */
  function Strip(s: string): (r: string)
    ensures NoEdgeSpace(r)
  {
    var a := SkipSpace(s, 0);
    var b := SkipSpaceBack(s, a, |s|);
    assert a < b ==> s[a..b][0] == s[a] && s[a..b][b - a - 1] == s[b - 1];
    s[a..b]
  }

  /** strip() keeps a slice of its input and cuts only whitespace on either side of it. */
  lemma StripSlice(s: string)
    ensures exists a :: 0 <= a <= |s| - |Strip(s)| && s[a..a + |Strip(s)|] == Strip(s)
                         && AllSpace(s[..a]) && AllSpace(s[a + |Strip(s)|..])
  {
    var a := SkipSpace(s, 0);
    var b := SkipSpaceBack(s, a, |s|);
    assert Strip(s) == s[a..b];
    assert AllSpace(s[..a]) by {
      forall i | 0 <= i < a ensures IsSpace(s[..a][i]) {
        assert s[..a][i] == s[i];
      }
    }
    assert AllSpace(s[b..]) by {
      forall i | 0 <= i < |s| - b ensures IsSpace(s[b..][i]) {
        assert s[b..][i] == s[b + i];
      }
    }
  }

  /**
   * strip() is determined by the decomposition StripSlice states: whatever
   * surrounds a core without edge whitespace by pure whitespace is removed,
   * and nothing else.
   */
  lemma StripUnique(x: string, r: string, y: string)
    requires AllSpace(x) && AllSpace(y) && NoEdgeSpace(r)
    ensures Strip(x + r + y) == r
  {
    var s := x + r + y;
    forall j | 0 <= j < |x| ensures IsSpace(s[j]) {
      assert s[j] == x[j];
    }
    forall m | |x| + |r| <= m < |s| ensures IsSpace(s[m]) {
      assert s[m] == y[m - |x| - |r|];
    }
    if r == [] {
      SkipSpaceAt(s, 0, |s|);
      SkipSpaceBackAt(s, |s|, |s|, |s|);
    } else {
      assert s[|x|] == r[0] && s[|x| + |r| - 1] == r[|r| - 1];
      SkipSpaceAt(s, 0, |x|);
      SkipSpaceBackAt(s, |x|, |s|, |x| + |r|);
      assert s[|x|..|x| + |r|] == r;
    }
  }

  /** strip() only removes characters: whatever it keeps was in its input. */
  lemma StripKeeps(s: string, c: char)
    requires c in Strip(s)
    ensures c in s
  {
    var a := SkipSpace(s, 0);
    var b := SkipSpaceBack(s, a, |s|);
    var k :| 0 <= k < b - a && s[a..b][k] == c;
    assert s[a + k] == c;
  }

  /** Stripping twice is stripping once. */
  lemma StripIdempotent(s: string)
    ensures Strip(Strip(s)) == Strip(s)
  {
    var r := Strip(s);
    assert [] + r + [] == r;
    StripUnique([], r, []);
  }
}
