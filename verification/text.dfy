/** Plain string helpers used by the search filter and the e-mail derivation. */
module Text {

  /** Unicode lower-casing (Swift's `lowercased()`) is supplied by the caller;
      the model assumes nothing about it beyond being a function. */
  type Lowercase = string -> string

  /** `sub` occurs in `s` starting at index `i`. */
  predicate OccursAt(s: string, sub: string, i: int) {
    0 <= i && i + |sub| <= |s| && s[i..i + |sub|] == sub
  }

  /** `s` contains `sub` as a contiguous substring (the empty string is
      contained in every string). */
  predicate Contains(s: string, sub: string) {
    exists i :: 0 <= i <= |s| - |sub| && OccursAt(s, sub, i)
  }

  /** `s` ends with `suffix`. */
  predicate EndsWith(s: string, suffix: string) {
    |suffix| <= |s| && s[|s| - |suffix|..] == suffix
  }

  /** Character-by-character comparison of `sub` against `s` at `i`. */
  method MatchesAt(s: string, sub: string, i: nat) returns (ok: bool)
    requires i + |sub| <= |s|
    ensures ok <==> OccursAt(s, sub, i)
  {
    var k := 0;
    while k < |sub|
      invariant 0 <= k <= |sub|
      invariant forall j :: 0 <= j < k ==> s[i + j] == sub[j]
    {
      if s[i + k] != sub[k] {
        assert s[i..i + |sub|][k] != sub[k];
        return false;
      }
      k := k + 1;
    }
    assert s[i..i + |sub|] == sub;
    return true;
  }

  /** Naive left-to-right substring search: what `String.contains` decides,
      except that here the empty needle is always found, which Swift's
      library overloads need not agree on. */
  method ContainsSubstring(s: string, sub: string) returns (found: bool)
    ensures found <==> Contains(s, sub)
  {
    if |sub| > |s| {
      assert forall i :: !OccursAt(s, sub, i);
      return false;
    }
    var i := 0;
    while i <= |s| - |sub|
      invariant 0 <= i <= |s| - |sub| + 1
      invariant forall j :: 0 <= j < i ==> !OccursAt(s, sub, j)
    {
      var ok := MatchesAt(s, sub, i);
      if ok {
        return true;
      }
      i := i + 1;
    }
    assert forall j :: !OccursAt(s, sub, j);
    return false;
  }

  /** Every string contains the empty string and itself. */
  lemma ContainsTrivial(s: string)
    ensures Contains(s, "")
    ensures Contains(s, s)
  {
    assert OccursAt(s, "", 0);
    assert OccursAt(s, s, 0);
  }

  /** Containment is transitive: a substring of a substring is a substring. */
  lemma ContainsTransitive(a: string, b: string, c: string)
    requires Contains(a, b) && Contains(b, c)
    ensures Contains(a, c)
  {
    var i :| 0 <= i <= |a| - |b| && OccursAt(a, b, i);
    var j :| 0 <= j <= |b| - |c| && OccursAt(b, c, j);
    forall k | 0 <= k < |c|
      ensures a[i + j..i + j + |c|][k] == c[k]
    {
      assert c[k] == b[j..j + |c|][k] == b[j + k];
      assert b[j + k] == a[i..i + |b|][j + k];
    }
    assert OccursAt(a, c, i + j);
  }
}
