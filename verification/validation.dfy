/**
 * The request constraints the framework enforces before a handler runs:
 * `compid` with `ge=1`, and `filetype` against the pattern `^(?!\s*$).+`,
 * searched with `re.match`. A request that breaks either is answered 422
 * and the handler body never runs.
 */
module Validation {

  predicate ValidCompid(compid: int) { compid >= 1 }

  /** `\s` of Python's `re` on `str`: the characters for which `str.isspace()` holds. */
  predicate IsSpace(c: char) {
    var n := c as int;
    (0x09 <= n <= 0x0D) || (0x1C <= n <= 0x20) || n == 0x85 || n == 0xA0 || n == 0x1680
    || (0x2000 <= n <= 0x200A) || n == 0x2028 || n == 0x2029 || n == 0x202F || n == 0x205F || n == 0x3000
  }

  predicate AllSpace(s: string) { forall i :: 0 <= i < |s| ==> IsSpace(s[i]) }

  /** `$` without MULTILINE: the end of the string, or just before a newline that ends it. */
  predicate AtEnd(s: string, k: nat) {
    k == |s| || (k + 1 == |s| && s[k] == '\n')
  }

  /** The negative lookahead's body `\s*$` matches at the start of `s`. */
  predicate BlankToEnd(s: string) {
    exists k: nat :: k <= |s| && AllSpace(s[..k]) && AtEnd(s, k)
  }

  /** `re.match(r"^(?!\s*$).+", s)` succeeds: the lookahead fails and `.` (anything but a newline) matches at 0. */
  predicate MatchesFiletypePattern(s: string) {
    !BlankToEnd(s) && |s| >= 1 && s[0] != '\n'
  }

  /** The pattern in plain words. */
  predicate ValidFiletype(filetype: string) {
    |filetype| > 0 && filetype[0] != '\n' && !AllSpace(filetype)
  }

  /**
   * The pattern accepts exactly the file types that are not empty, not made of
   * whitespace only, and do not start with a newline (`.` does not match one).
   */
  lemma FiletypePatternMeaning(s: string)
    ensures MatchesFiletypePattern(s) <==> ValidFiletype(s)
  {
    if AllSpace(s) {
      assert s[..|s|] == s;
      assert AtEnd(s, |s|);
    }
    if BlankToEnd(s) {
      var k: nat :| k <= |s| && AllSpace(s[..k]) && AtEnd(s, k);
      forall i | 0 <= i < |s| ensures IsSpace(s[i]) {
        if i < k { assert s[..k][i] == s[i]; }
      }
    }
  }

  predicate ValidRequest(compid: int, filetype: string) {
    ValidCompid(compid) && ValidFiletype(filetype)
  }
}
