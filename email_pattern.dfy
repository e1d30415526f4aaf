/**
 * The sender-address check `/.+@.+\..+/.test(fromEmail)`: an unanchored
 * regular expression without flags, so `.` is any character except a line
 * terminator and a match may start and end anywhere in the text.
 */
module EmailPattern {
  import opened JsText

  ghost predicate LineFree(t: string) {
    forall k :: 0 <= k < |t| ==> !IsLineTerminator(t[k])
  }

  /** `t` as a whole is X@Y.Z with X, Y, Z non-empty and no line terminator anywhere. */
  ghost predicate WholeMatch(t: string) {
    && LineFree(t)
    && exists p, q :: 0 < p && p + 1 < q && q + 1 < |t| && t[p] == '@' && t[q] == '.'
  }

  /** `RegExp.prototype.test` for an unanchored pattern: some slice matches. */
  ghost predicate RegexTest(s: string) {
    exists i, j :: 0 <= i <= j <= |s| && WholeMatch(s[i..j])
  }

  /**
   * The shape a successful test leaves in the text: an '@' at `a` with a
   * character before it, a '.' at `d` at least two past it, a character after
   * the '.', and no line terminator from `a - 1` through `d + 1`.
   */
  ghost predicate Witness(s: string, a: int, d: int) {
    && 1 <= a && a + 2 <= d && d + 2 <= |s|
    && s[a] == '@' && s[d] == '.'
    && LineFree(s[a - 1..d + 2])
  }

  ghost predicate HasWitness(s: string) {
    exists a, d :: Witness(s, a, d)
  }

  /** The regex test and the index characterisation agree on every input. */
  lemma RegexTestIffWitness(s: string)
    ensures RegexTest(s) <==> HasWitness(s)
  {
    if RegexTest(s) {
      var i, j :| 0 <= i <= j <= |s| && WholeMatch(s[i..j]);
      var t := s[i..j];
      var p, q :| 0 < p && p + 1 < q && q + 1 < |t| && t[p] == '@' && t[q] == '.';
      var u := s[i + p - 1..i + q + 2];
      forall k | 0 <= k < |u|
        ensures !IsLineTerminator(u[k])
      {
        assert u[k] == t[p - 1 + k];
      }
      assert Witness(s, i + p, i + q);
    }
    if HasWitness(s) {
      var a, d :| Witness(s, a, d);
      var t := s[a - 1..d + 2];
      assert t[1] == '@' && t[d - a + 1] == '.';
      assert WholeMatch(t);
    }
  }

  /**
   * Looks for a '.' for the '@' at `a`, scanning from `k`; everything from
   * `a - 1` up to `k` is already known to be free of line terminators.
   */
  function DotAfter(s: string, a: nat, k: nat): (r: bool)
    requires 1 <= a < k <= |s| && s[a] == '@'
    requires LineFree(s[a - 1..k])
    ensures r <==> exists d :: k <= d && Witness(s, a, d)
    decreases |s| - k
  {
    if k + 1 >= |s| then
      false
    else if IsLineTerminator(s[k]) then
      assert forall d :: k <= d && Witness(s, a, d) ==> s[a - 1..d + 2][k - a + 1] == s[k];
      false
    else if a + 2 <= k && s[k] == '.' && !IsLineTerminator(s[k + 1]) then
      assert s[a - 1..k + 2] == s[a - 1..k] + [s[k], s[k + 1]];
      assert Witness(s, a, k);
      true
    else
      assert s[a - 1..k + 1] == s[a - 1..k] + [s[k]];
      assert !Witness(s, a, k) by {
        if k + 2 <= |s| && a + 2 <= k && s[k] == '.' {
          assert s[a - 1..k + 2][k + 1 - a + 1] == s[k + 1];
        }
      }
      DotAfter(s, a, k + 1)
  }

  /** Looks for a witness whose '@' sits at `a` or later. */
  function AtFrom(s: string, a: nat): (r: bool)
    requires 1 <= a <= |s|
    ensures r <==> exists a', d :: a <= a' && Witness(s, a', d)
    decreases |s| - a
  {
    if a == |s| then
      false
    else if s[a] == '@' && !IsLineTerminator(s[a - 1]) && DotAfterAt(s, a) then
      true
    else
      assert forall d :: Witness(s, a, d) ==> s[a - 1..d + 2][0] == s[a - 1];
      AtFrom(s, a + 1)
  }

  /** Starts `DotAfter` just past the '@', after the two characters around it. */
  function DotAfterAt(s: string, a: nat): (r: bool)
    requires 1 <= a < |s| && s[a] == '@' && !IsLineTerminator(s[a - 1])
    ensures r <==> exists d :: Witness(s, a, d)
  {
    assert s[a - 1..a + 1] == [s[a - 1], s[a]];
    DotAfter(s, a, a + 1)
  }

  /** The executable test; it agrees with the regular expression on every input. */
  function MatchesEmailPattern(s: string): (r: bool)
    ensures r <==> RegexTest(s)
  {
    RegexTestIffWitness(s);
    |s| >= 1 && AtFrom(s, 1)
  }
}
