/**
 * The slice of ECMAScript string semantics that the contact form relies on:
 * line terminators (which the regex `.` refuses), white space (which
 * `String.prototype.trim` strips) and `.length`, which counts UTF-16 code
 * units rather than code points.
 */
module JsText {

  /** LineTerminator code points of ECMA-262 (LF, CR, LS, PS). */
  predicate IsLineTerminator(c: char) {
    c == '\n' || c == '\r' || c == '\U{2028}' || c == '\U{2029}'
  }

  /** WhiteSpace code points of ECMA-262: TAB, VT, FF, ZWNBSP and the space separators (Zs). */
  predicate IsWhiteSpace(c: char) {
    || c == '\t' || c == '\U{B}' || c == '\U{C}' || c == '\U{FEFF}'
    || c == ' ' || c == '\U{A0}' || c == '\U{1680}' || ('\U{2000}' <= c <= '\U{200A}')
    || c == '\U{202F}' || c == '\U{205F}' || c == '\U{3000}'
  }

  /** What `trim` removes from either end. */
  predicate IsStrippable(c: char) {
    IsWhiteSpace(c) || IsLineTerminator(c)
  }

  /** `trimStart`: drops the strippable prefix and keeps the rest verbatim. */
  function TrimStart(s: string): (r: string)
    ensures |r| <= |s| && r == s[|s| - |r|..]
    ensures forall k :: 0 <= k < |s| - |r| ==> IsStrippable(s[k])
    ensures r != [] ==> !IsStrippable(r[0])
  {
    if s != [] && IsStrippable(s[0]) then TrimStart(s[1..]) else s
  }

  /** `trimEnd`: drops the strippable suffix and keeps the rest verbatim. */
  function TrimEnd(s: string): (r: string)
    ensures |r| <= |s| && r == s[..|r|]
    ensures forall k :: |r| <= k < |s| ==> IsStrippable(s[k])
    ensures r != [] ==> !IsStrippable(r[|r| - 1])
  {
    if s != [] && IsStrippable(s[|s| - 1]) then TrimEnd(s[..|s| - 1]) else s
  }

  /** Where `trim` starts cutting out its result: the length of the strippable prefix. */
  function TrimOffset(s: string): (i: nat)
    ensures i <= |s|
  {
    |s| - |TrimStart(s)|
  }

  /**
   * `String.prototype.trim`. The result is the slice of `s` starting at
   * `TrimOffset(s)`; only strippable characters lie outside it, and it
   * neither starts nor ends with one.
   */
  function Trim(s: string): (r: string)
    ensures TrimOffset(s) + |r| <= |s| && r == s[TrimOffset(s)..TrimOffset(s) + |r|]
    ensures forall k :: 0 <= k < TrimOffset(s) ==> IsStrippable(s[k])
    ensures forall k :: TrimOffset(s) + |r| <= k < |s| ==> IsStrippable(s[k])
    ensures r != [] ==> !IsStrippable(r[0]) && !IsStrippable(r[|r| - 1])
  {
    var t := TrimStart(s);
    var r := TrimEnd(t);
    TrimEndOfSuffix(s, t, r);
    r
  }

  /** Trimming the end of a suffix cuts a slice out of the whole text. */
  lemma TrimEndOfSuffix(s: string, t: string, r: string)
    requires |t| <= |s| && t == s[|s| - |t|..]
    requires |r| <= |t| && r == t[..|r|]
    requires forall k :: |r| <= k < |t| ==> IsStrippable(t[k])
    ensures r == s[|s| - |t|..|s| - |t| + |r|]
    ensures forall k :: |s| - |t| + |r| <= k < |s| ==> IsStrippable(s[k])
  {
    var i := |s| - |t|;
    forall k | i + |r| <= k < |s|
      ensures IsStrippable(s[k])
    {
      assert s[k] == t[k - i];
    }
  }

  /** Text that neither starts nor ends with a strippable character is left as it is. */
  lemma TrimKeepsSolidText(s: string)
    requires s != [] && !IsStrippable(s[0]) && !IsStrippable(s[|s| - 1])
    ensures Trim(s) == s
  {
    assert TrimStart(s) == s;
  }

  /** Such text without astral characters keeps its character count as its trimmed `.length`. */
  lemma TrimmedLengthOfSolidText(s: string)
    requires s != [] && !IsStrippable(s[0]) && !IsStrippable(s[|s| - 1])
    requires forall k :: 0 <= k < |s| ==> s[k] as int < 0x1_0000
    ensures JsLength(Trim(s)) == |s|
  {
    TrimKeepsSolidText(s);
    JsLengthBmp(s);
  }

  /** Number of UTF-16 code units that encode `c`. */
  function Utf16Units(c: char): nat {
    if c as int < 0x1_0000 then 1 else 2
  }

  /** JavaScript's `.length`: the UTF-16 code-unit count. */
  function JsLength(s: string): (n: nat)
    ensures |s| <= n <= 2 * |s|
  {
    if s == [] then 0 else Utf16Units(s[0]) + JsLength(s[1..])
  }

  lemma {:induction false} JsLengthConcat(a: string, b: string)
    ensures JsLength(a + b) == JsLength(a) + JsLength(b)
  {
    if a == [] {
      assert a + b == b;
    } else {
      assert (a + b)[0] == a[0] && (a + b)[1..] == a[1..] + b;
      JsLengthConcat(a[1..], b);
    }
  }

  /** A slice never has more code units than a slice that contains it. */
  lemma JsLengthSlice(s: string, c: nat, a: nat, b: nat, d: nat)
    requires c <= a <= b <= d <= |s|
    ensures JsLength(s[a..b]) <= JsLength(s[c..d])
  {
    assert s[c..d] == s[c..a] + s[a..b] + s[b..d];
    JsLengthConcat(s[c..a] + s[a..b], s[b..d]);
    JsLengthConcat(s[c..a], s[a..b]);
  }

  /** For text without astral characters `.length` is the character count. */
  lemma {:induction false} JsLengthBmp(s: string)
    requires forall k :: 0 <= k < |s| ==> s[k] as int < 0x1_0000
    ensures JsLength(s) == |s|
  {
    if s != [] {
      JsLengthBmp(s[1..]);
    }
  }

  /** `s[i..j+1]` runs from a non-strippable character to a non-strippable character and is longer than `k` code units. */
  ghost predicate SolidSpanLonger(s: string, i: int, j: int, k: nat) {
    0 <= i <= j < |s| && !IsStrippable(s[i]) && !IsStrippable(s[j]) && JsLength(s[i..j + 1]) > k
  }

  /**
   * `trim(s).length > k` holds exactly when some stretch of `s` that starts
   * and ends on a non-strippable character is longer than `k` code units.
   */
  lemma TrimmedLongerThan(s: string, k: nat)
    ensures JsLength(Trim(s)) > k <==> exists i, j :: SolidSpanLonger(s, i, j, k)
  {
    if JsLength(Trim(s)) > k {
      TrimmedIsSolidSpan(s, k);
    }
    if exists a, b :: SolidSpanLonger(s, a, b, k) {
      var a, b :| SolidSpanLonger(s, a, b, k);
      SolidSpanWithinTrim(s, a, b, k);
    }
  }

  lemma TrimmedIsSolidSpan(s: string, k: nat)
    requires JsLength(Trim(s)) > k
    ensures SolidSpanLonger(s, TrimOffset(s), TrimOffset(s) + |Trim(s)| - 1, k)
  {
    var r, i := Trim(s), TrimOffset(s);
    assert s[i..i + |r| - 1 + 1] == r;
  }

  lemma SolidSpanWithinTrim(s: string, a: int, b: int, k: nat)
    requires SolidSpanLonger(s, a, b, k)
    ensures JsLength(Trim(s)) > k
  {
    var r, i := Trim(s), TrimOffset(s);
    assert i <= a;
    assert b < i + |r|;
    JsLengthSlice(s, i, a, b + 1, i + |r|);
  }
}
