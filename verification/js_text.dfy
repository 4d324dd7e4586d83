/**
 JavaScript string values as the screens see them: their length in UTF-16
 code units, the white-space class shared by the regular-expression escape
 `\s` and by `String.prototype.trim`, and `trim` itself.
 */
module JsText {

  /** A JavaScript string value. JavaScript strings are sequences of UTF-16
      code units; a well-formed one (every string a text field produces) is
      the UTF-16 encoding of a sequence of code points, which is what this
      type holds. Equality of code points is equality of code units, since
      the encoding is injective; lengths are taken by `Utf16Length`. */
  type JsString = string

  /** The number of UTF-16 code units that encode c: two for a code point
      outside the Basic Multilingual Plane (a surrogate pair), one otherwise. */
  function CodeUnits(c: char): nat {
    if c as int >= 0x1_0000 then 2 else 1
  }

  /** `s.length`: the number of UTF-16 code units of s. */
  function Utf16Length(s: JsString): (n: nat)
    ensures |s| <= n <= 2 * |s|
    ensures (forall k | 0 <= k < |s| :: s[k] as int < 0x1_0000) ==> n == |s|
  {
    if s == [] then 0 else CodeUnits(s[0]) + Utf16Length(s[1..])
  }

  lemma {:induction false} Utf16LengthAppend(s: JsString, t: JsString)
    ensures Utf16Length(s + t) == Utf16Length(s) + Utf16Length(t)
  {
    if s != [] {
      assert (s + t)[0] == s[0] && (s + t)[1..] == s[1..] + t;
      assert Utf16Length(s + t) == CodeUnits(s[0]) + Utf16Length(s[1..] + t);
      Utf16LengthAppend(s[1..], t);
    } else {
      assert s + t == t;
    }
  }

  /** The code points of the WhiteSpace production (section 12.2 of ECMA-262,
      where USP is every code point of Unicode general category Zs) and of
      the LineTerminator production (section 12.3). This is exactly the set
      matched by `\s` in a regular expression and removed by `trim()`. All
      of them lie in the Basic Multilingual Plane, so each is one code unit,
      and no surrogate code unit is white space. */
  function IsWhiteSpace(c: char): (ws: bool)
    ensures ws ==> CodeUnits(c) == 1
  {
    // WhiteSpace: TAB, VT, FF, ZWNBSP
    || c == '\U{0009}' || c == '\U{000B}' || c == '\U{000C}' || c == '\U{FEFF}'
    // WhiteSpace: USP (general category Zs)
    || c == '\U{0020}' || c == '\U{00A0}' || c == '\U{1680}' || ('\U{2000}' <= c <= '\U{200A}')
    || c == '\U{202F}' || c == '\U{205F}' || c == '\U{3000}'
    // LineTerminator: LF, CR, LS, PS
    || c == '\U{000A}' || c == '\U{000D}' || c == '\U{2028}' || c == '\U{2029}'
  }

  /** True iff every code point of s[lo..hi] is outside the white-space class,
      that is, s[lo..hi] is matched by `\S*`. */
  predicate NoWhiteSpace(s: JsString, lo: int, hi: int)
    requires 0 <= lo <= hi <= |s|
  {
    forall k | lo <= k < hi :: !IsWhiteSpace(s[k])
  }

  /** The index of the first code point at or after i that is not white
      space, or |s| when there is none. */
  function SkipLeading(s: JsString, i: nat): (r: nat)
    requires i <= |s|
    ensures i <= r <= |s|
    ensures forall k | i <= k < r :: IsWhiteSpace(s[k])
    ensures r < |s| ==> !IsWhiteSpace(s[r])
    decreases |s| - i
  {
    if i < |s| && IsWhiteSpace(s[i]) then SkipLeading(s, i + 1) else i
  }

  /** The end of s[lo..j] once its trailing white space is dropped. */
  function SkipTrailing(s: JsString, lo: nat, j: nat): (r: nat)
    requires lo <= j <= |s|
    ensures lo <= r <= j
    ensures forall k | r <= k < j :: IsWhiteSpace(s[k])
    ensures r > lo ==> !IsWhiteSpace(s[r - 1])
  {
    if j > lo && IsWhiteSpace(s[j - 1]) then SkipTrailing(s, lo, j - 1) else j
  }

  /** r is s[i..j] and everything of s outside that slice is white space. */
  predicate WhiteSpaceAround(s: JsString, r: JsString, i: int, j: int) {
    && 0 <= i <= j <= |s|
    && r == s[i..j]
    && (forall k | 0 <= k < i :: IsWhiteSpace(s[k]))
    && (forall k | j <= k < |s| :: IsWhiteSpace(s[k]))
  }

  /** `s.trim()`: s with the white space at both ends removed, so the result
      neither starts nor ends with white space. */
  function Trim(s: JsString): (r: JsString)
    ensures exists i, j :: WhiteSpaceAround(s, r, i, j)
    ensures r == [] || (!IsWhiteSpace(r[0]) && !IsWhiteSpace(r[|r| - 1]))
  {
    var i := SkipLeading(s, 0);
    var j := SkipTrailing(s, i, |s|);
    assert WhiteSpaceAround(s, s[i..j], i, j);
    s[i..j]
  }

  /** `s.trim() === ''` holds exactly when s consists of white space only
      (including when s is empty). */
  lemma TrimEmptyIff(s: JsString)
    ensures Trim(s) == [] <==> forall k | 0 <= k < |s| :: IsWhiteSpace(s[k])
  {
    var r := Trim(s);
    var i, j :| WhiteSpaceAround(s, r, i, j);
    if r == [] {
      forall k | 0 <= k < |s|
        ensures IsWhiteSpace(s[k])
      {
        if k >= i {
          assert i == j;
        }
      }
    } else {
      assert r[0] == s[i];
    }
  }

  /** Trimming keeps every non-white-space code unit of the string, so a name
      with at least one visible character survives `trim()`. */
  lemma TrimKeepsNonWhiteSpace(s: JsString, k: int)
    requires 0 <= k < |s| && !IsWhiteSpace(s[k])
    ensures Trim(s) != []
  {
    TrimEmptyIff(s);
  }
}
