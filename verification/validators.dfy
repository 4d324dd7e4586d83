/**
 The field predicates the Login and Register screens share: `validateEmail`,
 the unanchored regular-expression test `/\S+@\S+\.\S+/`, and
 `validatePassword`, a minimum length in UTF-16 code units; together with the
 error messages both screens attach to them.
 */
module Validators {
  import opened JsText

  const AtSign := '@'
  const FullStop := '.'

  const MinPasswordLength := 6

  const EmailMessage: JsString := "Please enter a valid email address."
  const PasswordMessage: JsString := "Password must be at least 6 characters long."

  /** s[start..end] is matched by `\S+@\S+\.\S+`, the `@` standing at index
      `at` and the `.` at index `dot`. Each `\S+` is greedy or not as the
      engine likes; only the existence of such a split matters to `test`.
      The pattern has no `u` flag, so the engine sees code units; an astral
      code point is two surrogate code units, neither of them white space,
      `@` or `.`, so matching over code points finds the same matches. */
  predicate MatchesAt(s: JsString, start: int, at: int, dot: int, end: int) {
    && 0 <= start < at && at + 1 < dot && dot + 1 < end <= |s|
    && NoWhiteSpace(s, start, at)
    && s[at] == AtSign
    && NoWhiteSpace(s, at + 1, dot)
    && s[dot] == FullStop
    && NoWhiteSpace(s, dot + 1, end)
  }

  /** `validateEmail(s)`: the pattern has no anchors and no flags, so `test`
      succeeds iff some substring of s, starting anywhere, matches it.
      Its exact meaning is the two-point witness: the first and last `\S+`
      may be shrunk to one code unit, and `@` and `.` are themselves `\S`,
      so they may occur inside the runs. */
  function ValidateEmail(s: JsString): (valid: bool)
    ensures valid <==> exists at, dot :: EmailWitness(s, at, dot)
  {
    var matched := exists start, at, dot, end
      | 0 <= start < |s| && 0 <= at < |s| && 0 <= dot < |s| && 0 <= end <= |s|
      :: MatchesAt(s, start, at, dot, end);
    assert matched ==> exists at, dot :: EmailWitness(s, at, dot) by {
      if matched {
        var i, a, d, e :| 0 <= i < |s| && 0 <= a < |s| && 0 <= d < |s| && 0 <= e <= |s|
          && MatchesAt(s, i, a, d, e);
        assert EmailWitness(s, a, d);
      }
    }
    assert (exists at, dot :: EmailWitness(s, at, dot)) ==> matched by {
      if exists at, dot :: EmailWitness(s, at, dot) {
        var at, dot :| EmailWitness(s, at, dot);
        assert MatchesAt(s, at - 1, at, dot, dot + 2);
      }
    }
    matched
  }

  /** A smaller witness of a match: an `@` with a non-white-space code unit
      just before it, then a non-empty white-space-free run, then a `.`
      followed by a non-white-space code unit. */
  predicate EmailWitness(s: JsString, at: int, dot: int) {
    && 1 <= at && at + 1 < dot && dot + 1 < |s|
    && !IsWhiteSpace(s[at - 1])
    && s[at] == AtSign
    && NoWhiteSpace(s, at + 1, dot)
    && s[dot] == FullStop
    && !IsWhiteSpace(s[dot + 1])
  }

  /** A one-pass scan that decides `validateEmail` in linear time. It tracks
      the maximal white-space-free run ending at the current index and the
      first `@` in that run that has a code unit of the run before it; a
      `.` followed by a non-white-space code unit closes a match when that
      `@` lies at least two code units before it. */
  method ScanEmail(s: JsString) returns (found: bool)
    ensures found <==> ValidateEmail(s)
  {
    found := false;
    var runStart := 0;
    var firstAt := -1;
    var k := 0;
    while k < |s|
      invariant 0 <= runStart <= k <= |s|
      invariant runStart == 0 || IsWhiteSpace(s[runStart - 1])
      invariant NoWhiteSpace(s, runStart, k)
      invariant firstAt == -1 ==> forall p | runStart < p < k :: s[p] != AtSign
      invariant firstAt != -1 ==> runStart < firstAt < k && s[firstAt] == AtSign
      invariant firstAt != -1 ==> forall p | runStart < p < firstAt :: s[p] != AtSign
      invariant found <==> exists at, dot | 0 <= at < |s| && 0 <= dot < k - 1 :: EmailWitness(s, at, dot)
    {
      if IsWhiteSpace(s[k]) {
        runStart := k + 1;
        firstAt := -1;
      } else {
        if 1 <= k && s[k - 1] == FullStop && firstAt != -1 && firstAt + 2 < k {
          assert EmailWitness(s, firstAt, k - 1);
          found := true;
        } else {
          WitnessClosingAtIsSeen(s, runStart, firstAt, k);
        }
        if s[k] == AtSign && runStart < k && firstAt == -1 {
          firstAt := k;
        }
      }
      k := k + 1;
    }
  }

  /** Every witness whose `.` stands at k - 1 lies inside the white-space-free
      run ending at k, so the scan, which remembers the first eligible `@` of
      that run, sees it. */
  lemma WitnessClosingAtIsSeen(s: JsString, runStart: int, firstAt: int, k: int)
    requires 0 <= runStart <= k < |s|
    requires runStart == 0 || IsWhiteSpace(s[runStart - 1])
    requires NoWhiteSpace(s, runStart, k)
    requires firstAt == -1 ==> forall p | runStart < p < k :: s[p] != AtSign
    requires firstAt != -1 ==> runStart < firstAt < k && s[firstAt] == AtSign
    requires firstAt != -1 ==> forall p | runStart < p < firstAt :: s[p] != AtSign
    ensures forall at, dot | EmailWitness(s, at, dot) && dot + 1 == k ::
      1 <= k && s[k - 1] == FullStop && firstAt != -1 && firstAt + 2 < k
  {
    forall at, dot | EmailWitness(s, at, dot) && dot + 1 == k
      ensures 1 <= k && s[k - 1] == FullStop && firstAt != -1 && firstAt + 2 < k
    {
      // s[at - 1..dot + 1] holds no white space, so the run reaches back past at - 1
      assert NoWhiteSpace(s, at - 1, dot + 1) by {
        forall w | at - 1 <= w <= dot
          ensures !IsWhiteSpace(s[w])
        {
          if w == at - 1 {
          } else if w == at {
          } else if w < dot {
          } else {
          }
        }
      }
      assert runStart <= at - 1;
    }
  }

  /** `validatePassword(s)`: `s.length >= 6`, the length counted in UTF-16
      code units. */
  function ValidatePassword(s: JsString): (valid: bool)
    ensures |s| >= MinPasswordLength ==> valid
    ensures valid ==> 2 * |s| >= MinPasswordLength
  {
    Utf16Length(s) >= MinPasswordLength
  }

  /** The length rule in terms of code points: a password of Basic
      Multilingual Plane characters passes iff it has at least six of them;
      any password of six or more code points passes; one of three or more
      astral code points already passes, each counting twice; and typing more
      never turns a passing password into a failing one. */
  lemma ValidatePasswordMeaning(s: JsString, t: JsString)
    ensures (forall k | 0 <= k < |s| :: s[k] as int < 0x1_0000) ==> (ValidatePassword(s) <==> |s| >= MinPasswordLength)
    ensures |s| >= MinPasswordLength ==> ValidatePassword(s)
    ensures ValidatePassword(s) ==> ValidatePassword(s + t)
  {
    Utf16LengthAppend(s, t);
  }

  /** The boundary on concrete inputs: five characters fail, six pass, and
      three emoji (six code units) pass. */
  lemma PasswordBoundary()
    ensures !ValidatePassword("abcde")
    ensures ValidatePassword("abcdef")
    ensures ValidatePassword("\U{1F600}\U{1F600}\U{1F600}")
  {
  }

  /** Inputs the pattern accepts: a plain address; an address inside
      surrounding text, since the test is unanchored; and a `.` inside the run
      between `@` and the final `.`, since `.` is itself `\S`. */
  lemma EmailAcceptsExamples()
    ensures ValidateEmail("a@b.c")
    ensures ValidateEmail("x a@b.c y")
    ensures ValidateEmail("a@..c")
  {
    assert MatchesAt("a@b.c", 0, 1, 3, 5);
    assert MatchesAt("x a@b.c y", 2, 3, 5, 7);
    assert MatchesAt("a@..c", 0, 1, 3, 5);
  }

  /** A string with no `@` at index 1 or later never passes: the `@` needs a
      character before it. */
  lemma EmailNeedsAtAfterStart(s: JsString)
    requires forall p | 1 <= p < |s| :: s[p] != AtSign
    ensures !ValidateEmail(s)
  {
  }

  /** Inputs the pattern rejects: nothing before `@`; nothing between `@`
      and `.`; no `@` at all; white space just before `@`. */
  lemma EmailRejectsExamples()
    ensures !ValidateEmail("@b.c")
    ensures !ValidateEmail("a@.c")
    ensures !ValidateEmail("bademail")
    ensures !ValidateEmail("a @b.c")
  {
    var s2 := "@b.c";
    assert s2[1] != AtSign && s2[2] != AtSign && s2[3] != AtSign;
    EmailNeedsAtAfterStart(s2);

    var s6 := "bademail";
    assert forall p | 1 <= p < |s6| :: s6[p] != AtSign;
    EmailNeedsAtAfterStart(s6);

    var s3 := "a@.c";
    assert s3[2] != AtSign && s3[3] != AtSign;
    assert forall at, dot :: EmailWitness(s3, at, dot) ==> at == 1;

    var s7 := "a @b.c";
    assert s7[1] == ' ';
    assert forall p | 0 <= p < |s7| && p != 2 :: s7[p] != AtSign;
  }

}
