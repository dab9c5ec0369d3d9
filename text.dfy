/**
 * The three string built-ins the service relies on: `str.strip()`, `str.lower()`
 * and the substring test `needle in haystack`.
 */
module Text {

  /** Python's `str.isspace()` on one character: the characters `str.strip()` removes. */
  predicate IsSpace(c: char) {
    var n := c as int;
    (0x09 <= n <= 0x0D) || (0x1C <= n <= 0x20) || n == 0x85 || n == 0xA0 || n == 0x1680
    || (0x2000 <= n <= 0x200A) || n == 0x2028 || n == 0x2029 || n == 0x202F
    || n == 0x205F || n == 0x3000
  }

  predicate AllSpace(s: string) {
    forall k :: 0 <= k < |s| ==> IsSpace(s[k])
  }

  /** Neither end of `s` is whitespace. */
  predicate IsStripped(s: string) {
    s == [] || (!IsSpace(s[0]) && !IsSpace(s[|s| - 1]))
  }

  /** `r` sits at offset `i` of `s`, and every character of `s` around it is whitespace. */
  predicate StrippedAt(s: string, r: string, i: int) {
    && 0 <= i && i + |r| <= |s| && s[i..i + |r|] == r
    && (forall k :: 0 <= k < i ==> IsSpace(s[k]))
    && (forall k :: i + |r| <= k < |s| ==> IsSpace(s[k]))
  }

  /** The index where `str.lstrip()` cuts: the first non-whitespace position at or after `i`. */
  function SkipLeading(s: string, i: nat): (j: nat)
    requires i <= |s|
    ensures i <= j <= |s|
    ensures forall k :: i <= k < j ==> IsSpace(s[k])
    ensures j < |s| ==> !IsSpace(s[j])
    decreases |s| - i
  {
    if i < |s| && IsSpace(s[i]) then SkipLeading(s, i + 1) else i
  }

  /** The index where `str.rstrip()` cuts: the end of the last non-whitespace position before `j`. */
  function SkipTrailing(s: string, j: nat): (m: nat)
    requires j <= |s|
    ensures m <= j
    ensures forall k :: m <= k < j ==> IsSpace(s[k])
    ensures 0 < m ==> !IsSpace(s[m - 1])
  {
    if 0 < j && IsSpace(s[j - 1]) then SkipTrailing(s, j - 1) else j
  }

  /**
   * Python's `str.strip()`: `s` without its leading and trailing whitespace.
   * It is empty exactly when `s` is all whitespace.
   */
  function Strip(s: string): (r: string)
    ensures IsStripped(r)
    ensures exists i :: StrippedAt(s, r, i)
    ensures r == [] <==> AllSpace(s)
  {
    var i := SkipLeading(s, 0);
    var m := SkipTrailing(s, |s|);
    if m <= i then
      assert StrippedAt(s, [], i);
      []
    else
      assert StrippedAt(s, s[i..m], i);
      s[i..m]
  }

  /**
   * The stripped form is unique: any infix of `s` with no whitespace at either end
   * and only whitespace around it is `Strip(s)`.
   */
  lemma StripCharacterised(s: string, r: string, i: int)
    requires StrippedAt(s, r, i) && IsStripped(r)
    ensures r == Strip(s)
  {
    // The branches below are case splits on how the cut points compare with `i`;
    // each is refuted, and spelling them out keeps the solver's work small.
    if r != [] {
      assert s[i] == r[0] && s[i + |r| - 1] == r[|r| - 1];
      var j := SkipLeading(s, 0);
      var m := SkipTrailing(s, |s|);
      if j < i {
        assert false;
      } else if i < j {
        assert false;
      }
      if m < i + |r| {
        assert false;
      } else if i + |r| < m {
        assert false;
      }
    }
  }

  /** Stripping twice changes nothing more than stripping once. */
  lemma StripIdempotent(s: string)
    ensures Strip(Strip(s)) == Strip(s)
  {
  }

  /**
   * Python's `str.lower()` on one character, for the ASCII and Latin-1 capitals
   * (U+0041..U+005A and U+00C0..U+00DE except U+00D7); other characters are kept.
   */
  function LowerChar(c: char): char {
    var n := c as int;
    if (0x41 <= n <= 0x5A) || (0xC0 <= n <= 0xDE && n != 0xD7) then (n + 0x20) as char else c
  }

  /**
   * A model of Python's `str.lower()`, restricted to `LowerChar`'s range: Python's own
   * mapping also covers the rest of Unicode, where some characters change length
   * (the limitation is recorded in the README).
   */
  function Lower(s: string): (r: string)
    ensures |r| == |s|
    ensures forall k :: 0 <= k < |s| ==> r[k] == LowerChar(s[k])
  {
    if s == [] then [] else [LowerChar(s[0])] + Lower(s[1..])
  }

  /** `p` occurs in `s` starting at offset `i`. */
  predicate OccursAt(p: string, s: string, i: int) {
    0 <= i && i + |p| <= |s| && s[i..i + |p|] == p
  }

  /** Python's `p in s` for two strings, by trying each starting offset in turn. */
  function Contains(s: string, p: string): (r: bool)
    ensures r ==> |p| <= |s|
    ensures p == [] ==> r
    decreases |s|
  {
    if |p| > |s| then false
    else if s[..|p|] == p then true
    else Contains(s[1..], p)
  }

  /** The substring test holds exactly when `p` occurs at some offset of `s`. */
  lemma {:induction false} ContainsIff(s: string, p: string)
    ensures Contains(s, p) <==> exists i :: OccursAt(p, s, i)
    decreases |s|
  {
    if |p| > |s| {
    } else if s[..|p|] == p {
      assert OccursAt(p, s, 0);
    } else {
      ContainsIff(s[1..], p);
      if Contains(s[1..], p) {
        var j :| OccursAt(p, s[1..], j);
        assert s[1..][j..j + |p|] == s[j + 1..j + 1 + |p|];
        assert OccursAt(p, s, j + 1);
      } else {
        forall i | OccursAt(p, s, i) ensures false {
          assert s[1..][i - 1..i - 1 + |p|] == s[i..i + |p|];
          assert OccursAt(p, s[1..], i - 1);
        }
      }
    }
  }

  /** The empty string is a substring of every string. */
  lemma EmptyContained(s: string)
    ensures Contains(s, [])
  {
  }
}
