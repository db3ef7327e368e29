/**
 * The C library string functions the driver relies on: `strrchr` and the
 * case-insensitive comparison `strcmpi`. A C string is a sequence of
 * characters that contains no NUL; its terminator is implicit.
 */
module CStrings {

  import opened Wrappers

  /** A NUL-terminated C string, without its terminator. */
  type CString = s: string | '\0' !in s

  /** The character as `tolower` in the C locale returns it: only 'A'..'Z' change. */
  function Lower(c: char): (r: char)
    ensures !('A' <= r <= 'Z')
    ensures r == c || ('A' <= c <= 'Z' && r as int == c as int + 32)
    ensures r == '\0' <==> c == '\0'
  {
    if 'A' <= c <= 'Z' then (c as int + 32) as char else c
  }

  /** Two strings are equal once every character is lowered. */
  predicate EqualIgnoringCase(a: string, b: string)
  {
    |a| == |b| && forall i :: 0 <= i < |a| ==> Lower(a[i]) == Lower(b[i])
  }

  /**
   * `strcmpi(a, b)`: compares lowered characters up to the first difference,
   * the terminator of the shorter string counting as NUL, and returns the
   * difference of the lowered characters there (0 when the strings agree).
   */
  function StrCmpI(a: CString, b: CString): (r: int)
    ensures r == 0 <==> EqualIgnoringCase(a, b)
  {
    if a == [] && b == [] then 0
    else if a == [] then 0 - Lower(b[0]) as int
    else if b == [] then Lower(a[0]) as int
    else if Lower(a[0]) != Lower(b[0]) then Lower(a[0]) as int - Lower(b[0]) as int
    else
      var r := StrCmpI(a[1..], b[1..]);
      assert EqualIgnoringCase(a, b) <==> EqualIgnoringCase(a[1..], b[1..]) by {
        if EqualIgnoringCase(a[1..], b[1..]) {
          forall i | 0 <= i < |a| ensures Lower(a[i]) == Lower(b[i]) {
            if i > 0 { assert a[i] == a[1..][i - 1] && b[i] == b[1..][i - 1]; }
          }
        }
        if EqualIgnoringCase(a, b) {
          forall i | 0 <= i < |a[1..]| ensures Lower(a[1..][i]) == Lower(b[1..][i]) {
            assert a[1..][i] == a[i + 1] && b[1..][i] == b[i + 1];
          }
        }
      }
      r
  }

  /** Case-insensitive equality is an equivalence: symmetric and transitive. */
  lemma EqualIgnoringCaseSymmetric(a: string, b: string)
    requires EqualIgnoringCase(a, b)
    ensures EqualIgnoringCase(b, a)
  {
  }

  lemma EqualIgnoringCaseTransitive(a: string, b: string, c: string)
    requires EqualIgnoringCase(a, b) && EqualIgnoringCase(b, c)
    ensures EqualIgnoringCase(a, c)
  {
  }

  /**
   * `strrchr(s, c)` for a character `c` other than NUL: the index of the
   * last occurrence of `c` in `s`, or `None` (a null pointer) when `c` does
   * not occur. (Searching for NUL itself would find the terminator.)
   */
  function LastIndexOf(s: CString, c: char): (r: Option<nat>)
    requires c != '\0'
    ensures r.None? <==> c !in s
    ensures r.Some? ==> r.value < |s| && s[r.value] == c && forall j :: r.value < j < |s| ==> s[j] != c
  {
    if s == [] then None
    else if s[|s| - 1] == c then Some(|s| - 1)
    else
      var init := s[..|s| - 1];
      var r := LastIndexOf(init, c);
      assert forall j :: 0 <= j < |init| ==> s[j] == init[j];
      assert c in s <==> c in init by {
        assert s == init + [s[|s| - 1]];
      }
      r
  }
}
