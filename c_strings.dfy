/**
 * C string comparison as the test reply helpers use it
 * (src/tests/client_server/libtest_convenience_server_reply.c): strcmp, which
 * reads each side only up to its first NUL, and nstrcmp, its NULL-aware variant.
 * Strings handed over by the library carry a length and may hold a NUL byte
 * (a GET argument decoded from %00, say); strcmp still stops at the first one.
 */
module CStrings {
  import opened Wrappers

  /** The C string a character buffer holds: its characters before the first NUL. */
  function CString(s: string): (r: string)
    ensures '\0' !in r
    ensures |r| <= |s| && r == s[..|r|]
    ensures r == s || s[|r|] == '\0'
    decreases |s|
  {
    if s == [] || s[0] == '\0' then [] else [s[0]] + CString(s[1..])
  }

  /** strcmp (a, b) == 0. */
  predicate StrEq(a: string, b: string) {
    CString(a) == CString(b)
  }

  /** A string without NUL is its own C string. */
  lemma {:induction false} CStringOfNulFree(s: string)
    requires '\0' !in s
    ensures CString(s) == s
    decreases |s|
  {
    if s != [] {
      assert s[0] != '\0' && '\0' !in s[1..];
      CStringOfNulFree(s[1..]);
    }
  }

  /** On strings without NUL, strcmp is plain equality. */
  lemma StrEqNulFree(a: string, b: string)
    requires '\0' !in a && '\0' !in b
    ensures StrEq(a, b) <==> a == b
  {
    CStringOfNulFree(a);
    CStringOfNulFree(b);
  }

  /** strcmp ignores everything after an embedded NUL. */
  lemma {:induction false} StrEqStopsAtNul(a: string, rest: string)
    requires '\0' !in a
    ensures CString(a + ['\0'] + rest) == a
    ensures StrEq(a + ['\0'] + rest, a)
    decreases |a|
  {
    var s := a + ['\0'] + rest;
    if a == [] {
      assert s[0] == '\0';
    } else {
      assert s[0] == a[0] && s[1..] == a[1..] + ['\0'] + rest;
      StrEqStopsAtNul(a[1..], rest);
    }
    CStringOfNulFree(a);
  }

  /**
   * nstrcmp: true when both strings are NULL, or both are set and strcmp finds
   * them equal.
   */
  function NStrEq(wants: Option<string>, have: Option<string>): (r: bool)
    ensures r <==>
      || (wants.None? && have.None?)
      || (wants.Some? && have.Some? && CString(wants.value) == CString(have.value))
  {
    if wants.None? && have.None? then true
    else if wants.None? || have.None? then false
    else StrEq(wants.value, have.value)
  }

  /** On NUL-free strings nstrcmp is equality of the optional strings. */
  lemma NStrEqNulFree(wants: Option<string>, have: Option<string>)
    requires wants.Some? ==> '\0' !in wants.value
    requires have.Some? ==> '\0' !in have.value
    ensures NStrEq(wants, have) <==> wants == have
  {
    if wants.Some? && have.Some? {
      StrEqNulFree(wants.value, have.value);
    }
  }
}
