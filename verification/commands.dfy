/** The command matcher of the debugger's prompt (debugger_template.c,
    is_command, lines 208-217). Strings are read the way C reads them:
    up to the first NUL, with a NUL assumed past the end. */
module Commands {

  /** The character at index i of a C string: past the end of the Dafny
      string sits the terminating NUL. */
  function CharAt(s: string, i: nat): char {
    if i < |s| then s[i] else '\0'
  }

  /** The C string that s holds: its characters up to the first NUL. */
  function CStr(s: string): (r: string)
    ensures r <= s
    ensures '\0' !in r
    ensures |r| < |s| ==> s[|r|] == '\0'
  {
    if |s| == 0 || s[0] == '\0' then []
    else [s[0]] + CStr(s[1..])
  }

  /** A string without NUL is its own C string. */
  lemma {:induction false} CStrOfPlain(s: string)
    requires '\0' !in s
    ensures CStr(s) == s
  {
    if |s| > 0 {
      assert '\0' !in s[1..];
      CStrOfPlain(s[1..]);
    }
  }

  /** Walking a C string with CharAt meets its characters, then the NUL. */
  lemma CharAtOfCStr(s: string, i: nat)
    requires i <= |CStr(s)|
    ensures i < |CStr(s)| ==> CharAt(s, i) == CStr(s)[i] && CharAt(s, i) != '\0'
    ensures i == |CStr(s)| ==> CharAt(s, i) == '\0'
  {
  }

  /** reference is a prefix of input, both read as C strings. */
  predicate StartsWith(input: string, reference: string) {
    CStr(reference) <= CStr(input)
  }

  /** is_command: compare input with reference character by character
      until the NUL of reference, stopping at the first difference. A
      shorter input differs at its own NUL. */
  method IsCommand(input: string, reference: string) returns (startsWith: bool)
    ensures startsWith <==> StartsWith(input, reference)
  {
    ghost var r, p := CStr(reference), CStr(input);
    startsWith := true;
    var i := 0;
    CharAtOfCStr(reference, 0);
    while CharAt(reference, i) != '\0'
      invariant i <= |r| && i <= |p|
      invariant r[..i] == p[..i]
      invariant i < |r| <==> CharAt(reference, i) != '\0'
      decreases |r| - i
    {
      CharAtOfCStr(input, i);
      if CharAt(input, i) != CharAt(reference, i) {
        startsWith := false;
        Mismatch(r, p, i);
        break;
      }
      Match(r, p, i);
      i := i + 1;
      CharAtOfCStr(reference, i);
    }
    if startsWith {
      assert r == r[..i];
    }
  }

  /** One more equal character extends the common prefix. */
  lemma Match(r: string, p: string, i: nat)
    requires i < |r| && i < |p| && r[..i] == p[..i] && r[i] == p[i]
    ensures r[..i + 1] == p[..i + 1]
  {
    assert r[..i + 1] == r[..i] + [r[i]];
    assert p[..i + 1] == p[..i] + [p[i]];
  }

  /** A difference, or p ending, before r ends means r is no prefix of p. */
  lemma Mismatch(r: string, p: string, i: nat)
    requires i < |r| && i <= |p| && (i < |p| ==> r[i] != p[i])
    ensures !(r <= p)
  {
  }

  /** For strings without NUL the match is the plain prefix relation:
      `break` matches "break" and "breakpoint" but not "brea". */
  lemma StartsWithPlain(input: string, reference: string)
    requires '\0' !in input && '\0' !in reference
    ensures StartsWith(input, reference) <==> reference <= input
  {
    CStrOfPlain(input);
    CStrOfPlain(reference);
  }
}
