/** C strings on the target: a sequence of characters whose last element, and
    no other, is the terminator. A cursor is an index, so every read the C code
    makes through a pointer becomes an index that Dafny checks: a model that
    verifies never reads past a terminator. */
module CStrings {

  type CString = s: seq<char> | IsTerminated(s) witness ['\0']

  predicate IsTerminated(s: seq<char>) {
    && |s| > 0
    && s[|s| - 1] == '\0'
    && forall i :: 0 <= i < |s| - 1 ==> s[i] != '\0'
  }

  /** What is left to read at cursor `i`, without the terminator. */
  function Text(s: CString, i: nat): (t: string)
    requires i < |s|
    ensures |t| == |s| - 1 - i
    ensures t == "" <==> s[i] == '\0'
    ensures forall k :: 0 <= k < |t| ==> t[k] == s[i + k] && t[k] != '\0'
  {
    s[i..|s| - 1]
  }

  /** Moving the cursor drops characters from the front of what is left. */
  lemma TextAdvance(s: CString, i: nat, n: nat)
    requires i + n < |s|
    ensures Text(s, i + n) == Text(s, i)[n..]
  {
  }

  function Lower(c: char): char {
    if 'A' <= c <= 'Z' then c - 'A' + 'a' else c
  }

  /** The library's `isdigit` and `isxdigit` in the C locale. */
  predicate IsDigit(c: char) { '0' <= c <= '9' }

  predicate IsXDigit(c: char) {
    IsDigit(c) || 'a' <= Lower(c) <= 'f'
  }

  /** `isspace_re`: its other comparisons are against multi-character constants
      that no character equals. */
  predicate IsSpace(c: char) { c == ' ' }

  function SpaceRun(t: string): (n: nat)
    ensures n <= |t|
    ensures forall k :: 0 <= k < n ==> IsSpace(t[k])
    ensures n < |t| ==> !IsSpace(t[n])
  {
    if t != "" && IsSpace(t[0]) then 1 + SpaceRun(t[1..]) else 0
  }

  function DropSpaces(t: string): (r: string)
    ensures r == "" || !IsSpace(r[0])
  {
    t[SpaceRun(t)..]
  }

  /** `skip_spaces`. */
  method SkipSpaces(s: CString, start: nat) returns (i: nat)
    requires start < |s|
    ensures start <= i < |s|
    ensures i == start + SpaceRun(Text(s, start))
    ensures Text(s, i) == DropSpaces(Text(s, start))
    ensures s[i] != ' ' && forall k :: start <= k < i ==> s[k] == ' '
  {
    i := start;
    while IsSpace(s[i])
      invariant start <= i < |s|
      invariant SpaceRun(Text(s, start)) == i - start + SpaceRun(Text(s, i))
      decreases |s| - i
    {
      assert Text(s, i)[1..] == Text(s, i + 1);
      i := i + 1;
    }
    TextAdvance(s, start, i - start);
    OnlyBlanks(s, start, i);
  }

  lemma OnlyBlanks(s: CString, start: nat, i: nat)
    requires start < |s| && i == start + SpaceRun(Text(s, start))
    ensures s[i] != ' ' && forall k :: start <= k < i ==> s[k] == ' '
  {
    var t := Text(s, start);
    forall k | start <= k < i ensures s[k] == ' ' {
      assert IsSpace(t[k - start]);
    }
  }
}
