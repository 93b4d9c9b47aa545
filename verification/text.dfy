/**
 * The few Python string operations the core relies on: `str.lower`,
 * `str.endswith`, `os.path.splitext` (POSIX flavour) and `line.split(":")[0]`.
 */
module Text {

  /** `str.lower` on one character, for the ASCII range. */
  function LowerChar(c: char): char
  {
    if 'A' <= c <= 'Z' then (c as int + 32) as char else c
  }

  function Lower(s: string): (r: string)
    ensures |r| == |s|
    ensures forall i :: 0 <= i < |s| ==> r[i] == LowerChar(s[i])
  {
    if s == [] then [] else [LowerChar(s[0])] + Lower(s[1..])
  }

  predicate EndsWith(s: string, suffix: string)
  {
    |suffix| <= |s| && s[|s| - |suffix|..] == suffix
  }

  /** `s.endswith(suffixes)` with a tuple of suffixes. */
  predicate EndsWithAny(s: string, suffixes: seq<string>)
  {
    exists i :: 0 <= i < |suffixes| && EndsWith(s, suffixes[i])
  }

  /** `s.rfind(c)`: the last position of `c`, or -1. */
  function RFind(s: string, c: char): (r: int)
    ensures -1 <= r < |s|
    ensures r >= 0 ==> s[r] == c
    ensures forall i :: r < i < |s| ==> s[i] != c
  {
    if s == [] then -1
    else if s[|s| - 1] == c then |s| - 1
    else RFind(s[..|s| - 1], c)
  }

  /**
   * The extension `os.path.splitext(p)[1]` for POSIX paths: from the last dot
   * of the final path component, unless everything before that dot in the
   * component is dots (".bashrc", "..", ".mkv" have no extension).
   */
  function Ext(p: string): (e: string)
    ensures e == [] || (e[0] == '.' && EndsWith(p, e))
    ensures forall i :: 0 < i < |e| ==> e[i] != '.' && e[i] != '/'
  {
    var sep := RFind(p, '/');
    var dot := RFind(p, '.');
    if dot > sep && exists k :: sep + 1 <= k < dot && p[k] != '.' then p[dot..] else []
  }

  /** `line.split(":")[0]`: the text before the first colon. */
  function CodePrefix(line: string): (r: string)
    ensures ':' !in r
    ensures |r| <= |line| && line[..|r|] == r
    ensures |r| < |line| ==> line[|r|] == ':'
  {
    if line == [] || line[0] == ':' then [] else [line[0]] + CodePrefix(line[1..])
  }
}
