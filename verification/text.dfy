/**
 * Character classes and the text-mode file reading that the tools rely on.
 * Only ASCII is modelled: Python's Unicode `\s`, `\w` and `str.lower` agree
 * with the definitions below on ASCII characters.
 */
module Text {

  /** Python's `\s` on ASCII: space, `\t \n \v \f \r` and the separators U+001C..U+001F. */
  predicate IsSpace(c: char): (b: bool)
    ensures b ==> c <= ' '
  {
    c == ' ' || ('\U{0009}' <= c <= '\U{000D}') || ('\U{001C}' <= c <= '\U{001F}')
  }

  /** Python's `\w` on ASCII: letters, digits and the underscore. */
  predicate IsWordChar(c: char): (b: bool)
    ensures b ==> ' ' < c && c != '/'
  {
    ('a' <= c <= 'z') || ('A' <= c <= 'Z') || ('0' <= c <= '9') || c == '_'
  }

  predicate AllSpace(s: string) {
    forall i :: 0 <= i < |s| ==> IsSpace(s[i])
  }

  /** `str.lower` on one ASCII character. */
  function LowerChar(c: char): char {
    if 'A' <= c <= 'Z' then (c as int + 32) as char else c
  }

  /** `str.lower` on ASCII strings. */
  function Lower(s: string): (r: string)
    ensures |r| == |s|
    ensures forall i :: 0 <= i < |r| ==> !('A' <= r[i] <= 'Z')
    ensures forall i :: 0 <= i < |s| && !('A' <= s[i] <= 'Z') ==> r[i] == s[i]
  {
    seq(|s|, i requires 0 <= i < |s| => LowerChar(s[i]))
  }

  /**
   * Universal-newline translation done by `open(path, "r")`: every `\r\n`
   * and every lone `\r` becomes `\n`.
   */
  function TranslateNewlines(s: string): (r: string)
    ensures '\r' !in r
    ensures '\r' !in s ==> r == s
    ensures |r| <= |s|
    decreases |s|
  {
    if s == [] then []
    else if s[0] == '\r' then
      "\n" + TranslateNewlines(if |s| > 1 && s[1] == '\n' then s[2..] else s[1..])
    else
      [s[0]] + TranslateNewlines(s[1..])
  }

  /** The text of a sequence of lines written one after the other (`f.writelines`). */
  function Concat(lines: seq<string>): string {
    if lines == [] then "" else lines[0] + Concat(lines[1..])
  }

  /** Length of the first line of `s`, its terminating `\n` included. */
  function FirstLineLength(s: string): (k: nat)
    requires s != []
    ensures 0 < k <= |s|
    ensures s[k - 1] == '\n' || k == |s|
    ensures forall j :: 0 <= j < k - 1 ==> s[j] != '\n'
  {
    if s[0] == '\n' || |s| == 1 then 1 else 1 + FirstLineLength(s[1..])
  }

  /**
   * `f.readlines()` on translated text: the text cut after every `\n`, each
   * line keeping its terminator; a last line without one is kept as it is.
   */
  function Lines(s: string): (lines: seq<string>)
    ensures Concat(lines) == s
    ensures forall i :: 0 <= i < |lines| ==> lines[i] != ""
    ensures forall i :: 0 <= i < |lines| - 1 ==> lines[i][|lines[i]| - 1] == '\n'
    ensures forall i, j :: 0 <= i < |lines| && 0 <= j < |lines[i]| - 1 ==> lines[i][j] != '\n'
    decreases |s|
  {
    if s == [] then []
    else
      var k := FirstLineLength(s);
      assert s[..k] + s[k..] == s;
      [s[..k]] + Lines(s[k..])
  }
}
