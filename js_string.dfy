/**
 * The slice of JavaScript's string semantics that the address helpers rely on:
 * nullish values and truthiness, `String.prototype.substr`, `lastIndexOf` and
 * `toLowerCase` on ASCII text. Strings are sequences of characters.
 */
module JsString {

  /** A value passed where the helpers expect a string: `undefined`, `null` or a string. */
  datatype OptStr = Undefined | Null | Str(value: string) {

    /** JavaScript truthiness restricted to these values: only a non-empty string is truthy. */
    predicate Truthy() {
      Str? && value != ""
    }
  }

  function Min(a: int, b: int): int {
    if a <= b then a else b
  }

  /**
   * Where `substr` starts: a negative start counts back from the end, and the
   * result is clamped to `[0, size]`. A start of -0 is the integer 0.
   */
  function SubstrStart(size: nat, start: int): (k: nat)
    ensures k <= size
  {
    if start < 0 then (if size + start < 0 then 0 else size + start)
    else Min(start, size)
  }

  /**
   * `s.substr(start, length)`: at most `length` characters from the start
   * position, never running past the end; a non-positive length gives "".
   */
  function Substr(s: string, start: int, length: int): (r: string)
    ensures |r| <= |s|
    ensures 0 <= start <= |s| && 0 <= length ==> r == s[start..Min(start + length, |s|)]
    ensures 0 < -start <= |s| && -start <= length ==> r == s[|s| + start..]
    ensures start < -|s| && |s| <= length ==> r == s
    ensures 0 < -start <= |s| && 0 <= length ==> r == s[|s| + start..Min(|s| + start + length, |s|)]
    ensures start < -|s| && 0 <= length ==> r == s[..Min(length, |s|)]
    ensures start >= |s| || length <= 0 ==> r == ""
  {
    var from := SubstrStart(|s|, start);
    var count := if length <= 0 then 0 else length;
    s[from..Min(from + count, |s|)]
  }

  /** `s.substr(start)`: an omitted length stands for the whole string's length. */
  function SubstrFrom(s: string, start: int): (r: string)
    ensures 0 <= start <= |s| ==> r == s[start..]
    ensures start == 0 ==> r == s
    ensures 0 < -start <= |s| ==> r == s[|s| + start..] && |r| == -start
    ensures -start >= |s| ==> r == s
    ensures start >= |s| ==> r == ""
  {
    Substr(s, start, |s|)
  }

  /** `s.lastIndexOf(c)` for a one-character needle: -1 when `c` does not occur. */
  function LastIndexOf(s: string, c: char): (r: int)
    ensures -1 <= r < |s|
    ensures r == -1 <==> c !in s
    ensures 0 <= r ==> s[r] == c
    ensures forall j :: r < j < |s| ==> s[j] != c
  {
    if s == "" then -1
    else if s[|s| - 1] == c then |s| - 1
    else
      assert s == s[..|s| - 1] + [s[|s| - 1]];
      LastIndexOf(s[..|s| - 1], c)
  }

  /** ASCII case mapping, as `toLowerCase` does on ASCII text. */
  function LowerChar(c: char): char {
    if 'A' <= c <= 'Z' then (c as int - 'A' as int + 'a' as int) as char else c
  }

  /** `s.toLowerCase()` on ASCII text: position by position, letters fold and nothing else moves. */
  function ToLower(s: string): (r: string)
    ensures |r| == |s|
    ensures forall i :: 0 <= i < |s| ==> r[i] == LowerChar(s[i])
  {
    seq(|s|, i requires 0 <= i < |s| => LowerChar(s[i]))
  }

  /** Lower-casing keeps every '.' where it was, so the last one too. */
  lemma {:induction false} LastIndexOfLower(s: string, c: char)
    requires LowerChar(c) == c && !('a' <= c <= 'z')
    ensures LastIndexOf(ToLower(s), c) == LastIndexOf(s, c)
  {
    if s != "" {
      var t := ToLower(s);
      assert ToLower(s[..|s| - 1]) == t[..|t| - 1];
      LastIndexOfLower(s[..|s| - 1], c);
    }
  }
}
