/** Characters and NUL-terminated strings as the C sources see them.

    A read-only C string is modelled by its text, a string that holds no NUL, together with a
    cursor. Reading at the cursor gives a character of the text or, at the end, the terminator;
    reading any further is a verification error, so every proof below also shows that no cursor
    passes a terminator. */
module CStrings {
  datatype Option<+T> = None | Some(value: T)

  ghost predicate NulFree(s: string) {
    forall i :: 0 <= i < |s| ==> s[i] != '\0'
  }

  ghost predicate IsBytes(s: string) {
    forall i :: 0 <= i < |s| ==> s[i] as int < 256
  }

  /** The value of `*(s + i)`. */
  function At(s: string, i: nat): char
    requires i <= |s|
  {
    if i < |s| then s[i] else '\0'
  }

  // The character classes of util/ctype.c that the model needs.

  predicate IsUpper(c: char) { 'A' <= c <= 'Z' }

  predicate IsLower(c: char) { 'a' <= c <= 'z' }

  predicate IsAlpha(c: char) { IsUpper(c) || IsLower(c) }

  predicate IsDigit(c: char) { '0' <= c <= '9' }

  predicate IsSpace(c: char) { 9 <= c as int <= 13 || c == ' ' }

  function ToLower(c: char): char {
    if IsUpper(c) then (c as int + 32) as char else c
  }

  function ToUpper(c: char): char {
    if IsLower(c) then (c as int - 32) as char else c
  }

  function Lower(s: string): (r: string)
    ensures |r| == |s| && forall i :: 0 <= i < |s| ==> r[i] == ToLower(s[i])
  {
    seq(|s|, i requires 0 <= i < |s| => ToLower(s[i]))
  }

  function Upper(s: string): (r: string)
    ensures |r| == |s| && forall i :: 0 <= i < |s| ==> r[i] == ToUpper(s[i])
  {
    seq(|s|, i requires 0 <= i < |s| => ToUpper(s[i]))
  }

  /** `n` copies of `c`; none when `n` is not positive. */
  function Fill(c: char, n: int): (s: string)
    ensures |s| == if n > 0 then n else 0
    ensures forall i :: 0 <= i < |s| ==> s[i] == c
  {
    seq(if n > 0 then n else 0, i => c)
  }

  /** How often `c` occurs in `s`. */
  function Count(c: char, s: string): (n: nat)
    ensures n == 0 <==> c !in s
  {
    if s == "" then 0 else (if s[0] == c then 1 else 0) + Count(c, s[1..])
  }

  lemma {:induction false} CountConcat(c: char, s: string, t: string)
    ensures Count(c, s + t) == Count(c, s) + Count(c, t)
  {
    if s == "" {
      assert s + t == t;
    } else {
      assert (s + t)[1..] == s[1..] + t;
      CountConcat(c, s[1..], t);
    }
  }
}
