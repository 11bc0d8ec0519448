/** Character classes and case mappings on ASCII text: `\s` of the `re`
    module, and `upper`, `lower` and `title`, which change ASCII letters
    only.  The byte-string methods behave so in the C locale, and the
    unicode methods agree with them on the ASCII-only names that reach
    them. */
module Ascii {

  /** The `\s` class of a byte-string pattern: space, tab, newline,
      carriage return, vertical tab and form feed. */
  predicate IsSpace(c: char) {
    c == ' ' || c == '\t' || c == '\n' || c == '\r' || c == '\U{0B}' || c == '\U{0C}'
  }

  /** The `[0-9a-fA-F]` class. */
  predicate IsHexDigit(c: char) {
    ('0' <= c <= '9') || ('a' <= c <= 'f') || ('A' <= c <= 'F')
  }

  predicate IsUpperHexDigit(c: char) {
    ('0' <= c <= '9') || ('A' <= c <= 'F')
  }

  predicate IsLower(c: char) { 'a' <= c <= 'z' }

  predicate IsUpper(c: char) { 'A' <= c <= 'Z' }

  /** The cased characters: the only ones `title` treats as part of a word. */
  predicate IsLetter(c: char) { IsLower(c) || IsUpper(c) }

  function ToUpper(c: char): (r: char)
    ensures !IsLower(r)
    ensures IsLetter(r) <==> IsLetter(c)
    ensures IsHexDigit(c) ==> IsUpperHexDigit(r)
    ensures !IsLetter(c) ==> r == c
  {
    if IsLower(c) then (c as int - 32) as char else c
  }

  function ToLower(c: char): (r: char)
    ensures !IsUpper(r)
    ensures IsLetter(r) <==> IsLetter(c)
    ensures !IsLetter(c) ==> r == c
  {
    if IsUpper(c) then (c as int + 32) as char else c
  }

  /** `str.upper` */
  function UpperStr(s: string): (r: string)
    ensures |r| == |s|
    ensures forall t :: 0 <= t < |s| ==> r[t] == ToUpper(s[t])
  {
    seq(|s|, t requires 0 <= t < |s| => ToUpper(s[t]))
  }

  /** `str.lower` */
  function LowerStr(s: string): (r: string)
    ensures |r| == |s|
    ensures forall t :: 0 <= t < |s| ==> r[t] == ToLower(s[t])
  {
    seq(|s|, t requires 0 <= t < |s| => ToLower(s[t]))
  }

  /** The scan behind `str.title`: a letter that follows a letter is put
      in lower case, any other letter in upper case, and every other
      character is kept and ends the current word. */
  function TitleFrom(s: string, afterLetter: bool): (r: string)
    ensures |r| == |s|
    ensures forall t :: 0 <= t < |s| ==> (r[t] == '-' <==> s[t] == '-')
  {
    if |s| == 0 then ""
    else [if afterLetter then ToLower(s[0]) else ToUpper(s[0])] + TitleFrom(s[1..], IsLetter(s[0]))
  }

  /** Each character of the title-cased string depends only on itself and
      on whether the character before it (or, at the start, the flag) is a letter. */
  lemma {:induction false} TitleFromAt(s: string, afterLetter: bool, t: nat)
    requires t < |s|
    ensures TitleFrom(s, afterLetter)[t]
            == if (if t == 0 then afterLetter else IsLetter(s[t - 1])) then ToLower(s[t]) else ToUpper(s[t])
    decreases t
  {
    if t > 0 {
      TitleFromAt(s[1..], IsLetter(s[0]), t - 1);
    }
  }

  /** `str.title` */
  function Title(s: string): (r: string)
  {
    TitleFrom(s, false)
  }

  /** The string with every `-` taken out. */
  function RemoveHyphens(s: string): (r: string)
    ensures '-' !in r
    ensures |r| <= |s|
  {
    if |s| == 0 then ""
    else (if s[0] == '-' then "" else [s[0]]) + RemoveHyphens(s[1..])
  }
}
