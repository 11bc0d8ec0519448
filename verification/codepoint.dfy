/** The codepoint normaliser `to_latex_hex`: find the first backslash,
    lower-case `f` and hex digit in a CSS value and turn `f` plus the
    whole hex run after it into the `"F...` character-code literal of the
    typesetting system. */
module Codepoint {
  import opened Ascii
  import opened Outcomes

  /** A match of the pattern `(\\)(f[0-9a-fA-F]+)` starts at index `j`. */
  predicate EscapeAt(s: string, j: int) {
    0 <= j && j + 2 < |s| && s[j] == '\\' && s[j + 1] == 'f' && IsHexDigit(s[j + 2])
  }

  /** `j` is where a regex search finds its match (the leftmost one), and
      `s[j + 2..e]` is the whole run of hex digits after its `f`, which
      the greedy `+` takes. */
  ghost predicate LeftmostEscapeRun(s: string, j: int, e: int) {
    && EscapeAt(s, j)
    && (forall t :: 0 <= t < j ==> !EscapeAt(s, t))
    && j + 2 < e <= |s|
    && (forall t :: j + 2 <= t < e ==> IsHexDigit(s[t]))
    && (e == |s| || !IsHexDigit(s[e]))
  }

  /** The first match at or after `from`. */
  function FirstEscape(s: string, from: nat): (r: Option<nat>)
    ensures r.Some? ==> from <= r.value && EscapeAt(s, r.value)
    ensures r.Some? ==> forall t :: from <= t < r.value ==> !EscapeAt(s, t)
    ensures r.None? ==> forall t :: from <= t ==> !EscapeAt(s, t)
    decreases |s| - from
  {
    if from + 2 >= |s| then None
    else if EscapeAt(s, from) then Some(from)
    else FirstEscape(s, from + 1)
  }

  /** The end of the run of hex digits that starts at `j`. */
  function HexRunEnd(s: string, j: nat): (e: nat)
    requires j <= |s|
    ensures j <= e <= |s|
    ensures forall t :: j <= t < e ==> IsHexDigit(s[t])
    ensures e == |s| || !IsHexDigit(s[e])
    decreases |s| - j
  {
    if j == |s| || !IsHexDigit(s[j]) then j else HexRunEnd(s, j + 1)
  }

  /** `to_latex_hex`: None when the value holds no backslash-`f`-hex-digit
      sequence, otherwise `"` followed by the upper-cased `f` and hex run
      of the leftmost such sequence. */
  function ToLatexHex(value: string): (r: Option<string>)
    ensures r.Some? <==> exists j :: EscapeAt(value, j)
    ensures r.Some? ==> |r.value| >= 3 && r.value[..2] == "\"F"
    ensures r.Some? ==> forall t :: 2 <= t < |r.value| ==> IsUpperHexDigit(r.value[t])
    ensures r.Some? ==>
      exists j, e :: LeftmostEscapeRun(value, j, e) && r.value == "\"F" + UpperStr(value[j + 2..e])
  {
    match FirstEscape(value, 0)
    case None => None
    case Some(j) =>
      var e := HexRunEnd(value, j + 2);
      var hex := "\"" + UpperStr(value[j + 1..e]);
      assert hex == "\"F" + UpperStr(value[j + 2..e]);
      assert LeftmostEscapeRun(value, j, e);
      Some(hex)
  }

  lemma ExampleLowerMarker()
    ensures ToLatexHex("\\f000") == Some("\"F000")
    ensures ToLatexHex("\"\\f0a9\"") == Some("\"F0A9")
  {
    var a := "\\f000";
    assert FirstEscape(a, 0) == Some(0);
    assert HexRunEnd(a, 2) == 5;
    assert UpperStr(a[1..5]) == "F000";
    assert "\"" + UpperStr(a[1..5]) == "\"F000";
    assert ToLatexHex(a) == Some("\"" + UpperStr(a[1..5]));
    var b := "\"\\f0a9\"";
    assert !EscapeAt(b, 0) && EscapeAt(b, 1);
    assert FirstEscape(b, 0) == Some(1);
    assert !IsHexDigit(b[6]);
    assert HexRunEnd(b, 3) == 6;
    assert UpperStr(b[2..6]) == "F0A9";
    assert "\"" + UpperStr(b[2..6]) == "\"F0A9";
    assert ToLatexHex(b) == Some("\"" + UpperStr(b[2..6]));
  }

  lemma ExampleRejected()
    ensures ToLatexHex("\\F000") == None
    ensures ToLatexHex("zzzz") == None
    ensures ToLatexHex("\\f") == None
  {
  }

  /** One hex digit after the `f` is enough. */
  lemma ExampleSingleDigit()
    ensures ToLatexHex("\\f0") == Some("\"F0")
  {
    var a := "\\f0";
    assert FirstEscape(a, 0) == Some(0);
    assert HexRunEnd(a, 2) == 3;
    assert UpperStr(a[1..3]) == "F0";
    assert "\"" + UpperStr(a[1..3]) == "\"F0";
    assert ToLatexHex(a) == Some("\"" + UpperStr(a[1..3]));
  }
}
