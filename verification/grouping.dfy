/** Grouping the style-sheet rules by codepoint: every rule whose value
    holds a valid codepoint contributes the icons named by its `fa-`
    selectors, and the first rule seen for a codepoint decides its group
    (the first is the primary icon, the rest are its aliases). */
module Grouping {
  import opened Outcomes
  import opened Names
  import opened Codepoint
  import opened Ascii

  /** A style-sheet rule, reduced to what the generator reads from it: the
      text of its first declaration's first value token and the values of
      its selector tokens. */
  datatype Rule = Rule(value: string, selectors: seq<string>)

  /** Codepoint literal -> the icons sharing it, primary first. */
  type Groups = map<string, seq<Icon>>

  /** A selector names an icon when it starts with `fa-`, in lower case
      exactly. */
  predicate IsFaSelector(sel: string) {
    "fa-" <= sel
  }

  /** The selectors that name icons, in their original order. */
  function FaSelectors(sels: seq<string>): (r: seq<string>)
    ensures |r| <= |sels|
    ensures forall t :: 0 <= t < |r| ==> IsFaSelector(r[t])
    decreases |sels|
  {
    if |sels| == 0 then []
    else if IsFaSelector(sels[0]) then [sels[0]] + FaSelectors(sels[1..])
    else FaSelectors(sels[1..])
  }

  /** A selector survives the filter exactly when it names an icon. */
  lemma {:induction false} FaSelectorsMembers(sels: seq<string>, x: string)
    ensures x in FaSelectors(sels) <==> x in sels && IsFaSelector(x)
    decreases |sels|
  {
    if |sels| > 0 {
      FaSelectorsMembers(sels[1..], x);
      assert sels == [sels[0]] + sels[1..];
    }
  }

  /** Filtering a concatenation filters the two halves independently, so
      the selectors keep their relative order. */
  lemma {:induction false} FaSelectorsAppend(a: seq<string>, b: seq<string>)
    ensures FaSelectors(a + b) == FaSelectors(a) + FaSelectors(b)
    decreases |a|
  {
    if |a| == 0 {
      assert a + b == b;
    } else {
      FaSelectorsAppend(a[1..], b);
      assert (a + b)[0] == a[0];
      assert (a + b)[1..] == a[1..] + b;
      if IsFaSelector(a[0]) {
        assert ([a[0]] + FaSelectors(a[1..])) + FaSelectors(b)
            == [a[0]] + (FaSelectors(a[1..]) + FaSelectors(b));
      }
    }
  }

  /** An icon selector also passes the case-insensitive prefix test of
      `to_csnames`, so its short name drops exactly the `fa-`. */
  lemma FaSelectorHasPrefix(sel: string)
    requires IsFaSelector(sel)
    ensures HasFaPrefix(sel)
    ensures ToCsnames(sel).csname == sel[3..]
  {
    assert LowerStr(sel)[..3] == "fa-";
    assert sel == sel[..3] + ToCsnames(sel).csname;
  }

  /** The icons a rule names: one per `fa-` selector, in order.  Each icon
      is its selector with the `fa-` stripped, and the macro is derived
      from that short name. */
  function IconsOf(rule: Rule): (r: seq<Icon>)
    ensures |r| == |FaSelectors(rule.selectors)|
    ensures forall t :: 0 <= t < |r| ==>
      && r[t].csname == FaSelectors(rule.selectors)[t][3..]
      && r[t].macro == MacroName(r[t].csname)
  {
    var sels := FaSelectors(rule.selectors);
    forall t | 0 <= t < |sels|
      ensures ToCsnames(sels[t]).csname == sels[t][3..]
    {
      FaSelectorHasPrefix(sels[t]);
    }
    seq(|sels|, t requires 0 <= t < |sels| => ToCsnames(sels[t]))
  }

  /** What one pass of the loop body extracts from a rule: its codepoint
      literal, if valid, and its icons. */
  datatype Entry = Entry(hex: Option<string>, icons: seq<Icon>)

  function EntryOf(rule: Rule): Entry {
    Entry(ToLatexHex(rule.value), IconsOf(rule))
  }

  function Entries(rules: seq<Rule>): (es: seq<Entry>)
    ensures |es| == |rules|
  {
    seq(|rules|, i requires 0 <= i < |rules| => EntryOf(rules[i]))
  }

  /** One step of the loop over the rules: an entry without a valid
      codepoint is skipped, and a codepoint already present keeps its
      group. */
  function AddEntry(groups: Groups, entry: Entry): (r: Groups)
    ensures entry.hex.None? ==> r == groups
    ensures entry.hex.Some? ==> r.Keys == groups.Keys + {entry.hex.value}
    ensures forall h :: h in groups ==> r[h] == groups[h]
    ensures entry.hex.Some? && entry.hex.value !in groups ==> r[entry.hex.value] == entry.icons
  {
    match entry.hex
    case None => groups
    case Some(h) => if h in groups then groups else groups[h := entry.icons]
  }

  /** The codepoint table after the loop over the entries. */
  function Group(es: seq<Entry>): (r: Groups)
    ensures forall h :: h in r <==> exists i :: 0 <= i < |es| && es[i].hex == Some(h)
    decreases |es|
  {
    if |es| == 0 then map[]
    else
      var init := es[..|es| - 1];
      var r := AddEntry(Group(init), es[|es| - 1]);
      assert forall i :: 0 <= i < |init| ==> init[i] == es[i];
      r
  }

  /** The table built from the style sheet's rules: a codepoint is
      present exactly when some rule's value carries it. */
  function GroupRules(rules: seq<Rule>): (r: Groups)
    ensures forall h :: h in r <==> exists i :: 0 <= i < |rules| && ToLatexHex(rules[i].value) == Some(h)
  {
    var es := Entries(rules);
    assert forall i :: 0 <= i < |rules| ==> es[i] == EntryOf(rules[i]);
    Group(es)
  }

  /** The index of the first entry whose codepoint is `h`, if any. */
  function FirstWithHex(es: seq<Entry>, h: string): (r: Option<nat>)
    ensures r.Some? ==> r.value < |es| && es[r.value].hex == Some(h)
    ensures r.Some? ==> forall j :: 0 <= j < r.value ==> es[j].hex != Some(h)
    ensures r.None? ==> forall j :: 0 <= j < |es| ==> es[j].hex != Some(h)
    decreases |es|
  {
    if |es| == 0 then None
    else if es[0].hex == Some(h) then Some(0)
    else
      match FirstWithHex(es[1..], h)
      case None => None
      case Some(j) => Some(j + 1)
  }

  /** First wins: a codepoint's group is the icon list of the first entry
      that carries it; later entries with the same codepoint are ignored. */
  lemma {:induction false} FirstEntryWins(es: seq<Entry>, h: string)
    requires h in Group(es)
    ensures FirstWithHex(es, h).Some?
    ensures Group(es)[h] == es[FirstWithHex(es, h).value].icons
    decreases |es|
  {
    var n := |es|;
    var init := es[..n - 1];
    var last := es[n - 1];
    assert Group(es) == AddEntry(Group(init), last);
    if h in Group(init) {
      FirstEntryWins(init, h);
      var i := FirstWithHex(init, h).value;
      assert es[i] == init[i];
      assert forall j :: 0 <= j < i ==> es[j] == init[j];
      FirstWithHexUnique(es, h, i);
    } else {
      assert forall j :: 0 <= j < n - 1 ==> es[j] == init[j];
      FirstWithHexUnique(es, h, n - 1);
    }
  }

  /** `FirstWithHex` is characterised by its contract. */
  lemma {:induction false} FirstWithHexUnique(es: seq<Entry>, h: string, i: nat)
    requires i < |es| && es[i].hex == Some(h)
    requires forall j :: 0 <= j < i ==> es[j].hex != Some(h)
    ensures FirstWithHex(es, h) == Some(i)
    decreases i
  {
    if i > 0 {
      assert es[0].hex != Some(h);
      FirstWithHexUnique(es[1..], h, i - 1);
    }
  }

  /** Reading more entries never changes a group that is already there. */
  lemma {:induction false} GroupStable(es: seq<Entry>, more: seq<Entry>)
    ensures Group(es).Keys <= Group(es + more).Keys
    ensures forall h :: h in Group(es) ==> Group(es + more)[h] == Group(es)[h]
    decreases |more|
  {
    if |more| == 0 {
      assert es + more == es;
    } else {
      var more' := more[..|more| - 1];
      GroupStable(es, more');
      assert (es + more)[..|es + more| - 1] == es + more';
    }
  }

  /** The style sheet's table: a codepoint is present exactly when some
      rule carries it, and its group is the icons of the first such rule. */
  lemma GroupRulesSpec(rules: seq<Rule>, h: string)
    ensures h in GroupRules(rules) <==> exists i :: 0 <= i < |rules| && ToLatexHex(rules[i].value) == Some(h)
    ensures h in GroupRules(rules) ==>
      exists i :: && 0 <= i < |rules| && ToLatexHex(rules[i].value) == Some(h)
                  && (forall j :: 0 <= j < i ==> ToLatexHex(rules[j].value) != Some(h))
                  && GroupRules(rules)[h] == IconsOf(rules[i])
  {
    var es := Entries(rules);
    if h in Group(es) {
      FirstEntryWins(es, h);
      var i := FirstWithHex(es, h).value;
      assert ToLatexHex(rules[i].value) == Some(h) by {
        assert es[i] == EntryOf(rules[i]);
      }
      forall j | 0 <= j < i
        ensures ToLatexHex(rules[j].value) != Some(h)
      {
        assert es[j] == EntryOf(rules[j]);
      }
      assert GroupRules(rules)[h] == IconsOf(rules[i]);
    }
  }
}
