/** The generator's main flow: group the style sheet's rules by codepoint,
    render the codepoints in ascending order, then render the
    compatibility directives.  The date, machine and version stamps, the
    template and the file I/O are not modelled; the three rendered blocks
    and the counters of the summary are the result. */
module Generate {
  import opened Outcomes
  import opened Grouping
  import opened KeyOrder
  import opened Render
  import opened Compat

  /** The three text blocks substituted into the template, and the counters
      of the summary: all definitions, the aliases among them, and the
      compatibility aliases. */
  datatype Output = Output(icons: string, aliases: string, compat: string,
                           total: nat, aliasCount: nat, compatCount: nat)

  /** The table's entries for `keys`, in that order. */
  function ItemsOf(groups: Groups, keys: seq<string>): (r: seq<Item>)
    requires forall j :: 0 <= j < |keys| ==> keys[j] in groups
    ensures |r| == |keys|
    ensures forall j :: 0 <= j < |keys| ==> r[j].0 == keys[j] && r[j].1 == groups[keys[j]]
  {
    seq(|keys|, j requires 0 <= j < |keys| && keys[j] in groups => (keys[j], groups[keys[j]]))
  }

  /** The table's entries in ascending order of codepoint. */
  ghost function SortedItems(groups: Groups): seq<Item> {
    ItemsOf(groups, SortedSet(groups.Keys))
  }

  /** Every codepoint in the table has at least one icon. */
  ghost predicate NoEmptyGroup(groups: Groups) {
    forall h :: h in groups ==> groups[h] != []
  }

  /** The whole run.  It fails, with the codepoint, at the smallest
      codepoint whose rule names no icon; otherwise the primary and alias
      blocks follow the table in ascending order, the count of all icons
      is the number of icons over all groups, the unique icons are the
      table's codepoints, and the compatibility block holds the directives
      of the compatibility file. */
  method Generate(rules: seq<Rule>, backCapLines: seq<string>) returns (r: Result<Output, string>)
    ensures r.Ok? <==> NoEmptyGroup(GroupRules(rules))
    ensures r.Err? ==> && r.error in GroupRules(rules) && GroupRules(rules)[r.error] == []
                       && forall h :: h in GroupRules(rules) && Less(h, r.error) ==> GroupRules(rules)[h] != []
    ensures r.Ok? ==> && r.value.icons == Unlines(IconLines(SortedItems(GroupRules(rules))))
                      && r.value.aliases == Unlines(AliasLines(SortedItems(GroupRules(rules))))
                      && r.value.total == Count(SortedItems(GroupRules(rules)))
                      && r.value.total - r.value.aliasCount == |GroupRules(rules)|
                      && r.value.compat == Unlines(CompatLines(Directives(backCapLines)))
                      && r.value.compatCount == |Directives(backCapLines)|
  {
    var groups := GroupRules(rules);
    var keys := SortKeys(groups.Keys);
    assert forall j :: 0 <= j < |keys| ==> keys[j] in keys;
    var items := ItemsOf(groups, keys);
    ItemsNonEmpty(groups, keys);
    var blocks := RenderIcons(items);
    if blocks.Err? {
      ghost var i :| 0 <= i < |items| && AllNonEmpty(items[..i]) && |items[i].1| == 0 && blocks.error == items[i].0;
      FirstEmptyIsLeast(groups, keys, i);
      return Err(blocks.error);
    }
    var compat, compatCount := RenderCompat(backCapLines);
    var b := blocks.value;
    r := Ok(Output(b.icons, b.aliases, compat, b.total, b.aliasCount, compatCount));
  }

  /** Over the sorted keys, every entry has icons exactly when every group
      of the table does. */
  lemma ItemsNonEmpty(groups: Groups, keys: seq<string>)
    requires forall y :: y in keys <==> y in groups
    ensures forall j :: 0 <= j < |keys| ==> keys[j] in groups
    ensures AllNonEmpty(ItemsOf(groups, keys)) <==> NoEmptyGroup(groups)
  {
    assert forall j :: 0 <= j < |keys| ==> keys[j] in keys;
    var items := ItemsOf(groups, keys);
    if AllNonEmpty(items) {
      forall h | h in groups
        ensures groups[h] != []
      {
        var j :| 0 <= j < |keys| && keys[j] == h;
        assert |items[j].1| > 0;
      }
    }
  }

  /** The first empty entry in sorted order belongs to the least codepoint
      with an empty group. */
  lemma FirstEmptyIsLeast(groups: Groups, keys: seq<string>, i: nat)
    requires StrictlySorted(keys)
    requires forall y :: y in keys <==> y in groups
    requires forall j :: 0 <= j < |keys| ==> keys[j] in groups
    requires i < |keys| && AllNonEmpty(ItemsOf(groups, keys)[..i])
    ensures forall h :: h in groups && Less(h, keys[i]) ==> groups[h] != []
  {
    var items := ItemsOf(groups, keys);
    forall h | h in groups && Less(h, keys[i])
      ensures groups[h] != []
    {
      var j :| 0 <= j < |keys| && keys[j] == h;
      if j == i {
        LessIrreflexive(h);
      } else if j > i {
        LessAsymmetric(keys[i], keys[j]);
      } else {
        assert items[..i][j] == items[j];
      }
    }
  }
}
