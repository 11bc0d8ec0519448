/** Rendering the primary icon definitions and the alias definitions of
    the style file, and the line layout all three blocks share: every
    statement goes on its own line, each line preceded by a newline, and
    an empty line follows an entry whenever the block's running counter
    has just reached a multiple of ten. */
module Render {
  import opened Outcomes
  import opened Names
  import opened Templates

  /** A codepoint literal and its icons, primary first. */
  type Item = (string, seq<Icon>)

  /** The rendered icon and alias blocks with the two counters. */
  datatype Blocks = Blocks(icons: string, aliases: string, total: nat, aliasCount: nat)

  /** The definition of a primary icon, `latex_pattern` filled with the
      icon's internal name, its codepoint and its macro: the internal name
      is bound to the glyph at codepoint `hex`, and the public macro
      typesets it. */
  function PrimaryStatement(icon: Icon, hex: string): (r: string)
    ensures r == "\\expandafter\\def\\csname faicon@" + (icon.csname + ("\\endcsname {\\symbol{"
      + (hex + ("}} \\def" + (icon.macro + (" {{\\FA\\csname faicon@"
      + (icon.csname + "\\endcsname}}")))))))
  {
    var fields := map["csname" := icon.csname, "hex" := hex, "icon_name" := icon.macro];
    var t1 := LatexPattern.rest;
    var t2 := t1.rest;
    var t3 := t2.rest;
    var t4 := t3.rest;
    var t5 := t4.rest;
    var t6 := t5.rest;
    var t7 := t6.rest;
    var t8 := t7.rest;
    assert Format(t8, fields) == "\\endcsname}}";
    assert Format(t7, fields) == icon.csname + Format(t8, fields);
    assert Format(t6, fields) == " {{\\FA\\csname faicon@" + Format(t7, fields);
    assert Format(t5, fields) == icon.macro + Format(t6, fields);
    assert Format(t4, fields) == "}} \\def" + Format(t5, fields);
    assert Format(t3, fields) == hex + Format(t4, fields);
    assert Format(t2, fields) == "\\endcsname {\\symbol{" + Format(t3, fields);
    assert Format(t1, fields) == icon.csname + Format(t2, fields);
    Format(LatexPattern, fields)
  }

  /** The fields of `latex_aliases_pattern` that make `alias` an alias of
      `primary`. */
  function AliasFields(alias: Icon, primary: Icon): map<string, string> {
    map["alias_name" := alias.csname, "primary" := primary.macro,
        "alias_icon" := alias.macro, "primary_icon" := primary.macro]
  }

  /** The definition of an alias, `latex_aliases_pattern` filled with the
      alias's names and the primary's macro: the alias's internal name and
      its macro both expand to the primary icon's macro. */
  function AliasStatement(alias: Icon, primary: Icon): (r: string)
    ensures r == "\\expandafter\\def\\csname faicon@" + (alias.csname + ("\\endcsname {"
      + (primary.macro + ("} \\def" + (alias.macro + (" {" + (primary.macro + "}")))))))
  {
    var fields := AliasFields(alias, primary);
    var t1 := LatexAliasesPattern.rest;
    var t2 := t1.rest;
    var t3 := t2.rest;
    var t4 := t3.rest;
    var t5 := t4.rest;
    var t6 := t5.rest;
    var t7 := t6.rest;
    var t8 := t7.rest;
    assert Format(t8, fields) == "}";
    assert Format(t7, fields) == primary.macro + Format(t8, fields);
    assert Format(t6, fields) == " {" + Format(t7, fields);
    assert Format(t5, fields) == alias.macro + Format(t6, fields);
    assert Format(t4, fields) == "} \\def" + Format(t5, fields);
    assert Format(t3, fields) == primary.macro + Format(t4, fields);
    assert Format(t2, fields) == "\\endcsname {" + Format(t3, fields);
    assert Format(t1, fields) == alias.csname + Format(t2, fields);
    Format(LatexAliasesPattern, fields)
  }

  /** `", ".join(ms)` */
  function Join(ms: seq<string>): string
    decreases |ms|
  {
    if |ms| == 0 then ""
    else if |ms| == 1 then ms[0]
    else Join(ms[..|ms| - 1]) + ", " + ms[|ms| - 1]
  }

  function Macros(icons: seq<Icon>): (r: seq<string>)
    ensures |r| == |icons|
  {
    seq(|icons|, i requires 0 <= i < |icons| => icons[i].macro)
  }

  /** The alias statements for `aliases`, all pointing at `primary`. */
  function AliasStatements(primary: Icon, aliases: seq<Icon>): (r: seq<string>)
    ensures |r| == |aliases|
  {
    seq(|aliases|, i requires 0 <= i < |aliases| => AliasStatement(aliases[i], primary))
  }

  /** The line of a primary icon; when it has aliases, a trailing comment
      lists their macros. */
  function PrimaryLine(item: Item): string
    requires |item.1| > 0
  {
    var val := item.1;
    PrimaryStatement(val[0], item.0)
      + if |val| > 1 then " % has aliases: " + Join(Macros(val[1..])) else ""
  }

  /** Every statement is a non-empty line. */
  lemma LinesNonEmpty(item: Item)
    requires |item.1| > 0
    ensures PrimaryLine(item) != ""
    ensures forall j :: 0 <= j < |item.1| - 1 ==> AliasStatements(item.1[0], item.1[1..])[j] != ""
  {
    assert |PrimaryLine(item)| >= |PrimaryStatement(item.1[0], item.0)| > 0;
    forall j | 0 <= j < |item.1| - 1
      ensures AliasStatements(item.1[0], item.1[1..])[j] != ""
    {
      assert |AliasStatement(item.1[1..][j], item.1[0])| > 0;
    }
  }

  // ---------------------------------------------------------------------
  // Lines and their layout

  /** The text of a block: every line preceded by a newline. */
  function Unlines(ls: seq<string>): string
    decreases |ls|
  {
    if |ls| == 0 then "" else Unlines(ls[..|ls| - 1]) + "\n" + ls[|ls| - 1]
  }

  lemma {:induction false} UnlinesAppend(a: seq<string>, b: seq<string>)
    ensures Unlines(a + b) == Unlines(a) + Unlines(b)
    decreases |b|
  {
    if |b| == 0 {
      assert a + b == a;
    } else {
      var b' := b[..|b| - 1];
      UnlinesAppend(a, b');
      assert (a + b)[..|a + b| - 1] == a + b';
    }
  }

  lemma UnlinesConcat(ls: seq<string>, more: seq<string>, text: string, moreText: string)
    requires text == Unlines(ls) && moreText == Unlines(more)
    ensures text + moreText == Unlines(ls + more)
  {
    UnlinesAppend(ls, more);
  }

  lemma UnlinesOne(line: string)
    ensures Unlines([line]) == "\n" + line
  {
    assert [line][..0] == [];
  }

  /** The empty separator line, when `b` holds. */
  function Break(b: bool): seq<string> {
    if b then [""] else []
  }

  lemma BreakText(b: bool, text: string)
    requires text == if b then "\n" else ""
    ensures Unlines(Break(b)) == text
  {
    UnlinesOne("");
  }

  /** Adding a line and its separator to a block adds a newline, the
      line and, when the separator is there, one more newline. */
  lemma UnlinesStep(ls: seq<string>, line: string, b: bool, text: string, lineBreak: string)
    requires text == Unlines(ls)
    requires lineBreak == if b then "\n" else ""
    ensures text + "\n" + line + lineBreak == Unlines(ls + ([line] + Break(b)))
  {
    UnlinesAppend(ls, [line] + Break(b));
    UnlinesAppend([line], Break(b));
    UnlinesOne(line);
    BreakText(b, lineBreak);
  }

  /** The groups of lines in order, each followed by an empty line when its
      flag in `breaks` is set. */
  function Layout(groups: seq<seq<string>>, breaks: seq<bool>): seq<string>
    requires |groups| == |breaks|
    decreases |groups|
  {
    if |groups| == 0 then []
    else
      var n := |groups| - 1;
      Layout(groups[..n], breaks[..n]) + (groups[n] + Break(breaks[n]))
  }

  lemma LayoutSnoc(groups: seq<seq<string>>, breaks: seq<bool>, g: seq<string>, b: bool)
    requires |groups| == |breaks|
    ensures Layout(groups + [g], breaks + [b]) == Layout(groups, breaks) + (g + Break(b))
  {
    assert (groups + [g])[..|groups|] == groups;
    assert (breaks + [b])[..|breaks|] == breaks;
  }

  /** The lines of the groups, in order, without separators. */
  function Flatten(groups: seq<seq<string>>): seq<string>
    decreases |groups|
  {
    if |groups| == 0 then [] else Flatten(groups[..|groups| - 1]) + groups[|groups| - 1]
  }

  /** A group per line. */
  function Singletons(lines: seq<string>): (r: seq<seq<string>>)
    ensures |r| == |lines|
  {
    seq(|lines|, i requires 0 <= i < |lines| => [lines[i]])
  }

  lemma {:induction false} FlattenSingletons(lines: seq<string>)
    ensures Flatten(Singletons(lines)) == lines
    decreases |lines|
  {
    if |lines| > 0 {
      var n := |lines| - 1;
      FlattenSingletons(lines[..n]);
      assert Singletons(lines)[..n] == Singletons(lines[..n]);
      assert lines[..n] + [lines[n]] == lines;
    }
  }

  /** The lines that are not the empty separator lines. */
  function NonBlank(ls: seq<string>): (r: seq<string>)
    ensures |r| <= |ls|
    decreases |ls|
  {
    if |ls| == 0 then []
    else NonBlank(ls[..|ls| - 1]) + if ls[|ls| - 1] == "" then [] else [ls[|ls| - 1]]
  }

  lemma {:induction false} NonBlankAppend(a: seq<string>, b: seq<string>)
    ensures NonBlank(a + b) == NonBlank(a) + NonBlank(b)
    decreases |b|
  {
    if |b| == 0 {
      assert a + b == a;
    } else {
      var b' := b[..|b| - 1];
      NonBlankAppend(a, b');
      assert (a + b)[..|a + b| - 1] == a + b';
    }
  }

  lemma {:induction false} NonBlankOfLines(ls: seq<string>)
    requires forall i :: 0 <= i < |ls| ==> ls[i] != ""
    ensures NonBlank(ls) == ls
    decreases |ls|
  {
    if |ls| > 0 {
      NonBlankOfLines(ls[..|ls| - 1]);
    }
  }

  /** Appending a group of non-empty lines and its separator adds exactly
      the group to the non-blank lines. */
  lemma NonBlankGroup(ls: seq<string>, g: seq<string>, b: bool)
    requires forall i :: 0 <= i < |g| ==> g[i] != ""
    ensures NonBlank(ls + (g + Break(b))) == NonBlank(ls) + g
  {
    NonBlankAppend(ls, g + Break(b));
    NonBlankAppend(g, Break(b));
    NonBlankOfLines(g);
    assert NonBlank(Break(b)) == [];
  }

  /** Separators aside, a layout of groups of non-empty lines is the lines
      of its groups, in order. */
  lemma {:induction false} LayoutNonBlank(groups: seq<seq<string>>, breaks: seq<bool>)
    requires |groups| == |breaks|
    requires forall i, j :: 0 <= i < |groups| && 0 <= j < |groups[i]| ==> groups[i][j] != ""
    ensures NonBlank(Layout(groups, breaks)) == Flatten(groups)
    decreases |groups|
  {
    if |groups| > 0 {
      var n := |groups| - 1;
      LayoutNonBlank(groups[..n], breaks[..n]);
      NonBlankGroup(Layout(groups[..n], breaks[..n]), groups[n], breaks[n]);
    }
  }

  /** The separators of a counter that counts one per group: after the
      k-th group, an empty line when k is a multiple of ten. */
  function EveryTenth(n: nat): (r: seq<bool>)
    ensures |r| == n
  {
    if n == 0 then [] else EveryTenth(n - 1) + [n % 10 == 0]
  }

  lemma EveryTenthSnoc(n: nat)
    ensures EveryTenth(n + 1) == EveryTenth(n) + [(n + 1) % 10 == 0]
  {
  }

  lemma TenthStep(n: nat)
    ensures (n + 1) / 10 == n / 10 + if (n + 1) % 10 == 0 then 1 else 0
  {
  }

  /** With one line per group and a separator after every tenth, the
      layout has an extra line per full ten. */
  lemma {:induction false} SingleLayoutLength(groups: seq<seq<string>>)
    requires forall i :: 0 <= i < |groups| ==> |groups[i]| == 1
    ensures |Layout(groups, EveryTenth(|groups|))| == |groups| + |groups| / 10
    decreases |groups|
  {
    if |groups| > 0 {
      var n := |groups| - 1;
      SingleLayoutLength(groups[..n]);
      EveryTenthSnoc(n);
      assert EveryTenth(|groups|)[..n] == EveryTenth(n);
      assert |groups[n] + Break(EveryTenth(|groups|)[n])| == 1 + if (n + 1) % 10 == 0 then 1 else 0;
      TenthStep(n);
    }
  }

  // ---------------------------------------------------------------------
  // The primary and alias blocks

  ghost predicate AllNonEmpty(items: seq<Item>) {
    forall i :: 0 <= i < |items| ==> |items[i].1| > 0
  }

  lemma AllNonEmptySnoc(items: seq<Item>, i: nat)
    requires i < |items| && AllNonEmpty(items[..i]) && |items[i].1| > 0
    ensures AllNonEmpty(items[..i + 1])
  {
    assert forall k :: 0 <= k < i ==> items[..i][k] == items[k];
  }

  /** The number of icons in the items: the final value of the running
      counter of all definitions. */
  function Count(items: seq<Item>): nat
    decreases |items|
  {
    if |items| == 0 then 0 else Count(items[..|items| - 1]) + |items[|items| - 1].1|
  }

  /** The primary block's group for one item: its primary line. */
  function PrimaryGroup(item: Item): seq<string> {
    if |item.1| == 0 then [] else [PrimaryLine(item)]
  }

  /** The alias block's group for one item: a statement per alias. */
  function AliasGroup(item: Item): seq<string> {
    if |item.1| == 0 then [] else AliasStatements(item.1[0], item.1[1..])
  }

  function PrimaryGroups(items: seq<Item>): (r: seq<seq<string>>)
    ensures |r| == |items|
  {
    seq(|items|, i requires 0 <= i < |items| => PrimaryGroup(items[i]))
  }

  function AliasGroups(items: seq<Item>): (r: seq<seq<string>>)
    ensures |r| == |items|
  {
    seq(|items|, i requires 0 <= i < |items| => AliasGroup(items[i]))
  }

  /** After each item, an empty line in the primary block when the count
      of all icons so far is a multiple of ten. */
  function IconBreaks(items: seq<Item>): (r: seq<bool>)
    ensures |r| == |items|
    decreases |items|
  {
    if |items| == 0 then []
    else IconBreaks(items[..|items| - 1]) + [Count(items) % 10 == 0]
  }

  /** After each item with aliases, an empty line in the alias block when
      the count of aliases so far is a multiple of ten. */
  function AliasBreaks(items: seq<Item>): (r: seq<bool>)
    ensures |r| == |items|
    decreases |items|
  {
    if |items| == 0 then []
    else
      AliasBreaks(items[..|items| - 1])
        + [|items[|items| - 1].1| > 1 && (Count(items) - |items|) % 10 == 0]
  }

  function IconLines(items: seq<Item>): seq<string> {
    Layout(PrimaryGroups(items), IconBreaks(items))
  }

  function AliasLines(items: seq<Item>): seq<string> {
    Layout(AliasGroups(items), AliasBreaks(items))
  }

  /** One more item appends its group and separator to each block. */
  lemma IconLinesSnoc(items: seq<Item>)
    requires |items| > 0
    ensures Count(items) == Count(items[..|items| - 1]) + |items[|items| - 1].1|
    ensures IconLines(items) == IconLines(items[..|items| - 1])
      + (PrimaryGroup(items[|items| - 1]) + Break(Count(items) % 10 == 0))
  {
    var n := |items| - 1;
    assert PrimaryGroups(items)[..n] == PrimaryGroups(items[..n]);
  }

  lemma AliasLinesSnoc(items: seq<Item>)
    requires |items| > 0
    ensures AliasLines(items) == AliasLines(items[..|items| - 1])
      + (AliasGroup(items[|items| - 1])
         + Break(|items[|items| - 1].1| > 1 && (Count(items) - |items|) % 10 == 0))
  {
    var n := |items| - 1;
    assert AliasGroups(items)[..n] == AliasGroups(items[..n]);
  }

  /** The inner loop over the aliases of one codepoint: their statements
      and the comma-separated list of their macros. */
  method RenderAliases(primary: Icon, aliases: seq<Icon>) returns (text: string, joined: string)
    ensures text == Unlines(AliasStatements(primary, aliases))
    ensures joined == Join(Macros(aliases))
  {
    text, joined := "", "";
    var j := 0;
    while j < |aliases|
      invariant 0 <= j <= |aliases|
      invariant text == Unlines(AliasStatements(primary, aliases[..j]))
      invariant joined == Join(Macros(aliases[..j]))
    {
      var statement := AliasStatement(aliases[j], primary);
      var macro := aliases[j].macro;
      AliasStatementsSnoc(primary, aliases, j, statement);
      text := text + "\n" + statement;
      joined := if j == 0 then macro else joined + ", " + macro;
      j := j + 1;
    }
    assert aliases[..j] == aliases;
  }

  /** One more alias adds its statement to the alias statements and its
      macro to the list of macros. */
  lemma AliasStatementsSnoc(primary: Icon, aliases: seq<Icon>, j: nat, statement: string)
    requires j < |aliases| && statement == AliasStatement(aliases[j], primary)
    ensures Unlines(AliasStatements(primary, aliases[..j + 1]))
            == Unlines(AliasStatements(primary, aliases[..j])) + "\n" + statement
    ensures Macros(aliases[..j + 1]) == Macros(aliases[..j]) + [aliases[j].macro]
  {
    assert AliasStatements(primary, aliases[..j + 1]) == AliasStatements(primary, aliases[..j]) + [statement];
  }

  /** The body of the loop for one codepoint with at least one icon, given
      the counters after it: the text it appends to each block. */
  method RenderItem(item: Item, total: int, aliasCount: int) returns (iconText: string, aliasText: string)
    requires |item.1| > 0
    ensures iconText == Unlines(PrimaryGroup(item) + Break(total % 10 == 0))
    ensures aliasText == Unlines(AliasGroup(item) + Break(|item.1| > 1 && aliasCount % 10 == 0))
  {
    var key, val := item.0, item.1;
    var primary := val[0];
    var statements, joined := RenderAliases(primary, val[1..]);
    var comment := if |val| > 1 then " % has aliases: " + joined else "";
    var aliasBreak := if |val| > 1 && aliasCount % 10 == 0 then "\n" else "";
    var iconBreak := if total % 10 == 0 then "\n" else "";
    var line := PrimaryStatement(primary, key) + comment;
    iconText := "\n" + line + iconBreak;
    aliasText := statements + aliasBreak;
    assert line == PrimaryLine(item);
    BreakText(total % 10 == 0, iconBreak);
    BreakText(|val| > 1 && aliasCount % 10 == 0, aliasBreak);
    UnlinesOne(line);
    UnlinesAppend([line], Break(total % 10 == 0));
    UnlinesAppend(AliasStatements(primary, val[1..]), Break(|val| > 1 && aliasCount % 10 == 0));
  }

  /** The loop over the sorted codepoints.  An empty icon list has no
      primary icon: the source fails there with an index error, modelled
      as `Err` with the offending codepoint. */
  method RenderIcons(items: seq<Item>) returns (r: Result<Blocks, string>)
    ensures r.Ok? <==> AllNonEmpty(items)
    ensures r.Err? ==> exists i :: 0 <= i < |items| && AllNonEmpty(items[..i])
                                   && |items[i].1| == 0 && r.error == items[i].0
    ensures r.Ok? ==> && r.value.icons == Unlines(IconLines(items))
                      && r.value.aliases == Unlines(AliasLines(items))
                      && r.value.total == Count(items)
                      && r.value.aliasCount + |items| == Count(items)
  {
    var b := Blocks("", "", 0, 0);
    var i := 0;
    while i < |items|
      invariant 0 <= i <= |items|
      invariant AllNonEmpty(items[..i])
      invariant Rendered(items[..i], b)
    {
      if |items[i].1| == 0 {
        return Err(items[i].0);
      }
      b := RenderStep(items, i, b);
      i := i + 1;
    }
    assert items[..i] == items;
    r := Ok(b);
  }

  /** The blocks and counters after the loop has seen `items`. */
  ghost predicate Rendered(items: seq<Item>, b: Blocks) {
    && b.icons == Unlines(IconLines(items))
    && b.aliases == Unlines(AliasLines(items))
    && b.total == Count(items)
    && b.aliasCount + |items| == Count(items)
  }

  /** One pass of the loop: the item at `i` has icons, and its texts are
      appended to both blocks. */
  method RenderStep(items: seq<Item>, i: nat, b: Blocks) returns (b': Blocks)
    requires i < |items| && |items[i].1| > 0
    requires AllNonEmpty(items[..i]) && Rendered(items[..i], b)
    ensures AllNonEmpty(items[..i + 1]) && Rendered(items[..i + 1], b')
  {
    var item := items[i];
    var prefix := items[..i + 1];
    assert |prefix| - 1 == i;
    assert prefix[..|prefix| - 1] == items[..i];
    assert prefix[|prefix| - 1] == item;
    var total := b.total + |item.1|;
    var aliasCount := b.aliasCount + |item.1| - 1;
    var iconText, aliasText := RenderItem(item, total, aliasCount);
    IconLinesSnoc(prefix);
    AllNonEmptySnoc(items, i);
    IconTextSnoc(prefix, item, total, b.icons, iconText);
    AliasTextSnoc(prefix, item, aliasCount, b.aliases, aliasText);
    b' := Blocks(b.icons + iconText, b.aliases + aliasText, total, aliasCount);
  }

  /** The texts of one more item, rendered with the counters after it,
      extend the texts of both blocks. */
  lemma IconTextSnoc(items: seq<Item>, item: Item, total: int, icons: string, iconText: string)
    requires |items| > 0 && items[|items| - 1] == item && Count(items) == total
    requires icons == Unlines(IconLines(items[..|items| - 1]))
    requires iconText == Unlines(PrimaryGroup(item) + Break(total % 10 == 0))
    ensures icons + iconText == Unlines(IconLines(items))
  {
    IconLinesSnoc(items);
    UnlinesConcat(IconLines(items[..|items| - 1]), PrimaryGroup(item) + Break(total % 10 == 0), icons, iconText);
  }

  lemma AliasTextSnoc(items: seq<Item>, item: Item, aliasCount: int, aliases: string, aliasText: string)
    requires |items| > 0 && items[|items| - 1] == item && Count(items) - |items| == aliasCount
    requires aliases == Unlines(AliasLines(items[..|items| - 1]))
    requires aliasText == Unlines(AliasGroup(item) + Break(|item.1| > 1 && aliasCount % 10 == 0))
    ensures aliases + aliasText == Unlines(AliasLines(items))
  {
    AliasLinesSnoc(items);
    UnlinesConcat(AliasLines(items[..|items| - 1]), AliasGroup(item) + Break(|item.1| > 1 && aliasCount % 10 == 0),
                  aliases, aliasText);
  }

  /** The primary line of every codepoint, in order. */
  function PrimaryLines(items: seq<Item>): (r: seq<string>)
    requires AllNonEmpty(items)
    ensures |r| == |items|
  {
    seq(|items|, i requires 0 <= i < |items| && AllNonEmpty(items) => PrimaryLine(items[i]))
  }

  /** Setting the separators aside, the primary block is the primary line
      of every codepoint, in order. */
  lemma IconLinesArePrimaries(items: seq<Item>)
    requires AllNonEmpty(items)
    ensures NonBlank(IconLines(items)) == PrimaryLines(items)
  {
    var lines := PrimaryLines(items);
    forall i | 0 <= i < |items|
      ensures PrimaryGroups(items)[i] == Singletons(lines)[i] && lines[i] != ""
    {
      LinesNonEmpty(items[i]);
    }
    assert PrimaryGroups(items) == Singletons(lines);
    LayoutNonBlank(PrimaryGroups(items), IconBreaks(items));
    FlattenSingletons(lines);
  }

  /** Every icon after the first of its codepoint gets exactly one alias
      statement, so the alias block holds `Count - |items|` statements. */
  lemma AliasLineCount(items: seq<Item>)
    requires AllNonEmpty(items)
    ensures |NonBlank(AliasLines(items))| + |items| == Count(items)
  {
    forall i, j | 0 <= i < |items| && 0 <= j < |AliasGroups(items)[i]|
      ensures AliasGroups(items)[i][j] != ""
    {
      LinesNonEmpty(items[i]);
    }
    LayoutNonBlank(AliasGroups(items), AliasBreaks(items));
    AliasFlattenCount(items);
  }

  lemma {:induction false} AliasFlattenCount(items: seq<Item>)
    requires AllNonEmpty(items)
    ensures |Flatten(AliasGroups(items))| + |items| == Count(items)
    decreases |items|
  {
    if |items| > 0 {
      var n := |items| - 1;
      AliasFlattenCount(items[..n]);
      assert AliasGroups(items)[..n] == AliasGroups(items[..n]);
    }
  }

  /** Without aliases the primary block is one line per codepoint plus an
      empty line after every tenth, and the alias block is empty. */
  lemma NoAliasesLayout(items: seq<Item>)
    requires forall i :: 0 <= i < |items| ==> |items[i].1| == 1
    ensures Count(items) == |items|
    ensures |IconLines(items)| == |items| + |items| / 10
    ensures AliasLines(items) == []
  {
    NoAliasesBreaks(items);
    SingleLayoutLength(PrimaryGroups(items));
  }

  lemma {:induction false} NoAliasesBreaks(items: seq<Item>)
    requires forall i :: 0 <= i < |items| ==> |items[i].1| == 1
    ensures Count(items) == |items|
    ensures IconBreaks(items) == EveryTenth(|items|)
    ensures AliasLines(items) == []
    decreases |items|
  {
    if |items| > 0 {
      var n := |items| - 1;
      NoAliasesBreaks(items[..n]);
      AliasLinesSnoc(items);
      assert AliasGroup(items[n]) == [];
    }
  }
}
