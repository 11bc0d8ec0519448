/** The compatibility block: every line of the renamed-icons file that
    matches the directive pattern becomes an alias statement from the old
    icon name to the new one, laid out like the other blocks, with an empty
    line after every tenth statement. */
module Compat {
  import opened Outcomes
  import opened Names
  import opened BackCap
  import opened Templates
  import opened Render

  /** The compatibility statement of a directive, `latex_aliases_pattern`
      filled with the old name in the alias fields and the new name's macro
      in the primary ones: the old name becomes an alias of the new one.
      The directive's comment follows, if any. */
  function CompatStatement(d: Directive): (r: string)
    ensures r == AliasStatement(ToCsnames(d.oldName), ToCsnames(d.newName))
                 + if d.comment == "" then "" else " % " + d.comment
  {
    var oldAlias := ToCsnames(d.oldName);
    var newAlias := ToCsnames(d.newName);
    var fields := map["alias_name" := oldAlias.csname, "primary" := newAlias.macro,
                      "alias_icon" := oldAlias.macro, "primary_icon" := newAlias.macro];
    assert fields == AliasFields(oldAlias, newAlias);
    Format(LatexAliasesPattern, fields) + if d.comment != "" then " % " + d.comment else ""
  }

  lemma CompatStatementNonEmpty(d: Directive)
    ensures CompatStatement(d) != ""
  {
    assert |CompatStatement(d)| >= |AliasStatement(ToCsnames(d.oldName), ToCsnames(d.newName))| > 0;
  }

  /** The matcher's verdict on every line of the compatibility file. */
  function Matches(lines: seq<string>): (r: seq<Option<Directive>>)
    ensures |r| == |lines|
  {
    seq(|lines|, i requires 0 <= i < |lines| => MatchBackCapLine(lines[i]))
  }

  /** The present values, in order. */
  function Somes<T>(opts: seq<Option<T>>): (r: seq<T>)
    ensures |r| <= |opts|
    decreases |opts|
  {
    if |opts| == 0 then []
    else
      Somes(opts[..|opts| - 1]) + Present(opts[|opts| - 1])
  }

  /** The value, if present, as a sequence of at most one element. */
  function Present<T>(o: Option<T>): (r: seq<T>)
    ensures |r| <= 1
  {
    if o.Some? then [o.value] else []
  }

  /** A value is kept exactly when it is present somewhere. */
  lemma {:induction false} SomesMembers<T>(opts: seq<Option<T>>, x: T)
    ensures x in Somes(opts) <==> Some(x) in opts
    decreases |opts|
  {
    if |opts| > 0 {
      var init := opts[..|opts| - 1];
      SomesMembers(init, x);
      assert opts == init + [opts[|opts| - 1]];
    }
  }

  /** The directives of the lines that match, in order. */
  function Directives(lines: seq<string>): (ds: seq<Directive>)
    ensures |ds| <= |lines|
  {
    Somes(Matches(lines))
  }

  /** One more line adds its directive, if it has one. */
  lemma DirectivesSnoc(lines: seq<string>, i: nat)
    requires i < |lines|
    ensures Directives(lines[..i + 1]) == Directives(lines[..i]) + Present(MatchBackCapLine(lines[i]))
  {
    var opts := Matches(lines[..i + 1]);
    assert opts[..i] == Matches(lines[..i]);
    assert opts[i] == MatchBackCapLine(lines[i]);
  }

  /** A directive is kept exactly when some line yields it. */
  lemma DirectivesMembers(lines: seq<string>, d: Directive)
    ensures d in Directives(lines) <==> exists i :: 0 <= i < |lines| && MatchBackCapLine(lines[i]) == Some(d)
  {
    var opts := Matches(lines);
    SomesMembers(opts, d);
    if Some(d) in opts {
      var i :| 0 <= i < |opts| && opts[i] == Some(d);
      assert MatchBackCapLine(lines[i]) == Some(d);
    }
    if exists i :: 0 <= i < |lines| && MatchBackCapLine(lines[i]) == Some(d) {
      var i :| 0 <= i < |lines| && MatchBackCapLine(lines[i]) == Some(d);
      assert opts[i] == Some(d);
    }
  }

  /** The statement of every directive, in order. */
  function CompatStatements(ds: seq<Directive>): (r: seq<string>)
    ensures |r| == |ds|
  {
    seq(|ds|, i requires 0 <= i < |ds| => CompatStatement(ds[i]))
  }

  function CompatLines(ds: seq<Directive>): seq<string> {
    Layout(Singletons(CompatStatements(ds)), EveryTenth(|ds|))
  }

  lemma CompatLinesSnoc(ds: seq<Directive>, d: Directive)
    ensures CompatLines(ds + [d])
      == CompatLines(ds) + ([CompatStatement(d)] + Break((|ds| + 1) % 10 == 0))
  {
    var n := |ds|;
    EveryTenthSnoc(n);
    assert Singletons(CompatStatements(ds + [d]))[..n] == Singletons(CompatStatements(ds));
  }

  /** The text of one more directive extends the block's text. */
  lemma CompatTextSnoc(ds: seq<Directive>, d: Directive, text: string, lineBreak: string)
    requires text == Unlines(CompatLines(ds))
    requires lineBreak == if (|ds| + 1) % 10 == 0 then "\n" else ""
    ensures text + "\n" + CompatStatement(d) + lineBreak == Unlines(CompatLines(ds + [d]))
  {
    CompatLinesSnoc(ds, d);
    UnlinesStep(CompatLines(ds), CompatStatement(d), (|ds| + 1) % 10 == 0, text, lineBreak);
  }

  /** The loop over the lines of the compatibility file. */
  method RenderCompat(lines: seq<string>) returns (text: string, count: nat)
    ensures text == Unlines(CompatLines(Directives(lines)))
    ensures count == |Directives(lines)|
  {
    text, count := "", 0;
    var i := 0;
    while i < |lines|
      invariant 0 <= i <= |lines|
      invariant CompatRendered(lines[..i], text, count)
    {
      var pair := MatchBackCapLine(lines[i]);
      DirectivesSnoc(lines, i);
      text, count := CompatStep(Directives(lines[..i]), pair, text, count);
      i := i + 1;
    }
    assert lines[..i] == lines;
  }

  /** The text and the counter after the loop has seen `lines`. */
  ghost predicate CompatRendered(lines: seq<string>, text: string, count: nat) {
    text == Unlines(CompatLines(Directives(lines))) && count == |Directives(lines)|
  }

  /** One pass of the loop: a line that yields a directive appends its
      statement, and a separator after every tenth; any other line adds
      nothing. */
  method CompatStep(ds: seq<Directive>, pair: Option<Directive>, text: string, count: nat)
    returns (text': string, count': nat)
    requires text == Unlines(CompatLines(ds)) && count == |ds|
    ensures text' == Unlines(CompatLines(ds + Present(pair))) && count' == |ds + Present(pair)|
  {
    if pair.Some? {
      var d := pair.value;
      count' := count + 1;
      var lineBreak := if count' % 10 == 0 then "\n" else "";
      CompatTextSnoc(ds, d, text, lineBreak);
      text' := text + "\n" + CompatStatement(d) + lineBreak;
    } else {
      assert ds + Present(pair) == ds;
      text', count' := text, count;
    }
  }

  /** The compatibility block has one line per directive and an empty
      line after every tenth. */
  lemma CompatLineCount(ds: seq<Directive>)
    ensures |CompatLines(ds)| == |ds| + |ds| / 10
  {
    SingleLayoutLength(Singletons(CompatStatements(ds)));
  }

  /** Setting the separators aside, the compatibility block is the
      statement of every directive, in order. */
  lemma CompatLinesAreStatements(ds: seq<Directive>)
    ensures NonBlank(CompatLines(ds)) == CompatStatements(ds)
  {
    forall i | 0 <= i < |ds|
      ensures CompatStatements(ds)[i] != ""
    {
      CompatStatementNonEmpty(ds[i]);
    }
    LayoutNonBlank(Singletons(CompatStatements(ds)), EveryTenth(|ds|));
    FlattenSingletons(CompatStatements(ds));
  }
}
