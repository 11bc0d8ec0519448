/** The name normaliser `to_csnames`: from a CSS class name such as
    `fa-search-plus` derive the short name `search-plus` and the macro
    name `\faSearchPlus`. */
module Names {
  import opened Ascii

  /** A short name and the public macro that typesets it. */
  datatype Icon = Icon(csname: string, macro: string)

  const MacroPrefix: string := "\\fa"

  /** `name.lower().startswith("fa-")` */
  predicate HasFaPrefix(name: string) {
    "fa-" <= LowerStr(name)
  }

  /** `re.split('-', s)`: the pieces between hyphens, one more piece than
      there are hyphens, empty pieces kept. */
  function SplitHyphens(s: string): (segs: seq<string>)
    ensures |segs| >= 1
    decreases |s|
  {
    if |s| == 0 then [""]
    else
      var rest := SplitHyphens(s[1..]);
      if s[0] == '-' then [""] + rest
      else [[s[0]] + rest[0]] + rest[1..]
  }

  /** Joining the pieces with hyphens gives back the split string, and no
      piece holds a hyphen. */
  lemma {:induction false} SplitJoinRoundTrip(s: string)
    ensures JoinHyphens(SplitHyphens(s)) == s
    ensures forall t :: 0 <= t < |SplitHyphens(s)| ==> '-' !in SplitHyphens(s)[t]
    decreases |s|
  {
    if |s| > 0 {
      SplitJoinRoundTrip(s[1..]);
      var rest := SplitHyphens(s[1..]);
      if s[0] == '-' {
        assert SplitHyphens(s) == [""] + rest;
        assert (SplitHyphens(s))[1..] == rest;
      } else {
        var segs := SplitHyphens(s);
        assert segs == [[s[0]] + rest[0]] + rest[1..];
        assert segs[1..] == rest[1..];
        if |rest| > 1 {
          assert JoinHyphens(rest) == rest[0] + "-" + JoinHyphens(rest[1..]);
          assert ([s[0]] + rest[0]) + ("-" + JoinHyphens(rest[1..]))
              == [s[0]] + (rest[0] + ("-" + JoinHyphens(rest[1..])));
          assert (([s[0]] + rest[0]) + "-") + JoinHyphens(rest[1..])
              == ([s[0]] + rest[0]) + ("-" + JoinHyphens(rest[1..]));
        }
        assert [s[0]] + s[1..] == s;
        forall t | 0 <= t < |segs|
          ensures '-' !in segs[t]
        {
          if t > 0 {
            assert segs[t] == rest[t];
          }
        }
      }
    }
  }

  /** `'-'.join(segs)` */
  function JoinHyphens(segs: seq<string>): string
    requires |segs| >= 1
    decreases |segs|
  {
    if |segs| == 1 then segs[0] else segs[0] + "-" + JoinHyphens(segs[1..])
  }

  /** `''.join(w.title() for w in segs)` */
  function ConcatTitles(segs: seq<string>): string
    decreases |segs|
  {
    if |segs| == 0 then "" else Title(segs[0]) + ConcatTitles(segs[1..])
  }

  /** The macro built from a short name: `\fa` and the title-cased pieces. */
  function MacroName(csname: string): string {
    MacroPrefix + ConcatTitles(SplitHyphens(csname))
  }

  /** `to_csnames`: strip a leading `fa-` in any letter case, otherwise
      keep the name verbatim; the macro is `\fa` followed by the title-cased
      short name with its hyphens dropped. */
  function ToCsnames(name: string): (r: Icon)
    ensures HasFaPrefix(name) ==> |name| >= 3 && name == name[..3] + r.csname
    ensures !HasFaPrefix(name) ==> r.csname == name
    ensures r.macro == MacroPrefix + RemoveHyphens(Title(r.csname))
    ensures '-' !in r.macro
  {
    var csname := if HasFaPrefix(name) then name[3..] else name;
    MacroDropsHyphens(csname);
    Icon(csname, MacroName(csname))
  }

  /** Title-casing the pieces one by one and gluing them together is the
      same as title-casing the whole short name and deleting its hyphens,
      because a hyphen ends a word for `title`. */
  lemma {:induction false} TitledPiecesDropHyphens(s: string, afterLetter: bool)
    ensures TitleFrom(SplitHyphens(s)[0], afterLetter) + ConcatTitles(SplitHyphens(s)[1..])
            == RemoveHyphens(TitleFrom(s, afterLetter))
    decreases |s|
  {
    if |s| == 0 {
      assert SplitHyphens(s) == [""];
    } else if s[0] == '-' {
      TitledPiecesDropHyphens(s[1..], false);
      HyphenStep(s, afterLetter);
    } else {
      TitledPiecesDropHyphens(s[1..], IsLetter(s[0]));
      LetterStep(s, afterLetter);
    }
  }

  /** The step of the induction for a leading hyphen: it opens an empty piece. */
  lemma HyphenStep(s: string, afterLetter: bool)
    requires |s| > 0 && s[0] == '-'
    requires TitleFrom(SplitHyphens(s[1..])[0], false) + ConcatTitles(SplitHyphens(s[1..])[1..])
             == RemoveHyphens(TitleFrom(s[1..], false))
    ensures TitleFrom(SplitHyphens(s)[0], afterLetter) + ConcatTitles(SplitHyphens(s)[1..])
            == RemoveHyphens(TitleFrom(s, afterLetter))
  {
    var tail := s[1..];
    assert s == ['-'] + tail;
    var rest := SplitHyphens(tail);
    var titled := TitleFrom(tail, false);
    TitleFromCons('-', tail, afterLetter);
    assert TitleFrom(s, afterLetter) == ['-'] + titled;
    RemoveHyphensCons('-', titled);
    assert SplitHyphens(s) == [""] + rest;
    assert SplitHyphens(s)[0] == "";
    assert SplitHyphens(s)[1..] == rest;
    assert ConcatTitles(rest) == Title(rest[0]) + ConcatTitles(rest[1..]);
  }

  /** The step of the induction for a leading non-hyphen: it extends the first piece. */
  lemma LetterStep(s: string, afterLetter: bool)
    requires |s| > 0 && s[0] != '-'
    requires TitleFrom(SplitHyphens(s[1..])[0], IsLetter(s[0])) + ConcatTitles(SplitHyphens(s[1..])[1..])
             == RemoveHyphens(TitleFrom(s[1..], IsLetter(s[0])))
    ensures TitleFrom(SplitHyphens(s)[0], afterLetter) + ConcatTitles(SplitHyphens(s)[1..])
            == RemoveHyphens(TitleFrom(s, afterLetter))
  {
    var c, tail := s[0], s[1..];
    assert s == [c] + tail;
    var rest := SplitHyphens(tail);
    var head := if afterLetter then ToLower(c) else ToUpper(c);
    var titled := TitleFrom(tail, IsLetter(c));
    TitleFromCons(c, tail, afterLetter);
    assert TitleFrom(s, afterLetter) == [head] + titled;
    assert head != '-';
    RemoveHyphensCons(head, titled);
    var first := [c] + rest[0];
    SplitCons(c, tail);
    assert SplitHyphens(s)[0] == first;
    assert SplitHyphens(s)[1..] == rest[1..];
    TitleFromCons(c, rest[0], afterLetter);
    var a := TitleFrom(rest[0], IsLetter(c));
    var b := ConcatTitles(rest[1..]);
    assert TitleFrom(first, afterLetter) == [head] + a;
    assert a + b == RemoveHyphens(titled);
    ConcatAssoc([head], a, b);
  }

  /** Regrouping a concatenation.  As a lemma the fact stays a single
      ground equation; asserted inline in `LetterStep` it drowns among the
      facts about `TitleFrom` and `SplitHyphens`. */
  lemma ConcatAssoc<T>(x: seq<T>, y: seq<T>, z: seq<T>)
    ensures (x + y) + z == x + (y + z)
  {
  }

  lemma SplitCons(c: char, tail: string)
    requires c != '-'
    ensures SplitHyphens([c] + tail)[0] == [c] + SplitHyphens(tail)[0]
    ensures SplitHyphens([c] + tail)[1..] == SplitHyphens(tail)[1..]
  {
    assert ([c] + tail)[1..] == tail;
  }

  lemma TitleFromCons(c: char, t: string, afterLetter: bool)
    ensures TitleFrom([c] + t, afterLetter)
            == [if afterLetter then ToLower(c) else ToUpper(c)] + TitleFrom(t, IsLetter(c))
  {
    assert ([c] + t)[1..] == t;
  }

  lemma RemoveHyphensCons(c: char, t: string)
    ensures RemoveHyphens([c] + t) == (if c == '-' then "" else [c]) + RemoveHyphens(t)
  {
    assert ([c] + t)[1..] == t;
  }

  /** The macro name is `\fa` and the title-cased short name without its hyphens. */
  lemma MacroDropsHyphens(csname: string)
    ensures MacroName(csname) == MacroPrefix + RemoveHyphens(Title(csname))
  {
    TitledPiecesDropHyphens(csname, false);
  }

  /** A short name is a fixed point: normalising it again changes nothing,
      and normalising `fa-` followed by it gives the same pair. */
  lemma ShortNameIsFixed(csname: string)
    requires !HasFaPrefix(csname)
    ensures ToCsnames(csname).csname == csname
    ensures ToCsnames("fa-" + csname) == ToCsnames(csname)
  {
    assert LowerStr("fa-" + csname)[..3] == "fa-";
    assert ("fa-" + csname)[3..] == csname;
  }

  /** A name without hyphens is a single piece. */
  lemma {:induction false} SplitWithoutHyphens(a: string)
    requires '-' !in a
    ensures SplitHyphens(a) == [a]
    decreases |a|
  {
    if |a| > 0 {
      SplitWithoutHyphens(a[1..]);
      assert [a[0]] + a[1..] == a;
    }
  }

  /** Splitting at a hyphen splits the two sides independently. */
  lemma {:induction false} SplitAtHyphen(a: string, b: string)
    ensures SplitHyphens(a + "-" + b) == SplitHyphens(a) + SplitHyphens(b)
    decreases |a|
  {
    var whole := a + "-" + b;
    if |a| == 0 {
      assert whole == "-" + b;
      assert whole[1..] == b;
    } else {
      SplitAtHyphen(a[1..], b);
      assert whole[1..] == a[1..] + "-" + b;
      if a[0] == '-' {
        HyphenFirst(whole);
        HyphenFirst(a);
      } else {
        SplitAtHyphenLetter(a, b);
      }
    }
  }

  lemma HyphenFirst(s: string)
    requires |s| > 0 && s[0] == '-'
    ensures SplitHyphens(s) == [""] + SplitHyphens(s[1..])
  {
  }

  lemma LetterFirst(s: string)
    requires |s| > 0 && s[0] != '-'
    ensures SplitHyphens(s) == [[s[0]] + SplitHyphens(s[1..])[0]] + SplitHyphens(s[1..])[1..]
  {
  }

  lemma SplitAtHyphenLetter(a: string, b: string)
    requires |a| > 0 && a[0] != '-'
    requires SplitHyphens(a[1..] + "-" + b) == SplitHyphens(a[1..]) + SplitHyphens(b)
    ensures SplitHyphens(a + "-" + b) == SplitHyphens(a) + SplitHyphens(b)
  {
    var whole := a + "-" + b;
    assert whole[0] == a[0];
    assert whole[1..] == a[1..] + "-" + b;
    LetterFirst(whole);
    LetterFirst(a);
    GrowFirstPiece([a[0]], SplitHyphens(a[1..]), SplitHyphens(b));
  }

  lemma GrowFirstPiece(x: string, left: seq<string>, right: seq<string>)
    requires |left| >= 1
    ensures [x + (left + right)[0]] + (left + right)[1..] == ([x + left[0]] + left[1..]) + right
  {
    assert (left + right)[0] == left[0];
    assert (left + right)[1..] == left[1..] + right;
  }

  /** The macro of a two-piece short name such as `search-plus`. */
  lemma MacroOfTwoPieces(a: string, b: string)
    requires '-' !in a && '-' !in b
    ensures MacroName(a + "-" + b) == MacroPrefix + Title(a) + Title(b)
  {
    SplitAtHyphen(a, b);
    SplitWithoutHyphens(a);
    SplitWithoutHyphens(b);
    assert SplitHyphens(a + "-" + b) == [a, b];
    assert [a, b][1..] == [b];
    assert ConcatTitles([a, b]) == Title(a) + ConcatTitles([b]);
  }
}
