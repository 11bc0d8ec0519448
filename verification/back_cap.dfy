/** The compatibility-line matcher `match_back_cap_line`: a regex search
    for the pattern  \*\s+`(\S+)`\s+->\s+`(\S+)`(.*)[,.](\s+)?  written as
    a direct scanner.  `Shape` states the pattern's language with explicit
    positions; the lemmas show the scanner finds a match exactly when one
    exists, at the leftmost start, and picks the groups that the regex
    engine's greedy backtracking picks. */
module BackCap {
  import opened Ascii
  import opened Outcomes

  /** The three groups of a match: old name, new name and trailing comment. */
  datatype Directive = Directive(oldName: string, newName: string, comment: string)

  predicate IsPunct(c: char) { c == ',' || c == '.' }

  ghost predicate AllSpace(s: string, lo: int, hi: int)
    requires 0 <= lo <= hi <= |s|
  {
    forall t :: lo <= t < hi ==> IsSpace(s[t])
  }

  ghost predicate NoSpace(s: string, lo: int, hi: int)
    requires 0 <= lo <= hi <= |s|
  {
    forall t :: lo <= t < hi ==> !IsSpace(s[t])
  }

  ghost predicate NoNewline(s: string, lo: int, hi: int)
    requires 0 <= lo <= hi <= |s|
  {
    forall t :: lo <= t < hi ==> s[t] != '\n'
  }

  /** The part `*\s+`(\S+)`` of the pattern matches from index `i`:
      `*` at i, whitespace up to the opening backtick at k, and the old
      name s[k+1..e] up to the closing backtick at e. */
  ghost predicate OldPart(s: string, i: int, k: int, e: int) {
    && 0 <= i && i + 1 < k && k + 1 < e < |s|
    && s[i] == '*'
    && AllSpace(s, i + 1, k) && s[k] == '`'
    && NoSpace(s, k + 1, e) && s[e] == '`'
  }

  /** The part `\s+->\s+`` of the pattern matches after index `e`: the
      arrow at m and the new name's opening backtick at c. */
  ghost predicate ArrowPart(s: string, e: int, m: int, c: int) {
    && 0 <= e && e + 1 < m && m + 2 < c < |s|
    && AllSpace(s, e + 1, m) && s[m] == '-' && s[m + 1] == '>'
    && AllSpace(s, m + 2, c) && s[c] == '`'
  }

  /** The part `(\S+)`(.*)[,.]` of the pattern matches after the opening
      backtick at `c`: the new name s[c+1..b] up to the closing backtick at
      b, then the comment s[b+1..q], which holds no newline (`.` does not
      match one), before the `,` or `.` at q. */
  ghost predicate NamePart(s: string, c: int, b: int, q: int) {
    && 0 <= c && c + 1 < b < q < |s|
    && NoSpace(s, c + 1, b) && s[b] == '`'
    && NoNewline(s, b + 1, q) && IsPunct(s[q])
  }

  ghost predicate NewPart(s: string, e: int, m: int, c: int, b: int, q: int) {
    ArrowPart(s, e, m, c) && NamePart(s, c, b, q)
  }

  /** The whole pattern matches from index `i` with its pieces at these
      positions; the trailing `(\s+)?` always matches. */
  ghost predicate Shape(s: string, i: int, k: int, e: int, m: int, c: int, b: int, q: int) {
    OldPart(s, i, k, e) && NewPart(s, e, m, c, b, q)
  }

  /** Among the matches from index `i`, the regex engine's backtracking
      order takes the one whose new name is longest and, for it, the
      longest comment. */
  ghost predicate Greediest(s: string, c: int, b: int, q: int) {
    forall b', q' :: NamePart(s, c, b', q') ==> b' <= b && q' <= q
  }

  /** The first index at or after `j` that is not whitespace. */
  function SkipSpace(s: string, j: nat): (k: nat)
    requires j <= |s|
    ensures j <= k <= |s|
    ensures forall t :: j <= t < k ==> IsSpace(s[t])
    ensures k < |s| ==> !IsSpace(s[k])
    decreases |s| - j
  {
    if j == |s| || !IsSpace(s[j]) then j else SkipSpace(s, j + 1)
  }

  /** The first whitespace index at or after `j`. */
  function TokenEnd(s: string, j: nat): (k: nat)
    requires j <= |s|
    ensures j <= k <= |s|
    ensures forall t :: j <= t < k ==> !IsSpace(s[t])
    ensures k < |s| ==> IsSpace(s[k])
    decreases |s| - j
  {
    if j == |s| || IsSpace(s[j]) then j else TokenEnd(s, j + 1)
  }

  /** The first newline index at or after `j`. */
  function LineEnd(s: string, j: nat): (k: nat)
    requires j <= |s|
    ensures j <= k <= |s|
    ensures forall t :: j <= t < k ==> s[t] != '\n'
    ensures k < |s| ==> s[k] == '\n'
    decreases |s| - j
  {
    if j == |s| || s[j] == '\n' then j else LineEnd(s, j + 1)
  }

  /** The last index in [lo, hi) whose character is in `chars`. */
  function LastIn(s: string, lo: nat, hi: nat, chars: set<char>): (r: Option<nat>)
    requires hi <= |s|
    ensures r.Some? ==> lo <= r.value < hi && s[r.value] in chars
    ensures r.Some? ==> forall t :: r.value < t < hi ==> s[t] !in chars
    ensures r.None? ==> forall t :: lo <= t < hi ==> s[t] !in chars
    decreases hi
  {
    if hi <= lo then None
    else if s[hi - 1] in chars then Some(hi - 1)
    else LastIn(s, lo, hi - 1, chars)
  }

  function Min(x: nat, y: nat): nat { if x <= y then x else y }

  /** The part `*\s+`(\S+)`` of the pattern, from the `*` at index `i`:
      the positions (k, e) of the backticks around the old name.  The
      old name ends at the last character of its non-space run, which
      must be a backtick followed by whitespace. */
  function OldGroup(s: string, i: nat): (r: Option<(nat, nat)>)
    requires i < |s|
    ensures r.Some? ==> i + 1 < r.value.0 && r.value.0 + 1 < r.value.1 < |s|
  {
    if s[i] != '*' then None
    else
      var k := SkipSpace(s, i + 1);
      if k == i + 1 || k == |s| || s[k] != '`' then None
      else
        var e1 := TokenEnd(s, k + 1);
        if e1 < k + 3 || e1 == |s| || s[e1 - 1] != '`' then None
        else Some((k, e1 - 1))
  }

  /** The part `\s+->\s+`` of the pattern, after the old name's closing
      backtick at `e`: the positions (m, c) of the arrow and of the new
      name's opening backtick. */
  function Arrow(s: string, e: nat): (r: Option<(nat, nat)>)
    requires e < |s|
    ensures r.Some? ==> e + 1 < r.value.0 && r.value.0 + 2 < r.value.1 < |s|
  {
    var m := SkipSpace(s, e + 1);
    if m == e + 1 || m + 1 >= |s| || s[m] != '-' || s[m + 1] != '>' then None
    else
      var c := SkipSpace(s, m + 2);
      if c == m + 2 || c == |s| || s[c] != '`' then None
      else Some((m, c))
  }

  /** The part `(\S+)`(.*)[,.]` of the pattern, after the new name's
      opening backtick at `c`: the positions (b, q) of its closing backtick
      and of the final `,` or `.`.  The comment runs up to the last `,` or
      `.` of the line, and the closing backtick is the greatest backtick
      of the non-space run after `c` that lies before it. */
  function NameAndComment(s: string, c: nat): (r: Option<(nat, nat)>)
    requires c < |s|
    ensures r.Some? ==> c + 1 < r.value.0 < r.value.1 < |s|
  {
    var e2 := TokenEnd(s, c + 1);
    var n := LineEnd(s, c + 1);
    match LastIn(s, c + 3, n, {',', '.'})
    case None => None
    case Some(q) =>
      match LastIn(s, c + 2, Min(e2, q), {'`'})
      case None => None
      case Some(b) => Some((b, q))
  }

  /** The match that starts at index `i`, if any. */
  function MatchAt(s: string, i: nat): Option<Directive> {
    if i >= |s| then None
    else
      match OldGroup(s, i)
      case None => None
      case Some((k, e)) =>
        match Arrow(s, e)
        case None => None
        case Some((m, c)) =>
          match NameAndComment(s, c)
          case None => None
          case Some((b, q)) => Some(Directive(s[k + 1..e], s[c + 1..b], s[b + 1..q]))
  }

  lemma OldGroupSound(s: string, i: nat)
    requires i < |s| && OldGroup(s, i).Some?
    ensures OldPart(s, i, OldGroup(s, i).value.0, OldGroup(s, i).value.1)
    ensures OldGroup(s, i).value.1 + 1 < |s| && IsSpace(s[OldGroup(s, i).value.1 + 1])
  {
  }

  lemma OldGroupComplete(s: string, i: nat, k: nat, e: nat)
    requires OldPart(s, i, k, e) && e + 1 < |s| && IsSpace(s[e + 1])
    ensures OldGroup(s, i) == Some((k, e))
  {
    assert SkipSpace(s, i + 1) == k;
    assert TokenEnd(s, k + 1) == e + 1;
  }

  lemma ArrowSound(s: string, e: nat)
    requires e < |s| && Arrow(s, e).Some?
    ensures ArrowPart(s, e, Arrow(s, e).value.0, Arrow(s, e).value.1)
  {
  }

  lemma ArrowComplete(s: string, e: nat, m: nat, c: nat)
    requires ArrowPart(s, e, m, c)
    ensures Arrow(s, e) == Some((m, c))
  {
    assert SkipSpace(s, e + 1) == m;
    assert SkipSpace(s, m + 2) == c;
  }

  lemma NameAndCommentSound(s: string, c: nat)
    requires c < |s| && NameAndComment(s, c).Some?
    ensures NamePart(s, c, NameAndComment(s, c).value.0, NameAndComment(s, c).value.1)
    ensures Greediest(s, c, NameAndComment(s, c).value.0, NameAndComment(s, c).value.1)
  {
    var (b, q) := NameAndComment(s, c).value;
    var e2 := TokenEnd(s, c + 1);
    var n := LineEnd(s, c + 1);
    assert LastIn(s, c + 3, n, {',', '.'}) == Some(q);
    assert LastIn(s, c + 2, Min(e2, q), {'`'}) == Some(b);
    forall b', q' | NamePart(s, c, b', q')
      ensures b' <= b && q' <= q
    {
      NamePartBounds(s, c, b', q');
      assert s[q'] in {',', '.'};
      assert s[b'] in {'`'};
    }
  }

  /** Any match of the new-name part lies inside the non-space run after
      the opening backtick and ends before the end of the line. */
  lemma NamePartBounds(s: string, c: nat, b: nat, q: nat)
    requires NamePart(s, c, b, q)
    ensures b < TokenEnd(s, c + 1)
    ensures q < LineEnd(s, c + 1)
  {
    assert !IsSpace(s[b]);
    assert forall t :: c + 1 <= t <= q ==> s[t] != '\n';
  }

  lemma NameAndCommentComplete(s: string, c: nat, b: nat, q: nat)
    requires NamePart(s, c, b, q)
    ensures NameAndComment(s, c).Some?
  {
    NamePartBounds(s, c, b, q);
    var e2 := TokenEnd(s, c + 1);
    var n := LineEnd(s, c + 1);
    var lastPunct := LastIn(s, c + 3, n, {',', '.'});
    assert s[q] in {',', '.'};
    assert lastPunct.Some?;
    assert s[b] in {'`'};
    assert LastIn(s, c + 2, Min(e2, lastPunct.value), {'`'}).Some?;
  }

  /** Whatever `MatchAt` returns is a match of the pattern from `i`, the
      one the regex engine's backtracking picks. */
  lemma MatchAtSound(s: string, i: nat)
    requires MatchAt(s, i).Some?
    ensures exists k, e, m, c, b, q ::
      && Shape(s, i, k, e, m, c, b, q)
      && Greediest(s, c, b, q)
      && MatchAt(s, i).value == Directive(s[k + 1..e], s[c + 1..b], s[b + 1..q])
  {
    var (k, e) := OldGroup(s, i).value;
    OldGroupSound(s, i);
    var (m, c) := Arrow(s, e).value;
    ArrowSound(s, e);
    var (b, q) := NameAndComment(s, c).value;
    NameAndCommentSound(s, c);
    assert Shape(s, i, k, e, m, c, b, q);
  }

  /** Whenever the pattern matches from `i`, `MatchAt` finds a match there. */
  lemma MatchAtComplete(s: string, i: nat, k: nat, e: nat, m: nat, c: nat, b: nat, q: nat)
    requires Shape(s, i, k, e, m, c, b, q)
    ensures MatchAt(s, i).Some?
  {
    assert IsSpace(s[e + 1]);
    OldGroupComplete(s, i, k, e);
    ArrowComplete(s, e, m, c);
    NameAndCommentComplete(s, c, b, q);
  }

  /** The match at every start index of `s`. */
  function Hits(s: string): (h: seq<Option<Directive>>)
    ensures |h| == |s|
  {
    seq(|s|, j requires 0 <= j < |s| => MatchAt(s, j))
  }

  /** The first hit at or after index `i`, tried from left to right as a
      regex search tries its start positions. */
  function FirstHit<T>(hits: seq<Option<T>>, i: nat): Option<T>
    decreases |hits| - i
  {
    if i >= |hits| then None
    else if hits[i].Some? then hits[i]
    else FirstHit(hits, i + 1)
  }

  /** `FirstHit` returns the hit at the first index that has one. */
  lemma {:induction false} FirstHitIsFirst<T>(hits: seq<Option<T>>, i: nat)
    ensures FirstHit(hits, i).Some? ==>
      exists j :: i <= j < |hits| && hits[j] == FirstHit(hits, i)
                  && forall t :: i <= t < j ==> hits[t].None?
    ensures FirstHit(hits, i).None? ==> forall t :: i <= t < |hits| ==> hits[t].None?
    decreases |hits| - i
  {
    if i < |hits| && hits[i].None? {
      FirstHitIsFirst(hits, i + 1);
    }
  }

  /** A search from the start of the line returns the match at the first
      start index that has one. */
  lemma SearchFindsFirst(s: string)
    ensures FirstHit(Hits(s), 0).Some? ==>
      exists j :: 0 <= j < |s| && MatchAt(s, j) == FirstHit(Hits(s), 0) && NoMatchBetween(s, 0, j)
    ensures FirstHit(Hits(s), 0).None? ==> NoMatchBetween(s, 0, |s|)
  {
    var hits := Hits(s);
    FirstHitIsFirst(hits, 0);
    if FirstHit(hits, 0).Some? {
      var j :| 0 <= j < |hits| && hits[j] == FirstHit(hits, 0) && forall t :: 0 <= t < j ==> hits[t].None?;
      assert MatchAt(s, j) == hits[j];
      assert NoMatchBetween(s, 0, j) by {
        forall t | 0 <= t < j
          ensures MatchAt(s, t).None?
        {
          assert hits[t] == MatchAt(s, t);
        }
      }
    } else {
      forall t | 0 <= t < |s|
        ensures MatchAt(s, t).None?
      {
        assert hits[t] == MatchAt(s, t);
      }
    }
  }

  /** No start index in [lo, hi) has a match. */
  ghost predicate NoMatchBetween(s: string, lo: nat, hi: nat) {
    forall t :: lo <= t < hi ==> MatchAt(s, t).None?
  }

  /** `match_back_cap_line`: the groups of the regex search, or None.  As
      `re.search` does, it returns the match at the first start index
      where the pattern matches, and None when there is no such index. */
  function MatchBackCapLine(line: string): (r: Option<Directive>)
    ensures r.Some? ==> exists j :: 0 <= j < |line| && MatchAt(line, j) == r && NoMatchBetween(line, 0, j)
    ensures r.None? ==> NoMatchBetween(line, 0, |line|)
  {
    SearchFindsFirst(line);
    FirstHit(Hits(line), 0)
  }

  /** No match of the pattern starts before index `i`. */
  ghost predicate NoShapeBefore(s: string, i: int) {
    forall i', k, e, m, c, b, q :: Shape(s, i', k, e, m, c, b, q) ==> i <= i'
  }

  lemma NoMatchMeansNoShape(line: string)
    requires MatchBackCapLine(line).None?
    ensures forall i, k, e, m, c, b, q :: !Shape(line, i, k, e, m, c, b, q)
  {
    forall i, k, e, m, c, b, q | Shape(line, i, k, e, m, c, b, q)
      ensures false
    {
      MatchAtComplete(line, i, k, e, m, c, b, q);
    }
  }

  /** The match found at `j`, when nothing matches before `j`, is the
      leftmost match of the pattern and its greediest choice of groups. */
  lemma LeftmostMatchAt(s: string, j: nat)
    requires MatchAt(s, j).Some? && NoMatchBetween(s, 0, j)
    ensures exists i, k, e, m, c, b, q ::
      && Shape(s, i, k, e, m, c, b, q)
      && NoShapeBefore(s, i)
      && Greediest(s, c, b, q)
      && MatchAt(s, j).value == Directive(s[k + 1..e], s[c + 1..b], s[b + 1..q])
  {
    MatchAtSound(s, j);
    var k, e, m, c, b, q :|
      && Shape(s, j, k, e, m, c, b, q)
      && Greediest(s, c, b, q)
      && MatchAt(s, j).value == Directive(s[k + 1..e], s[c + 1..b], s[b + 1..q]);
    forall i', k', e', m', c', b', q' | Shape(s, i', k', e', m', c', b', q')
      ensures j <= i'
    {
      if i' < j {
        MatchAtComplete(s, i', k', e', m', c', b', q');
      }
    }
    assert NoShapeBefore(s, j);
  }

  /** `match_back_cap_line` returns None exactly when no part of the line
      matches the pattern; otherwise it returns the groups of the leftmost
      match, with the longest new name and comment the pattern allows. */
  lemma MatchBackCapLineSpec(line: string)
    ensures MatchBackCapLine(line).None? <==> forall i, k, e, m, c, b, q :: !Shape(line, i, k, e, m, c, b, q)
    ensures MatchBackCapLine(line).Some? ==>
      exists i, k, e, m, c, b, q ::
        && Shape(line, i, k, e, m, c, b, q)
        && NoShapeBefore(line, i)
        && Greediest(line, c, b, q)
        && MatchBackCapLine(line).value == Directive(line[k + 1..e], line[c + 1..b], line[b + 1..q])
  {
    var r := MatchBackCapLine(line);
    if r.None? {
      NoMatchMeansNoShape(line);
    } else {
      var j :| 0 <= j < |line| && MatchAt(line, j) == r && NoMatchBetween(line, 0, j);
      LeftmostMatchAt(line, j);
    }
  }

  /** A directive's names are non-empty and free of whitespace, and its
      comment holds no newline. */
  ghost predicate Tokens(d: Directive) {
    && |d.oldName| > 0 && |d.newName| > 0
    && (forall t :: 0 <= t < |d.oldName| ==> !IsSpace(d.oldName[t]))
    && (forall t :: 0 <= t < |d.newName| ==> !IsSpace(d.newName[t]))
    && '\n' !in d.comment
  }

  lemma TokensAt(s: string, j: nat)
    requires MatchAt(s, j).Some?
    ensures Tokens(MatchAt(s, j).value)
  {
    MatchAtSound(s, j);
    var k, e, m, c, b, q :|
      && Shape(s, j, k, e, m, c, b, q)
      && Greediest(s, c, b, q)
      && MatchAt(s, j).value == Directive(s[k + 1..e], s[c + 1..b], s[b + 1..q]);
    var d := MatchAt(s, j).value;
    forall t | 0 <= t < |d.oldName|
      ensures !IsSpace(d.oldName[t])
    {
      assert d.oldName[t] == s[k + 1 + t];
    }
    forall t | 0 <= t < |d.newName|
      ensures !IsSpace(d.newName[t])
    {
      assert d.newName[t] == s[c + 1 + t];
    }
    forall t | 0 <= t < |d.comment|
      ensures d.comment[t] != '\n'
    {
      assert d.comment[t] == s[b + 1 + t];
    }
  }

  /** The names are the backtick-quoted tokens, non-empty and free of
      whitespace; the comment never spans a newline. */
  lemma DirectiveTokens(line: string)
    ensures MatchBackCapLine(line).Some? ==> Tokens(MatchBackCapLine(line).value)
  {
    var r := MatchBackCapLine(line);
    if r.Some? {
      var j :| 0 <= j < |line| && MatchAt(line, j) == r && NoMatchBetween(line, 0, j);
      TokensAt(line, j);
    }
  }
}
