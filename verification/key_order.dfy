/** `sorted(hex_dict.keys())`: the codepoint literals in the order of
    byte strings, character by character, a proper prefix first. */
module KeyOrder {

  /** Lexicographic order on character codes; a proper prefix is smaller. */
  predicate Less(a: string, b: string)
    decreases |a|
  {
    if |a| == 0 then |b| > 0
    else if |b| == 0 then false
    else a[0] < b[0] || (a[0] == b[0] && Less(a[1..], b[1..]))
  }

  /** `a` and `b` agree before index `k` and differ there, `a` having the
      smaller character. */
  ghost predicate FirstDifferenceAt(a: string, b: string, k: nat) {
    k < |a| && k < |b| && a[..k] == b[..k] && a[k] < b[k]
  }

  /** `Less` is the order in which `sorted` puts byte strings: at the first
      position where they differ the smaller character comes first, and a
      proper prefix comes before the longer string. */
  lemma {:induction false} LessIsLexicographic(a: string, b: string)
    ensures Less(a, b) <==> (exists k: nat :: FirstDifferenceAt(a, b, k)) || (|a| < |b| && a == b[..|a|])
    decreases |a|
  {
    if |a| > 0 && |b| > 0 {
      var a', b' := a[1..], b[1..];
      LessIsLexicographic(a', b');
      if a[0] == b[0] {
        assert a == [a[0]] + a' && b == [b[0]] + b';
        forall k: nat | FirstDifferenceAt(a', b', k)
          ensures FirstDifferenceAt(a, b, k + 1)
        {
          assert a[..k + 1] == [a[0]] + a'[..k] && b[..k + 1] == [b[0]] + b'[..k];
        }
        forall k: nat | FirstDifferenceAt(a, b, k)
          ensures k > 0 && FirstDifferenceAt(a', b', k - 1)
        {
          assert a'[..k - 1] == a[1..k] && b'[..k - 1] == b[1..k];
        }
        if |a| < |b| {
          assert b[..|a|] == [b[0]] + b'[..|a'|];
          assert a == b[..|a|] <==> a' == b'[..|a'|];
        }
      } else {
        if a[0] < b[0] {
          assert FirstDifferenceAt(a, b, 0);
        }
        assert forall k: nat :: FirstDifferenceAt(a, b, k) ==> k == 0;
        assert |a| < |b| ==> b[..|a|][0] == b[0];
      }
    }
  }

  lemma {:induction false} LessIrreflexive(a: string)
    ensures !Less(a, a)
    decreases |a|
  {
    if |a| > 0 {
      LessIrreflexive(a[1..]);
    }
  }

  lemma {:induction false} LessTransitive(a: string, b: string, c: string)
    requires Less(a, b) && Less(b, c)
    ensures Less(a, c)
    decreases |a|
  {
    if |a| > 0 && a[0] == b[0] && b[0] == c[0] {
      LessTransitive(a[1..], b[1..], c[1..]);
    }
  }

  /** Any two different strings are ordered one way or the other. */
  lemma {:induction false} LessTotal(a: string, b: string)
    requires a != b
    ensures Less(a, b) || Less(b, a)
    decreases |a|
  {
    if |a| > 0 && |b| > 0 && a[0] == b[0] {
      assert a == [a[0]] + a[1..] && b == [b[0]] + b[1..];
      LessTotal(a[1..], b[1..]);
    }
  }

  lemma {:induction false} LessAsymmetric(a: string, b: string)
    requires Less(a, b)
    ensures !Less(b, a)
    decreases |a|
  {
    if |a| > 0 && a[0] == b[0] {
      LessAsymmetric(a[1..], b[1..]);
    }
  }

  ghost predicate StrictlySorted(s: seq<string>) {
    forall i, j :: 0 <= i < j < |s| ==> Less(s[i], s[j])
  }

  /** Put `x` into its place in a strictly sorted sequence, unless it is
      already there. */
  function Insert(s: seq<string>, x: string): (r: seq<string>)
    requires StrictlySorted(s)
    ensures StrictlySorted(r)
    ensures forall y :: y in r <==> y in s || y == x
    ensures |r| == if x in s then |s| else |s| + 1
    decreases |s|
  {
    if |s| == 0 then [x]
    else if Less(x, s[0]) then
      InsertFront(s, x);
      [x] + s
    else if x == s[0] then s
    else
      LessTotal(x, s[0]);
      var rest := Insert(s[1..], x);
      assert x !in s[..1];
      assert x in s <==> x in s[1..] by { assert s == s[..1] + s[1..]; }
      forall y | y in rest
        ensures Less(s[0], y)
      {
        if y != x {
          var j :| 0 <= j < |s[1..]| && s[1..][j] == y;
          assert s[1 + j] == y;
        }
      }
      [s[0]] + rest
  }

  lemma InsertFront(s: seq<string>, x: string)
    requires StrictlySorted(s) && |s| > 0 && Less(x, s[0])
    ensures StrictlySorted([x] + s)
    ensures x !in s
  {
    forall j | 0 <= j < |s|
      ensures Less(x, s[j])
    {
      if j > 0 {
        LessTransitive(x, s[0], s[j]);
      }
    }
    forall y | y in s
      ensures y != x
    {
      if y == x {
        var j :| 0 <= j < |s| && s[j] == y;
        LessIrreflexive(x);
      }
    }
  }

  /** `x` is the least element of `s`. */
  ghost predicate IsLeast(x: string, s: set<string>) {
    x in s && forall y :: y in s && y != x ==> Less(x, y)
  }

  /** Every non-empty set of strings has a least element. */
  lemma {:induction false} LeastExists(s: set<string>)
    requires s != {}
    ensures exists x :: IsLeast(x, s)
    decreases |s|
  {
    var z :| z in s;
    if s - {z} == {} {
      assert s == {z} by {
        forall y | y in s
          ensures y == z
        {
          assert y !in s - {z};
        }
      }
      assert IsLeast(z, s);
    } else {
      LeastExists(s - {z});
      var x :| IsLeast(x, s - {z});
      if Less(x, z) {
        assert IsLeast(x, s);
      } else {
        LessTotal(x, z);
        forall y | y in s && y != z
          ensures Less(z, y)
        {
          if y != x {
            LessTransitive(z, x, y);
          }
        }
        assert IsLeast(z, s);
      }
    }
  }

  /** The reference order of a set: its least element, then the rest in
      order. */
  ghost function SortedSet(s: set<string>): (r: seq<string>)
    ensures StrictlySorted(r)
    ensures forall y :: y in r <==> y in s
    ensures |r| == |s|
    decreases |s|
  {
    if s == {} then []
    else
      LeastExists(s);
      var x :| IsLeast(x, s);
      var rest := SortedSet(s - {x});
      assert forall j :: 0 <= j < |rest| ==> rest[j] in s - {x};
      [x] + rest
  }

  /** The keys of the table in ascending order, each once. */
  method SortKeys(keys: set<string>) returns (r: seq<string>)
    ensures StrictlySorted(r)
    ensures forall y :: y in r <==> y in keys
    ensures |r| == |keys|
    ensures r == SortedSet(keys)
  {
    r := [];
    var rest := keys;
    while rest != {}
      invariant StrictlySorted(r)
      invariant rest <= keys
      invariant forall y :: y in r <==> y in keys && y !in rest
      invariant |r| + |rest| == |keys|
      decreases |rest|
    {
      var x :| x in rest;
      r := Insert(r, x);
      rest := rest - {x};
    }
    SortedUnique(r, SortedSet(keys));
  }

  /** A strictly sorted sequence is the only arrangement of its elements:
      two strictly sorted sequences with the same elements are equal. */
  lemma {:induction false} SortedUnique(a: seq<string>, b: seq<string>)
    requires StrictlySorted(a) && StrictlySorted(b)
    requires forall y :: y in a <==> y in b
    ensures a == b
    decreases |a|
  {
    assert |a| > 0 ==> a[0] in a;
    assert |b| > 0 ==> b[0] in b;
    if |a| > 0 && |b| > 0 {
      if a[0] != b[0] {
        LessTotal(a[0], b[0]);
        SmallestIsFirst(a, b);
      }
      assert a[0] == b[0];
      TailSameElements(a, b);
      SortedUnique(a[1..], b[1..]);
      assert a == [a[0]] + a[1..] && b == [b[0]] + b[1..];
    }
  }

  lemma SmallestIsFirst(a: seq<string>, b: seq<string>)
    requires StrictlySorted(a) && StrictlySorted(b) && |a| > 0 && |b| > 0
    requires forall y :: y in a <==> y in b
    ensures a[0] == b[0]
  {
    assert a[0] in a && b[0] in b;
    var i :| 0 <= i < |b| && b[i] == a[0];
    var j :| 0 <= j < |a| && a[j] == b[0];
    if i > 0 && j > 0 {
      LessAsymmetric(b[0], a[0]);
    } else if i > 0 {
      LessIrreflexive(a[0]);
    }
  }

  lemma TailSameElements(a: seq<string>, b: seq<string>)
    requires StrictlySorted(a) && StrictlySorted(b) && |a| > 0 && |b| > 0 && a[0] == b[0]
    requires forall y :: y in a <==> y in b
    ensures forall y :: y in a[1..] <==> y in b[1..]
  {
    forall y | y in a[1..]
      ensures y in b[1..]
    {
      var j :| 1 <= j < |a| && a[j] == y;
      assert y in a;
      var i :| 0 <= i < |b| && b[i] == y;
      if i == 0 {
        LessIrreflexive(y);
      }
      assert b[1..][i - 1] == y;
    }
    forall y | y in b[1..]
      ensures y in a[1..]
    {
      var j :| 1 <= j < |b| && b[j] == y;
      assert y in b;
      var i :| 0 <= i < |a| && a[i] == y;
      if i == 0 {
        LessIrreflexive(y);
      }
      assert a[1..][i - 1] == y;
    }
  }
}
