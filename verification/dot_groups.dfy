/**
  Splitting a string on '.' and joining groups back with '.': the shape that both
  anchored regular expressions of src/utils/ip.ts give their input.
*/
module DotGroups {

  const Dot := '.'

  /** The '.'-separated groups of `s`, empty groups included; never an empty list. */
  function Split(s: string): (groups: seq<string>)
    ensures |groups| >= 1
    ensures forall i | 0 <= i < |groups| :: Dot !in groups[i]
  {
    if s == [] then [[]]
    else
      var rest := Split(s[1..]);
      if s[0] == Dot then [[]] + rest
      else [[s[0]] + rest[0]] + rest[1..]
  }

  /** g0 + "." + g1 + "." + ... + gn */
  function Join(groups: seq<string>): string
    requires |groups| >= 1
  {
    if |groups| == 1 then groups[0] else groups[0] + [Dot] + Join(groups[1..])
  }

  predicate NoDots(groups: seq<string>) {
    forall i | 0 <= i < |groups| :: Dot !in groups[i]
  }

  /** Joining the groups of a string gives the string back. */
  lemma {:induction false} JoinSplit(s: string)
    ensures Join(Split(s)) == s
  {
    if s != [] {
      var rest := Split(s[1..]);
      JoinSplit(s[1..]);
      if s[0] == Dot {
        assert Split(s) == [[]] + rest;
        assert Split(s)[1..] == rest;
      } else if |rest| == 1 {
        assert Split(s) == [[s[0]] + rest[0]];
      } else {
        assert Split(s)[1..] == rest[1..];
        assert Join(rest) == rest[0] + [Dot] + Join(rest[1..]);
      }
    }
  }

  lemma {:induction false} SplitWithoutDot(g: string)
    requires Dot !in g
    ensures Split(g) == [g]
  {
    if g != [] {
      assert g[0] != Dot && Dot !in g[1..] by {
        assert g[0] in g;
        assert forall c | c in g[1..] :: c in g;
      }
      SplitWithoutDot(g[1..]);
      assert g == [g[0]] + g[1..];
    }
  }

  /** A '.' splits a string into the groups before it and the groups after it. */
  lemma {:induction false} SplitAtDot(a: string, b: string)
    ensures Split(a + [Dot] + b) == Split(a) + Split(b)
  {
    if a == [] {
      assert a + [Dot] + b == [Dot] + b;
      assert ([Dot] + b)[1..] == b;
    } else {
      assert (a + [Dot] + b)[1..] == a[1..] + [Dot] + b;
      SplitAtDot(a[1..], b);
    }
  }

  /** Splitting groups that hold no '.' after joining them gives the groups back. */
  lemma {:induction false} SplitJoin(groups: seq<string>)
    requires |groups| >= 1 && NoDots(groups)
    ensures Split(Join(groups)) == groups
  {
    if |groups| == 1 {
      SplitWithoutDot(groups[0]);
    } else {
      SplitJoin(groups[1..]);
      SplitAtDot(groups[0], Join(groups[1..]));
      SplitWithoutDot(groups[0]);
      assert groups == [groups[0]] + groups[1..];
    }
  }

  /** The first group is a prefix of the string. */
  lemma {:induction false} FirstGroupIsPrefix(s: string)
    ensures |Split(s)[0]| <= |s| && Split(s)[0] == s[..|Split(s)[0]|]
  {
    if s != [] && s[0] != Dot {
      FirstGroupIsPrefix(s[1..]);
    }
  }

  /** The last group is a suffix of the string. */
  lemma {:induction false} LastGroupIsSuffix(s: string)
    ensures var g := Split(s)[|Split(s)| - 1]; |g| <= |s| && g == s[|s| - |g|..]
  {
    if s != [] {
      LastGroupIsSuffix(s[1..]);
      var rest := Split(s[1..]);
      if s[0] != Dot && |rest| == 1 {
        JoinSplit(s[1..]);
        assert rest[0] == s[1..];
      }
    }
  }

  /** Every character of a joined string is a '.' or a character of one of the groups. */
  lemma {:induction false} JoinCharacters(groups: seq<string>, k: nat)
    requires |groups| >= 1 && k < |Join(groups)|
    ensures Join(groups)[k] == Dot
         || exists i, j | 0 <= i < |groups| && 0 <= j < |groups[i]| :: Join(groups)[k] == groups[i][j]
  {
    if |groups| > 1 && k >= |groups[0]| + 1 {
      var rest := groups[1..];
      JoinCharacters(rest, k - |groups[0]| - 1);
      assert Join(groups)[k] == Join(rest)[k - |groups[0]| - 1];
      if Join(rest)[k - |groups[0]| - 1] != Dot {
        var i, j :| 0 <= i < |rest| && 0 <= j < |rest[i]| && Join(rest)[k - |groups[0]| - 1] == rest[i][j];
        assert groups[i + 1] == rest[i];
      }
    } else if k < |groups[0]| {
      assert Join(groups)[k] == groups[0][k];
    }
  }
}
