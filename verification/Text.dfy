/** The parts of Go's `strings` and `bufio` packages that the agent's text code rests on. */
module Text {
  function TrimLeft(s: string, c: char): string {
    if s != "" && s[0] == c then TrimLeft(s[1..], c) else s
  }

  function TrimRight(s: string, c: char): string {
    if s != "" && s[|s| - 1] == c then TrimRight(s[..|s| - 1], c) else s
  }

  /** `strings.Trim(s, c)` for a one-character cut set. */
  function Trim(s: string, c: char): string {
    TrimRight(TrimLeft(s, c), c)
  }

  /** The position of the first `c`, or the length if there is none. */
  function IndexOf(s: string, c: char): (i: nat)
    ensures i <= |s| && c !in s[..i]
    ensures i < |s| ==> s[i] == c
    ensures i == |s| <==> c !in s
  {
    if s == "" || s[0] == c then 0
    else
      var i := 1 + IndexOf(s[1..], c);
      assert s[..i] == [s[0]] + s[1..][..i - 1] && s == [s[0]] + s[1..];
      i
  }

  /** `strings.Split(s, c)` for a one-character separator. */
  function Split(s: string, c: char): (parts: seq<string>)
    ensures parts != []
    decreases |s|
  {
    var i := IndexOf(s, c);
    if i == |s| then [s] else [s[..i]] + Split(s[i + 1..], c)
  }

  /** `strings.Join(parts, c)`. */
  function Join(parts: seq<string>, c: char): string {
    if parts == [] then ""
    else if |parts| == 1 then parts[0]
    else parts[0] + [c] + Join(parts[1..], c)
  }

  function Count(s: string, c: char): nat {
    if s == "" then 0 else (if s[0] == c then 1 else 0) + Count(s[1..], c)
  }

  lemma {:induction false} IndexOfFirst(s: string, t: string, c: char)
    requires c !in s
    ensures IndexOf(s + [c] + t, c) == |s|
  {
    if s != "" {
      assert (s + [c] + t)[1..] == s[1..] + [c] + t;
      IndexOfFirst(s[1..], t, c);
    }
  }

  /** The first line of a text, and the rest. */
  lemma FirstPart(a: string, c: char, rest: string)
    requires c !in a
    ensures var s := a + [c] + rest;
      IndexOf(s, c) == |a| && s[..|a|] == a && s[|a|] == c && s[|a| + 1..] == rest
  {
    IndexOfFirst(a, rest, c);
    assert (a + [c] + rest)[..|a|] == a;
    assert (a + [c] + rest)[|a| + 1..] == rest;
  }

  lemma {:induction false} IndexOfLeast(s: string, c: char, k: nat)
    requires k < |s| && s[k] == c
    ensures IndexOf(s, c) <= k
  {
    if k > 0 && s[0] != c { IndexOfLeast(s[1..], c, k - 1); }
  }

  /** Splitting undoes joining, for parts that do not hold the separator. */
  lemma {:induction false} SplitJoin(parts: seq<string>, c: char)
    requires parts != [] && forall p | p in parts :: c !in p
    ensures Split(Join(parts, c), c) == parts
  {
    if |parts| == 1 {
      assert parts == [parts[0]];
    } else {
      var rest := Join(parts[1..], c);
      FirstPart(parts[0], c, rest);
      SplitJoin(parts[1..], c);
      assert parts == [parts[0]] + parts[1..];
    }
  }

  lemma JoinFront(part: string, parts: seq<string>, c: char)
    requires parts != []
    ensures Join([part] + parts, c) == part + [c] + Join(parts, c)
  {
    assert ([part] + parts)[1..] == parts;
  }

  /** And joining undoes splitting, for every text. */
  lemma {:induction false} JoinSplit(s: string, c: char)
    ensures Join(Split(s, c), c) == s
    decreases |s|
  {
    var i := IndexOf(s, c);
    if i < |s| {
      var rest := s[i + 1..];
      JoinSplit(rest, c);
      JoinFront(s[..i], Split(rest, c), c);
      assert s == s[..i] + [c] + rest;
    }
  }

  /** No part of a split holds the separator, and nothing is added. */
  lemma {:induction false} SplitParts(s: string, c: char, p: string)
    requires p in Split(s, c)
    ensures c !in p && forall x | x in p :: x in s
    decreases |s|
  {
    var i := IndexOf(s, c);
    if i < |s| && p != s[..i] {
      assert Split(s, c) == [s[..i]] + Split(s[i + 1..], c);
      SplitParts(s[i + 1..], c, p);
    }
  }

  lemma {:induction false} TrimLeftShrinks(s: string, c: char, x: char)
    requires x in TrimLeft(s, c)
    ensures x in s
  {
    if s != "" && s[0] == c { TrimLeftShrinks(s[1..], c, x); }
  }

  lemma {:induction false} TrimRightShrinks(s: string, c: char, x: char)
    requires x in TrimRight(s, c)
    ensures x in s
  {
    if s != "" && s[|s| - 1] == c { TrimRightShrinks(s[..|s| - 1], c, x); }
  }

  lemma {:induction false} TrimLeftEnds(s: string, c: char)
    ensures TrimLeft(s, c) != "" ==> TrimLeft(s, c)[0] != c
  {
    if s != "" && s[0] == c { TrimLeftEnds(s[1..], c); }
  }

  lemma {:induction false} TrimRightEnds(s: string, c: char)
    ensures TrimRight(s, c) <= s && (TrimRight(s, c) != "" ==> TrimRight(s, c)[|TrimRight(s, c)| - 1] != c)
  {
    if s != "" && s[|s| - 1] == c { TrimRightEnds(s[..|s| - 1], c); }
  }

  predicate AllOf(s: string, c: char) {
    forall x | x in s :: x == c
  }

  /** No `c` at either end. */
  predicate Bare(s: string, c: char) {
    s != "" ==> s[0] != c && s[|s| - 1] != c
  }

  lemma {:induction false} TrimLeftCuts(s: string, c: char) returns (x: string)
    ensures AllOf(x, c) && s == x + TrimLeft(s, c)
  {
    x := "";
    if s != "" && s[0] == c {
      var rest := TrimLeftCuts(s[1..], c);
      x := [c] + rest;
      assert s == [s[0]] + s[1..];
    }
  }

  lemma {:induction false} TrimRightCuts(s: string, c: char) returns (y: string)
    ensures AllOf(y, c) && s == TrimRight(s, c) + y
  {
    y := "";
    if s != "" && s[|s| - 1] == c {
      var rest := TrimRightCuts(s[..|s| - 1], c);
      y := rest + [c];
      assert s == s[..|s| - 1] + [s[|s| - 1]];
    }
  }

  lemma Inside(x: string, s: string, y: string, c: char, k: nat)
    requires AllOf(x, c) && AllOf(y, c) && k < |x + s + y| && (x + s + y)[k] != c
    ensures |x| <= k < |x| + |s|
  {
    forall i | 0 <= i < |x| ensures x[i] == c { assert x[i] in x; }
    forall i | 0 <= i < |y| ensures y[i] == c { assert y[i] in y; }
  }

  /** There is only one way to take `c`s off both ends of a text and leave none there. */
  lemma BareIsUnique(x: string, s: string, y: string, u: string, t: string, v: string, c: char)
    requires AllOf(x, c) && AllOf(y, c) && AllOf(u, c) && AllOf(v, c) && Bare(s, c) && Bare(t, c)
    requires x + s + y == u + t + v
    ensures s == t
  {
    var whole := x + s + y;
    if s != "" {
      assert whole[|x|] == s[0] && whole[|x| + |s| - 1] == s[|s| - 1];
      Inside(u, t, v, c, |x|);
      Inside(u, t, v, c, |x| + |s| - 1);
    }
    if t != "" {
      assert whole[|u|] == t[0] && whole[|u| + |t| - 1] == t[|t| - 1];
      Inside(x, s, y, c, |u|);
      Inside(x, s, y, c, |u| + |t| - 1);
    }
    assert s == whole[|x|..|x| + |s|] && t == whole[|u|..|u| + |t|];
  }

  /** Trimming takes every `c` off both ends and nothing else. */
  lemma TrimTakesEnds(s: string, c: char, core: string)
    requires Bare(core, c)
    ensures Trim(s, c) == core <==> exists x, y :: AllOf(x, c) && AllOf(y, c) && s == x + core + y
  {
    var x := TrimLeftCuts(s, c);
    var y := TrimRightCuts(TrimLeft(s, c), c);
    assert s == x + Trim(s, c) + y;
    TrimIsBare(s, c);
    forall u, v | AllOf(u, c) && AllOf(v, c) && s == u + core + v ensures Trim(s, c) == core {
      BareIsUnique(x, Trim(s, c), y, u, core, v, c);
    }
  }

  lemma TrimIsBare(s: string, c: char)
    ensures Bare(Trim(s, c), c)
  {
    TrimLeftEnds(s, c);
    TrimRightEnds(TrimLeft(s, c), c);
  }

  /** Trimming a second time changes nothing. */
  lemma TrimTwice(s: string, c: char)
    ensures Trim(Trim(s, c), c) == Trim(s, c)
  {
    TrimLeftEnds(s, c);
    TrimRightEnds(TrimLeft(s, c), c);
  }

  lemma {:induction false} CountConcat(s: string, t: string, c: char)
    ensures Count(s + t, c) == Count(s, c) + Count(t, c)
  {
    if s == "" {
      assert s + t == t;
    } else {
      assert (s + t)[1..] == s[1..] + t;
      CountConcat(s[1..], t, c);
    }
  }

  lemma {:induction false} CountNone(s: string, c: char)
    requires c !in s
    ensures Count(s, c) == 0
  {
    if s != "" { CountNone(s[1..], c); }
  }

  /** Splitting gives one part more than there are separators. */
  lemma {:induction false} SplitCounts(s: string, c: char)
    ensures |Split(s, c)| == Count(s, c) + 1
    decreases |s|
  {
    var i := IndexOf(s, c);
    var front, back := s[..i], s[i..];
    CountNone(front, c);
    assert s == front + back;
    CountConcat(front, back, c);
    if i < |s| {
      assert back[0] == c && back[1..] == s[i + 1..];
      SplitCounts(s[i + 1..], c);
      assert Count(back, c) == 1 + Count(s[i + 1..], c);
    }
  }
}
