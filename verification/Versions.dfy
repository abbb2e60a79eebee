/** Version precedence (section 11 of Semantic Versioning 2.0.0) and the order it puts on
    the names of releases. Build metadata takes no part in precedence and is not kept, so
    two different names can have the same version. */
module Versions {
  datatype Option<+T> = None | Some(value: T)

  type Name = string

  /** The content of a file, a response or a request. */
  type Bytes = string

  /** What `semver.Parse` answers for a name: None stands for its error. */
  type Parser = Name -> Option<Version>

  datatype Identifier = Numeric(n: nat) | Alpha(text: string)

  datatype Version = Version(major: nat, minor: nat, patch: nat, pre: seq<Identifier>)

  const ZERO := Version(0, 0, 0, [])

  function CompareNat(a: nat, b: nat): int {
    if a < b then -1 else if a == b then 0 else 1
  }

  function CompareChar(a: char, b: char): int {
    CompareNat(a as nat, b as nat)
  }

  /** Element by element; when one list runs out first, it is the smaller one. */
  function CompareSeq<T>(compare: (T, T) -> int, a: seq<T>, b: seq<T>): int {
    if a == [] && b == [] then 0
    else if a == [] then -1
    else if b == [] then 1
    else if compare(a[0], b[0]) != 0 then compare(a[0], b[0])
    else CompareSeq(compare, a[1..], b[1..])
  }

  function CompareIdentifier(a: Identifier, b: Identifier): int {
    match (a, b)
    case (Numeric(m), Numeric(n)) => CompareNat(m, n)
    case (Numeric(_), Alpha(_)) => -1
    case (Alpha(_), Numeric(_)) => 1
    case (Alpha(s), Alpha(t)) => CompareSeq(CompareChar, s, t)
  }

  function Compare(a: Version, b: Version): int {
    if a.major != b.major then CompareNat(a.major, b.major)
    else if a.minor != b.minor then CompareNat(a.minor, b.minor)
    else if a.patch != b.patch then CompareNat(a.patch, b.patch)
    else if a.pre == [] && b.pre == [] then 0
    else if a.pre == [] then 1
    else if b.pre == [] then -1
    else CompareSeq(CompareIdentifier, a.pre, b.pre)
  }

  /** The comparison is the sign function of a total order. */
  ghost predicate Ordering<T(!new)>(compare: (T, T) -> int) {
    && (forall x, y :: compare(x, y) == -compare(y, x))
    && (forall x, y :: compare(x, y) == 0 <==> x == y)
    && (forall x, y, z :: compare(x, y) < 0 && compare(y, z) < 0 ==> compare(x, z) < 0)
  }

  lemma {:induction false} SeqReverse<T(!new)>(compare: (T, T) -> int, a: seq<T>, b: seq<T>)
    requires Ordering(compare)
    ensures CompareSeq(compare, a, b) == -CompareSeq(compare, b, a)
    ensures CompareSeq(compare, a, b) == 0 <==> a == b
  {
    if a != [] && b != [] {
      SeqReverse(compare, a[1..], b[1..]);
      assert a == [a[0]] + a[1..] && b == [b[0]] + b[1..];
    }
  }

  lemma {:induction false} SeqTransitive<T(!new)>(compare: (T, T) -> int, a: seq<T>, b: seq<T>, c: seq<T>)
    requires Ordering(compare)
    requires CompareSeq(compare, a, b) < 0 && CompareSeq(compare, b, c) < 0
    ensures CompareSeq(compare, a, c) < 0
  {
    if a != [] && b != [] && c != [] && a[0] == b[0] == c[0] {
      SeqTransitive(compare, a[1..], b[1..], c[1..]);
    }
  }

  lemma IdentifierReverse(a: Identifier, b: Identifier)
    ensures CompareIdentifier(a, b) == -CompareIdentifier(b, a)
    ensures CompareIdentifier(a, b) == 0 <==> a == b
  {
    if a.Alpha? && b.Alpha? {
      SeqReverse(CompareChar, a.text, b.text);
    }
  }

  lemma IdentifierTransitive(a: Identifier, b: Identifier, c: Identifier)
    requires CompareIdentifier(a, b) < 0 && CompareIdentifier(b, c) < 0
    ensures CompareIdentifier(a, c) < 0
  {
    if a.Alpha? && b.Alpha? && c.Alpha? {
      SeqTransitive(CompareChar, a.text, b.text, c.text);
    }
  }

  lemma IdentifierOrdering()
    ensures Ordering(CompareIdentifier)
  {
    forall a, b
      ensures CompareIdentifier(a, b) == -CompareIdentifier(b, a)
      ensures CompareIdentifier(a, b) == 0 <==> a == b
    {
      IdentifierReverse(a, b);
    }
    forall a, b, c | CompareIdentifier(a, b) < 0 && CompareIdentifier(b, c) < 0
      ensures CompareIdentifier(a, c) < 0
    {
      IdentifierTransitive(a, b, c);
    }
  }

  /** Precedence is a total order on versions: reversing the arguments flips the sign, only
      equal versions tie, and "older than" is transitive. */
  lemma CompareIsTotalOrder(a: Version, b: Version, c: Version)
    ensures Compare(a, b) == -Compare(b, a)
    ensures Compare(a, b) == 0 <==> a == b
    ensures Compare(a, b) < 0 && Compare(b, c) < 0 ==> Compare(a, c) < 0
  {
    IdentifierOrdering();
    SeqReverse(CompareIdentifier, a.pre, b.pre);
    if CompareSeq(CompareIdentifier, a.pre, b.pre) < 0 && CompareSeq(CompareIdentifier, b.pre, c.pre) < 0 {
      SeqTransitive(CompareIdentifier, a.pre, b.pre, c.pre);
    }
  }

  /** At the first position where they differ, the first list has the smaller element, or it ends
      there. */
  ghost predicate FirstDecides<T(!new)>(smaller: (T, T) -> bool, s: seq<T>, t: seq<T>) {
    s < t || exists i :: 0 <= i < |s| && i < |t| && s[..i] == t[..i] && smaller(s[i], t[i])
  }

  /** Numbers are smaller than text; numbers compare as numbers, and text character by character. */
  ghost predicate IdentifierBefore(a: Identifier, b: Identifier) {
    match (a, b)
    case (Numeric(m), Numeric(n)) => m < n
    case (Numeric(_), Alpha(_)) => true
    case (Alpha(_), Numeric(_)) => false
    case (Alpha(s), Alpha(t)) => FirstDecides((x: char, y: char) => x < y, s, t)
  }

  ghost predicate PreBefore(p: seq<Identifier>, q: seq<Identifier>) {
    FirstDecides(IdentifierBefore, p, q)
  }

  lemma DecidedAtOnce<T(!new)>(smaller: (T, T) -> bool, s: seq<T>, t: seq<T>)
    requires s != [] && t != [] && s[0] != t[0]
    ensures FirstDecides(smaller, s, t) <==> smaller(s[0], t[0])
  {
    assert s[..0] == t[..0];
    forall i | 0 < i < |s| && i < |t| ensures s[..i] != t[..i] {
      assert s[..i][0] != t[..i][0];
    }
  }

  lemma DecidedLater<T(!new)>(smaller: (T, T) -> bool, s: seq<T>, t: seq<T>)
    requires s != [] && t != [] && s[0] == t[0] && !smaller(s[0], t[0])
    ensures FirstDecides(smaller, s, t) <==> FirstDecides(smaller, s[1..], t[1..])
  {
    var u, v := s[1..], t[1..];
    assert s == [s[0]] + u && t == [s[0]] + v;
    if exists i :: 0 <= i < |s| && i < |t| && s[..i] == t[..i] && smaller(s[i], t[i]) {
      var i :| 0 <= i < |s| && i < |t| && s[..i] == t[..i] && smaller(s[i], t[i]);
      assert u[..i - 1] == s[..i][1..] && v[..i - 1] == t[..i][1..];
      assert smaller(u[i - 1], v[i - 1]);
    }
    if exists i :: 0 <= i < |u| && i < |v| && u[..i] == v[..i] && smaller(u[i], v[i]) {
      var i :| 0 <= i < |u| && i < |v| && u[..i] == v[..i] && smaller(u[i], v[i]);
      assert s[..i + 1] == [s[0]] + u[..i] && t[..i + 1] == [s[0]] + v[..i];
      assert smaller(s[i + 1], t[i + 1]);
    }
  }

  lemma {:induction false} SeqDecides<T(!new)>(compare: (T, T) -> int, smaller: (T, T) -> bool, s: seq<T>, t: seq<T>)
    requires forall x, y :: compare(x, y) < 0 <==> smaller(x, y)
    requires forall x, y :: compare(x, y) == 0 <==> x == y
    ensures CompareSeq(compare, s, t) < 0 <==> FirstDecides(smaller, s, t)
  {
    if s != [] && t != [] {
      assert compare(s[0], t[0]) == 0 <==> s[0] == t[0];
      if s[0] == t[0] {
        DecidedLater(smaller, s, t);
        SeqDecides(compare, smaller, s[1..], t[1..]);
      } else {
        DecidedAtOnce(smaller, s, t);
      }
    }
  }

  lemma PreDecides(p: seq<Identifier>, q: seq<Identifier>)
    ensures CompareSeq(CompareIdentifier, p, q) < 0 <==> PreBefore(p, q)
  {
    forall a, b
      ensures CompareIdentifier(a, b) < 0 <==> IdentifierBefore(a, b)
      ensures CompareIdentifier(a, b) == 0 <==> a == b
    {
      IdentifierReverse(a, b);
      if a.Alpha? && b.Alpha? {
        SeqDecides(CompareChar, (x: char, y: char) => x < y, a.text, b.text);
      }
    }
    SeqDecides(CompareIdentifier, IdentifierBefore, p, q);
  }

  /** Section 11 of Semantic Versioning 2.0.0: a larger major, then minor, then patch number is newer,
      whatever follows; with equal numbers a release is newer than every pre-release, and of two
      pre-releases the first identifier that differs decides. */
  lemma PrecedenceDecides(a: Version, b: Version)
    ensures a.major < b.major ==> Compare(a, b) < 0
    ensures a.major == b.major && a.minor < b.minor ==> Compare(a, b) < 0
    ensures a.major == b.major && a.minor == b.minor && a.patch < b.patch ==> Compare(a, b) < 0
    ensures a.major == b.major && a.minor == b.minor && a.patch == b.patch ==>
              (Compare(a, b) < 0 <==> a.pre != [] && (b.pre == [] || PreBefore(a.pre, b.pre)))
  {
    PreDecides(a.pre, b.pre);
  }

  /** The example of section 11: 1.0.0-alpha < 1.0.0-alpha.1 < 1.0.0-alpha.beta < 1.0.0-beta <
      1.0.0-beta.2 < 1.0.0-beta.11 < 1.0.0-rc.1 < 1.0.0 < 2.0.0 < 2.1.0 < 2.1.1. */
  lemma PrecedenceExample()
    ensures Compare(Version(1, 0, 0, [Alpha("alpha")]), Version(1, 0, 0, [Alpha("alpha"), Numeric(1)])) < 0
    ensures Compare(Version(1, 0, 0, [Alpha("alpha"), Numeric(1)]), Version(1, 0, 0, [Alpha("alpha"), Alpha("beta")])) < 0
    ensures Compare(Version(1, 0, 0, [Alpha("alpha"), Alpha("beta")]), Version(1, 0, 0, [Alpha("beta")])) < 0
    ensures Compare(Version(1, 0, 0, [Alpha("beta")]), Version(1, 0, 0, [Alpha("beta"), Numeric(2)])) < 0
    ensures Compare(Version(1, 0, 0, [Alpha("beta"), Numeric(2)]), Version(1, 0, 0, [Alpha("beta"), Numeric(11)])) < 0
    ensures Compare(Version(1, 0, 0, [Alpha("beta"), Numeric(11)]), Version(1, 0, 0, [Alpha("rc"), Numeric(1)])) < 0
    ensures Compare(Version(1, 0, 0, [Alpha("rc"), Numeric(1)]), Version(1, 0, 0, [])) < 0
    ensures Compare(Version(1, 0, 0, []), Version(2, 0, 0, [])) < 0
    ensures Compare(Version(2, 0, 0, []), Version(2, 1, 0, [])) < 0
    ensures Compare(Version(2, 1, 0, []), Version(2, 1, 1, [])) < 0
  {
    assert IdentifierBefore(Alpha("alpha"), Alpha("beta")) by { assert "alpha"[..0] == "beta"[..0]; }
    assert IdentifierBefore(Alpha("beta"), Alpha("rc")) by { assert "beta"[..0] == "rc"[..0]; }
    Differ([Alpha("alpha"), Numeric(1)], [Alpha("alpha"), Alpha("beta")], 1);
    Differ([Alpha("alpha"), Alpha("beta")], [Alpha("beta")], 0);
    Differ([Alpha("beta"), Numeric(2)], [Alpha("beta"), Numeric(11)], 1);
    Differ([Alpha("beta"), Numeric(11)], [Alpha("rc"), Numeric(1)], 0);
    PreDecides([Alpha("alpha")], [Alpha("alpha"), Numeric(1)]);
    PreDecides([Alpha("beta")], [Alpha("beta"), Numeric(2)]);
  }

  lemma Differ(p: seq<Identifier>, q: seq<Identifier>, i: nat)
    requires i < |p| && i < |q| && p[..i] == q[..i] && IdentifierBefore(p[i], q[i])
    ensures CompareSeq(CompareIdentifier, p, q) < 0
  {
    PreDecides(p, q);
  }

  /** A name that does not parse is read as the zero version. */
  function Rank(parse: Parser, name: Name): Version {
    match parse(name)
    case Some(v) => v
    case None => ZERO
  }

  /** "Is older than" between names, as a comparator that can be handed around. */
  type Order = (Name, Name) -> bool

  function ByPrecedence(parse: Parser): Order {
    (a, b) => Compare(Rank(parse, a), Rank(parse, b)) < 0
  }

  /** What `sort.Slice` asks of a comparator: irreflexive, transitive, and "neither comes
      first" is transitive too (a strict weak order). */
  ghost predicate WeakOrder(before: Order) {
    && (forall a :: !before(a, a))
    && (forall a, b, c :: before(a, b) && before(b, c) ==> before(a, c))
    && (forall a, b, c :: !before(a, b) && !before(b, c) ==> !before(a, c))
  }

  /** Names compare as the versions they parse to, and as 0.0.0 if they do not parse. */
  lemma NamesByPrecedence(parse: Parser, a: Name, b: Name)
    ensures var v := if parse(a).Some? then parse(a).value else Version(0, 0, 0, []);
      var w := if parse(b).Some? then parse(b).value else Version(0, 0, 0, []);
      ByPrecedence(parse)(a, b) <==>
        || v.major < w.major
        || (v.major == w.major && v.minor < w.minor)
        || (v.major == w.major && v.minor == w.minor && v.patch < w.patch)
        || ( && v.major == w.major && v.minor == w.minor && v.patch == w.patch
             && v.pre != [] && (w.pre == [] || PreBefore(v.pre, w.pre)))
  {
    var v, w := Rank(parse, a), Rank(parse, b);
    PrecedenceDecides(v, w);
    PrecedenceDecides(w, v);
    CompareIsTotalOrder(v, w, v);
  }

  /** What the updater relies on in a comparator of names: it is a strict weak order, and names that
      do not parse, the empty one among them, are all read alike. */
  ghost predicate OrdersNames(parse: Parser, older: Order) {
    && WeakOrder(older) && parse("") == None
    && forall a, n {:trigger older(a, n), parse(n)} | parse(n) == None :: older(a, n) == older(a, "")
  }

  lemma PrecedenceOrdersNames(parse: Parser)
    requires parse("") == None
    ensures OrdersNames(parse, ByPrecedence(parse))
  {
    PrecedenceIsWeakOrder(parse);
  }

  /** Precedence is such an order, even on names that do not parse or that tie. */
  lemma PrecedenceIsWeakOrder(parse: Parser)
    ensures WeakOrder(ByPrecedence(parse))
  {
    var before := ByPrecedence(parse);
    forall a, b, c
      ensures !before(a, a)
      ensures before(a, b) && before(b, c) ==> before(a, c)
      ensures !before(a, b) && !before(b, c) ==> !before(a, c)
    {
      var x, y, z := Rank(parse, a), Rank(parse, b), Rank(parse, c);
      CompareIsTotalOrder(x, x, x);
      CompareIsTotalOrder(x, y, z);
      CompareIsTotalOrder(z, y, x);
      CompareIsTotalOrder(x, z, x);
    }
  }
}
