/** The password generator: digits, then symbols, then letters, then a shuffle in place. */
module Passwords {
  const DEFAULT_LOWER := "abcdefghijklmnopqrstuvwxyz"
  const DEFAULT_UPPER := "ABCDEFGHIJKLMNOPQRSTUVWXYZ"
  const DEFAULT_DIGITS := "0123456789"
  const DEFAULT_SYMBOLS := "~!@#$%^&*_-+=|(){}[]:;<>,.?"

  const TWO_64 := 0x1_0000_0000_0000_0000

  /** A Go `uint`. */
  newtype uint = n: int | 0 <= n < 0x1_0000_0000_0000_0000

  /** `uint` addition wraps around. */
  function Add(a: uint, b: uint): uint {
    ((a as int + b as int) % TWO_64) as uint
  }

  /** How many characters of `s` are in the alphabet. */
  function CountIn(s: string, alphabet: string): nat {
    if s == "" then 0
    else CountIn(s[..|s| - 1], alphabet) + if s[|s| - 1] in alphabet then 1 else 0
  }

  predicate Apart(a: string, b: string) {
    forall c | c in a :: c !in b
  }

  lemma {:induction false} CountInConcat(s: string, t: string, alphabet: string)
    ensures CountIn(s + t, alphabet) == CountIn(s, alphabet) + CountIn(t, alphabet)
  {
    if t == "" {
      assert s + t == s;
    } else {
      assert (s + t)[..|s + t| - 1] == s + t[..|t| - 1];
      CountInConcat(s, t[..|t| - 1], alphabet);
    }
  }

  lemma RemoveAt(t: string, i: nat, alphabet: string)
    requires i < |t|
    ensures multiset(t[..i] + t[i + 1..]) == multiset(t) - multiset{t[i]}
    ensures CountIn(t, alphabet) == CountIn(t[..i] + t[i + 1..], alphabet) + if t[i] in alphabet then 1 else 0
  {
    var x := [t[i]];
    assert t == t[..i] + x + t[i + 1..];
    CountInConcat(t[..i], t[i + 1..], alphabet);
    CountInConcat(t[..i] + x, t[i + 1..], alphabet);
    CountInConcat(t[..i], x, alphabet);
    assert x[..0] == "";
  }

  /** Reordering does not change how many characters are in an alphabet. */
  lemma {:induction false} CountInPermuted(s: string, t: string, alphabet: string)
    requires multiset(s) == multiset(t)
    ensures CountIn(s, alphabet) == CountIn(t, alphabet)
    decreases |s|
  {
    assert |s| == |multiset(s)| && |t| == |multiset(t)|;
    if s != "" {
      var last := s[|s| - 1];
      assert last in multiset(t);
      var i :| 0 <= i < |t| && t[i] == last;
      RemoveAt(t, i, alphabet);
      RemoveAt(s, |s| - 1, alphabet);
      assert s[|s| - 1 + 1..] == "" && s[..|s| - 1] + "" == s[..|s| - 1];
      CountInPermuted(s[..|s| - 1], t[..i] + t[i + 1..], alphabet);
    }
  }

  /** One part of a password: every character is from one alphabet. */
  lemma {:induction false} CountInPart(s: string, from: string, alphabet: string)
    requires forall c | c in s :: c in from
    ensures from == alphabet ==> CountIn(s, alphabet) == |s|
    ensures Apart(from, alphabet) ==> CountIn(s, alphabet) == 0
  {
    if s != "" {
      assert s[|s| - 1] in s;
      CountInPart(s[..|s| - 1], from, alphabet);
    }
  }

  /** Random numbers, in the order in which they are asked for. */
  type Random = nat -> nat

  method GetRandom(s: string, n: nat) returns (c: char)
    requires s != ""
    ensures c == s[n % |s|]
  {
    c := s[n % |s|];
  }

  function Swapped(s: string, i: nat, j: nat): string
    requires i < |s| && j < |s|
  {
    s[i := s[j]][j := s[i]]
  }

  /** The first `k` characters shuffled: the last of them changes places with a random one of them,
      then the others are shuffled. */
  function Shuffled(s: string, random: Random, k: nat): (t: string)
    requires k <= |s|
    ensures |t| == |s|
    decreases k
  {
    if k < 2 then s else Shuffled(Swapped(s, k - 1, random(k - 1) % k), random, k - 1)
  }

  function ShuffledAll(s: string, random: Random): string {
    Shuffled(s, random, |s|)
  }

  /** `rand.Shuffle` on the runes, in place, from the last one down. */
  method Shuffle(runes: array<char>, random: Random)
    modifies runes
    ensures runes[..] == ShuffledAll(old(runes[..]), random)
  {
    var i: nat := runes.Length;
    while i > 1
      invariant i <= runes.Length
      invariant Shuffled(runes[..], random, i) == Shuffled(old(runes[..]), random, runes.Length)
    {
      i := i - 1;
      var j := random(i) % (i + 1);
      ghost var was := runes[..];
      runes[i], runes[j] := runes[j], runes[i];
      assert runes[..] == Swapped(was, i, j);
    }
  }

  /** `shuffle`: to runes and back. */
  method ShuffleText(s: string, random: Random) returns (t: string)
    ensures t == ShuffledAll(s, random) && multiset(t) == multiset(s)
  {
    var runes := new char[|s|](i requires 0 <= i < |s| => s[i]);
    assert runes[..] == s;
    Shuffle(runes, random);
    t := runes[..];
    ShuffledPermutes(s, random, |s|);
  }

  lemma SwappedPermutes(s: string, i: nat, j: nat)
    requires i < |s| && j < |s|
    ensures multiset(Swapped(s, i, j)) == multiset(s)
  {
  }

  /** Shuffling only reorders. */
  lemma {:induction false} ShuffledPermutes(s: string, random: Random, k: nat)
    requires k <= |s|
    ensures multiset(Shuffled(s, random, k)) == multiset(s)
    decreases k
  {
    if k >= 2 {
      SwappedPermutes(s, k - 1, random(k - 1) % k);
      ShuffledPermutes(Swapped(s, k - 1, random(k - 1) % k), random, k - 1);
    }
  }

  lemma {:induction false} SameChoices(s: string, r: Random, q: Random, k: nat)
    requires k <= |s| && forall x: nat | x < k :: r(x) == q(x)
    ensures Shuffled(s, r, k) == Shuffled(s, q, k)
    decreases k
  {
    if k >= 2 { SameChoices(Swapped(s, k - 1, r(k - 1) % k), r, q, k - 1); }
  }

  lemma PrefixPermutes(s: string, t: string, k: nat)
    requires multiset(s) == multiset(t) && |s| == |t| && k <= |s| && s[k..] == t[k..]
    ensures multiset(s[..k]) == multiset(t[..k])
  {
    assert s == s[..k] + s[k..] && t == t[..k] + t[k..];
    assert multiset(s[..k]) == multiset(s) - multiset(s[k..]);
    assert multiset(t[..k]) == multiset(t) - multiset(t[k..]);
  }

  lemma LastComesFrom(s: string, t: string, k: nat) returns (j: nat)
    requires multiset(s) == multiset(t) && |s| == |t| && 0 < k <= |s| && s[k..] == t[k..]
    ensures j < k && s[j] == t[k - 1]
    ensures Swapped(s, k - 1, j)[k - 1..] == t[k - 1..]
  {
    PrefixPermutes(s, t, k);
    assert t[..k][k - 1] in multiset(s[..k]);
    j :| j < k && s[..k][j] == t[k - 1];
    var u := Swapped(s, k - 1, j);
    assert u[k - 1] == t[k - 1];
    forall i | k <= i < |s| ensures u[i] == t[i] {
      assert u[i] == s[k..][i - k] && t[i] == t[k..][i - k];
    }
  }

  lemma SmallModulo(x: nat, n: nat)
    requires x < n
    ensures x % n == x
  {
  }

  /** The same numbers, but for one. */
  function With(random: Random, at: nat, n: nat): Random {
    x => if x == at then n else random(x)
  }

  lemma ShuffledStep(s: string, rest: Random, k: nat, j: nat)
    requires 2 <= k <= |s| && j < k
    ensures Shuffled(s, With(rest, k - 1, j), k) == Shuffled(Swapped(s, k - 1, j), rest, k - 1)
  {
    var random := With(rest, k - 1, j);
    SmallModulo(j, k);
    SameChoices(Swapped(s, k - 1, j), random, rest, k - 1);
  }

  lemma NothingLeft(s: string, t: string, k: nat)
    requires multiset(s) == multiset(t) && |s| == |t| && k <= |s| && k < 2 && s[k..] == t[k..]
    ensures s == t
  {
    if k == 1 {
      var j := LastComesFrom(s, t, 1);
    }
    assert s == s[..k] + s[k..] && t == t[..k] + t[k..];
  }

  /** And any order can come out. */
  lemma {:induction false} EveryOrder(s: string, t: string, k: nat) returns (random: Random)
    requires multiset(s) == multiset(t) && |s| == |t| && k <= |s| && s[k..] == t[k..]
    ensures Shuffled(s, random, k) == t
    decreases k
  {
    if k < 2 {
      NothingLeft(s, t, k);
      random := x => 0;
    } else {
      var j := LastComesFrom(s, t, k);
      SwappedPermutes(s, k - 1, j);
      var rest := EveryOrder(Swapped(s, k - 1, j), t, k - 1);
      ShuffledStep(s, rest, k, j);
      random := With(rest, k - 1, j);
    }
  }

  lemma ReachesAll(s: string, t: string) returns (random: Random)
    requires multiset(s) == multiset(t)
    ensures ShuffledAll(s, random) == t
  {
    assert |s| == |multiset(s)| && |t| == |multiset(t)|;
    random := EveryOrder(s, t, |s|);
  }

  /** `n` characters of an alphabet, chosen by the random numbers from position `at` on. */
  function Drawn(alphabet: string, n: nat, random: Random, at: nat): string
    requires alphabet != ""
  {
    seq(n, i requires 0 <= i < n => alphabet[random(at + i) % |alphabet|])
  }

  /** The position of a character in an alphabet, 0 if it is not there. */
  function Find(alphabet: string, c: char): nat {
    if c !in alphabet || alphabet[0] == c then 0 else 1 + Find(alphabet[1..], c)
  }

  lemma {:induction false} Found(alphabet: string, c: char)
    requires c in alphabet
    ensures Find(alphabet, c) < |alphabet| && alphabet[Find(alphabet, c)] == c
  {
    if alphabet[0] != c { Found(alphabet[1..], c); }
  }

  lemma FoundPart(alphabet: string, part: string, random: Random, at: nat)
    requires alphabet != "" && forall c | c in part :: c in alphabet
    requires forall i | 0 <= i < |part| :: random(at + i) == Find(alphabet, part[i])
    ensures Drawn(alphabet, |part|, random, at) == part
  {
    forall i | 0 <= i < |part| ensures alphabet[random(at + i) % |alphabet|] == part[i] {
      assert part[i] in part;
      Found(alphabet, part[i]);
      SmallModulo(random(at + i), |alphabet|);
    }
  }

  class Generator {
    const lower: string
    const upper: string
    const digits: string
    const symbols: string

    /** An empty alphabet is replaced by the default one. */
    constructor (lower: string, upper: string, digits: string, symbols: string)
      ensures this.lower == (if lower == "" then DEFAULT_LOWER else lower)
      ensures this.upper == (if upper == "" then DEFAULT_UPPER else upper)
      ensures this.digits == (if digits == "" then DEFAULT_DIGITS else digits)
      ensures this.symbols == (if symbols == "" then DEFAULT_SYMBOLS else symbols)
    {
      this.lower := if lower == "" then DEFAULT_LOWER else lower;
      this.upper := if upper == "" then DEFAULT_UPPER else upper;
      this.digits := if digits == "" then DEFAULT_DIGITS else digits;
      this.symbols := if symbols == "" then DEFAULT_SYMBOLS else symbols;
    }

    function Letters(noUpper: bool): string {
      if noUpper then lower else lower + upper
    }

    /** No character of one alphabet is in another. */
    predicate AlphabetsApart() {
      && Apart(digits, symbols) && Apart(symbols, digits)
      && Apart(digits, lower + upper) && Apart(lower + upper, digits)
      && Apart(symbols, lower + upper) && Apart(lower + upper, symbols)
      && Apart(lower, upper)
    }

    method Part(n: uint, alphabet: string, random: Random, at: nat) returns (part: string)
      requires alphabet != ""
      ensures part == Drawn(alphabet, n as nat, random, at)
      ensures |part| == n as int && forall c | c in part :: c in alphabet
    {
      part := "";
      var i: uint := 0;
      while i < n
        invariant i <= n && part == Drawn(alphabet, i as nat, random, at)
      {
        var c := GetRandom(alphabet, random(at + i as nat));
        part := part + [c];
        i := i + 1;
      }
    }

    /** The password before it is shuffled: digits, then symbols, then letters. */
    function Unshuffled(numLetters: nat, numDigits: nat, numSymbols: nat, noUpper: bool, random: Random): string
      requires lower != "" && upper != "" && digits != "" && symbols != ""
    {
      Drawn(digits, numDigits, random, 0) + Drawn(symbols, numSymbols, random, numDigits)
      + Drawn(Letters(noUpper), numLetters, random, numDigits + numSymbols)
    }

    /** For every random choice and every shuffle the password has the digits and symbols asked
        for, and only letters besides; without upper case there is none. Two streams of random
        numbers, for the characters and for the shuffle, decide it. */
    method Generate(length: uint, numDigits: uint, numSymbols: uint, noUpper: bool, random: Random, order: Random)
      returns (ok: bool, pwd: string)
      requires lower != "" && upper != "" && digits != "" && symbols != ""
      ensures var sum := (numDigits as int + numSymbols as int) % 0x1_0000_0000_0000_0000;
        && (ok <==> length as int >= sum)
        && (ok ==> pwd == ShuffledAll(Unshuffled(length as int - sum, numDigits as nat, numSymbols as nat, noUpper, random), order))
        && (ok ==> |pwd| == numDigits as int + numSymbols as int + length as int - sum)
      ensures ok ==> (|pwd| == length as int <==> numDigits as int + numSymbols as int < 0x1_0000_0000_0000_0000)
      ensures ok && AlphabetsApart() ==>
                && CountIn(pwd, digits) == numDigits as int && CountIn(pwd, symbols) == numSymbols as int
                && CountIn(pwd, Letters(noUpper)) == |pwd| - numDigits as int - numSymbols as int
      ensures ok && AlphabetsApart() && noUpper ==> CountIn(pwd, upper) == 0
    {
      pwd := "";
      if length < Add(numDigits, numSymbols) { return false, pwd; }
      var ds := Part(numDigits, digits, random, 0);
      var ss := Part(numSymbols, symbols, random, numDigits as nat);
      var ls := Part(length - Add(numDigits, numSymbols), Letters(noUpper), random, numDigits as nat + numSymbols as nat);
      pwd := ShuffleText(ds + ss + ls, order);
      PartsCount(ds, ss, ls, noUpper, pwd);
      return true, pwd;
    }

    /** Every password of the right composition can come out: whatever digits, symbols and letters,
        in whatever order. */
    lemma EveryPassword(ds: string, ss: string, ls: string, noUpper: bool, pwd: string) returns (random: Random, order: Random)
      requires lower != "" && upper != "" && digits != "" && symbols != ""
      requires (forall c | c in ds :: c in digits) && (forall c | c in ss :: c in symbols) && (forall c | c in ls :: c in lower || (!noUpper && c in upper))
      requires multiset(pwd) == multiset(ds + ss + ls)
      ensures ShuffledAll(Unshuffled(|ls|, |ds|, |ss|, noUpper, random), order) == pwd
    {
      random := Choices(ds, ss, ls, noUpper);
      ChoicesDraw(ds, ss, ls, noUpper);
      order := ReachesAll(ds + ss + ls, pwd);
    }

    function Choices(ds: string, ss: string, ls: string, noUpper: bool): Random {
      (x: nat) => Choice(ds, ss, ls, noUpper, x)
    }

    function Choice(ds: string, ss: string, ls: string, noUpper: bool, x: nat): nat {
      var m, n := |ds|, |ds| + |ss|;
      if x < m then Find(digits, ds[x])
      else if x < n then Find(symbols, ss[x - m])
      else if x < n + |ls| then Find(Letters(noUpper), ls[x - n])
      else 0
    }

    lemma ChoicesDraw(ds: string, ss: string, ls: string, noUpper: bool)
      requires lower != "" && upper != "" && digits != "" && symbols != ""
      requires (forall c | c in ds :: c in digits) && (forall c | c in ss :: c in symbols) && (forall c | c in ls :: c in Letters(noUpper))
      ensures Unshuffled(|ls|, |ds|, |ss|, noUpper, Choices(ds, ss, ls, noUpper)) == ds + ss + ls
    {
      var random := Choices(ds, ss, ls, noUpper);
      DigitsDraw(ds, ss, ls, noUpper, random);
      SymbolsDraw(ds, ss, ls, noUpper, random);
      LettersDraw(ds, ss, ls, noUpper, random);
    }

    lemma DigitsDraw(ds: string, ss: string, ls: string, noUpper: bool, random: Random)
      requires random == Choices(ds, ss, ls, noUpper) && digits != "" && forall c | c in ds :: c in digits
      ensures Drawn(digits, |ds|, random, 0) == ds
    {
      forall i | 0 <= i < |ds| ensures random(0 + i) == Find(digits, ds[i]) { }
      FoundPart(digits, ds, random, 0);
    }

    lemma SymbolsDraw(ds: string, ss: string, ls: string, noUpper: bool, random: Random)
      requires random == Choices(ds, ss, ls, noUpper) && symbols != "" && forall c | c in ss :: c in symbols
      ensures Drawn(symbols, |ss|, random, |ds|) == ss
    {
      forall i | 0 <= i < |ss| ensures random(|ds| + i) == Find(symbols, ss[i]) { }
      FoundPart(symbols, ss, random, |ds|);
    }

    lemma LettersDraw(ds: string, ss: string, ls: string, noUpper: bool, random: Random)
      requires random == Choices(ds, ss, ls, noUpper) && Letters(noUpper) != "" && forall c | c in ls :: c in Letters(noUpper)
      ensures Drawn(Letters(noUpper), |ls|, random, |ds| + |ss|) == ls
    {
      forall i | 0 <= i < |ls| ensures random(|ds| + |ss| + i) == Find(Letters(noUpper), ls[i]) { }
      FoundPart(Letters(noUpper), ls, random, |ds| + |ss|);
    }

    lemma PartsCount(ds: string, ss: string, ls: string, noUpper: bool, pwd: string)
      requires multiset(pwd) == multiset(ds + ss + ls)
      requires forall c | c in ds :: c in digits
      requires forall c | c in ss :: c in symbols
      requires forall c | c in ls :: c in Letters(noUpper)
      ensures |pwd| == |ds| + |ss| + |ls|
      ensures AlphabetsApart() ==>
                CountIn(pwd, digits) == |ds| && CountIn(pwd, symbols) == |ss| && CountIn(pwd, Letters(noUpper)) == |ls|
      ensures AlphabetsApart() && noUpper ==> CountIn(pwd, upper) == 0
    {
      assert |pwd| == |multiset(pwd)| == |ds + ss + ls|;
      if AlphabetsApart() {
        CountThree(ds, ss, ls, noUpper, pwd, digits);
        CountThree(ds, ss, ls, noUpper, pwd, symbols);
        CountThree(ds, ss, ls, noUpper, pwd, Letters(noUpper));
        CountThree(ds, ss, ls, noUpper, pwd, upper);
      }
    }

    lemma CountThree(ds: string, ss: string, ls: string, noUpper: bool, pwd: string, alphabet: string)
      requires multiset(pwd) == multiset(ds + ss + ls)
      requires forall c | c in ds :: c in digits
      requires forall c | c in ss :: c in symbols
      requires forall c | c in ls :: c in Letters(noUpper)
      ensures CountIn(pwd, alphabet) == CountIn(ds, alphabet) + CountIn(ss, alphabet) + CountIn(ls, alphabet)
      ensures digits == alphabet ==> CountIn(ds, alphabet) == |ds|
      ensures Apart(digits, alphabet) ==> CountIn(ds, alphabet) == 0
      ensures symbols == alphabet ==> CountIn(ss, alphabet) == |ss|
      ensures Apart(symbols, alphabet) ==> CountIn(ss, alphabet) == 0
      ensures Letters(noUpper) == alphabet ==> CountIn(ls, alphabet) == |ls|
      ensures Apart(Letters(noUpper), alphabet) ==> CountIn(ls, alphabet) == 0
    {
      CountInPermuted(pwd, ds + ss + ls, alphabet);
      CountInConcat(ds + ss, ls, alphabet);
      CountInConcat(ds, ss, alphabet);
      CountInPart(ds, digits, alphabet);
      CountInPart(ss, symbols, alphabet);
      CountInPart(ls, Letters(noUpper), alphabet);
    }
  }

  lemma InRange(s: string, from: char, to: char)
    requires |s| == to as int - from as int + 1 && forall i | 0 <= i < |s| :: s[i] as int == from as int + i
    ensures forall c :: c in s <==> from <= c <= to
  {
    forall c | from <= c <= to ensures c in s {
      assert s[c as int - from as int] == c;
    }
  }

  lemma SymbolsOutside(c: char)
    requires c in DEFAULT_SYMBOLS
    ensures !('a' <= c <= 'z') && !('A' <= c <= 'Z') && !('0' <= c <= '9')
  {
  }

  lemma ApartByRange(g: Generator)
    requires forall c :: c in g.lower <==> 'a' <= c <= 'z'
    requires forall c :: c in g.upper <==> 'A' <= c <= 'Z'
    requires forall c :: c in g.digits <==> '0' <= c <= '9'
    requires forall c | c in g.symbols :: !('a' <= c <= 'z') && !('A' <= c <= 'Z') && !('0' <= c <= '9')
    ensures g.AlphabetsApart()
  {
  }

  /** The default alphabets share no character. */
  lemma DefaultAlphabetsApart(g: Generator)
    requires g.lower == DEFAULT_LOWER && g.upper == DEFAULT_UPPER && g.digits == DEFAULT_DIGITS && g.symbols == DEFAULT_SYMBOLS
    ensures g.AlphabetsApart()
  {
    InRange(g.lower, 'a', 'z');
    InRange(g.upper, 'A', 'Z');
    InRange(g.digits, '0', '9');
    forall c | c in g.symbols ensures !('a' <= c <= 'z') && !('A' <= c <= 'Z') && !('0' <= c <= '9') {
      SymbolsOutside(c);
    }
    ApartByRange(g);
  }

  /** The users handlers ask for 15 characters, of which 3 are digits and 5 symbols. */
  method GenerateForUser(random: Random, order: Random) returns (pwd: string)
    ensures |pwd| == 15 && CountIn(pwd, DEFAULT_DIGITS) == 3 && CountIn(pwd, DEFAULT_SYMBOLS) == 5
    ensures CountIn(pwd, DEFAULT_LOWER + DEFAULT_UPPER) == 7
  {
    var g := new Generator("", "", "", "");
    DefaultAlphabetsApart(g);
    var ok;
    ok, pwd := g.Generate(15, 3, 5, false, random, order);
  }
}
