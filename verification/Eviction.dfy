/** Which of the cached versions a load of the repository keeps, as a relation on sets of names. */
module Eviction {
  import opened Versions
  import opened Sorting

  const NUM_VERSIONS_TO_CACHE := 5

  /** Nothing kept is older than anything dropped. */
  ghost predicate Newest(older: Order, from: set<Name>, kept: set<Name>) {
    kept <= from && forall v, w | v in from - kept && w in kept :: !older(w, v)
  }

  ghost predicate Oldest(older: Order, all: set<Name>, n: Name) {
    n in all && forall m | m in all :: !older(m, n)
  }

  /** The outcome of a load that met no failing call: `all` names were found, `valid` of them
      sound, and `kept` are left. With more than five names one oldest name is given up, sound
      or not, and the newest five of the other sound ones stay. */
  ghost predicate Evicts(older: Order, all: set<Name>, valid: set<Name>, kept: set<Name>) {
    if |all| <= NUM_VERSIONS_TO_CACHE then kept == valid
    else exists oldest | Oldest(older, all, oldest) ::
      && Newest(older, valid - {oldest}, kept)
      && |kept| == Min(NUM_VERSIONS_TO_CACHE, |valid - {oldest}|)
  }

  function Min(a: nat, b: nat): nat {
    if a < b then a else b
  }

  /** One eviction followed by a load of what is left is again an eviction of the whole. */
  lemma EvictsAgain(older: Order, all: set<Name>, valid: set<Name>, oldest: Name, kept: set<Name>)
    requires valid <= all && |all| > NUM_VERSIONS_TO_CACHE
    requires Oldest(older, all, oldest)
    requires Evicts(older, valid - {oldest}, valid - {oldest}, kept)
    ensures Evicts(older, all, valid, kept)
  {
    var rest := valid - {oldest};
    if |rest| > NUM_VERSIONS_TO_CACHE {
      var next :| Oldest(older, rest, next) && Newest(older, rest - {next}, kept)
                  && |kept| == Min(NUM_VERSIONS_TO_CACHE, |rest - {next}|);
      assert |rest - {next}| == |rest| - 1;
      forall v, w | v in rest - kept && w in kept ensures !older(w, v) { }
    }
  }

  /** What is kept is upward closed among the sound versions. */
  lemma KeptAreNewest(older: Order, all: set<Name>, valid: set<Name>, kept: set<Name>)
    requires valid <= all && Evicts(older, all, valid, kept)
    ensures Newest(older, valid, kept)
  {
    if |all| > NUM_VERSIONS_TO_CACHE {
      var oldest :| Oldest(older, all, oldest) && Newest(older, valid - {oldest}, kept);
      forall v, w | v in valid - kept && w in kept ensures !older(w, v) { }
    }
  }

  /** A sound version is lost: fewer than five are kept although there were as many, or not all. */
  ghost predicate Loses(valid: set<Name>, kept: set<Name>) {
    |kept| < if |valid| < 5 then |valid| else 5
  }

  /** More names than fit although the sound ones would fit, and the oldest name is sound. */
  ghost predicate SoundOldestOfTooMany(older: Order, all: set<Name>, valid: set<Name>) {
    |valid| <= 5 < |all| && exists o :: o in valid && Oldest(older, all, o)
  }

  /** Of the names that tie for the oldest, all are sound or all are corrupt. */
  ghost predicate OldestAgree(older: Order, all: set<Name>, valid: set<Name>) {
    forall o, p | Oldest(older, all, o) && Oldest(older, all, p) :: o in valid <==> p in valid
  }

  lemma KeptSize(older: Order, all: set<Name>, valid: set<Name>, kept: set<Name>)
    requires valid <= all && Evicts(older, all, valid, kept)
    ensures |kept| <= NUM_VERSIONS_TO_CACHE
    ensures valid == all ==> |kept| == Min(|valid|, NUM_VERSIONS_TO_CACHE)
    ensures |kept| + 1 >= Min(|valid|, NUM_VERSIONS_TO_CACHE)
    ensures Loses(valid, kept) ==> SoundOldestOfTooMany(older, all, valid)
    ensures SoundOldestOfTooMany(older, all, valid) && OldestAgree(older, all, valid) ==> Loses(valid, kept)
  {
    SubsetSize(valid, all);
    if |all| > NUM_VERSIONS_TO_CACHE {
      var oldest :| Oldest(older, all, oldest) && |kept| == Min(NUM_VERSIONS_TO_CACHE, |valid - {oldest}|);
      assert |valid - {oldest}| == if oldest in valid then |valid| - 1 else |valid|;
    }
  }

  /** Exact eviction: what is left is the newest sound versions; with no corrupt entry there are
      five of them or all; a corrupt entry can cost at most one sound version. It does so exactly
      when the names found exceed five while the sound ones do not, and the oldest name is sound,
      unless a sound and a corrupt name tie for the oldest. */
  lemma ExactEviction(older: Order, all: set<Name>, valid: set<Name>, kept: set<Name>)
    requires valid <= all && Evicts(older, all, valid, kept)
    ensures Newest(older, valid, kept)
    ensures |kept| <= 5
    ensures valid == all ==> |kept| == if |valid| < 5 then |valid| else 5
    ensures |kept| + 1 >= if |valid| < 5 then |valid| else 5
    ensures OldestAgree(older, all, valid) ==> (Loses(valid, kept) <==> SoundOldestOfTooMany(older, all, valid))
    ensures Loses(valid, kept) ==> SoundOldestOfTooMany(older, all, valid)
  {
    KeptAreNewest(older, all, valid, kept);
    KeptSize(older, all, valid, kept);
  }

  /** When a sound and a corrupt name tie for the oldest, sorting leaves open which comes last: a
      load may then keep every sound version or lose one. */
  lemma TieLeavesItOpen(older: Order, all: set<Name>, valid: set<Name>, sound: Name, corrupt: Name)
    requires valid <= all && |valid| <= NUM_VERSIONS_TO_CACHE < |all|
    requires sound in valid && corrupt !in valid && Oldest(older, all, sound) && Oldest(older, all, corrupt)
    ensures Evicts(older, all, valid, valid) && !Loses(valid, valid)
    ensures Evicts(older, all, valid, valid - {sound}) && Loses(valid, valid - {sound})
  {
    assert valid - {corrupt} == valid;
    assert Newest(older, valid - {sound}, valid - {sound}) && Newest(older, valid - {corrupt}, valid);
  }

  lemma SubsetSize(s: set<Name>, t: set<Name>)
    requires s <= t
    ensures |s| <= |t| && (|s| == |t| ==> s == t)
  {
    assert |t| == |s| + |t - s| by { assert t == s + (t - s); }
    if |s| == |t| { assert t - s == {}; }
  }

  lemma SameSize(s: set<Name>, t: set<Name>)
    requires s <= t && |s| == |t|
    ensures s == t
  {
    SubsetSize(s, t);
  }

  /** A sound version really is lost to a corrupt one: five sound versions and one corrupt
      directory that outranks the oldest of them leave four. */
  lemma CorruptEntryEvictsSoundVersion(older: Order, valid: set<Name>, corrupt: Name, oldest: Name, kept: set<Name>)
    requires |valid| == NUM_VERSIONS_TO_CACHE && corrupt !in valid
    requires oldest in valid && forall n | n in valid + {corrupt} && n != oldest :: older(oldest, n)
    requires Evicts(older, valid + {corrupt}, valid, kept)
    ensures kept == valid - {oldest} && |kept| == 4
  {
    assert |valid + {corrupt}| == 6;
    var o :| Oldest(older, valid + {corrupt}, o) && Newest(older, valid - {o}, kept)
             && |kept| == Min(NUM_VERSIONS_TO_CACHE, |valid - {o}|);
    assert o == oldest;
    SameSize(kept, valid - {oldest});
  }
}
