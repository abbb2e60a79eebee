/** The four metadata handlers that skip a delivery equal to the last one they answered. */
module LastHash {
  import opened Versions

  /** The lockbox handler drops data it cannot parse before processing it; the SSH keys, KMS and
      certificates handlers process everything and answer a parse failure. */
  datatype Kind = AnswersAll | DropsUnparsable

  /** Data handed to a handler, whether its context is still live, and whether the serial port
      will take the response. */
  datatype Delivery = Delivery(data: Bytes, live: bool, portWorks: bool)

  ghost predicate Injective(sha: Bytes -> Bytes) {
    forall a, b :: sha(a) == sha(b) ==> a == b
  }

  predicate Accepts(kind: Kind, parses: Bytes -> bool, data: Bytes) {
    kind == DropsUnparsable ==> parses(data)
  }

  /** The data of the most recent delivery whose response was written. */
  function Answered(kind: Kind, parses: Bytes -> bool, ds: seq<Delivery>): Option<Bytes>
    decreases |ds|, 0
  {
    if ds == [] then None
    else
      var before, d := ds[..|ds| - 1], ds[|ds| - 1];
      if Acts(kind, parses, before, d) && d.portWorks then Some(d.data) else Answered(kind, parses, before)
  }

  /** After the deliveries `ds`, the delivery `d` is processed: it is not a repeat of the most
      recent answered one. */
  predicate Acts(kind: Kind, parses: Bytes -> bool, ds: seq<Delivery>, d: Delivery)
    decreases |ds|, 1
  {
    d.live && Accepts(kind, parses, d.data) && Answered(kind, parses, ds) != Some(d.data)
  }

  function Processed(kind: Kind, parses: Bytes -> bool, ds: seq<Delivery>): seq<Bytes> {
    if ds == [] then []
    else
      var before, d := ds[..|ds| - 1], ds[|ds| - 1];
      Processed(kind, parses, before) + if Acts(kind, parses, before, d) then [d.data] else []
  }

  class Handler {
    const kind: Kind
    const sha: Bytes -> Bytes
    const parses: Bytes -> bool
    var lastProcessedSha: Option<Bytes>
    var processed: seq<Bytes>

    constructor (kind: Kind, sha: Bytes -> Bytes, parses: Bytes -> bool)
      ensures this.kind == kind && this.sha == sha && this.parses == parses
      ensures lastProcessedSha == None && processed == []
    {
      this.kind, this.sha, this.parses, lastProcessedSha, processed := kind, sha, parses, None, [];
    }

    /** The fields are those of a handler that was handed the deliveries `ds`. */
    ghost predicate After(ds: seq<Delivery>)
      reads this
    {
      && lastProcessedSha == (match Answered(kind, parses, ds) case None => None case Some(data) => Some(sha(data)))
      && processed == Processed(kind, parses, ds)
    }

    method Handle(d: Delivery, ghost before: seq<Delivery>)
      requires Injective(sha) && After(before)
      modifies this
      ensures After(before + [d])
    {
      assert (before + [d])[..|before|] == before;
      if !d.live { return; }
      var dataSha := sha(d.data);
      if lastProcessedSha == Some(dataSha) { return; }
      if kind == DropsUnparsable && !parses(d.data) { return; }
      processed := processed + [d.data];
      if !d.portWorks { return; }
      lastProcessedSha := Some(dataSha);
    }
  }

  /** A whole run of a handler from its start. */
  method Run(kind: Kind, sha: Bytes -> Bytes, parses: Bytes -> bool, ds: seq<Delivery>) returns (processed: seq<Bytes>)
    requires Injective(sha)
    ensures processed == Processed(kind, parses, ds)
  {
    var h := new Handler(kind, sha, parses);
    for i := 0 to |ds|
      invariant h.kind == kind && h.sha == sha && h.parses == parses && h.After(ds[..i])
    {
      h.Handle(ds[i], ds[..i]);
      assert ds[..i] + [ds[i]] == ds[..i + 1];
    }
    assert ds[..|ds|] == ds;
    processed := h.processed;
  }

  /** The data of the deliveries that are not dropped, in order. */
  function Accepted(kind: Kind, parses: Bytes -> bool, ds: seq<Delivery>): seq<Bytes> {
    if ds == [] then []
    else
      var d := ds[|ds| - 1];
      Accepted(kind, parses, ds[..|ds| - 1]) + if Accepts(kind, parses, d.data) then [d.data] else []
  }

  /** Only the lockbox handler drops anything, and that is what it cannot parse. */
  lemma {:induction false} AcceptedData(kind: Kind, parses: Bytes -> bool, ds: seq<Delivery>)
    ensures kind == AnswersAll ==> |Accepted(kind, parses, ds)| == |ds|
    ensures kind == AnswersAll ==> forall i | 0 <= i < |ds| :: Accepted(kind, parses, ds)[i] == ds[i].data
    ensures kind == DropsUnparsable ==> forall x :: x in Accepted(kind, parses, ds) <==> parses(x) && exists d :: d in ds && d.data == x
  {
    if ds != [] {
      var before, d := ds[..|ds| - 1], ds[|ds| - 1];
      AcceptedData(kind, parses, before);
      assert ds == before + [d];
    }
  }

  /** A sequence with consecutive repeats collapsed. */
  function Collapse(s: seq<Bytes>): seq<Bytes> {
    if |s| < 2 then s
    else Collapse(s[..|s| - 1]) + if s[|s| - 1] == s[|s| - 2] then [] else [s[|s| - 1]]
  }

  lemma CollapseAppend(s: seq<Bytes>, x: Bytes)
    ensures Collapse(s + [x]) == Collapse(s) + if s != [] && s[|s| - 1] == x then [] else [x]
  {
    assert (s + [x])[..|s|] == s;
  }

  /** With a live context and a working port, a handler processes exactly what is delivered to it
      and not dropped, with consecutive repeats collapsed. */
  lemma {:induction false} ProcessesCollapsed(kind: Kind, parses: Bytes -> bool, ds: seq<Delivery>)
    requires forall d | d in ds :: d.live && d.portWorks
    ensures Processed(kind, parses, ds) == Collapse(Accepted(kind, parses, ds))
    ensures var accepted := Accepted(kind, parses, ds);
      Answered(kind, parses, ds) == if accepted == [] then None else Some(accepted[|accepted| - 1])
  {
    if ds != [] {
      var before, d := ds[..|ds| - 1], ds[|ds| - 1];
      assert d in ds && forall e | e in before :: e in ds;
      ProcessesCollapsed(kind, parses, before);
      CollapseAppend(Accepted(kind, parses, before), d.data);
      if Accepts(kind, parses, d.data) {
        assert Accepted(kind, parses, ds) == Accepted(kind, parses, before) + [d.data];
      } else {
        SkippedWhenDropped(kind, parses, ds);
      }
    }
  }

  lemma SkippedWhenDropped(kind: Kind, parses: Bytes -> bool, ds: seq<Delivery>)
    requires ds != [] && !Accepts(kind, parses, ds[|ds| - 1].data)
    ensures Processed(kind, parses, ds) == Processed(kind, parses, ds[..|ds| - 1])
    ensures Accepted(kind, parses, ds) == Accepted(kind, parses, ds[..|ds| - 1])
    ensures Answered(kind, parses, ds) == Answered(kind, parses, ds[..|ds| - 1])
  {
  }

  /** Collapsing leaves no two equal neighbours, keeps the ends, and loses no data. */
  lemma {:induction false} CollapseSeparates(s: seq<Bytes>)
    ensures forall i | 0 < i < |Collapse(s)| :: Collapse(s)[i - 1] != Collapse(s)[i]
    ensures s != [] ==> Collapse(s) != [] && Collapse(s)[|Collapse(s)| - 1] == s[|s| - 1]
    ensures forall x :: x in s <==> x in Collapse(s)
  {
    if |s| >= 2 {
      CollapseSeparates(s[..|s| - 1]);
      assert s == s[..|s| - 1] + [s[|s| - 1]];
    }
  }

  /** `j` is the most recent of the deliveries before `i` whose response was written. */
  ghost predicate LastAnswer(kind: Kind, parses: Bytes -> bool, ds: seq<Delivery>, j: nat, i: nat)
    requires i <= |ds|
  {
    && j < i && Acts(kind, parses, ds[..j], ds[j]) && ds[j].portWorks
    && forall k | j < k < i :: !(Acts(kind, parses, ds[..k], ds[k]) && ds[k].portWorks)
  }

  /** With failures of the port: a delivery is processed iff its context is live, the handler does not
      drop it, and it is not equal to the most recent one whose response was written. Only the
      lockbox handler drops anything, and that is what it cannot parse. */
  lemma SkippedIffRepeat(kind: Kind, parses: Bytes -> bool, ds: seq<Delivery>, i: nat)
    requires i < |ds|
    ensures Acts(kind, parses, ds[..i], ds[i]) <==>
              && ds[i].live && (kind == AnswersAll || parses(ds[i].data))
              && !exists j: nat :: LastAnswer(kind, parses, ds, j, i) && ds[j].data == ds[i].data
  {
    AnsweredAt(kind, parses, ds, i);
    forall j: nat, k: nat | LastAnswer(kind, parses, ds, j, i) && LastAnswer(kind, parses, ds, k, i) ensures j == k { }
  }

  predicate ActsAt(kind: Kind, parses: Bytes -> bool, ds: seq<Delivery>, k: nat)
    requires k < |ds|
  {
    Acts(kind, parses, ds[..k], ds[k])
  }

  /** `at` lists, in order, exactly the positions that are acted upon, and `data` is what is there. */
  ghost predicate ActsThere(kind: Kind, parses: Bytes -> bool, ds: seq<Delivery>, data: seq<Bytes>, at: seq<nat>) {
    && |at| == |data|
    && (forall i | 0 <= i < |at| :: at[i] < |ds| && ActsAt(kind, parses, ds, at[i]) && ds[at[i]].data == data[i])
    && (forall i, j | 0 <= i < j < |at| :: at[i] < at[j])
    && (forall k: nat | k < |ds| && ActsAt(kind, parses, ds, k) :: k in at)
  }

  lemma ActsThereOneMore(kind: Kind, parses: Bytes -> bool, ds: seq<Delivery>, d: Delivery, data: seq<Bytes>, at: seq<nat>)
    requires ActsThere(kind, parses, ds, data, at)
    ensures Acts(kind, parses, ds, d) ==> ActsThere(kind, parses, ds + [d], data + [d.data], at + [|ds|])
    ensures !Acts(kind, parses, ds, d) ==> ActsThere(kind, parses, ds + [d], data, at)
  {
    var now, more := ds + [d], if Acts(kind, parses, ds, d) then at + [|ds|] else at;
    assert now[..|ds|] == ds;
    forall k: nat | k < |ds| ensures ActsAt(kind, parses, now, k) == ActsAt(kind, parses, ds, k) {
      assert now[..k] == ds[..k];
    }
    forall k: nat | k < |now| && ActsAt(kind, parses, now, k) ensures k in more {
      if k < |ds| { assert k in at; } else { assert more[|at|] == k; }
    }
  }

  /** What was processed is the data of exactly the deliveries that are acted upon, in order. */
  lemma {:induction false} ProcessedAt(kind: Kind, parses: Bytes -> bool, ds: seq<Delivery>) returns (at: seq<nat>)
    ensures ActsThere(kind, parses, ds, Processed(kind, parses, ds), at)
  {
    at := [];
    if ds != [] {
      var before, d := ds[..|ds| - 1], ds[|ds| - 1];
      at := ProcessedAt(kind, parses, before);
      ActsThereOneMore(kind, parses, before, d, Processed(kind, parses, before), at);
      assert ds == before + [d];
      if Acts(kind, parses, before, d) {
        at := at + [|before|];
      } else {
        assert Processed(kind, parses, ds) == Processed(kind, parses, before);
      }
    }
  }

  lemma {:induction false} AnsweredAt(kind: Kind, parses: Bytes -> bool, ds: seq<Delivery>, i: nat)
    requires i <= |ds|
    ensures match Answered(kind, parses, ds[..i])
      case None => forall j: nat :: !LastAnswer(kind, parses, ds, j, i)
      case Some(data) => exists j: nat :: LastAnswer(kind, parses, ds, j, i) && ds[j].data == data
  {
    if i > 0 {
      AnsweredAt(kind, parses, ds, i - 1);
      assert ds[..i][..i - 1] == ds[..i - 1] && ds[..i][i - 1] == ds[i - 1];
      if Acts(kind, parses, ds[..i - 1], ds[i - 1]) && ds[i - 1].portWorks {
        assert LastAnswer(kind, parses, ds, i - 1, i);
      } else {
        assert forall j: nat :: LastAnswer(kind, parses, ds, j, i) <==> LastAnswer(kind, parses, ds, j, i - 1);
      }
    }
  }
}
