// The pure rules behind the peer's ordering protocol: when a timestamp may be
// committed, how prepares are closed, how framework operations are added,
// what sendTriplets commits or parks, how local delivery raises timestamps,
// and what a retry of the parked NOTIFYs sends.

module Ordering {
  import opened ProcessTypes
  import opened Replica
  import opened ExchangeSort

  // ---------------------------------------------------------------------------
  // Subscriptions and completion checks

  /** The subscribers recorded for `v`; a variable never recorded has none. */
  function SubscribersOf(subscribed: map<string, seq<int>>, v: string): (r: seq<int>)
  {
    if v in subscribed then subscribed[v] else []
  }

  /** Adding a subscriber to `v` appends it to the subscribers of `v` and leaves every other variable's list alone. */
  lemma SubscribersAfterAdd(subscribed: map<string, seq<int>>, v: string, pid: int, w: string)
    ensures SubscribersOf(subscribed[v := SubscribersOf(subscribed, v) + [pid]], w) ==
      if w == v then SubscribersOf(subscribed, v) + [pid] else SubscribersOf(subscribed, w)
  {
  }

  /** `receivedAllPrepareResponses`: the count of ALL responses, whatever their variable, against the subscribers of `v`. */
  function AllResponsesIn(responses: seq<PrepareResponse>, subscribed: map<string, seq<int>>, v: string): (r: bool)
  {
    |responses| == |SubscribersOf(subscribed, v)|
  }

  /** The answer does not depend on which variables the responses are for, only on how many there are. */
  lemma ResponseCountIgnoresVariables(rs1: seq<PrepareResponse>, rs2: seq<PrepareResponse>, subscribed: map<string, seq<int>>, v: string)
    requires |rs1| == |rs2|
    ensures AllResponsesIn(rs1, subscribed, v) == AllResponsesIn(rs2, subscribed, v)
  {
  }

  /** `size_t` is 64 bits wide; sizes are compared after unsigned wrap-around. */
  const SizeModulus: int := 0x1_0000_0000_0000_0000

  /** `receivedAllOperationsForPrepares`: prepares == operations - 1, the subtraction done on `size_t`. */
  function AllOperationsIn(prepares: seq<Prepare>, ops: seq<SetOperationFramework>): (r: bool)
  {
    |prepares| == (|ops| + SizeModulus - 1) % SizeModulus
  }

  /** With no framework operation the wrapped difference is the largest size_t, so the check is false. */
  lemma AllOperationsInMeaning(prepares: seq<Prepare>, ops: seq<SetOperationFramework>)
    requires |prepares| < SizeModulus - 1 && |ops| < SizeModulus
    ensures AllOperationsIn(prepares, ops) <==> |ops| > 0 && |prepares| == |ops| - 1
  {
    if |ops| > 0 {
      assert (|ops| + SizeModulus - 1) % SizeModulus == |ops| - 1;
    } else {
      assert (|ops| + SizeModulus - 1) % SizeModulus == SizeModulus - 1;
    }
  }

  // ---------------------------------------------------------------------------
  // The open-prepare rule

  /** `isTimestampSmallerThanOpenMessages`: no OPEN prepare has a timestamp strictly below `ts`. */
  predicate NoSmallerOpen(prepares: seq<Prepare>, ts: int)
  {
    forall i :: 0 <= i < |prepares| && prepares[i].open ==> ts <= prepares[i].ts
  }

  /** Storing a prepare adds its own bound if it is open and changes nothing if it is closed. */
  lemma StoredPrepareBlocks(prepares: seq<Prepare>, p: Prepare, ts: int)
    ensures NoSmallerOpen(prepares + [p], ts) <==> NoSmallerOpen(prepares, ts) && (p.open ==> ts <= p.ts)
  {
    if NoSmallerOpen(prepares, ts) && (p.open ==> ts <= p.ts) {
      forall i | 0 <= i < |prepares + [p]| && (prepares + [p])[i].open
        ensures ts <= (prepares + [p])[i].ts
      {
        if i < |prepares| {
          assert (prepares + [p])[i] == prepares[i];
        }
      }
    }
    if NoSmallerOpen(prepares + [p], ts) {
      assert (prepares + [p])[|prepares|] == p;
      forall i | 0 <= i < |prepares| && prepares[i].open
        ensures ts <= prepares[i].ts
      {
        assert (prepares + [p])[i] == prepares[i];
      }
    }
  }

  /** A timestamp equal to the smallest open prepare is not blocked, nor is any smaller one. */
  lemma UnblockedBelow(prepares: seq<Prepare>, ts: int, ts': int)
    requires NoSmallerOpen(prepares, ts) && ts' <= ts
    ensures NoSmallerOpen(prepares, ts')
  {
  }

  /** `closePrepare`: every prepare for `v` is marked closed; the rest stays as it was. */
  function ClosedFor(prepares: seq<Prepare>, v: string): (r: seq<Prepare>)
    ensures |r| == |prepares|
  {
    seq(|prepares|, i requires 0 <= i < |prepares| =>
      if prepares[i].variable == v then prepares[i].(open := false) else prepares[i])
  }

  /** Closing keeps every record's variable, timestamp and sender, clears exactly the flags of `v`, and is idempotent. */
  lemma ClosePrepareEffect(prepares: seq<Prepare>, v: string)
    ensures forall i :: 0 <= i < |prepares| ==>
      var p, q := prepares[i], ClosedFor(prepares, v)[i];
      q.variable == p.variable && q.ts == p.ts && q.sender == p.sender && q.open == (p.open && p.variable != v)
    ensures ClosedFor(ClosedFor(prepares, v), v) == ClosedFor(prepares, v)
  {
  }

  /** Closing prepares can only unblock: a timestamp safe before is safe after. */
  lemma ClosingOnlyUnblocks(prepares: seq<Prepare>, v: string, ts: int)
    requires NoSmallerOpen(prepares, ts)
    ensures NoSmallerOpen(ClosedFor(prepares, v), ts)
  {
  }

  // ---------------------------------------------------------------------------
  // Framework operations: add or update

  function OperationVars(ops: seq<SetOperationFramework>): (r: seq<string>)
  {
    seq(|ops|, i requires 0 <= i < |ops| => ops[i].variable)
  }

  /** `addFrameworkOperation`: replace the first entry for the same variable, or append. */
  function Upsert(ops: seq<SetOperationFramework>, sof: SetOperationFramework): (r: seq<SetOperationFramework>)
  {
    var i := IndexOf(OperationVars(ops), sof.variable);
    if i == -1 then ops + [sof] else ops[i := sof]
  }

  predicate UniqueVariables(ops: seq<SetOperationFramework>)
  {
    forall a, b :: 0 <= a < b < |ops| ==> ops[a].variable != ops[b].variable
  }

  /** Upsert appends when the variable is new and otherwise overwrites exactly its first entry. */
  lemma UpsertEffect(ops: seq<SetOperationFramework>, sof: SetOperationFramework)
    ensures (forall i :: 0 <= i < |ops| ==> ops[i].variable != sof.variable) ==> Upsert(ops, sof) == ops + [sof]
    ensures forall i :: (0 <= i < |ops| && ops[i].variable == sof.variable &&
      forall j :: 0 <= j < i ==> ops[j].variable != sof.variable) ==> Upsert(ops, sof) == ops[i := sof]
    ensures sof in Upsert(ops, sof)
    ensures |ops| <= |Upsert(ops, sof)| <= |ops| + 1
  {
    var names := OperationVars(ops);
    var k := IndexOf(names, sof.variable);
    if k == -1 {
      assert forall i :: 0 <= i < |ops| ==> names[i] == ops[i].variable;
    } else {
      assert Upsert(ops, sof)[k] == sof;
      forall i | 0 <= i < |ops| && ops[i].variable == sof.variable &&
        (forall j :: 0 <= j < i ==> ops[j].variable != sof.variable)
        ensures i == k
      {
        assert forall j :: 0 <= j < k ==> names[..k][j] == names[j];
        assert names[i] == sof.variable;
      }
    }
  }

  /** Upsert never gives a variable a second entry. */
  lemma UpsertKeepsVariablesUnique(ops: seq<SetOperationFramework>, sof: SetOperationFramework)
    requires UniqueVariables(ops)
    ensures UniqueVariables(Upsert(ops, sof))
  {
    var names := OperationVars(ops);
    var k := IndexOf(names, sof.variable);
    if k == -1 {
      assert forall i :: 0 <= i < |ops| ==> names[i] == ops[i].variable;
    }
  }

  /** The framework operations after upserting each of `local` in order. */
  function UpsertAll(ops: seq<SetOperationFramework>, local: seq<SetOperationFramework>): (r: seq<SetOperationFramework>)
  {
    if local == [] then ops else Upsert(UpsertAll(ops, local[..|local| - 1]), local[|local| - 1])
  }

  lemma UpsertAllStep(ops: seq<SetOperationFramework>, local: seq<SetOperationFramework>, sof: SetOperationFramework)
    ensures UpsertAll(ops, local + [sof]) == Upsert(UpsertAll(ops, local), sof)
  {
    assert (local + [sof])[..|local|] == local;
  }

  // ---------------------------------------------------------------------------
  // sendTriplets

  /**
   * One triplet per prepare response, all carrying the value of the FIRST
   * queued SET, addressed to the responder with the responder's timestamp.
   */
  function TripletsOf(responses: seq<PrepareResponse>, queued: seq<SetOperation>): (r: seq<Triplet>)
    requires |responses| > 0 ==> |queued| > 0
  {
    seq(|responses|, i requires 0 <= i < |responses| =>
      Triplet(responses[i].variable, queued[0].val, responses[i].ts, responses[i].sender))
  }

  /** The order in which sendTriplets considers its triplets. */
  function SendOrder(responses: seq<PrepareResponse>, queued: seq<SetOperation>): (r: seq<Triplet>)
    requires |responses| > 0 ==> |queued| > 0
  {
    Sort(TripletsOf(responses, queued), TripletTs)
  }

  /** One triplet per response, visited in non-decreasing timestamp order, each exactly once. */
  lemma SendOrderFacts(responses: seq<PrepareResponse>, queued: seq<SetOperation>)
    requires |responses| > 0 ==> |queued| > 0
    ensures |SendOrder(responses, queued)| == |responses|
    ensures Sorted(SendOrder(responses, queued), TripletTs)
    ensures multiset(SendOrder(responses, queued)) == multiset(TripletsOf(responses, queued))
  {
    SortCorrect(TripletsOf(responses, queued), TripletTs);
  }

  /** A triplet is committed when no open prepare is older, or unconditionally on rank 1. */
  predicate Committable(prepares: seq<Prepare>, myRank: int, t: Triplet)
  {
    NoSmallerOpen(prepares, t.ts) || myRank == 1
  }

  /**
   * The committed triplets in order, each with its variable reduced to one
   * character and the timestamp the counter reaches when it is committed.
   */
  function Commits(q: seq<Triplet>, prepares: seq<Prepare>, myRank: int, ts0: int): (r: seq<Triplet>)
  {
    if q == [] then []
    else
      var front := Commits(q[..|q| - 1], prepares, myRank, ts0);
      var t := q[|q| - 1];
      if Committable(prepares, myRank, t) then front + [Triplet([WireChar(t.variable)], t.val, ts0 + |front| + 1, t.dest)]
      else front
  }

  /** The triplets parked for a retry, in order, keeping their own timestamp and destination. */
  function Failures(q: seq<Triplet>, prepares: seq<Prepare>, myRank: int): (r: seq<FailedSend>)
  {
    if q == [] then []
    else
      var front := Failures(q[..|q| - 1], prepares, myRank);
      var t := q[|q| - 1];
      if Committable(prepares, myRank, t) then front
      else front + [FailedSend(SetOperationFramework([WireChar(t.variable)], t.val, t.ts), t.dest)]
  }

  /** The NOTIFYs put on the wire for committed triplets addressed to other peers. */
  function Notifies(c: seq<Triplet>, myRank: int): (r: seq<Notify>)
  {
    if c == [] then []
    else
      var front := Notifies(c[..|c| - 1], myRank);
      var t := c[|c| - 1];
      if t.dest == myRank then front else front + [Notify(t.dest, WireChar(t.variable), t.val, t.ts)]
  }

  /** The framework operations created for committed triplets addressed to this peer. */
  function LocalOps(c: seq<Triplet>, myRank: int): (r: seq<SetOperationFramework>)
  {
    if c == [] then []
    else
      var front := LocalOps(c[..|c| - 1], myRank);
      var t := c[|c| - 1];
      if t.dest == myRank then front + [SetOperationFramework(t.variable, t.val, t.ts)] else front
  }

  /** Extending the visited triplets by one adds at most one commit or one parked entry. */
  lemma PlanStep(q: seq<Triplet>, t: Triplet, prepares: seq<Prepare>, myRank: int, ts0: int)
    ensures var c := Commits(q, prepares, myRank, ts0);
      Commits(q + [t], prepares, myRank, ts0) ==
        if Committable(prepares, myRank, t) then c + [Triplet([WireChar(t.variable)], t.val, ts0 + |c| + 1, t.dest)] else c
    ensures Failures(q + [t], prepares, myRank) ==
      if Committable(prepares, myRank, t) then Failures(q, prepares, myRank)
      else Failures(q, prepares, myRank) + [FailedSend(SetOperationFramework([WireChar(t.variable)], t.val, t.ts), t.dest)]
  {
    assert (q + [t])[..|q|] == q;
  }

  /** Extending the commits by one adds exactly one NOTIFY or one local operation. */
  lemma CommitStep(c: seq<Triplet>, t: Triplet, myRank: int)
    ensures Notifies(c + [t], myRank) ==
      if t.dest == myRank then Notifies(c, myRank) else Notifies(c, myRank) + [Notify(t.dest, WireChar(t.variable), t.val, t.ts)]
    ensures LocalOps(c + [t], myRank) ==
      if t.dest == myRank then LocalOps(c, myRank) + [SetOperationFramework(t.variable, t.val, t.ts)] else LocalOps(c, myRank)
  {
    assert (c + [t])[..|c|] == c;
  }

  /**
   * Every triplet is either committed or parked, never both; the k-th
   * committed triplet carries the counter value ts0 + k + 1, so committed
   * timestamps are consecutive and strictly increasing.
   */
  lemma {:induction false} PlanPartition(q: seq<Triplet>, prepares: seq<Prepare>, myRank: int, ts0: int)
    ensures |Commits(q, prepares, myRank, ts0)| + |Failures(q, prepares, myRank)| == |q|
    ensures forall k :: 0 <= k < |Commits(q, prepares, myRank, ts0)| ==>
      Commits(q, prepares, myRank, ts0)[k].ts == ts0 + k + 1
  {
    if q != [] {
      PlanPartition(q[..|q| - 1], prepares, myRank, ts0);
    }
  }

  /** With the rank-1 bypass, or when every timestamp is safe, nothing is parked. */
  lemma {:induction false} NothingParkedWhenCommittable(q: seq<Triplet>, prepares: seq<Prepare>, myRank: int, ts0: int)
    requires myRank == 1 || forall i :: 0 <= i < |q| ==> NoSmallerOpen(prepares, q[i].ts)
    ensures Failures(q, prepares, myRank) == []
    ensures |Commits(q, prepares, myRank, ts0)| == |q|
  {
    if q != [] {
      NothingParkedWhenCommittable(q[..|q| - 1], prepares, myRank, ts0);
    }
  }

  /**
   * A parked entry is one the open-prepare rule blocked on a rank other than
   * 1, and it keeps the triplet's value, timestamp and destination.
   */
  lemma {:induction false} ParkedOnlyWhenBlocked(q: seq<Triplet>, prepares: seq<Prepare>, myRank: int)
    ensures forall f :: f in Failures(q, prepares, myRank) ==>
      myRank != 1 && !NoSmallerOpen(prepares, f.sof.ts) &&
      exists t :: t in q && f.parent == t.dest && f.sof.ts == t.ts && f.sof.val == t.val &&
        f.sof.variable == [WireChar(t.variable)]
  {
    if q != [] {
      var front := q[..|q| - 1];
      ParkedOnlyWhenBlocked(front, prepares, myRank);
      assert forall t :: t in front ==> t in q;
    }
  }

  /** Each commit is either sent or delivered locally; no NOTIFY goes to this peer itself. */
  lemma {:induction false} CommitsSplit(c: seq<Triplet>, myRank: int)
    ensures |Notifies(c, myRank)| + |LocalOps(c, myRank)| == |c|
    ensures forall n :: n in Notifies(c, myRank) ==> n.dest != myRank
  {
    if c != [] {
      CommitsSplit(c[..|c| - 1], myRank);
    }
  }

  /** Conversely, every triplet the open-prepare rule blocks on a rank other than 1 is parked, with its own value, timestamp and destination. */
  lemma {:induction false} BlockedIsParked(q: seq<Triplet>, prepares: seq<Prepare>, myRank: int)
    ensures forall t :: t in q && !Committable(prepares, myRank, t) ==>
      FailedSend(SetOperationFramework([WireChar(t.variable)], t.val, t.ts), t.dest) in Failures(q, prepares, myRank)
  {
    if q != [] {
      var front := q[..|q| - 1];
      BlockedIsParked(front, prepares, myRank);
      assert forall t :: t in q ==> t in front || t == q[|q| - 1];
    }
  }

  /** Every committable triplet yields a commit with its value, destination and one-character variable. */
  lemma {:induction false} CommittableIsCommitted(q: seq<Triplet>, prepares: seq<Prepare>, myRank: int, ts0: int)
    ensures forall t :: t in q && Committable(prepares, myRank, t) ==>
      exists c :: c in Commits(q, prepares, myRank, ts0) &&
        c.variable == [WireChar(t.variable)] && c.val == t.val && c.dest == t.dest
  {
    if q != [] {
      var front := q[..|q| - 1];
      var last := q[|q| - 1];
      CommittableIsCommitted(front, prepares, myRank, ts0);
      var cf := Commits(front, prepares, myRank, ts0);
      var cq := Commits(q, prepares, myRank, ts0);
      assert forall c :: c in cf ==> c in cq;
      forall t | t in q && Committable(prepares, myRank, t)
        ensures exists c :: c in cq && c.variable == [WireChar(t.variable)] && c.val == t.val && c.dest == t.dest
      {
        if t != last {
          assert t in front;
        } else {
          assert cq[|cq| - 1] in cq;
        }
      }
    }
  }

  /** Every commit comes from a committable triplet, keeping its value and destination. */
  lemma {:induction false} CommitsFromCommittable(q: seq<Triplet>, prepares: seq<Prepare>, myRank: int, ts0: int)
    ensures forall c :: c in Commits(q, prepares, myRank, ts0) ==>
      exists t :: t in q && Committable(prepares, myRank, t) &&
        c.variable == [WireChar(t.variable)] && c.val == t.val && c.dest == t.dest
  {
    if q != [] {
      var front := q[..|q| - 1];
      CommitsFromCommittable(front, prepares, myRank, ts0);
      assert forall t :: t in front ==> t in q;
    }
  }

  /**
   * A commit addressed to this peer becomes a local operation and any other
   * commit becomes the NOTIFY sent to its destination; conversely every
   * local operation and every NOTIFY comes from such a commit.
   */
  lemma {:induction false} CommitRouted(c: seq<Triplet>, myRank: int)
    ensures forall t :: t in c && t.dest == myRank ==> SetOperationFramework(t.variable, t.val, t.ts) in LocalOps(c, myRank)
    ensures forall t :: t in c && t.dest != myRank ==> Notify(t.dest, WireChar(t.variable), t.val, t.ts) in Notifies(c, myRank)
    ensures forall o :: o in LocalOps(c, myRank) ==>
      exists t :: t in c && t.dest == myRank && o == SetOperationFramework(t.variable, t.val, t.ts)
    ensures forall n :: n in Notifies(c, myRank) ==>
      exists t :: t in c && t.dest != myRank && n == Notify(t.dest, WireChar(t.variable), t.val, t.ts)
  {
    if c != [] {
      var front := c[..|c| - 1];
      CommitRouted(front, myRank);
      assert forall t :: t in c ==> t in front || t == c[|c| - 1];
      assert forall t :: t in front ==> t in c;
    }
  }

  /** When commits carry increasing timestamps, so do the NOTIFYs sent for them. */
  lemma {:induction false} NotifiesIncreasing(c: seq<Triplet>, myRank: int)
    requires forall a, b :: 0 <= a < b < |c| ==> c[a].ts < c[b].ts
    ensures forall a, b :: 0 <= a < b < |Notifies(c, myRank)| ==>
      Notifies(c, myRank)[a].ts < Notifies(c, myRank)[b].ts
    ensures forall n :: n in Notifies(c, myRank) ==> exists t :: t in c && t.ts == n.ts
  {
    if c != [] {
      var front := c[..|c| - 1];
      NotifiesIncreasing(front, myRank);
      assert forall t :: t in front ==> t in c;
      var ns := Notifies(front, myRank);
      forall n | n in ns ensures n.ts < c[|c| - 1].ts {
        var t :| t in front && t.ts == n.ts;
        var a :| 0 <= a < |front| && front[a] == t;
      }
    }
  }

  /** The commits of a prefix of the visited triplets are a prefix of all the commits. */
  lemma {:induction false} CommitsPrefix(q: seq<Triplet>, prepares: seq<Prepare>, myRank: int, ts0: int, j: nat)
    requires j <= |q|
    ensures Commits(q[..j], prepares, myRank, ts0) <= Commits(q, prepares, myRank, ts0)
  {
    if j < |q| {
      var front := q[..|q| - 1];
      CommitsPrefix(front, prepares, myRank, ts0, j);
      assert front[..j] == q[..j];
    } else {
      assert q[..j] == q;
    }
  }

  /**
   * The i-th visited triplet, when committable, is committed as the n-th
   * commit, where n is the number of commits before it, and carries the
   * counter value ts0 + n + 1.
   */
  lemma CommitAt(q: seq<Triplet>, prepares: seq<Prepare>, myRank: int, ts0: int, i: nat)
    requires i < |q| && Committable(prepares, myRank, q[i])
    ensures var n := |Commits(q[..i], prepares, myRank, ts0)|;
      n < |Commits(q, prepares, myRank, ts0)| &&
      Commits(q, prepares, myRank, ts0)[n] == Triplet([WireChar(q[i].variable)], q[i].val, ts0 + n + 1, q[i].dest)
  {
    assert q[..i] + [q[i]] == q[..i + 1];
    PlanStep(q[..i], q[i], prepares, myRank, ts0);
    CommitsPrefix(q, prepares, myRank, ts0, i + 1);
  }

  /**
   * Commits follow the visiting order: a committable triplet visited before
   * another committable one is committed earlier, with a smaller counter value.
   */
  lemma CommitOrder(q: seq<Triplet>, prepares: seq<Prepare>, myRank: int, ts0: int, i: nat, j: nat)
    requires i < j < |q| && Committable(prepares, myRank, q[i]) && Committable(prepares, myRank, q[j])
    ensures |Commits(q[..i], prepares, myRank, ts0)| < |Commits(q[..j], prepares, myRank, ts0)|
    ensures var c, m, n := Commits(q, prepares, myRank, ts0), |Commits(q[..i], prepares, myRank, ts0)|, |Commits(q[..j], prepares, myRank, ts0)|;
      m < n < |c| && c[m].ts < c[n].ts
  {
    assert q[..i] + [q[i]] == q[..i + 1];
    PlanStep(q[..i], q[i], prepares, myRank, ts0);
    assert q[..j][..i + 1] == q[..i + 1];
    CommitsPrefix(q[..j], prepares, myRank, ts0, i + 1);
    CommitAt(q, prepares, myRank, ts0, i);
    CommitAt(q, prepares, myRank, ts0, j);
  }

  /** The NOTIFYs one sendTriplets call puts on the wire carry strictly increasing timestamps. */
  lemma SendTripletsNotifiesIncreasing(q: seq<Triplet>, prepares: seq<Prepare>, myRank: int, ts0: int)
    ensures var ns := Notifies(Commits(q, prepares, myRank, ts0), myRank);
      forall a, b :: 0 <= a < b < |ns| ==> ns[a].ts < ns[b].ts
  {
    PlanPartition(q, prepares, myRank, ts0);
    NotifiesIncreasing(Commits(q, prepares, myRank, ts0), myRank);
  }

  // ---------------------------------------------------------------------------
  // sendNotificationsFromFramework

  /**
   * The timestamp local delivery gives an operation on `v` with timestamp
   * `ts`: the LAST matching prepare whose timestamp exceeds the ORIGINAL `ts`,
   * or `ts` itself when there is none.
   */
  function RaisedTs(prepares: seq<Prepare>, v: string, ts: int): (r: int)
  {
    if prepares == [] then ts
    else
      var p := prepares[|prepares| - 1];
      if p.variable == v && p.ts > ts then p.ts else RaisedTs(prepares[..|prepares| - 1], v, ts)
  }

  /** Every framework operation with its timestamp raised. */
  function Raised(prepares: seq<Prepare>, ops: seq<SetOperationFramework>): (r: seq<SetOperationFramework>)
    ensures |r| == |ops|
  {
    seq(|ops|, i requires 0 <= i < |ops| => ops[i].(ts := RaisedTs(prepares, ops[i].variable, ops[i].ts)))
  }

  /**
   * The raised timestamp never decreases; it changes exactly when some
   * matching prepare is larger than the original, and then it is the
   * timestamp of the last such prepare.
   */
  lemma {:induction false} RaisedTsFacts(prepares: seq<Prepare>, v: string, ts: int)
    ensures ts <= RaisedTs(prepares, v, ts)
    ensures RaisedTs(prepares, v, ts) != ts ==>
      exists i :: 0 <= i < |prepares| && prepares[i].variable == v && prepares[i].ts == RaisedTs(prepares, v, ts) &&
        forall j :: i < j < |prepares| ==> !(prepares[j].variable == v && prepares[j].ts > ts)
    ensures (forall i :: 0 <= i < |prepares| && prepares[i].variable == v ==> prepares[i].ts <= ts) ==>
      RaisedTs(prepares, v, ts) == ts
    ensures (exists i :: 0 <= i < |prepares| && prepares[i].variable == v && prepares[i].ts > ts) ==>
      RaisedTs(prepares, v, ts) > ts
  {
    if prepares != [] {
      var front := prepares[..|prepares| - 1];
      RaisedTsFacts(front, v, ts);
      assert forall i :: 0 <= i < |front| ==> front[i] == prepares[i];
    }
  }

  /** The raised timestamp is not the maximum: a larger prepare followed by a smaller one yields the smaller. */
  lemma RaisedTsNotMaximum()
    ensures RaisedTs([Prepare("X", 5, 2, true), Prepare("X", 3, 3, true)], "X", 1) == 3
  {
    var ps := [Prepare("X", 5, 2, true), Prepare("X", 3, 3, true)];
    assert ps[..1] == [Prepare("X", 5, 2, true)];
  }

  /** Raising keeps variable and value and never lowers a timestamp. */
  lemma RaisedPointwise(prepares: seq<Prepare>, ops: seq<SetOperationFramework>)
    ensures forall i :: 0 <= i < |ops| ==>
      Raised(prepares, ops)[i].variable == ops[i].variable &&
      Raised(prepares, ops)[i].val == ops[i].val &&
      ops[i].ts <= Raised(prepares, ops)[i].ts
  {
    forall i | 0 <= i < |ops|
      ensures ops[i].ts <= Raised(prepares, ops)[i].ts
    {
      RaisedTsFacts(prepares, ops[i].variable, ops[i].ts);
    }
  }

  // ---------------------------------------------------------------------------
  // retrySendingFailedTriplets

  function ResponseVars(rs: seq<PrepareResponse>): (r: seq<string>)
  {
    seq(|rs|, i requires 0 <= i < |rs| => rs[i].variable)
  }

  /**
   * `getTSFromReceivedPrepareResponse`: the timestamp of the first response
   * for `v`, plus one when `v` is "X", or -1 when no response is for `v`.
   */
  function ResponseTs(rs: seq<PrepareResponse>, v: string): (r: int)
  {
    var i := IndexOf(ResponseVars(rs), v);
    if i == -1 then -1 else if v == "X" then rs[i].ts + 1 else rs[i].ts
  }

  lemma ResponseTsMeaning(rs: seq<PrepareResponse>, v: string)
    ensures (forall i :: 0 <= i < |rs| ==> rs[i].variable != v) ==> ResponseTs(rs, v) == -1
    ensures forall i :: (0 <= i < |rs| && rs[i].variable == v && forall j :: 0 <= j < i ==> rs[j].variable != v) ==>
      ResponseTs(rs, v) == rs[i].ts + (if v == "X" then 1 else 0)
  {
    var names := ResponseVars(rs);
    var k := IndexOf(names, v);
    if k == -1 {
      assert forall i :: 0 <= i < |rs| ==> names[i] == rs[i].variable;
    } else {
      forall i | 0 <= i < |rs| && rs[i].variable == v && (forall j :: 0 <= j < i ==> rs[j].variable != v)
        ensures i == k
      {
        assert forall j :: 0 <= j < k ==> names[..k][j] == names[j];
        assert names[i] == v;
      }
    }
  }

  /** The parked entries still blocked by the open-prepare rule, in their original order. */
  function StillBlocked(fs: seq<FailedSend>, prepares: seq<Prepare>): (r: seq<FailedSend>)
  {
    if fs == [] then []
    else
      var front := StillBlocked(fs[..|fs| - 1], prepares);
      var f := fs[|fs| - 1];
      if NoSmallerOpen(prepares, f.sof.ts) then front else front + [f]
  }

  /** The NOTIFYs a retry sends: to the remembered peer, with the first response's timestamp for the variable. */
  function RetryNotifies(fs: seq<FailedSend>, prepares: seq<Prepare>, rs: seq<PrepareResponse>): (r: seq<Notify>)
  {
    if fs == [] then []
    else
      var front := RetryNotifies(fs[..|fs| - 1], prepares, rs);
      var f := fs[|fs| - 1];
      if NoSmallerOpen(prepares, f.sof.ts)
      then front + [Notify(f.parent, WireChar(f.sof.variable), f.sof.val, ResponseTs(rs, f.sof.variable))]
      else front
  }

  /**
   * Every parked entry is either retried or kept, never both; kept entries
   * are exactly the blocked ones, and the NOTIFYs are exactly those for the
   * entries that now pass.
   */
  lemma {:induction false} RetryPartition(fs: seq<FailedSend>, prepares: seq<Prepare>, rs: seq<PrepareResponse>)
    ensures |RetryNotifies(fs, prepares, rs)| + |StillBlocked(fs, prepares)| == |fs|
    ensures forall f :: f in StillBlocked(fs, prepares) ==> f in fs && !NoSmallerOpen(prepares, f.sof.ts)
    ensures forall f :: f in fs && !NoSmallerOpen(prepares, f.sof.ts) ==> f in StillBlocked(fs, prepares)
    ensures forall n :: n in RetryNotifies(fs, prepares, rs) ==>
      exists f :: f in fs && NoSmallerOpen(prepares, f.sof.ts) &&
        n == Notify(f.parent, WireChar(f.sof.variable), f.sof.val, ResponseTs(rs, f.sof.variable))
    ensures forall f :: f in fs && NoSmallerOpen(prepares, f.sof.ts) ==>
      Notify(f.parent, WireChar(f.sof.variable), f.sof.val, ResponseTs(rs, f.sof.variable)) in RetryNotifies(fs, prepares, rs)
  {
    if fs != [] {
      var front := fs[..|fs| - 1];
      RetryPartition(front, prepares, rs);
      assert fs == front + [fs[|fs| - 1]];
      assert forall f :: f in fs ==> f in front || f == fs[|fs| - 1];
    }
  }

  /** A second retry with nothing new learned sends nothing and keeps the queue as it is. */
  lemma {:induction false} RetryIdempotent(fs: seq<FailedSend>, prepares: seq<Prepare>, rs: seq<PrepareResponse>)
    ensures StillBlocked(StillBlocked(fs, prepares), prepares) == StillBlocked(fs, prepares)
    ensures RetryNotifies(StillBlocked(fs, prepares), prepares, rs) == []
  {
    if fs != [] {
      var front := fs[..|fs| - 1];
      RetryIdempotent(front, prepares, rs);
      var f := fs[|fs| - 1];
      var sb := StillBlocked(front, prepares);
      if !NoSmallerOpen(prepares, f.sof.ts) {
        assert (sb + [f])[..|sb|] == sb;
      }
    }
  }

  /** Closing prepares (on a NOTIFY) never makes the retry queue longer. */
  lemma {:induction false} ClosingShrinksRetryQueue(fs: seq<FailedSend>, prepares: seq<Prepare>, v: string)
    ensures |StillBlocked(fs, ClosedFor(prepares, v))| <= |StillBlocked(fs, prepares)|
  {
    if fs != [] {
      ClosingShrinksRetryQueue(fs[..|fs| - 1], prepares, v);
      var f := fs[|fs| - 1];
      if NoSmallerOpen(prepares, f.sof.ts) {
        ClosingOnlyUnblocks(prepares, v, f.sof.ts);
      }
    }
  }

  /** The entries kept from a prefix of the queue are a prefix of the entries kept. */
  lemma {:induction false} StillBlockedPrefix(fs: seq<FailedSend>, prepares: seq<Prepare>, j: nat)
    requires j <= |fs|
    ensures StillBlocked(fs[..j], prepares) <= StillBlocked(fs, prepares)
  {
    if j < |fs| {
      var front := fs[..|fs| - 1];
      StillBlockedPrefix(front, prepares, j);
      assert front[..j] == fs[..j];
    } else {
      assert fs[..j] == fs;
    }
  }

  /** The NOTIFYs for a prefix of the queue are a prefix of the NOTIFYs sent. */
  lemma {:induction false} RetryNotifiesPrefix(fs: seq<FailedSend>, prepares: seq<Prepare>, rs: seq<PrepareResponse>, j: nat)
    requires j <= |fs|
    ensures RetryNotifies(fs[..j], prepares, rs) <= RetryNotifies(fs, prepares, rs)
  {
    if j < |fs| {
      var front := fs[..|fs| - 1];
      RetryNotifiesPrefix(front, prepares, rs, j);
      assert front[..j] == fs[..j];
    } else {
      assert fs[..j] == fs;
    }
  }

  /**
   * Position by position: a blocked entry fs[i] is kept at the position given
   * by the number of kept entries before it, and an entry that passes is
   * retried as the NOTIFY at the position given by the number of retries
   * before it. So kept entries and NOTIFYs both keep the queue's order, and
   * each entry is kept or retried exactly once.
   */
  lemma RetryAt(fs: seq<FailedSend>, prepares: seq<Prepare>, rs: seq<PrepareResponse>, i: nat)
    requires i < |fs|
    ensures var f, k, n := fs[i], |StillBlocked(fs[..i], prepares)|, |RetryNotifies(fs[..i], prepares, rs)|;
      if NoSmallerOpen(prepares, f.sof.ts) then
        && n < |RetryNotifies(fs, prepares, rs)|
        && RetryNotifies(fs, prepares, rs)[n] == Notify(f.parent, WireChar(f.sof.variable), f.sof.val, ResponseTs(rs, f.sof.variable))
        && StillBlocked(fs[..i + 1], prepares) == StillBlocked(fs[..i], prepares)
      else
        && k < |StillBlocked(fs, prepares)|
        && StillBlocked(fs, prepares)[k] == f
        && RetryNotifies(fs[..i + 1], prepares, rs) == RetryNotifies(fs[..i], prepares, rs)
  {
    var pre := fs[..i + 1];
    assert pre[..|pre| - 1] == fs[..i];
    StillBlockedPrefix(fs, prepares, i + 1);
    RetryNotifiesPrefix(fs, prepares, rs, i + 1);
  }

  /** Two blocked entries stay in their queue order among the kept entries. */
  lemma StillBlockedOrder(fs: seq<FailedSend>, prepares: seq<Prepare>, i: nat, j: nat)
    requires i < j < |fs| && !NoSmallerOpen(prepares, fs[i].sof.ts) && !NoSmallerOpen(prepares, fs[j].sof.ts)
    ensures |StillBlocked(fs[..i], prepares)| < |StillBlocked(fs[..j], prepares)|
  {
    var pre := fs[..i + 1];
    assert pre[..|pre| - 1] == fs[..i];
    assert fs[..j][..i + 1] == pre;
    StillBlockedPrefix(fs[..j], prepares, i + 1);
  }
}
