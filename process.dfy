// One peer of the distributed shared memory: its Lamport counter, its
// subscriptions, its replica and log, its queue of local SETs, the PREPAREs
// it received and the responses to its own, the operations waiting for local
// delivery and the NOTIFYs waiting for a retry. Every NOTIFY the peer puts on
// the wire is appended to `outbox`.

module ProcessModel {
  import opened ProcessTypes
  import opened ExchangeSort
  import opened Replica
  import opened LogText
  import opened Ordering

  class Process {
    var id: int
    var timestamp: int
    var variables: seq<string>
    /** For each variable, the ids of the other peers subscribed to it. */
    var processesSubscribed: map<string, seq<int>>
    /** Index-aligned with `variables`. */
    var values: seq<int>
    /** The order in which operations were delivered locally. */
    var log: seq<string>
    var setOperations: seq<SetOperation>
    var currentSetOperation: int
    var receivedPrepares: seq<Prepare>
    var prepareResponses: seq<PrepareResponse>
    var frameworkOperations: seq<SetOperationFramework>
    var failedToSend: seq<FailedSend>
    /** The NOTIFY messages sent so far, in send order. */
    var outbox: seq<Notify>

    ghost predicate Valid()
      reads this`variables, this`values, this`setOperations, this`currentSetOperation
    {
      |values| == |variables| && 0 <= currentSetOperation <= |setOperations|
    }

    constructor (id: int)
      ensures Valid()
      ensures this.id == id && timestamp == 0 && currentSetOperation == 0
      ensures variables == [] && values == [] && log == [] && setOperations == []
      ensures receivedPrepares == [] && prepareResponses == [] && frameworkOperations == [] && failedToSend == []
      ensures processesSubscribed == map[] && outbox == []
    {
      this.id := id;
      timestamp := 0;
      variables := [];
      processesSubscribed := map[];
      values := [];
      log := [];
      setOperations := [];
      currentSetOperation := 0;
      receivedPrepares := [];
      prepareResponses := [];
      frameworkOperations := [];
      failedToSend := [];
      outbox := [];
    }

    /** A new subscription starts with value -1, in the slot aligned with its name. */
    method SubscribeToVar(v: string)
      requires Valid()
      modifies this`variables, this`values
      ensures Valid()
      ensures variables == old(variables) + [v] && values == old(values) + [-1]
    {
      variables := variables + [v];
      values := values + [-1];
    }

    method AddLog(message: string)
      modifies this`log
      ensures log == old(log) + [message]
    {
      log := log + [message];
    }

    method AddSetOperation(v: string, val: int)
      requires Valid()
      modifies this`setOperations
      ensures Valid()
      ensures setOperations == old(setOperations) + [SetOperation(v, val)]
    {
      setOperations := setOperations + [SetOperation(v, val)];
    }

    /**
     * Hands out the queued SETs in insertion order, one per call; once the
     * cursor reaches the end it answers ("NONE", -1) and stays put.
     */
    method RunNextSetOperation() returns (op: SetOperation)
      requires Valid()
      modifies this`currentSetOperation
      ensures Valid()
      ensures old(currentSetOperation) < |setOperations| ==>
        op == setOperations[old(currentSetOperation)] && currentSetOperation == old(currentSetOperation) + 1
      ensures old(currentSetOperation) == |setOperations| ==>
        op == NoOperation && currentSetOperation == old(currentSetOperation)
    {
      if currentSetOperation < |setOperations| {
        currentSetOperation := currentSetOperation + 1;
        return setOperations[currentSetOperation - 1];
      }
      return NoOperation;
    }

    method IncrementTs()
      modifies this`timestamp
      ensures timestamp == old(timestamp) + 1
    {
      timestamp := timestamp + 1;
    }

    method SetTs(ts: int)
      modifies this`timestamp
      ensures timestamp == ts
    {
      timestamp := ts;
    }

    /** The clock rule on every receive: the counter moves past both its own value and the message's. */
    method Observe(ts: int)
      modifies this`timestamp
      ensures timestamp > old(timestamp) && timestamp > ts
      ensures timestamp == old(timestamp) + 1 || timestamp == ts + 1
    {
      var m := if ts > timestamp then ts else timestamp;
      SetTs(m + 1);
    }

    /** Records `pid` as another subscriber of `v`, creating the entry when `v` has none yet. */
    method AddOtherSubscriber(v: string, pid: int)
      modifies this`processesSubscribed
      ensures processesSubscribed == old(processesSubscribed)[v := SubscribersOf(old(processesSubscribed), v) + [pid]]
    {
      processesSubscribed := processesSubscribed[v := SubscribersOf(processesSubscribed, v) + [pid]];
    }

    /** A received PREPARE is stored open. */
    method StoreReceivedPrepare(v: string, ts: int, sender: int)
      modifies this`receivedPrepares
      ensures receivedPrepares == old(receivedPrepares) + [Prepare(v, ts, sender, true)]
    {
      receivedPrepares := receivedPrepares + [Prepare(v, ts, sender, true)];
    }

    method StoreReceivedPrepareResponse(v: string, ts: int, sender: int)
      modifies this`prepareResponses
      ensures prepareResponses == old(prepareResponses) + [PrepareResponse(v, ts, sender)]
    {
      prepareResponses := prepareResponses + [PrepareResponse(v, ts, sender)];
    }

    /** The subscribers recorded for `v`, or none when `v` was never recorded. */
    function GetSubscribersForVariable(v: string): (r: seq<int>)
      reads this`processesSubscribed
      ensures v in processesSubscribed ==> r == processesSubscribed[v]
      ensures v !in processesSubscribed ==> r == []
    {
      SubscribersOf(processesSubscribed, v)
    }

    /** Whether as many responses (for any variable) have arrived as `v` has subscribers. */
    function ReceivedAllPrepareResponses(v: string): (r: bool)
      reads this`prepareResponses, this`processesSubscribed
      ensures r <==> |prepareResponses| == |GetSubscribersForVariable(v)|
      ensures v !in processesSubscribed ==> (r <==> prepareResponses == [])
    {
      AllResponsesIn(prepareResponses, processesSubscribed, v)
    }

    /** Whether there is exactly one prepare fewer than framework operations, compared on `size_t`. */
    function ReceivedAllOperationsForPrepares(): (r: bool)
      reads this`receivedPrepares, this`frameworkOperations
      ensures |receivedPrepares| < SizeModulus - 1 && |frameworkOperations| < SizeModulus ==>
        (r <==> |frameworkOperations| > 0 && |receivedPrepares| == |frameworkOperations| - 1)
      ensures frameworkOperations == [] && |receivedPrepares| < SizeModulus - 1 ==> !r
    {
      AllOperationsIn(receivedPrepares, frameworkOperations)
    }

    /** Whether a prepare for `v` from `sender` was ever received; the timestamp plays no part. */
    method FindPrepareForMessage(v: string, ts: int, sender: int) returns (found: bool)
      ensures found <==>
        exists i :: 0 <= i < |receivedPrepares| && receivedPrepares[i].variable == v && receivedPrepares[i].sender == sender
    {
      var i := 0;
      while i < |receivedPrepares|
        invariant 0 <= i <= |receivedPrepares|
        invariant forall j :: 0 <= j < i ==> !(receivedPrepares[j].variable == v && receivedPrepares[j].sender == sender)
      {
        if receivedPrepares[i].variable == v && receivedPrepares[i].sender == sender {
          return true;
        }
        i := i + 1;
      }
      return false;
    }

    /** The replica slot of `v`: its first occurrence among the subscriptions, or -1. */
    method GetIndexForVariable(v: string) returns (idx: int)
      ensures idx == IndexOf(variables, v)
    {
      var i := 0;
      while i < |variables|
        invariant 0 <= i <= |variables|
        invariant v !in variables[..i]
      {
        if variables[i] == v {
          IndexOfUnique(variables, v, i);
          return i;
        }
        assert variables[..i + 1] == variables[..i] + [variables[i]];
        i := i + 1;
      }
      assert variables[..i] == variables;
      return -1;
    }

    /** Writes `val` into the slot of `v`; an unsubscribed `v` leaves the replica as it was. */
    method SetValueForVariable(v: string, val: int)
      requires Valid()
      modifies this`values
      ensures Valid()
      ensures values == SetValue(old(values), variables, v, val)
    {
      var idx := GetIndexForVariable(v);
      if idx != -1 {
        values := values[idx := val];
      }
    }

    /** Replaces the first framework operation on the same variable, or appends. */
    method AddFrameworkOperation(sof: SetOperationFramework)
      modifies this`frameworkOperations
      ensures frameworkOperations == Upsert(old(frameworkOperations), sof)
    {
      UpsertEffect(frameworkOperations, sof);
      var i := 0;
      while i < |frameworkOperations|
        invariant 0 <= i <= |frameworkOperations|
        invariant frameworkOperations == old(frameworkOperations)
        invariant forall j :: 0 <= j < i ==> frameworkOperations[j].variable != sof.variable
      {
        if frameworkOperations[i].variable == sof.variable {
          frameworkOperations := frameworkOperations[i := sof];
          return;
        }
        i := i + 1;
      }
      frameworkOperations := frameworkOperations + [sof];
    }

    /** The commit-safety check: true iff no open prepare has a timestamp below `ts`. */
    method IsTimestampSmallerThanOpenMessages(ts: int) returns (r: bool)
      ensures r == NoSmallerOpen(receivedPrepares, ts)
    {
      var i := 0;
      while i < |receivedPrepares|
        invariant 0 <= i <= |receivedPrepares|
        invariant forall j :: 0 <= j < i && receivedPrepares[j].open ==> ts <= receivedPrepares[j].ts
      {
        var pr := receivedPrepares[i];
        if pr.open {
          if ts > pr.ts {
            return false;
          }
        }
        i := i + 1;
      }
      return true;
    }

    /** Marks every prepare for `v` closed. */
    method ClosePrepare(v: string)
      modifies this`receivedPrepares
      ensures receivedPrepares == ClosedFor(old(receivedPrepares), v)
    {
      var i := 0;
      while i < |receivedPrepares|
        invariant 0 <= i <= |receivedPrepares| == |old(receivedPrepares)|
        invariant forall j :: 0 <= j < i ==> receivedPrepares[j] == ClosedFor(old(receivedPrepares), v)[j]
        invariant forall j :: i <= j < |receivedPrepares| ==> receivedPrepares[j] == old(receivedPrepares)[j]
      {
        if receivedPrepares[i].variable == v {
          receivedPrepares := receivedPrepares[i := receivedPrepares[i].(open := false)];
        }
        i := i + 1;
      }
    }

    method AddFailedToSend(sof: SetOperationFramework, parent: int)
      modifies this`failedToSend
      ensures failedToSend == old(failedToSend) + [FailedSend(sof, parent)]
    {
      failedToSend := failedToSend + [FailedSend(sof, parent)];
    }

    /** The timestamp a retried NOTIFY for `v` carries (see `ResponseTs`). */
    method GetTSFromReceivedPrepareResponse(v: string) returns (ts: int)
      ensures ts == ResponseTs(prepareResponses, v)
    {
      ResponseTsMeaning(prepareResponses, v);
      var i := 0;
      while i < |prepareResponses|
        invariant 0 <= i <= |prepareResponses|
        invariant forall j :: 0 <= j < i ==> prepareResponses[j].variable != v
      {
        var pr := prepareResponses[i];
        if v == pr.variable {
          if v == "X" {
            return pr.ts + 1;
          }
          return pr.ts;
        }
        i := i + 1;
      }
      return -1;
    }

    /** The first loop of sendTriplets: one triplet per prepare response, in response order. */
    method BuildTriplets() returns (triplets: seq<Triplet>)
      requires |prepareResponses| > 0 ==> |setOperations| > 0
      ensures triplets == TripletsOf(prepareResponses, setOperations)
    {
      triplets := [];
      var i := 0;
      while i < |prepareResponses|
        invariant 0 <= i <= |prepareResponses|
        invariant triplets == TripletsOf(prepareResponses[..i], setOperations)
      {
        var pr := prepareResponses[i];
        triplets := triplets + [Triplet(pr.variable, setOperations[0].val, pr.ts, pr.sender)];
        i := i + 1;
      }
      assert prepareResponses[..i] == prepareResponses;
    }

    /**
     * The body of the commit loop of sendTriplets for one triplet: commit it
     * (bump the counter, then deliver locally or send a NOTIFY) when the
     * open-prepare rule or the rank-1 bypass allows, park it otherwise.
     */
    method DispatchTriplet(t: Triplet, myRank: int)
      modifies this`timestamp, this`frameworkOperations, this`outbox, this`failedToSend
      ensures var variable := WireChar(t.variable);
        if Committable(receivedPrepares, myRank, t) then
          && timestamp == old(timestamp) + 1
          && failedToSend == old(failedToSend)
          && (t.dest == myRank ==>
                && outbox == old(outbox)
                && frameworkOperations == Upsert(old(frameworkOperations), SetOperationFramework([variable], t.val, timestamp)))
          && (t.dest != myRank ==>
                && frameworkOperations == old(frameworkOperations)
                && outbox == old(outbox) + [Notify(t.dest, variable, t.val, timestamp)])
        else
          && timestamp == old(timestamp)
          && frameworkOperations == old(frameworkOperations)
          && outbox == old(outbox)
          && failedToSend == old(failedToSend) + [FailedSend(SetOperationFramework([variable], t.val, t.ts), t.dest)]
    {
      var variable := WireChar(t.variable);
      var safe := IsTimestampSmallerThanOpenMessages(t.ts);
      if safe || myRank == 1 {
        IncrementTs();
        var ts := timestamp;
        if t.dest == myRank {
          AddFrameworkOperation(SetOperationFramework([variable], t.val, ts));
        } else {
          outbox := outbox + [Notify(t.dest, variable, t.val, ts)];
        }
      } else {
        AddFailedToSend(SetOperationFramework([variable], t.val, t.ts), t.dest);
      }
    }

    /**
     * The state sendTriplets has reached after visiting the triplets `q`,
     * starting from counter `ts0`, operations `fo0`, outbox `ob0` and retry
     * queue `fs0`.
     */
    ghost predicate PlanReached(q: seq<Triplet>, myRank: int, ts0: int, fo0: seq<SetOperationFramework>,
                                ob0: seq<Notify>, fs0: seq<FailedSend>)
      reads this`timestamp, this`frameworkOperations, this`outbox, this`failedToSend, this`receivedPrepares
    {
      var c := Commits(q, receivedPrepares, myRank, ts0);
      && timestamp == ts0 + |c|
      && outbox == ob0 + Notifies(c, myRank)
      && frameworkOperations == UpsertAll(fo0, LocalOps(c, myRank))
      && failedToSend == fs0 + Failures(q, receivedPrepares, myRank)
    }

    /** One turn of the commit loop of sendTriplets keeps the state in step with the plan. */
    method VisitTriplet(q: seq<Triplet>, t: Triplet, myRank: int, ghost ts0: int, ghost fo0: seq<SetOperationFramework>,
                        ghost ob0: seq<Notify>, ghost fs0: seq<FailedSend>)
      requires PlanReached(q, myRank, ts0, fo0, ob0, fs0)
      modifies this`timestamp, this`frameworkOperations, this`outbox, this`failedToSend
      ensures PlanReached(q + [t], myRank, ts0, fo0, ob0, fs0)
    {
      ghost var c := Commits(q, receivedPrepares, myRank, ts0);
      ghost var commit := Triplet([WireChar(t.variable)], t.val, ts0 + |c| + 1, t.dest);
      PlanStep(q, t, receivedPrepares, myRank, ts0);
      CommitStep(c, commit, myRank);
      UpsertAllStep(fo0, LocalOps(c, myRank), SetOperationFramework(commit.variable, commit.val, commit.ts));
      assert WireChar(commit.variable) == WireChar(t.variable);
      DispatchTriplet(t, myRank);
      if Committable(receivedPrepares, myRank, t) {
        assert Commits(q + [t], receivedPrepares, myRank, ts0) == c + [commit];
        assert Failures(q + [t], receivedPrepares, myRank) == Failures(q, receivedPrepares, myRank);
        assert timestamp == commit.ts;
      } else {
        assert Commits(q + [t], receivedPrepares, myRank, ts0) == c;
      }
    }

    /**
     * Builds one triplet per prepare response, sorts them by timestamp, then
     * commits each triplet the open-prepare rule allows (every triplet on
     * rank 1): the counter is bumped and the triplet is delivered locally when
     * addressed to this peer, or sent as a NOTIFY otherwise. Every other
     * triplet is parked in `failedToSend` with its destination.
     */
    method SendTriplets(myRank: int)
      requires |prepareResponses| > 0 ==> |setOperations| > 0
      modifies this`timestamp, this`frameworkOperations, this`outbox, this`failedToSend
      ensures var plan := SendOrder(prepareResponses, setOperations);
        var commits := Commits(plan, receivedPrepares, myRank, old(timestamp));
        && timestamp == old(timestamp) + |commits|
        && outbox == old(outbox) + Notifies(commits, myRank)
        && frameworkOperations == UpsertAll(old(frameworkOperations), LocalOps(commits, myRank))
        && failedToSend == old(failedToSend) + Failures(plan, receivedPrepares, myRank)
    {
      var triplets := BuildTriplets();
      triplets := SortByKey(triplets, TripletTs);

      var k := 0;
      while k < |triplets|
        invariant 0 <= k <= |triplets|
        invariant PlanReached(triplets[..k], myRank, old(timestamp), old(frameworkOperations), old(outbox), old(failedToSend))
      {
        assert triplets[..k + 1] == triplets[..k] + [triplets[k]];
        VisitTriplet(triplets[..k], triplets[k], myRank, old(timestamp), old(frameworkOperations), old(outbox), old(failedToSend));
        k := k + 1;
      }
      assert triplets[..k] == triplets;
    }

    /** The first phase of local delivery for operation i: raise its timestamp from the matching prepares. */
    method RaiseTimestamp(i: nat)
      requires i < |frameworkOperations|
      modifies this`frameworkOperations
      ensures frameworkOperations == old(frameworkOperations)[i :=
        old(frameworkOperations)[i].(ts := RaisedTs(receivedPrepares, old(frameworkOperations)[i].variable, old(frameworkOperations)[i].ts))]
    {
      var sof := frameworkOperations[i];
      var j := 0;
      while j < |receivedPrepares|
        invariant 0 <= j <= |receivedPrepares|
        invariant frameworkOperations == old(frameworkOperations)[i := sof.(ts := RaisedTs(receivedPrepares[..j], sof.variable, sof.ts))]
      {
        var pr := receivedPrepares[j];
        assert receivedPrepares[..j + 1][..j] == receivedPrepares[..j];
        if pr.variable == sof.variable {
          if pr.ts > sof.ts {
            frameworkOperations := frameworkOperations[i := frameworkOperations[i].(ts := pr.ts)];
          }
        }
        j := j + 1;
      }
      assert receivedPrepares[..j] == receivedPrepares;
    }

    /** The first phase of local delivery: every framework operation gets its raised timestamp. */
    method RaiseTimestamps()
      modifies this`frameworkOperations
      ensures frameworkOperations == Raised(receivedPrepares, old(frameworkOperations))
    {
      ghost var raised := Raised(receivedPrepares, frameworkOperations);
      var i := 0;
      while i < |frameworkOperations|
        invariant 0 <= i <= |frameworkOperations| == |old(frameworkOperations)|
        invariant forall j :: 0 <= j < i ==> frameworkOperations[j] == raised[j]
        invariant forall j :: i <= j < |frameworkOperations| ==> frameworkOperations[j] == old(frameworkOperations)[j]
      {
        RaiseTimestamp(i);
        i := i + 1;
      }
    }

    /** The last phase of local delivery: apply and log every framework operation, in list order. */
    method DeliverAll()
      requires Valid()
      modifies this`values, this`log
      ensures Valid()
      ensures values == ApplyAll(old(values), variables, frameworkOperations)
      ensures log == old(log) + NotifyEntries(frameworkOperations)
    {
      var k := 0;
      while k < |frameworkOperations|
        invariant 0 <= k <= |frameworkOperations|
        invariant Valid()
        invariant values == ApplyAll(old(values), variables, frameworkOperations[..k])
        invariant log == old(log) + NotifyEntries(frameworkOperations[..k])
      {
        var sof := frameworkOperations[k];
        assert frameworkOperations[..k + 1][..k] == frameworkOperations[..k];
        SetValueForVariable(sof.variable, sof.val);
        AddLog(NotifyEntry(sof));
        k := k + 1;
      }
      assert frameworkOperations[..k] == frameworkOperations;
    }

    /**
     * Local delivery: raises each framework operation's timestamp from the
     * prepares received for its variable, sorts the operations by timestamp,
     * then applies each value and logs a NOTIFY line, in that order.
     */
    method SendNotificationsFromFramework()
      requires Valid()
      modifies this`frameworkOperations, this`values, this`log
      ensures Valid()
      ensures frameworkOperations == Sort(Raised(receivedPrepares, old(frameworkOperations)), OperationTs)
      ensures Sorted(frameworkOperations, OperationTs)
      ensures multiset(frameworkOperations) == multiset(Raised(receivedPrepares, old(frameworkOperations)))
      ensures values == ApplyAll(old(values), variables, frameworkOperations)
      ensures log == old(log) + NotifyEntries(frameworkOperations)
    {
      RaiseTimestamps();
      frameworkOperations := SortByKey(frameworkOperations, OperationTs);
      DeliverAll();
    }

    /**
     * Re-tries every parked NOTIFY: one the open-prepare rule now allows
     * bumps the counter and is sent to its remembered peer with the
     * timestamp of the first matching prepare response; the others stay
     * parked, in their order.
     */
    method RetrySendingFailedTriplets()
      modifies this`timestamp, this`outbox, this`failedToSend
      ensures failedToSend == StillBlocked(old(failedToSend), receivedPrepares)
      ensures outbox == old(outbox) + RetryNotifies(old(failedToSend), receivedPrepares, prepareResponses)
      ensures timestamp == old(timestamp) + |RetryNotifies(old(failedToSend), receivedPrepares, prepareResponses)|
    {
      var pending := failedToSend;
      var stillFailed: seq<FailedSend> := [];
      var k := 0;
      while k < |pending|
        invariant 0 <= k <= |pending|
        invariant stillFailed == StillBlocked(pending[..k], receivedPrepares)
        invariant outbox == old(outbox) + RetryNotifies(pending[..k], receivedPrepares, prepareResponses)
        invariant timestamp == old(timestamp) + |RetryNotifies(pending[..k], receivedPrepares, prepareResponses)|
      {
        var fs := pending[k];
        assert pending[..k + 1][..k] == pending[..k];
        var safe := IsTimestampSmallerThanOpenMessages(fs.sof.ts);
        if safe {
          IncrementTs();
          var ts := GetTSFromReceivedPrepareResponse(fs.sof.variable);
          outbox := outbox + [Notify(fs.parent, WireChar(fs.sof.variable), fs.sof.val, ts)];
        } else {
          stillFailed := stillFailed + [fs];
        }
        k := k + 1;
      }
      assert pending[..k] == pending;
      failedToSend := stillFailed;
    }

    /** Sets the first framework operation's timestamp from the prepare responses for its variable. */
    method UpdateLocalSetOperationTimestamp()
      requires |frameworkOperations| > 0
      modifies this`frameworkOperations
      ensures frameworkOperations ==
        old(frameworkOperations)[0 := old(frameworkOperations)[0].(ts := ResponseTs(prepareResponses, old(frameworkOperations)[0].variable))]
    {
      var ts := GetTSFromReceivedPrepareResponse(frameworkOperations[0].variable);
      frameworkOperations := frameworkOperations[0 := frameworkOperations[0].(ts := ts)];
    }
  }
}
