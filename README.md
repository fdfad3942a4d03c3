# Per-peer ordering state machine of a distributed shared memory

This project models one peer (`Process`) of a small distributed shared-memory
layer written in C++ over MPI. Each peer keeps a Lamport counter, a table of
the other peers subscribed to each variable, a local replica (names and values
as two index-aligned lists) with an append-only log, a queue of local SET
operations with a cursor, the PREPAREs it received (each with an `open` flag),
the responses to its own PREPAREs, the framework operations waiting for local
delivery, and a retry queue of NOTIFYs that the open-prepare rule blocked.

The model is a Dafny `class Process` with exactly those fields. Methods change
them in place and their `modifies` clauses name single fields. One field is
added: `outbox` records every NOTIFY (message code 10) the peer puts on the
wire, as `Notify(dest, var, val, ts)`. The plain records of `Process.h` are
datatypes (`ProcessTypes`). Every loop is a Dafny `while` loop. All but one
are proved against a pure specification function in `Ordering`, `Replica`,
`LogText` or `ExchangeSort`, and the lemmas state what those functions
promise. The exception is the loop of `FindPrepareForMessage`, which is proved
against an existential over the received prepares.

Modules:

- `ProcessTypes`: the records, the `("NONE", -1)` sentinel, and `WireChar`. `WireChar` is the first character of a variable name, which is what is sent and what local operations keep. For an empty name it is NUL.
- `ExchangeSort`: the nested swap loops used twice by the peer. This sort is not stable, so the specification is the exact pass structure (`Sort`), proved sorted and a permutation.
- `Replica`: slot lookup, writing one value, and applying a sequence of operations (last writer wins).
- `LogText`: `std::to_string` and the `NOTIFY(var,val) ts=T` log line. The decimal text of an integer parses back to that integer; the log line as a whole is not parsed back.
- `Ordering`: the open-prepare rule, `closePrepare`, the add-or-update list, the commit plan of `sendTriplets`, the timestamp raise of local delivery, and the retry queue.
- `ProcessModel`: the class.

Behaviour kept exactly as the code has it:

- The rank-1 bypass (`|| my_rank == 1`).
- The `+1` for variable `"X"` in `getTSFromReceivedPrepareResponse`.
- Every triplet takes the value of the first queued SET.
- `findPrepareForMessage` ignores its timestamp argument.
- Local delivery raises a timestamp to the last matching prepare that is larger than the original timestamp. That is not always the largest one; `Ordering.RaisedTsNotMaximum` gives an example.
- `receivedAllOperationsForPrepares` subtracts on `size_t`, so it is false when there is no framework operation.
- `receivedAllPrepareResponses` counts all responses, whatever their variable.

How timestamps, tie-breaks and log lines work in the code:

- No single maximum timestamp is taken. Each triplet keeps its own responder's timestamp, the triplets are sorted by it, and each committed triplet is then stamped with a fresh counter value.
- The tie-break is hard-coded to rank 1 (`sendTriplets`) and to variable `"X"` (`getTSFromReceivedPrepareResponse`).
- `Process` logs `NOTIFY(var,val) ts=T` on local delivery. The `SET(var,val) ts=T` line is written by its caller (lab8.cpp:186).

`getId` and `getTs` are plain reads of the fields `id` and `timestamp`.
`getSubscribersForVariable` is the function `SubscribersOf`, with an empty
list for a variable never recorded.

## Model

| member | source | states |
|---|---|---|
| ProcessModel.Process.constructor | Process.h:49-60 | a new peer has the given id, counter 0, cursor 0, an empty subscription map and every list empty |
| ProcessModel.Process.SubscribeToVar | Process.cpp:7-10 | the name is appended with value -1 in the aligned slot; `values` and `variables` stay the same length |
| ProcessModel.Process.AddLog | Process.cpp:20-22 | the message is appended to the log |
| ProcessModel.Process.AddSetOperation | Process.cpp:32-35 | the SET is appended to the queue, closed; the cursor is untouched |
| ProcessModel.Process.RunNextSetOperation | Process.cpp:37-44 | below the end, it returns the operation at the cursor and advances the cursor by one; at the end, it returns ("NONE", -1) and leaves the cursor; the cursor never passes the queue length |
| ProcessModel.Process.IncrementTs | Process.cpp:46-48 | the counter grows by exactly one |
| ProcessModel.Process.AddOtherSubscriber | Process.cpp:50-52 | the pid is appended to the variable's subscriber list, which is created empty first if missing |
| Ordering.SubscribersAfterAdd | Process.cpp:50-52 | after adding a subscriber to a variable, its subscribers are the old ones plus the pid, and every other variable's subscribers are unchanged |
| ProcessModel.Process.StoreReceivedPrepare | Process.cpp:54-57 | a received PREPARE is appended as an open record |
| ProcessModel.Process.StoreReceivedPrepareResponse | Process.cpp:59-62 | the response is appended |
| ProcessModel.Process.ReceivedAllPrepareResponses | Process.cpp:64-67 | true iff the number of responses, for any variable, equals the number of subscribers recorded for the variable; for a variable never recorded, true iff there is no response at all |
| Ordering.ResponseCountIgnoresVariables | Process.cpp:64-67 | whether all responses are in depends only on how many responses there are, not on their variables |
| ProcessModel.Process.BuildTriplets | Process.cpp:71-78 | one triplet per response, in response order, each with the first queued SET's value and addressed to the responder |
| Ordering.SendOrderFacts | Process.cpp:80-90 | sendTriplets visits one triplet per response, in non-decreasing timestamp order, as a permutation of the built triplets |
| ProcessModel.Process.DispatchTriplet | Process.cpp:96-141 | a committable triplet bumps the counter by one and is delivered locally (add-or-update) or sent as a NOTIFY with the new counter value; any other triplet is parked with its own timestamp and destination and changes nothing else |
| ProcessModel.Process.SendTriplets | Process.cpp:69-142 | after the call the counter, outbox, framework operations and retry queue are exactly what the commit plan over the sorted triplets gives |
| Ordering.PlanPartition | Process.cpp:96-141 | the commits and the parked entries together number exactly the triplets; the k-th commit carries the start counter plus k + 1, so the counter grows by exactly the number of commits |
| Ordering.CommittableIsCommitted | Process.cpp:114-125 | every triplet that passes the open-prepare check, or any triplet on rank 1, yields a commit with its value, its destination and its one-character variable |
| Ordering.CommitsFromCommittable | Process.cpp:114-125 | every commit comes from a triplet that passed the check or was on rank 1, and keeps that triplet's value and destination |
| Ordering.BlockedIsParked | Process.cpp:134-140 | every triplet that fails the check on a rank other than 1 is parked with its one-character variable, value, timestamp and destination |
| Ordering.NothingParkedWhenCommittable | Process.cpp:114 | on rank 1, or when every timestamp passes the open-prepare check, nothing is parked and every triplet is committed |
| Ordering.ParkedOnlyWhenBlocked | Process.cpp:134-140 | a parked entry failed the open-prepare check on a rank other than 1, and keeps its triplet's value, timestamp and destination |
| Ordering.CommitsSplit | Process.cpp:119-132 | the local operations and NOTIFYs together number exactly the commits, and no NOTIFY is addressed to this peer |
| Ordering.CommitRouted | Process.cpp:119-132 | a commit addressed to this peer becomes a local operation with its variable, value and timestamp; any other commit becomes the NOTIFY to its destination with its first character, value and timestamp; every local operation and every NOTIFY comes from such a commit |
| Ordering.CommitsPrefix | Process.cpp:96-133 | the commits made for the first j visited triplets are a prefix of all the commits, so later triplets never change earlier commits |
| Ordering.CommitAt | Process.cpp:114-125 | a committable triplet at visit position i is the n-th commit, where n is the number of commits before it, with its own one-character variable, value and destination and the counter value start + n + 1 |
| Ordering.CommitOrder | Process.cpp:96-125 | of two committable triplets, the one visited first (the smaller response timestamp, after the sort) is committed first and carries the smaller counter value |
| Ordering.NotifiesIncreasing | Process.cpp:116-131 | the NOTIFYs sent for commits leave in strictly increasing timestamp order |
| Ordering.SendTripletsNotifiesIncreasing | Process.cpp:114-131 | the NOTIFYs one sendTriplets call appends carry strictly increasing timestamps, because commits are stamped with consecutive counter values |
| ProcessModel.Process.FindPrepareForMessage | Process.cpp:144-151 | true iff some received prepare has this variable and sender; the timestamp argument plays no part |
| ProcessModel.Process.SetTs | Process.cpp:161-163 | the counter takes the given value |
| ProcessModel.Process.GetSubscribersForVariable | Process.cpp:174-176 | the recorded subscriber list for a known variable, and an empty list for one never recorded |
| Replica.IndexOf | Process.cpp:165-172 | -1 iff the name is not subscribed; otherwise the first index holding it |
| ProcessModel.Process.GetIndexForVariable | Process.cpp:165-172 | the loop returns the first index holding the name, or -1 |
| Replica.IndexOfUnique | Process.cpp:165-172 | an index holding the name with no earlier occurrence is the one the lookup returns |
| ProcessModel.Process.SetValueForVariable | Process.cpp:178-183 | the replica becomes the old replica with the value written to the name's slot, and stays aligned with the names |
| Replica.SetValueEffect | Process.cpp:178-183 | exactly the first slot of the name is overwritten; every other slot, and the whole replica for an unsubscribed name, is unchanged |
| ProcessModel.Process.AddFrameworkOperation | Process.cpp:185-196 | the list becomes the add-or-update of the old list with the operation |
| Ordering.UpsertEffect | Process.cpp:185-196 | a new variable is appended; otherwise its first entry is replaced in place; the operation is present afterwards and the list grows by at most one |
| Ordering.UpsertKeepsVariablesUnique | Process.cpp:185-196 | add-or-update never gives a variable a second entry |
| ProcessModel.Process.RaiseTimestamp | Process.cpp:201-211 | one operation's timestamp becomes the last matching prepare timestamp larger than its original, and nothing else changes |
| ProcessModel.Process.RaiseTimestamps | Process.cpp:201-211 | every framework operation gets its raised timestamp, in place |
| Ordering.RaisedTsFacts | Process.cpp:201-211 | a raised timestamp never decreases; it is raised whenever some prepare for the variable is larger than the original, and then it is the timestamp of the last such prepare; otherwise it is unchanged |
| Ordering.RaisedPointwise | Process.cpp:201-211 | raising keeps each operation's variable and value and never lowers its timestamp |
| Ordering.RaisedTsNotMaximum | Process.cpp:202-207 | comparing against the copied original timestamp keeps the last larger prepare, not the largest one |
| ProcessModel.Process.DeliverAll | Process.cpp:225-229 | the values are applied in list order and one NOTIFY line per operation is appended in the same order |
| ProcessModel.Process.SendNotificationsFromFramework | Process.cpp:198-230 | afterwards the operations are the exchange-sorted raised operations: sorted by timestamp and a permutation of the raised list; the replica is the old one with them applied in that order; the log grows by their NOTIFY lines in that order |
| Replica.LastWriterWins | Process.cpp:225-229 | after applying in order, a slot holds the value of the last operation targeting it |
| Replica.UntargetedSlotKept | Process.cpp:225-229 | a slot no operation targets keeps its value |
| LogText.NotifyEntriesAt | Process.cpp:228 | the k-th new log line renders the k-th delivered operation: it starts with `NOTIFY(` and that operation's variable, and its trailing timestamp text reads back as that operation's timestamp |
| LogText.NotifyEntryParts | Process.cpp:228 | a NOTIFY line starts with `NOTIFY(`, the variable and a comma, and ends with the timestamp text, which reads back as the timestamp |
| LogText.IntToStringRoundTrip | Process.cpp:228 | the decimal text of any int reads back as that int |
| ProcessModel.Process.ReceivedAllOperationsForPrepares | Process.cpp:232-234 | with realistic sizes, true iff there is at least one framework operation and exactly one prepare fewer; with no framework operation it is false |
| Ordering.AllOperationsInMeaning | Process.cpp:232-234 | with realistic sizes the check holds iff there is at least one operation and there is one prepare fewer than operations; with none it is false |
| ProcessModel.Process.IsTimestampSmallerThanOpenMessages | Process.cpp:236-245 | true iff every open prepare has a timestamp at least the given one; closed prepares are ignored and equality does not block |
| Ordering.StoredPrepareBlocks | Process.cpp:236-245 | storing a prepare adds its timestamp as a bound when it is open and changes nothing when it is closed |
| Ordering.UnblockedBelow | Process.cpp:236-245 | a timestamp that passes the check stays passing when lowered |
| ProcessModel.Process.ClosePrepare | Process.cpp:247-253 | the prepare list becomes the old list with every record of the variable closed |
| Ordering.ClosePrepareEffect | Process.cpp:247-253 | closing keeps the length and every record's variable, timestamp and sender; it clears exactly the flags of the variable; it is idempotent |
| Ordering.ClosingOnlyUnblocks | Process.cpp:247-253 | a timestamp that passed the check before closing still passes after |
| ProcessModel.Process.AddFailedToSend | Process.cpp:255-258 | the operation is parked together with the peer it was meant for |
| ProcessModel.Process.RetrySendingFailedTriplets | Process.cpp:260-281 | the queue becomes exactly the still-blocked entries and the outbox grows by exactly the retry NOTIFYs; each retried entry bumps the counter once; `Ordering.RetryAt` and `Ordering.StillBlockedOrder` show that both keep the queue's order and that each entry is kept or sent exactly once |
| Ordering.RetryPartition | Process.cpp:260-281 | each parked entry is either retried or kept; kept entries are exactly the blocked ones; every entry that now passes the check is sent to its remembered peer with its first character, its value and the response timestamp for its variable, and every NOTIFY sent is such a one |
| Ordering.StillBlockedPrefix | Process.cpp:260-280 | the entries kept from the first j parked entries are a prefix of all the entries kept |
| Ordering.RetryNotifiesPrefix | Process.cpp:260-280 | the NOTIFYs sent for the first j parked entries are a prefix of all the NOTIFYs sent |
| Ordering.RetryAt | Process.cpp:262-279 | the i-th parked entry, if it now passes, is the NOTIFY at the position given by the number of retries before it, and nothing is kept for it; otherwise it is kept itself at the position given by the number of kept entries before it, and nothing is sent for it |
| Ordering.StillBlockedOrder | Process.cpp:276-280 | two kept entries stay in their original queue order |
| Ordering.RetryIdempotent | Process.cpp:260-281 | a second retry with nothing new learned sends nothing and keeps the queue |
| Ordering.ClosingShrinksRetryQueue | Process.cpp:247-281 | closing prepares for a variable never makes the still-blocked queue longer |
| ProcessModel.Process.GetTSFromReceivedPrepareResponse | Process.cpp:283-293 | returns the response timestamp the specification function gives |
| Ordering.ResponseTsMeaning | Process.cpp:283-293 | with no response for the variable the result is -1; otherwise it is the first matching response's timestamp, plus one only for "X" |
| ProcessModel.Process.UpdateLocalSetOperationTimestamp | Process.cpp:295-297 | only the first framework operation changes, and only its timestamp, which is set from the prepare responses |
| ExchangeSort.SortByKey | Process.cpp:82-90 | the nested swap loops produce the exchange-sorted sequence, which is sorted by key and a permutation of the input |
| ExchangeSort.SortCorrect | Process.cpp:213-222 | the exchange sort keeps the length, orders by non-decreasing key, and only permutes |
| ExchangeSort.InnerPassFacts | Process.cpp:83-89 | one inner pass keeps the prefix, permutes the rest, and leaves a minimum of the rest at position i |
| ExchangeSort.OuterPassFacts | Process.cpp:82-90 | the outer passes extend a sorted prefix that bounds the rest to a sorted permutation |
| ProcessModel.Process.Observe | lab8.cpp:139 | on a receive, the counter becomes one more than the larger of itself and the message timestamp |

## Left out

- The MPI transport and its wire encoding are not modelled: a `char` is sent as `MPI_INT`, and each NOTIFY is four separate sends. The `outbox` field stands for all of it.
- The `std::cout` traces in `runNextSetOperation`, `sendTriplets` and `retrySendingFailedTriplets` are left out: they are console output only.
- `displayMemory` and `displayLog` are left out: they are console output only.
- `lab8.cpp` is not part of this model: the worker loop, its blocking message dispatch, the example topologies and `main`. Only its receive-clock rule (line 139) appears, as `Observe`.
- The caller also uses `Process` methods that the header does not declare. They are not modelled.
- `DSM.cpp` and `DSM.h` are not part of this model: their constructor only stores ids, and `start` is commented out.
- Timestamps, values and ids are unbounded integers. The 32-bit overflow of `int` is not modelled: the model treats them as mathematical integers.
- ProcessModel.Process.BuildTriplets: requires a queued SET whenever there is a prepare response. Reading `setOperations[0]` from an empty queue (Process.cpp:76) is undefined behaviour in C++, and the model does not give it a meaning.
- ProcessModel.Process.SendTriplets: has the same precondition as `BuildTriplets`, for the same reason.
- ProcessModel.Process.UpdateLocalSetOperationTimestamp: requires at least one framework operation. Writing `frameworkOperations[0]` of an empty list (Process.cpp:297) is undefined behaviour in C++, and the model does not give it a meaning.
- `getSubscribersForVariable` looks up with `operator[]`, which also inserts an empty entry for a missing variable. The model returns an empty list without inserting, because no member of the class can tell the two apart.
- The model covers one peer only. Agreement across peers and freedom from deadlock under the rank-1 bypass would need a model of several concurrent peers and their message interleavings, which is not part of this model.
- `Ordering.AllOperationsInMeaning`: assumes fewer than 2^64 - 1 prepares and fewer than 2^64 operations, the sizes a `std::vector` can reach.
- `ProcessModel.Process.ReceivedAllOperationsForPrepares`: its contract states the meaning only under the same size bound as `Ordering.AllOperationsInMeaning`.
