/** Group commit (DBImpl::Write and BuildBatchGroup, db/db_impl.cc): writers queue up, the one
  at the front logs a group of batches for all of them. A state machine whose steps are the
  stretches of code that hold the mutex. */
module GroupCommit {
  import opened Wrappers
  import opened Keys
  import opened WriteBatches

  // What a caller of Write asks for; no batch asks for a compaction only.
  datatype Request = Request(batch: Option<seq<Op>>, sync: bool)

  function ByteSize(ops: seq<Op>): nat {
    WriteBatches.HEADER + |EncodeOps(ops)|
  }

  const MAX_GROUP := 1048576
  const SMALL := 131072

  // The group may grow to 1 MB, but not much beyond a small first write.
  function MaxSize(first: nat): nat {
    if first <= SMALL then first + SMALL else MAX_GROUP
  }

  // The end of the group, when the requests before i are in and come to `size` bytes.
  function GroupEnd(rs: seq<Request>, i: nat, size: nat, maxSize: nat): (n: nat)
    requires 0 < i <= |rs|
    ensures i <= n <= |rs|
    decreases |rs| - i
  {
    if i == |rs| || (rs[i].sync && !rs[0].sync) then i
    else
      match rs[i].batch
      case None => GroupEnd(rs, i + 1, size, maxSize)
      case Some(ops) =>
        if size + ByteSize(ops) > maxSize then i else GroupEnd(rs, i + 1, size + ByteSize(ops), maxSize)
  }

  function GroupLength(rs: seq<Request>): (n: nat)
    requires rs != [] && rs[0].batch.Some?
    ensures 0 < n <= |rs|
  {
    var first := ByteSize(rs[0].batch.value);
    GroupEnd(rs, 1, first, MaxSize(first))
  }

  // The bytes of the first n batches together.
  function TotalSize(rs: seq<Request>, n: nat): (size: nat)
    requires n <= |rs|
  {
    if n == 0 then 0
    else TotalSize(rs, n - 1) + if rs[n - 1].batch.Some? then ByteSize(rs[n - 1].batch.value) else 0
  }

  // What may be added behind the first k requests: no sync write when the first is none, and no
  // batch that makes the whole larger than 1 MB, or than 128 KB more than a small first one.
  ghost predicate MayJoin(rs: seq<Request>, k: nat)
    requires 0 < k < |rs| && rs[0].batch.Some?
  {
    var first := ByteSize(rs[0].batch.value);
    && (rs[k].sync ==> rs[0].sync)
    && (rs[k].batch.Some? ==> TotalSize(rs, k + 1) <= if first <= 131072 then first + 131072 else 1048576)
  }

  // The operations of a run of requests, in order.
  function OpsOf(rs: seq<Request>): seq<Op> {
    if rs == [] then []
    else
      var last := rs[|rs| - 1];
      OpsOf(rs[..|rs| - 1]) + if last.batch.Some? then last.batch.value else []
  }

  // How many of the requests have a batch.
  function Batches(rs: seq<Request>): nat {
    if rs == [] then 0 else Batches(rs[..|rs| - 1]) + if rs[|rs| - 1].batch.Some? then 1 else 0
  }

  // ---------- the machine ----------

  type Id = nat

  // What became of the writers that left the queue together: one that did not write (no
  // room could be made, or no batch), or a group with its log record.
  datatype Segment =
    | Skipped(id: Id)
    | Group(ids: seq<Id>, first: nat, ops: seq<Op>, logged: bool)

  datatype Phase = Idle | MakingRoom | Logging(n: nat, first: nat, ops: seq<Op>)

  datatype State = State(
    requests: seq<Request>,    // by writer, in order of arrival
    queue: seq<Id>,
    awake: set<Id>,            // not waiting on its condition variable
    done: set<Id>,
    phase: Phase,              // of the writer at the front
    lastSequence: nat,
    tmpBatch: seq<Op>,
    history: seq<Segment>)

  function RequestsOf(s: State, ids: seq<Id>): (r: seq<Request>)
    requires forall i :: 0 <= i < |ids| ==> ids[i] < |s.requests|
    ensures |r| == |ids| && forall i :: 0 <= i < |ids| ==> r[i] == s.requests[ids[i]]
  {
    seq(|ids|, i requires 0 <= i < |ids| => s.requests[ids[i]])
  }

  ghost predicate Known(s: State, ids: seq<Id>) {
    forall i :: 0 <= i < |ids| ==> ids[i] < |s.requests|
  }

  function ToSet(ids: seq<Id>): set<Id> {
    set i | 0 <= i < |ids| :: ids[i]
  }

  ghost predicate Init(s: State) {
    s == State([], [], {}, {}, Idle, s.lastSequence, [], [])
  }

  // Write: push_back, and wait unless at the front.
  ghost predicate Arrive(s: State, t: State, r: Request) {
    var id := |s.requests|;
    t == s.(requests := s.requests + [r], queue := s.queue + [id],
            awake := if s.queue == [] then s.awake + {id} else s.awake)
  }

  // A waiter may wake for no reason; one that is neither done nor in front waits again.
  ghost predicate WakeUp(s: State, t: State, id: Id) {
    id in s.queue && t == s.(awake := s.awake + {id})
  }

  ghost predicate WaitAgain(s: State, t: State, id: Id) {
    id in s.queue && id !in s.done && id != s.queue[0] && t == s.(awake := s.awake - {id})
  }

  ghost predicate Lead(s: State, t: State) {
    && s.phase.Idle? && s.queue != [] && s.queue[0] in s.awake && s.queue[0] !in s.done
    && t == s.(phase := MakingRoom)
  }

  // The first n writers leave, those behind the leader are told, and so is the new head.
  function Leave(s: State, n: nat, segment: Segment): State
    requires 0 < n <= |s.queue|
  {
    var rest := s.queue[n..];
    var members := ToSet(s.queue[1..n]);
    s.(queue := rest, done := s.done + members,
       awake := s.awake + members + (if rest == [] then {} else {rest[0]}),
       phase := Idle, history := s.history + [segment])
  }

  ghost predicate Skip(s: State, t: State) {
    && s.phase.MakingRoom? && s.queue != []
    && t == Leave(s, 1, Skipped(s.queue[0]))
  }

  // BuildBatchGroup; the mutex is released afterwards, so others may queue up.
  ghost predicate Build(s: State, t: State) {
    && s.phase.MakingRoom? && s.queue != [] && Known(s, s.queue)
    && RequestsOf(s, s.queue)[0].batch.Some?
    && var rs := RequestsOf(s, s.queue);
       var n := GroupLength(rs);
       && s.lastSequence + |OpsOf(rs[..n])| <= MAX_SEQUENCE_NUMBER
       && t == s.(phase := Logging(n, s.lastSequence + 1, OpsOf(rs[..n])),
                  tmpBatch := if Batches(rs[..n]) > 1 then OpsOf(rs[..n]) else s.tmpBatch)
  }

  // The group is logged and applied, or that fails; its numbers are used up either way.
  ghost predicate Finish(s: State, t: State, logged: bool) {
    && s.phase.Logging? && 0 < s.phase.n <= |s.queue|
    && t == Leave(s, s.phase.n, Group(s.queue[..s.phase.n], s.phase.first, s.phase.ops, logged))
            .(lastSequence := s.lastSequence + |s.phase.ops|, tmpBatch := [])
  }

  ghost predicate Next(s: State, t: State) {
    || (exists r :: Arrive(s, t, r))
    || (exists id :: WakeUp(s, t, id))
    || (exists id :: WaitAgain(s, t, id))
    || Lead(s, t)
    || Skip(s, t)
    || Build(s, t)
    || (exists logged :: Finish(s, t, logged))
  }

  // ---------- the invariant ----------

  function Ids(segment: Segment): seq<Id> {
    match segment
    case Skipped(id) => [id]
    case Group(ids, _, _, _) => ids
  }

  // Everyone that left the queue, in the order they left.
  function Left(history: seq<Segment>): seq<Id> {
    if history == [] then [] else Left(history[..|history| - 1]) + Ids(history[|history| - 1])
  }

  function UpTo(n: nat): seq<Id> {
    seq(n, i => i)
  }

  // A group is what its leader and the writers right behind it asked for, and no sync
  // write rides with a leader that does not sync.
  ghost predicate GroupOk(s: State, segment: Segment) {
    segment.Group? ==>
      && Known(s, segment.ids) && segment.ids != []
      && RequestsOf(s, segment.ids)[0].batch.Some?
      && segment.ops == OpsOf(RequestsOf(s, segment.ids))
      && (forall i :: 0 <= i < |segment.ids| && s.requests[segment.ids[i]].sync ==> s.requests[segment.ids[0]].sync)
  }

  ghost predicate GroupsOk(s: State) {
    forall k :: 0 <= k < |s.history| ==> GroupOk(s, s.history[k])
  }

  // The last sequence number the first n segments have used, from a start.
  function LastUsed(history: seq<Segment>, n: nat, start: nat): nat
    requires n <= |history|
  {
    if n == 0 then start
    else LastUsed(history, n - 1, start) + if history[n - 1].Group? then |history[n - 1].ops| else 0
  }

  // Every group starts one past what was used before it.
  ghost predicate Consecutive(history: seq<Segment>, start: nat) {
    forall k :: 0 <= k < |history| && history[k].Group? ==> history[k].first == LastUsed(history, k, start) + 1
  }

  // Those that left without leading have been told.
  ghost predicate FollowersTold(s: State) {
    forall k, i :: 0 <= k < |s.history| && 0 < i < |Ids(s.history[k])| ==>
      Ids(s.history[k])[i] in s.done && Ids(s.history[k])[i] in s.awake
  }

  ghost predicate PhaseOk(s: State) {
    match s.phase
    case Idle => s.tmpBatch == []
    case MakingRoom => s.queue != [] && s.tmpBatch == []
    case Logging(n, first, ops) =>
      && 0 < n <= |s.queue| && first == s.lastSequence + 1
      && GroupOk(s, Group(s.queue[..n], first, ops, true))
      && (s.tmpBatch == [] || s.tmpBatch == ops)
  }

  ghost predicate Inv(s: State, start: nat) {
    && Left(s.history) + s.queue == UpTo(|s.requests|)
    && GroupsOk(s)
    && Consecutive(s.history, start) && s.lastSequence == LastUsed(s.history, |s.history|, start)
    && FollowersTold(s)
    && PhaseOk(s)
    && (s.queue != [] ==> s.queue[0] in s.awake)
    && DoneOk(s)
  }

  // Whoever has been told to return has left.
  ghost predicate DoneOk(s: State) {
    forall id :: id in s.done ==> id < |s.requests| && id !in s.queue
  }

  lemma InitInv(s: State)
    requires Init(s)
    ensures Inv(s, s.lastSequence)
  {
  }

  lemma QueueKnown(s: State, start: nat)
    requires Inv(s, start)
    ensures Known(s, s.queue)
    ensures forall i, j :: 0 <= i < j < |s.queue| ==> s.queue[i] < s.queue[j]
  {
    forall i | 0 <= i < |s.queue|
      ensures s.queue[i] == |Left(s.history)| + i
    {
      assert (Left(s.history) + s.queue)[|Left(s.history)| + i] == s.queue[i];
    }
  }

  lemma GroupOkMore(s: State, t: State, segment: Segment)
    requires GroupOk(s, segment) && s.requests <= t.requests
    ensures GroupOk(t, segment)
  {
    if segment.Group? {
      assert RequestsOf(t, segment.ids) == RequestsOf(s, segment.ids);
    }
  }

  lemma GroupsOkMore(s: State, t: State)
    requires GroupsOk(s) && s.requests <= t.requests && s.history == t.history
    ensures GroupsOk(t)
  {
    forall k | 0 <= k < |t.history|
      ensures GroupOk(t, t.history[k])
    {
      GroupOkMore(s, t, s.history[k]);
    }
  }

  lemma ArrivePhase(s: State, t: State, r: Request)
    requires PhaseOk(s) && Arrive(s, t, r)
    ensures PhaseOk(t)
  {
    if s.phase.Logging? {
      var n := s.phase.n;
      assert t.queue[..n] == s.queue[..n];
      GroupOkMore(s, t, Group(s.queue[..n], s.phase.first, s.phase.ops, true));
    }
  }

  lemma OneMoreId(left: seq<Id>, queue: seq<Id>, n: nat)
    requires left + queue == UpTo(n)
    ensures left + (queue + [n]) == UpTo(n + 1)
  {
    assert left + (queue + [n]) == (left + queue) + [n];
  }

  lemma ArriveKeepsInv(s: State, t: State, r: Request, start: nat)
    requires Inv(s, start) && Arrive(s, t, r)
    ensures Inv(t, start)
  {
    OneMoreId(Left(s.history), s.queue, |s.requests|);
    GroupsOkMore(s, t);
    ArrivePhase(s, t, r);
  }

  lemma QuietKeepsInv(s: State, t: State, id: Id, start: nat)
    requires Inv(s, start) && (WakeUp(s, t, id) || WaitAgain(s, t, id) || Lead(s, t))
    ensures Inv(t, start)
  {
    GroupsOkMore(s, t);
    if s.phase.Logging? {
      GroupOkMore(s, t, Group(s.queue[..s.phase.n], s.phase.first, s.phase.ops, true));
    }
    if WaitAgain(s, t, id) {
      StillTold(s, t, id);
    }
  }

  // Those that left are not in the queue, so they are not put back to waiting.
  lemma StillTold(s: State, t: State, id: Id)
    requires FollowersTold(s) && DoneOk(s) && WaitAgain(s, t, id)
    ensures FollowersTold(t)
  {
  }

  // ---------- building the group ----------

  lemma {:induction false} NoSyncRides(rs: seq<Request>, i: nat, size: nat, maxSize: nat)
    requires 0 < i <= |rs| && forall k :: 0 <= k < i && rs[k].sync ==> rs[0].sync
    ensures forall k :: 0 <= k < GroupEnd(rs, i, size, maxSize) && rs[k].sync ==> rs[0].sync
    decreases |rs| - i
  {
    if i < |rs| && !(rs[i].sync && !rs[0].sync) {
      match rs[i].batch
      case None => NoSyncRides(rs, i + 1, size, maxSize);
      case Some(ops) =>
        if size + ByteSize(ops) <= maxSize {
          NoSyncRides(rs, i + 1, size + ByteSize(ops), maxSize);
        }
    }
  }

  lemma {:induction false} GroupEndStops(rs: seq<Request>, i: nat, size: nat, maxSize: nat)
    requires 0 < i <= |rs| && rs[0].batch.Some? && size == TotalSize(rs, i)
    requires maxSize == MaxSize(ByteSize(rs[0].batch.value))
    ensures var n := GroupEnd(rs, i, size, maxSize);
            (forall k :: i <= k < n ==> MayJoin(rs, k)) && (n < |rs| ==> !MayJoin(rs, n))
    decreases |rs| - i
  {
    if i < |rs| && !(rs[i].sync && !rs[0].sync) {
      match rs[i].batch
      case None => GroupEndStops(rs, i + 1, size, maxSize);
      case Some(ops) =>
        if size + ByteSize(ops) <= maxSize {
          GroupEndStops(rs, i + 1, size + ByteSize(ops), maxSize);
        }
    }
  }

  // The group is as long as the two rules allow: all behind the leader may join, and the one
  // where it stops may not.
  lemma GroupIsLongest(rs: seq<Request>)
    requires rs != [] && rs[0].batch.Some?
    ensures forall k :: 0 < k < GroupLength(rs) ==> MayJoin(rs, k)
    ensures GroupLength(rs) < |rs| ==> !MayJoin(rs, GroupLength(rs))
  {
    var size := ByteSize(rs[0].batch.value);
    assert TotalSize(rs, 0) == 0;
    assert TotalSize(rs, 1) == size;
    GroupEndStops(rs, 1, size, MaxSize(size));
  }

  lemma {:induction false} SizeWithin(rs: seq<Request>, n: nat)
    requires 0 < n <= |rs| && rs[0].batch.Some? && forall k :: 0 < k < n ==> MayJoin(rs, k)
    ensures var first := ByteSize(rs[0].batch.value);
            && (first <= 1048576 ==> TotalSize(rs, n) <= if first <= 131072 then first + 131072 else 1048576)
            && (first > 1048576 ==> TotalSize(rs, n) == first)
    ensures TotalSize(rs, n) >= ByteSize(rs[0].batch.value)
    decreases n
  {
    if n == 1 {
      assert TotalSize(rs, 0) == 0;
    } else {
      SizeWithin(rs, n - 1);
      assert MayJoin(rs, n - 1);
    }
  }

  // A group is within the limit if and only if its first batch is; a first batch beyond
  // 1 MB takes no other batch along.
  lemma GroupWithinLimit(rs: seq<Request>)
    requires rs != [] && rs[0].batch.Some?
    ensures var first := ByteSize(rs[0].batch.value);
            && (TotalSize(rs, GroupLength(rs)) <= (if first <= 131072 then first + 131072 else 1048576) <==> first <= 1048576)
            && (first > 1048576 ==> TotalSize(rs, GroupLength(rs)) == first)
  {
    GroupIsLongest(rs);
    SizeWithin(rs, GroupLength(rs));
  }

  lemma BuildPhase(s: State, t: State)
    requires PhaseOk(s) && Build(s, t)
    ensures PhaseOk(t)
  {
    var rs := RequestsOf(s, s.queue);
    var n := GroupLength(rs);
    var size := ByteSize(rs[0].batch.value);
    NoSyncRides(rs, 1, size, MaxSize(size));
    assert RequestsOf(t, t.queue[..n]) == rs[..n];
    assert forall i :: 0 <= i < n ==> t.requests[t.queue[..n][i]] == rs[i];
  }

  lemma BuildKeepsInv(s: State, t: State, start: nat)
    requires Inv(s, start) && Build(s, t)
    ensures Inv(t, start)
  {
    GroupsOkMore(s, t);
    BuildPhase(s, t);
  }

  // ---------- leaving ----------

  lemma LeftMore(history: seq<Segment>, segment: Segment)
    ensures Left(history + [segment]) == Left(history) + Ids(segment)
  {
    assert (history + [segment])[..|history|] == history;
  }

  lemma LeaveOrder(s: State, t: State, n: nat, segment: Segment)
    requires Left(s.history) + s.queue == UpTo(|s.requests|) && 0 < n <= |s.queue| && Ids(segment) == s.queue[..n]
    requires t.history == s.history + [segment] && t.queue == s.queue[n..] && t.requests == s.requests
    ensures Left(t.history) + t.queue == UpTo(|t.requests|)
  {
    LeftMore(s.history, segment);
    assert s.queue[..n] + s.queue[n..] == s.queue;
    assert Left(s.history) + s.queue[..n] + s.queue[n..] == Left(s.history) + s.queue;
  }

  lemma LeaveGroups(s: State, t: State, segment: Segment)
    requires GroupsOk(s) && GroupOk(s, segment)
    requires t.history == s.history + [segment] && t.requests == s.requests
    ensures GroupsOk(t)
  {
    forall k | 0 <= k < |t.history|
      ensures GroupOk(t, t.history[k])
    {
      GroupOkMore(s, t, if k < |s.history| then s.history[k] else segment);
    }
  }

  lemma {:induction false} UsedByPrefix(history: seq<Segment>, more: seq<Segment>, n: nat, start: nat)
    requires n <= |history| && history <= more
    ensures LastUsed(more, n, start) == LastUsed(history, n, start)
  {
    if n > 0 {
      UsedByPrefix(history, more, n - 1, start);
    }
  }

  lemma LeaveConsecutive(history: seq<Segment>, segment: Segment, start: nat)
    requires Consecutive(history, start)
    requires segment.Group? ==> segment.first == LastUsed(history, |history|, start) + 1
    ensures Consecutive(history + [segment], start)
    ensures LastUsed(history + [segment], |history| + 1, start)
         == LastUsed(history, |history|, start) + if segment.Group? then |segment.ops| else 0
  {
    var more := history + [segment];
    UsedByPrefix(history, more, |history|, start);
    forall k | 0 <= k < |more| && more[k].Group?
      ensures more[k].first == LastUsed(more, k, start) + 1
    {
      UsedByPrefix(history, more, k, start);
    }
  }

  lemma LeaveTold(s: State, t: State, n: nat, segment: Segment)
    requires FollowersTold(s) && 0 < n <= |s.queue| && Ids(segment) == s.queue[..n]
    requires t.history == s.history + [segment]
    requires s.done + ToSet(s.queue[1..n]) <= t.done && s.awake + ToSet(s.queue[1..n]) <= t.awake
    ensures FollowersTold(t)
  {
    forall k, i | 0 <= k < |t.history| && 0 < i < |Ids(t.history[k])|
      ensures Ids(t.history[k])[i] in t.done && Ids(t.history[k])[i] in t.awake
    {
      if k == |s.history| {
        assert Ids(segment)[i] == s.queue[1..n][i - 1];
      } else {
        assert t.history[k] == s.history[k];
      }
    }
  }

  lemma LeaveDone(s: State, t: State, n: nat, start: nat)
    requires Inv(s, start) && 0 < n <= |s.queue|
    requires t.queue == s.queue[n..] && t.done == s.done + ToSet(s.queue[1..n]) && t.requests == s.requests
    ensures DoneOk(t)
  {
    QueueKnown(s, start);
    forall id | id in t.done
      ensures id < |t.requests| && id !in t.queue
    {
      if id in ToSet(s.queue[1..n]) {
        var i :| 0 <= i < n - 1 && s.queue[1..n][i] == id;
        assert s.queue[i + 1] == id;
      }
    }
  }

  lemma SkipKeepsInv(s: State, t: State, start: nat)
    requires Inv(s, start) && Skip(s, t)
    ensures Inv(t, start)
  {
    var segment := Skipped(s.queue[0]);
    assert Ids(segment) == s.queue[..1];
    LeaveOrder(s, t, 1, segment);
    LeaveGroups(s, t, segment);
    LeaveConsecutive(s.history, segment, start);
    LeaveTold(s, t, 1, segment);
    LeaveDone(s, t, 1, start);
  }

  lemma FinishKeepsInv(s: State, t: State, logged: bool, start: nat)
    requires Inv(s, start) && Finish(s, t, logged)
    ensures Inv(t, start)
  {
    var n := s.phase.n;
    var segment := Group(s.queue[..n], s.phase.first, s.phase.ops, logged);
    LeaveOrder(s, t, n, segment);
    LeaveGroups(s, t, segment);
    LeaveConsecutive(s.history, segment, start);
    LeaveTold(s, t, n, segment);
    LeaveDone(s, t, n, start);
  }

  lemma NextKeepsInv(s: State, t: State, start: nat)
    requires Inv(s, start) && Next(s, t)
    ensures Inv(t, start)
  {
    if r :| Arrive(s, t, r) {
      ArriveKeepsInv(s, t, r, start);
    } else if id :| WakeUp(s, t, id) {
      QuietKeepsInv(s, t, id, start);
    } else if id :| WaitAgain(s, t, id) {
      QuietKeepsInv(s, t, id, start);
    } else if Lead(s, t) {
      QuietKeepsInv(s, t, 0, start);
    } else if Skip(s, t) {
      SkipKeepsInv(s, t, start);
    } else if Build(s, t) {
      BuildKeepsInv(s, t, start);
    } else {
      var logged :| Finish(s, t, logged);
      FinishKeepsInv(s, t, logged, start);
    }
  }

  ghost predicate Run(states: seq<State>) {
    && states != [] && Init(states[0])
    && forall i :: 0 < i < |states| ==> Next(states[i - 1], states[i])
  }

  lemma {:induction false} RunKeepsInv(states: seq<State>, i: nat)
    requires Run(states) && i < |states|
    ensures Inv(states[i], states[0].lastSequence)
  {
    if i == 0 {
      InitInv(states[0]);
    } else {
      RunKeepsInv(states, i - 1);
      NextKeepsInv(states[i - 1], states[i], states[0].lastSequence);
    }
  }

  // ---------- what follows for every run ----------

  // Every writer that left, left once, and in the order of arrival.
  lemma EachLeavesOnce(states: seq<State>, i: nat)
    requires Run(states) && i < |states|
    ensures Left(states[i].history) == UpTo(|Left(states[i].history)|)
    ensures |Left(states[i].history)| + |states[i].queue| == |states[i].requests|
  {
    RunKeepsInv(states, i);
    var s := states[i];
    assert Left(s.history) == (Left(s.history) + s.queue)[..|Left(s.history)|];
    assert Left(s.history) == UpTo(|s.requests|)[..|Left(s.history)|];
  }

  lemma {:induction false} LastUsedMonotone(history: seq<Segment>, start: nat, j: nat, k: nat)
    requires j <= k <= |history|
    ensures LastUsed(history, j, start) <= LastUsed(history, k, start)
    decreases k
  {
    if j < k {
      LastUsedMonotone(history, start, j, k - 1);
    }
  }

  lemma HistoryNumbers(history: seq<Segment>, start: nat, j: nat, k: nat)
    requires j < k < |history| && Consecutive(history, start) && history[j].Group? && history[k].Group?
    ensures start < history[j].first && history[j].first + |history[j].ops| <= history[k].first
    ensures history[k].first + |history[k].ops| - 1 <= LastUsed(history, |history|, start)
  {
    LastUsedMonotone(history, start, 0, j);
    LastUsedMonotone(history, start, j + 1, k);
    LastUsedMonotone(history, start, k + 1, |history|);
  }

  // No two groups share a sequence number, logged or not; later groups get larger ones.
  lemma NumbersNeverReused(states: seq<State>, i: nat, j: nat, k: nat)
    requires Run(states) && i < |states|
    requires j < k < |states[i].history| && states[i].history[j].Group? && states[i].history[k].Group?
    ensures states[0].lastSequence < states[i].history[j].first
    ensures states[i].history[j].first + |states[i].history[j].ops| <= states[i].history[k].first
    ensures states[i].history[k].first + |states[i].history[k].ops| - 1 <= states[i].lastSequence
  {
    RunKeepsInv(states, i);
    HistoryNumbers(states[i].history, states[0].lastSequence, j, k);
  }

  lemma OpsAt(rs: seq<Request>, i: nat)
    requires i < |rs| && rs[i].batch.Some?
    ensures var at := |OpsOf(rs[..i])|;
            var ops := rs[i].batch.value;
            at + |ops| <= |OpsOf(rs)| && OpsOf(rs)[at..at + |ops|] == ops
    decreases |rs|
  {
    assert rs[..|rs|] == rs;
    if i < |rs| - 1 {
      OpsAt(rs[..|rs| - 1], i);
      assert rs[..|rs| - 1][..i] == rs[..i];
    }
  }

  lemma MemberOps(s: State, g: Segment, m: nat)
    requires g.Group? && GroupOk(s, g) && m < |g.ids| && s.requests[g.ids[m]].batch.Some?
    ensures var ops := s.requests[g.ids[m]].batch.value;
            var at := |OpsOf(RequestsOf(s, g.ids)[..m])|;
            at + |ops| <= |g.ops| && Numbered(g.first, g.ops)[at..at + |ops|] == Numbered(g.first + at, ops)
  {
    var rs := RequestsOf(s, g.ids);
    OpsAt(rs, m);
    NumberedSlice(g.first, g.ops, |OpsOf(rs[..m])|, |rs[m].batch.value|);
  }

  // A batch in a group takes consecutive sequence numbers there, behind those of the
  // writers before it.
  lemma MemberNumbers(states: seq<State>, i: nat, k: nat, m: nat)
    requires Run(states) && i < |states| && k < |states[i].history| && states[i].history[k].Group?
    requires m < |states[i].history[k].ids| && Known(states[i], states[i].history[k].ids)
    requires states[i].requests[states[i].history[k].ids[m]].batch.Some?
    ensures var g := states[i].history[k];
            var ops := states[i].requests[g.ids[m]].batch.value;
            var at := |OpsOf(RequestsOf(states[i], g.ids)[..m])|;
            at + |ops| <= |g.ops| && Numbered(g.first, g.ops)[at..at + |ops|] == Numbered(g.first + at, ops)
  {
    RunGroupOk(states, i, k);
    MemberOps(states[i], states[i].history[k], m);
  }

  lemma RunGroupOk(states: seq<State>, i: nat, k: nat)
    requires Run(states) && i < |states| && k < |states[i].history| && states[i].history[k].Group?
    ensures GroupOk(states[i], states[i].history[k])
  {
    RunKeepsInv(states, i);
  }

  lemma NumberedSlice(first: nat, ops: seq<Op>, at: nat, n: nat)
    requires at + n <= |ops|
    ensures Numbered(first, ops)[at..at + n] == Numbered(first + at, ops[at..at + n])
  {
  }

  // ---------- the two loops ----------

  class Writer {
    const batch: WriteBatch?
    const sync: bool
    var done: bool
    var signalled: bool
    var ok: bool

    constructor (b: WriteBatch?, s: bool)
      ensures batch == b && sync == s && !done && !signalled
    {
      batch, sync, done, signalled, ok := b, s, false, false, true;
    }
  }

  // The writers' requests: which have a batch, with which operations.
  ghost predicate Asked(w: Writer, r: Request)
    reads w.batch
  {
    && w.sync == r.sync && (w.batch == null <==> r.batch.None?)
    && (w.batch != null ==> w.batch.Valid() && w.batch.ops == r.batch.value)
  }

  ghost predicate AllAsked(writers: seq<Writer>, rs: seq<Request>)
    requires |rs| == |writers|
    reads set i | 0 <= i < |writers| :: writers[i].batch
  {
    forall i {:trigger Asked(writers[i], rs[i])} :: 0 <= i < |rs| ==> Asked(writers[i], rs[i])
  }

  lemma {:induction false} JoinLength(parts: seq<Bytes>)
    requires forall i :: 0 <= i < |parts| ==> |parts[i]| > 0
    ensures |Join(parts)| >= |parts|
  {
    if parts != [] {
      JoinLength(parts[1..]);
    }
  }

  // A batch takes at least a byte for each of its operations.
  lemma OpsTakeRoom(ops: seq<Op>)
    ensures ByteSize(ops) >= |ops|
  {
    JoinLength(Parts(ops));
  }

  // WriteBatchInternal::ByteSize.
  method SizeOf(b: WriteBatch) returns (n: nat)
    requires b.Valid()
    ensures n == ByteSize(b.ops) && n >= |b.ops|
  {
    CountOf(b.sequence, b.ops);
    OpsTakeRoom(b.ops);
    n := |b.rep|;
  }

  lemma OneMoreRequest(rs: seq<Request>, i: nat)
    requires i < |rs|
    ensures OpsOf(rs[..i + 1]) == OpsOf(rs[..i]) + if rs[i].batch.Some? then rs[i].batch.value else []
    ensures Batches(rs[..i + 1]) == Batches(rs[..i]) + if rs[i].batch.Some? then 1 else 0
  {
    assert rs[..i + 1][..i] == rs[..i];
  }

  // The combined batch so far: the first writer's own, untouched, or the temporary one.
  ghost predicate Combined(result: WriteBatch, first: WriteBatch, tmp: WriteBatch, rs: seq<Request>)
    reads result, tmp
  {
    && result.Valid() && result.ops == OpsOf(rs)
    && result == (if Batches(rs) > 1 then tmp else first)
    && tmp.Valid() && (Batches(rs) <= 1 ==> tmp.ops == [])
  }

  // One more batch goes in; the first time, the group moves to the temporary batch.
  method Include(result: WriteBatch, first: WriteBatch, tmp: WriteBatch, b: WriteBatch, ghost rs: seq<Request>,
      ghost i: nat)
    returns (r: WriteBatch)
    requires tmp != first && tmp != b && i < |rs| && Batches(rs[..i]) >= 1
    requires Combined(result, first, tmp, rs[..i]) && b.Valid() && rs[i].batch == Some(b.ops)
    requires |result.ops| + |b.ops| <= MAX_GROUP
    modifies tmp
    ensures Combined(r, first, tmp, rs[..i + 1]) && |r.ops| == |old(result.ops)| + |old(b.ops)|
  {
    OneMoreRequest(rs, i);
    r := result;
    if r == first {
      // Switch to the temporary batch instead of disturbing the caller's batch.
      r := tmp;
      r.Append(first);
    }
    r.Append(b);
  }

  // Whether the next writer joins the group, and the batch and its size if so.
  method Consider(first: WriteBatch, sync: bool, w: Writer, result: WriteBatch, tmp: WriteBatch, size: nat,
      maxSize: nat, ghost rs: seq<Request>, ghost i: nat)
    returns (joins: bool, r: WriteBatch, newSize: nat)
    requires 0 < i < |rs| && rs[0].sync == sync && Asked(w, rs[i])
    requires tmp != first && tmp != w.batch && Batches(rs[..i]) >= 1 && maxSize <= MAX_GROUP
    requires Combined(result, first, tmp, rs[..i]) && |result.ops| <= size
    modifies tmp
    ensures !joins ==> GroupEnd(rs, i, size, maxSize) == i && Combined(r, first, tmp, rs[..i])
    ensures joins ==> GroupEnd(rs, i, size, maxSize) == GroupEnd(rs, i + 1, newSize, maxSize)
    ensures joins ==> Combined(r, first, tmp, rs[..i + 1]) && Batches(rs[..i + 1]) >= 1 && |r.ops| <= newSize
  {
    r, newSize := result, size;
    if w.sync && !sync {
      // Do not include a sync write into a batch handled by a non-sync write.
      return false, r, newSize;
    }
    OneMoreRequest(rs, i);
    if w.batch != null {
      var more := SizeOf(w.batch);
      newSize := size + more;
      if newSize > maxSize {
        // Do not make batch too big.
        return false, r, newSize;
      }
      r := Include(result, first, tmp, w.batch, rs, i);
    }
    joins := true;
  }

  // The loop of BuildBatchGroup, past the first writer.
  method ExtendGroup(writers: seq<Writer>, first: WriteBatch, tmp: WriteBatch, start: nat, maxSize: nat,
      ghost rs: seq<Request>)
    returns (result: WriteBatch, last: nat)
    requires |rs| == |writers| > 0 && AllAsked(writers, rs)
    requires forall i :: 0 <= i < |rs| ==> writers[i].batch != tmp
    requires tmp != first && Combined(first, first, tmp, rs[..1]) && Batches(rs[..1]) >= 1
    requires |first.ops| <= start && maxSize <= MAX_GROUP
    modifies tmp
    ensures last + 1 == GroupEnd(rs, 1, start, maxSize) && Combined(result, first, tmp, rs[..last + 1])
  {
    result, last := first, 0;
    var size := start;
    var iter := 1;
    while iter < |writers|
      invariant 0 < iter == last + 1 <= |writers|
      invariant AllAsked(writers, rs)
      invariant GroupEnd(rs, iter, size, maxSize) == GroupEnd(rs, 1, start, maxSize)
      invariant Combined(result, first, tmp, rs[..iter]) && Batches(rs[..iter]) >= 1 && |result.ops| <= size
    {
      assert Asked(writers[iter], rs[iter]) && Asked(writers[0], rs[0]);
      var joins;
      joins, result, size := Consider(first, writers[0].sync, writers[iter], result, tmp, size, maxSize, rs, iter);
      if !joins {
        break;
      }
      last := iter;
      iter := iter + 1;
    }
  }

  // BuildBatchGroup: the longest group that the size and sync rules allow. Only the temporary
  // batch changes.
  method BuildBatchGroup(writers: seq<Writer>, first: WriteBatch, tmp: WriteBatch, ghost rs: seq<Request>)
    returns (result: WriteBatch, last: nat)
    requires |rs| == |writers| > 0 && forall i :: 0 <= i < |rs| ==> Asked(writers[i], rs[i])
    requires writers[0].batch == first
    requires tmp.Valid() && tmp.ops == [] && forall i :: 0 <= i < |rs| ==> writers[i].batch != tmp
    modifies tmp
    ensures rs[0].batch.Some? && last + 1 == GroupLength(rs) && Combined(result, first, tmp, rs[..last + 1])
    ensures forall k :: 0 < k <= last ==> MayJoin(rs, k)
    ensures last + 1 < |rs| ==> !MayJoin(rs, last + 1)
  {
    assert AllAsked(writers, rs) && Asked(writers[0], rs[0]);
    var size := SizeOf(first);
    var maxSize := 1048576;
    if size <= 131072 {
      maxSize := size + 131072;
    }
    OneMoreRequest(rs, 0);
    assert rs[..0] == [];
    result, last := ExtendGroup(writers, first, tmp, size, maxSize, rs);
    GroupIsLongest(rs);
  }

  // The loop at the end of Write: the group leaves the queue, its followers are told that
  // they are done and how it went, and the new head of the queue is woken.
  method LeaveQueue(writers: seq<Writer>, w: Writer, lastWriter: Writer, ok: bool, ghost n: nat)
    returns (rest: seq<Writer>)
    requires 0 < n <= |writers| && w == writers[0] && lastWriter == writers[n - 1]
    requires forall i, j :: 0 <= i < j < |writers| ==> writers[i] != writers[j]
    modifies writers
    ensures rest == writers[n..]
    ensures forall i :: 0 < i < n ==> writers[i].done && writers[i].signalled && writers[i].ok == ok
    ensures w.done == old(w.done) && forall i :: n <= i < |writers| ==> writers[i].done == old(writers[i].done)
    ensures n < |writers| ==> writers[n].signalled
  {
    rest := writers;
    ghost var k := 0;
    while true
      invariant k < n && rest == writers[k..]
      invariant forall i :: 0 < i < k ==> writers[i].done && writers[i].signalled && writers[i].ok == ok
      invariant w.done == old(w.done) && forall i :: k <= i < |writers| ==> writers[i].done == old(writers[i].done)
      decreases n - k
    {
      var ready := rest[0];
      rest := rest[1..];
      if ready != w {
        ready.ok := ok;
        ready.done := true;
        ready.signalled := true;
      }
      k := k + 1;
      if ready == lastWriter {
        break;
      }
    }
    // Notify new head of write queue.
    if rest != [] {
      rest[0].signalled := true;
    }
  }
}
