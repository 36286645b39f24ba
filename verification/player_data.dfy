// Player::Data (src/player_data.cc): how notifications by the stream player change the mirror of its
// queue and the reference counts of lists.
module PlayerData {
  import opened Q = QueuedStreams

  // A generic stream ID: none, one of ours, or one handed out by some other program
  datatype Stream = NoStream | Ours(id: Id) | Foreign(raw: nat)

  // make_from_generic_id()
  function OurId(s: Stream): Id {
    if s.Ours? then s.id else INVALID
  }

  function OurIds(dropped: seq<Stream>): set<Id> {
    set s | s in dropped && OurId(s) != INVALID :: OurId(s)
  }

  // Streams of other programs are sorted out.
  lemma OurIdsIff(dropped: seq<Stream>, id: Id)
    ensures id in OurIds(dropped) <==> Ours(id) in dropped && id != 0
  {
    if id in OurIds(dropped) {
      var s :| s in dropped && OurId(s) != INVALID && OurId(s) == id;
      assert s == Ours(id);
    }
    if Ours(id) in dropped && id != INVALID {
      assert OurId(Ours(id)) == id;
    }
  }

  // ---------------------------------------------------------------- specification of dropping

  // Number of streams at the front of the queue which are among the given ones
  function DropCount(queue: seq<Id>, ids: set<Id>): (k: nat)
    ensures k <= |queue| && (forall i :: 0 <= i < k ==> queue[i] in ids) && (k < |queue| ==> queue[k] !in ids)
  {
    if queue != [] && queue[0] in ids then 1 + DropCount(queue[1..], ids) else 0
  }

  // The streams to be dropped can be accounted for: they are the front of the queue, possibly together
  // with the stream in flight; if they cover the whole queue, then there may be any others as well.
  ghost predicate DropSucceeds(queue: seq<Id>, inFlight: Id, ids: set<Id>) {
    var k := DropCount(queue, ids);
    k == |queue| || ids - Ids(queue[..k]) <= InFlightIds(inFlight)
  }

  // The stream in flight is dropped as well; it is left alone if the whole queue is dropped.
  predicate Lands(queue: seq<Id>, inFlight: Id, ids: set<Id>) {
    inFlight != INVALID && inFlight in ids && DropCount(queue, ids) < |queue|
  }

  ghost function Dropped(queue: seq<Id>, inFlight: Id, ids: set<Id>): set<Id> {
    Ids(queue[..DropCount(queue, ids)]) + if Lands(queue, inFlight, ids) then {inFlight} else {}
  }

  lemma {:induction false} DropCountIs(queue: seq<Id>, ids: set<Id>, k: nat)
    requires k <= |queue| && (forall i :: 0 <= i < k ==> queue[i] in ids) && (k < |queue| ==> queue[k] !in ids)
    ensures DropCount(queue, ids) == k
  {
    if queue != [] && k > 0 {
      assert forall i :: 0 <= i < k - 1 ==> queue[1..][i] == queue[i + 1];
      DropCountIs(queue[1..], ids, k - 1);
    }
  }

  // Everything dropped has been asked for, and if the queue is not used up, everything asked for has
  // been dropped.
  lemma DroppedIsAskedFor(queue: seq<Id>, inFlight: Id, ids: set<Id>)
    ensures Dropped(queue, inFlight, ids) <= ids
    ensures DropSucceeds(queue, inFlight, ids) && DropCount(queue, ids) < |queue| ==>
              Dropped(queue, inFlight, ids) == ids
  {
    var k := DropCount(queue, ids);
    assert forall id :: id in Ids(queue[..k]) ==> id in queue[..k];
    if DropSucceeds(queue, inFlight, ids) && k < |queue| {
      forall id | id in ids ensures id in Dropped(queue, inFlight, ids) {
        assert id in Ids(queue[..k]) || id in InFlightIds(inFlight);
      }
    }
  }

  // Dropping underway: the first `k` streams of the queue are gone, and so is the stream in flight if
  // `landed`.
  ghost predicate Progress(queue: seq<Id>, inFlight: Id, ids: set<Id>, k: nat, landed: bool) {
    && Distinct(queue) && INVALID !in ids && inFlight !in queue
    && k <= |queue| && (forall i :: 0 <= i < k ==> queue[i] in ids)
    && (landed ==> inFlight in ids && k < |queue| && queue[k] !in ids)
  }

  ghost function Taken(queue: seq<Id>, inFlight: Id, k: nat, landed: bool): set<Id>
    requires k <= |queue|
  {
    Ids(queue[..k]) + if landed then {inFlight} else {}
  }

  lemma TakeStep(queue: seq<Id>, inFlight: Id, ids: set<Id>, k: nat, landed: bool)
    requires Progress(queue, inFlight, ids, k, landed) && k < |queue|
    ensures queue[k] !in Taken(queue, inFlight, k, landed)
    ensures queue[k..][1..] == queue[k + 1..]
    ensures queue[k] in ids ==>
              && !landed && Progress(queue, inFlight, ids, k + 1, landed)
              && Taken(queue, inFlight, k + 1, landed) == Taken(queue, inFlight, k, landed) + {queue[k]}
    ensures queue[k] !in ids && inFlight != INVALID && inFlight in ids ==>
              && Progress(queue, inFlight, ids, k, true)
              && Taken(queue, inFlight, k, true) == Taken(queue, inFlight, k, landed) + {inFlight}
    ensures landed ==> inFlight in Taken(queue, inFlight, k, landed)
  {
    assert queue[..k + 1] == queue[..k] + [queue[k]];
    IdsConcat(queue[..k], [queue[k]]);
    assert Ids([queue[k]]) == {queue[k]};
  }

  // There is nothing left to be dropped, or no queue.
  lemma DropDone(queue: seq<Id>, inFlight: Id, ids: set<Id>, k: nat, landed: bool)
    requires Progress(queue, inFlight, ids, k, landed)
    requires k == |queue| || ids <= Taken(queue, inFlight, k, landed)
    ensures DropSucceeds(queue, inFlight, ids) && DropCount(queue, ids) == k
    ensures Lands(queue, inFlight, ids) == landed && Dropped(queue, inFlight, ids) == Taken(queue, inFlight, k, landed)
  {
    InIds(queue[..k]);
    assert k < |queue| ==> queue[k] !in ids;
    DropCountIs(queue, ids, k);
  }

  // There is something left to be dropped, but the front of the queue and the stream in flight are to
  // be kept.
  lemma DropFails(queue: seq<Id>, inFlight: Id, ids: set<Id>, k: nat, landed: bool)
    requires Progress(queue, inFlight, ids, k, landed) && k < |queue| && queue[k] !in ids
    requires !(ids <= Taken(queue, inFlight, k, landed))
    requires !landed ==> inFlight == INVALID || inFlight !in ids
    ensures !DropSucceeds(queue, inFlight, ids)
  {
    DropCountIs(queue, ids, k);
    var id :| id in ids && id !in Taken(queue, inFlight, k, landed);
    assert id in ids - Ids(queue[..k]) && id !in InFlightIds(inFlight);
  }

  lemma MirrorsFacts(idSpace: nat, streams: map<Id, QueuedStream>, queue: seq<Id>, inFlight: Id, ids: set<Id>)
    requires Mirrors(idSpace, streams, queue, inFlight) && INVALID !in ids
    ensures Progress(queue, inFlight, ids, 0, false) && Taken(queue, inFlight, 0, false) == {}
  {
  }

  // Reference counts after `held - left` out of `held` streams have been dropped: each of them is
  // accounted for twice, once by the callback and once by the caller.
  function CountAfterDrop(count: nat, held: nat, left: nat): nat
    requires left <= held
  {
    Less(count, 2 * (held - left))
  }

  // How the reference counts follow the streams held
  ghost predicate CountedTwice(counts: map<ListId, nat>, streams: map<Id, QueuedStream>,
                               counts': map<ListId, nat>, streams': map<Id, QueuedStream>) {
    forall l :: Held(streams', l) <= Held(streams, l)
                && CountIn(counts', l) == CountAfterDrop(CountIn(counts, l), Held(streams, l), Held(streams', l))
  }

  lemma NothingDropped(counts: map<ListId, nat>, streams: map<Id, QueuedStream>, counts': map<ListId, nat>)
    requires forall l :: CountIn(counts', l) == CountIn(counts, l)
    ensures CountedTwice(counts, streams, counts', streams)
  {
  }

  lemma OneDropped(counts: map<ListId, nat>, streams: map<Id, QueuedStream>, counts': map<ListId, nat>, id: Id)
    requires id in streams
    requires CountIn(counts', streams[id].list) == Less(CountIn(counts, streams[id].list), 2)
    requires forall l :: l != streams[id].list ==> CountIn(counts', l) == CountIn(counts, l)
    ensures CountedTwice(counts, streams, counts', streams - {id})
  {
    forall l ensures Held(streams - {id}, l) <= Held(streams, l)
                     && CountIn(counts', l) ==
                        CountAfterDrop(CountIn(counts, l), Held(streams, l), Held(streams - {id}, l)) {
      HeldWithout(streams, id, l);
    }
  }

  lemma CountedTwiceInSteps(c0: map<ListId, nat>, s0: map<Id, QueuedStream>, c1: map<ListId, nat>,
                            s1: map<Id, QueuedStream>, c2: map<ListId, nat>, s2: map<Id, QueuedStream>)
    requires CountedTwice(c0, s0, c1, s1) && CountedTwice(c1, s1, c2, s2)
    ensures CountedTwice(c0, s0, c2, s2)
  {
    forall l ensures Held(s2, l) <= Held(s0, l)
                     && CountIn(c2, l) == CountAfterDrop(CountIn(c0, l), Held(s0, l), Held(s2, l)) {
      assert Held(s1, l) <= Held(s0, l) && Held(s2, l) <= Held(s1, l);
    }
  }

  lemma CountsBounded(counts: map<ListId, nat>, streams: map<Id, QueuedStream>,
                      counts': map<ListId, nat>, streams': map<Id, QueuedStream>)
    requires CountedTwice(counts, streams, counts', streams')
    ensures (forall l :: CountIn(counts, l) <= Held(streams, l)) ==>
              forall l :: CountIn(counts', l) <= Held(streams', l)
  {
  }

  // Exact counts remain exact if and only if, for each list, all of its streams have been dropped, or
  // none.
  lemma DropKeepsCountsIff(counts: map<ListId, nat>, streams: map<Id, QueuedStream>,
                           counts': map<ListId, nat>, streams': map<Id, QueuedStream>)
    requires CountedTwice(counts, streams, counts', streams')
    requires forall l :: CountIn(counts, l) == Held(streams, l)
    ensures (forall l :: CountIn(counts', l) == Held(streams', l)) <==>
            forall l :: Held(streams', l) == Held(streams, l) || Held(streams', l) == 0
  {
    forall l ensures CountIn(counts', l) == Held(streams', l) <==>
                     Held(streams', l) == Held(streams, l) || Held(streams', l) == 0 {
      assert CountIn(counts, l) == Held(streams, l);
    }
  }

  // Two streams from the same list, and the first one is dropped: the list is not referenced anymore
  // although there is a stream left.
  lemma DropLosesReference(list: ListId)
    ensures var streams := map[1 := QueuedStream(1, list, Queued), 2 := QueuedStream(2, list, Queued)];
            && Mirrors(30, streams, [1, 2], INVALID)
            && DropSucceeds([1, 2], INVALID, {1}) && Dropped([1, 2], INVALID, {1}) == {1}
            && Held(streams, list) == 2 && Held(streams - {1}, list) == 1
            && CountAfterDrop(2, 2, 1) == 0
  {
    var streams := map[1 := QueuedStream(1, list, Queued), 2 := QueuedStream(2, list, Queued)];
    hide Held, DropSucceeds, Dropped, Distinct;
    DropFirstOfTwo();
    HeldTwo(streams, list);
    assert streams.Keys == Ids([1, 2]);
  }

  lemma HeldTwo(streams: map<Id, QueuedStream>, list: ListId)
    requires streams.Keys == {1, 2} && streams[1].list == list && streams[2].list == list
    ensures Held(streams, list) == 2 && Held(streams - {1}, list) == 1
  {
    assert HeldIds(streams, list) == {1, 2};
    HeldWithout(streams, 1, list);
  }

  lemma DropFirstOfTwo()
    ensures Distinct([1, 2]) && Ids([1, 2]) == {1, 2}
    ensures DropSucceeds([1, 2], INVALID, {1}) && Dropped([1, 2], INVALID, {1}) == {1}
  {
    DropCountIs([1, 2], {1}, 1);
    assert [1, 2][..1] == [1] && [1, 2] == [1] + [2];
    assert Ids([1]) == {1} && Ids([2]) == {2};
    IdsConcat([1], [2]);
  }

  lemma RemainingWithout(streams: map<Id, QueuedStream>, pred: QueuedStream -> bool, id: Id)
    requires forall i :: i in streams ==> streams[i].id == i
    requires forall qs :: pred(qs) <==> qs.id == id
    ensures Remaining(streams, pred) == streams - {id}
  {
  }

  lemma RemainingOnly(streams: map<Id, QueuedStream>, pred: QueuedStream -> bool, id: Id)
    requires forall i :: i in streams ==> streams[i].id == i
    requires INVALID !in streams && (id != INVALID ==> id in streams)
    requires forall qs :: pred(qs) <==> qs.id != id
    ensures Remaining(streams, pred).Keys == InFlightIds(id) && IsPart(Remaining(streams, pred), streams)
  {
  }

  // ---------------------------------------------------------------- the class

  datatype Event =
    | Append(list: ListId)
    | PlayingNext
    | Remove(id: Id)
    | RemoveAll(alsoPlaying: bool)
    | Changed(next: Stream)
    | DroppedFromQueue(dropped: seq<Stream>)
    | Rejected(stream: Stream)
    | Failed
    | Finished

  // ---------------------------------------------------------------- what the events do

  // The mirror of the queue and the reference counts
  datatype Mirror = Mirror(streams: map<Id, QueuedStream>, queue: seq<Id>, inFlight: Id, counts: map<ListId, nat>) {
    ghost predicate Exact() {
      forall l :: CountIn(counts, l) == Held(streams, l)
    }

    ghost predicate Bounded() {
      forall l :: CountIn(counts, l) <= Held(streams, l)
    }

    predicate IsEmpty() {
      streams == map[] && queue == [] && inFlight == INVALID
    }

    function Front(): Id {
      if queue == [] then INVALID else queue[0]
    }
  }

  ghost predicate Appended(m: Mirror, list: ListId, m': Mirror) {
    && m'.inFlight == m.inFlight
    && if |m.queue| >= 20 then m'.streams == m.streams && m'.queue == m.queue
       else
         exists id :: id != INVALID && id !in m.streams && m'.queue == m.queue + [id]
                      && m'.streams == m.streams[id := QueuedStream(id, list, Floating)]
  }

  ghost predicate TakenOff(m: Mirror, m': Mirror) {
    && m'.streams == m.streams
    && if m.inFlight == INVALID && m.queue != [] then m'.inFlight == m.queue[0] && m'.queue == m.queue[1..]
       else m'.inFlight == m.inFlight && m'.queue == m.queue
  }

  ghost predicate Extracted(m: Mirror, id: Id, m': Mirror) {
    && m'.streams == m.streams - {id} && m'.queue == Kept(m.queue, m'.streams.Keys)
    && m'.inFlight == if m.inFlight == id then INVALID else m.inFlight
  }

  ghost predicate Cleared(m: Mirror, alsoPlaying: bool, m': Mirror) {
    && m'.queue == [] && m'.inFlight == (if alsoPlaying then INVALID else m.inFlight)
    && m'.streams.Keys == InFlightIds(m'.inFlight) && IsPart(m'.streams, m.streams)
  }

  // The player has begun to play the given stream, or something else.
  ghost predicate Passed(m: Mirror, id: Id, m': Mirror) {
    if id == m.inFlight && id != INVALID then
      m'.streams == m.streams && m'.queue == m.queue && m'.inFlight == m.inFlight
    else if id == m.inFlight || id == m.Front() then
      && m'.streams == m.streams - InFlightIds(m.inFlight) && m'.inFlight == m.Front()
      && m'.queue == if m.queue == [] then [] else m.queue[1..]
    else m'.IsEmpty()
  }

  ghost predicate DroppedFrom(m: Mirror, ids: set<Id>, m': Mirror) {
    if DropSucceeds(m.queue, m.inFlight, ids) then
      && m'.streams == m.streams - Dropped(m.queue, m.inFlight, ids)
      && m'.queue == m.queue[DropCount(m.queue, ids)..]
      && m'.inFlight == (if Lands(m.queue, m.inFlight, ids) then INVALID else m.inFlight)
      && CountedTwice(m.counts, m.streams, m'.counts, m'.streams)
    else m'.IsEmpty()
  }

  ghost predicate CutOut(m: Mirror, id: Id, m': Mirror) {
    && m'.inFlight == m.inFlight && CountedTwice(m.counts, m.streams, m'.counts, m'.streams)
    && if id in m.queue then
         && m'.streams == m.streams - {id}
         && exists k :: 0 <= k < |m.queue| && m.queue[k] == id && m'.queue == m.queue[..k] + m.queue[k + 1..]
       else m'.streams == m.streams && m'.queue == m.queue
  }

  // The assertion in stream_has_changed() fails.
  predicate FailsAssertion(m: Mirror, e: Event) {
    e.Changed? && e.next == NoStream && m.queue != []
  }

  // What an event does to the mirror; exact reference counts stay exact unless streams are dropped or rejected.
  ghost predicate Transition(m: Mirror, e: Event, m': Mirror) {
    && !FailsAssertion(m, e)
    && (m.Bounded() ==> m'.Bounded())
    && (m.Exact() && !e.DroppedFromQueue? && !e.Rejected? ==> m'.Exact())
    && match e
       case Append(list) => Appended(m, list, m')
       case PlayingNext => TakenOff(m, m')
       case Remove(id) => Extracted(m, id, m')
       case RemoveAll(alsoPlaying) => Cleared(m, alsoPlaying, m')
       case Changed(next) => Passed(m, OurId(next), m')
       case DroppedFromQueue(dropped) => DroppedFrom(m, OurIds(dropped), m')
       case Rejected(stream) => CutOut(m, OurId(stream), m')
       case Failed => m'.IsEmpty()
       case Finished => m'.IsEmpty() && m'.Exact()
  }

  // A run from one state to the next by one event after another
  ghost predicate IsRun(states: seq<Mirror>, events: seq<Event>) {
    && |states| == |events| + 1
    && forall i :: 0 <= i < |events| ==> Transition(states[i], events[i], states[i + 1])
  }

  // The streams from the given lists have been queued in that order, as many of them as there is room for.
  ghost predicate QueuedInOrder(m: Mirror, events: seq<Event>, n: nat) {
    && |m.queue| == n <= |events| && Distinct(m.queue) && Ids(m.queue) == m.streams.Keys
    && forall i :: 0 <= i < n ==> events[i].Append? && m.streams[m.queue[i]].list == events[i].list
  }

  // Beginning with nothing, streams are queued in the order they are added in, up to 20 of them.
  lemma {:induction false} AppendsFillUp(states: seq<Mirror>, events: seq<Event>)
    requires IsRun(states, events) && states[0].IsEmpty() && forall e :: e in events ==> e.Append?
    ensures QueuedInOrder(states[|events|], events, if |events| < 20 then |events| else 20)
    ensures |events| > 20 ==> states[|events|].queue == states[20].queue
  {
    hide Transition, QueuedInOrder;
    if events == [] {
      NothingQueued(states[0], events);
    } else {
      var n := |events| - 1;
      var front := events[..n];
      assert forall i :: 0 <= i < n ==> Transition(states[..n + 1][i], front[i], states[..n + 1][i + 1]);
      AppendsFillUp(states[..n + 1], front);
      assert events[n] in events && events == front + [events[n]];
      OneMoreQueued(states[n], front, events[n], states[n + 1]);
    }
  }

  lemma NothingQueued(m: Mirror, events: seq<Event>)
    requires m.IsEmpty()
    ensures QueuedInOrder(m, events, 0)
  {
    assert Ids([]) == {};
  }

  lemma OneMoreQueued(m: Mirror, front: seq<Event>, e: Event, m': Mirror)
    requires QueuedInOrder(m, front, if |front| < 20 then |front| else 20) && Transition(m, e, m') && e.Append?
    ensures QueuedInOrder(m', front + [e], if |front| + 1 < 20 then |front| + 1 else 20)
    ensures |front| >= 20 ==> m'.queue == m.queue
  {
    hide Transition, Ids, Distinct;
    AppendTransition(m, e, m');
    if |m.queue| < 20 {
      var id :| id !in m.streams && m'.queue == m.queue + [id]
                && m'.streams == m.streams[id := QueuedStream(id, e.list, Floating)];
      InIds(m.queue);
      IdsConcat(m.queue, [id]);
      NewIsDistinct(m.queue, id);
    }
  }

  lemma NewIsDistinct(queue: seq<Id>, id: Id)
    requires Distinct(queue) && id !in queue
    ensures Distinct(queue + [id]) && Ids([id]) == {id}
  {
  }

  lemma AppendTransition(m: Mirror, e: Event, m': Mirror)
    requires Transition(m, e, m') && e.Append?
    ensures Appended(m, e.list, m')
  {
  }

  // What stream_has_changed() returns, or that the assertion in there has failed
  datatype Change = Reported(ok: bool) | AssertionFailed

  class Data {
    const queued: Q.QueuedStreams
    const refs: ListRefs

    ghost predicate Valid()
      reads this, queued, refs
    {
      queued.refs == refs && queued.Valid()
    }

    function Now(): Mirror
      reads this, queued, refs
    {
      Mirror(queued.streams, queued.queue, queued.inFlight, refs.counts)
    }

    constructor (idSpace: nat, firstId: Id)
      requires idSpace > MAX_ENTRIES + 1 && 1 <= firstId <= idSpace
      ensures Valid() && fresh(queued) && fresh(refs) && queued.Exact() && queued.queue == []
              && queued.inFlight == INVALID
    {
      var r := new ListRefs();
      refs := r;
      queued := new Q.QueuedStreams(idSpace, firstId, r);
      new;
      forall l ensures Held(map[], l) == 0 {
        assert HeldIds(map[], l) == {};
      }
    }

    method QueuedStreamAppend(list: ListId) returns (id: Id)
      requires Valid()
      modifies queued, refs
      ensures Valid()
      ensures id == INVALID <==> |old(queued.queue)| >= 20
      ensures id == INVALID ==> queued.streams == old(queued.streams) && queued.queue == old(queued.queue)
      ensures id != INVALID ==>
                && id !in old(queued.streams) && queued.queue == old(queued.queue) + [id]
                && queued.streams == old(queued.streams)[id := QueuedStream(id, list, Floating)]
      ensures queued.inFlight == old(queued.inFlight)
      ensures old(queued.Exact()) ==> queued.Exact()
      ensures old(queued.Bounded()) ==> queued.Bounded()
    {
      hide Mirrors, Held;
      id := queued.Append(list);
      if id != INVALID {
        refs.Ref(list);
        forall l ensures Held(queued.streams, l) == old(Held(queued.streams, l)) + if list == l then 1 else 0 {
          HeldWith(old(queued.streams), QueuedStream(id, list, Floating), l);
        }
      }
    }

    method QueuedStreamPlayingNext()
      requires Valid()
      modifies queued
      ensures Valid() && queued.streams == old(queued.streams)
      ensures if old(queued.inFlight) == INVALID && old(queued.queue) != [] then
                queued.inFlight == old(queued.queue)[0] && queued.queue == old(queued.queue)[1..]
              else
                queued.inFlight == old(queued.inFlight) && queued.queue == old(queued.queue)
      ensures old(queued.Exact()) ==> queued.Exact()
      ensures old(queued.Bounded()) ==> queued.Bounded()
    {
      hide Mirrors, Held;
      var _ := queued.ShiftIfNotFlying();
    }

    method QueuedStreamRemove(id: Id)
      requires Valid()
      modifies queued, refs
      ensures Valid()
      ensures queued.streams == old(queued.streams) - {id}
      ensures queued.queue == Kept(old(queued.queue), queued.streams.Keys)
      ensures queued.inFlight == if old(queued.inFlight) == id then INVALID else old(queued.inFlight)
      ensures old(queued.Exact()) ==> queued.Exact()
      ensures old(queued.Bounded()) ==> queued.Bounded()
    {
      hide Held, Kept, Remaining, Mirrors;
      MirrorsIds(queued.idSpace, queued.streams, queued.queue, queued.inFlight);
      var pred := (qs: QueuedStream) => qs.id == id;
      RemainingWithout(queued.streams, pred, id);
      var _ := queued.ClearIf(pred);
    }

    method RemoveAllQueuedStreams(alsoRemovePlayingStream: bool)
      requires Valid()
      modifies queued, refs
      ensures Valid() && queued.queue == []
      ensures queued.inFlight == if alsoRemovePlayingStream then INVALID else old(queued.inFlight)
      ensures queued.streams.Keys == InFlightIds(queued.inFlight) && IsPart(queued.streams, old(queued.streams))
      ensures old(queued.Exact()) ==> queued.Exact()
      ensures old(queued.Bounded()) ==> queued.Bounded()
    {
      hide Held, Kept, Remaining, Mirrors, Ids;
      if alsoRemovePlayingStream {
        Clear();
      } else {
        var headId := queued.inFlight;
        var pred := (qs: QueuedStream) => qs.id != headId;
        MirrorsIds(queued.idSpace, queued.streams, queued.queue, queued.inFlight);
        RemainingOnly(queued.streams, pred, headId);
        KeptNone(queued.queue, InFlightIds(headId));
        var _ := queued.ClearIf(pred);
      }
    }

    // What player_failed() does to the queue
    method Clear()
      requires Valid()
      modifies queued, refs
      ensures Valid() && queued.streams == map[] && queued.queue == [] && queued.inFlight == INVALID
      ensures old(queued.Bounded()) ==> queued.Exact()
      ensures old(queued.Exact()) ==> queued.Exact()
    {
      hide Mirrors;
      var _ := queued.Clear();
      forall l ensures Held(map[], l) == 0 {
        assert HeldIds(map[], l) == {};
      }
    }

    // stream_has_changed()
    method StreamHasChanged(next: Stream) returns (change: Change)
      requires Valid()
      modifies queued, refs
      ensures Valid()
      ensures change.AssertionFailed? <==> next == NoStream && old(queued.queue) != []
      ensures change.AssertionFailed? ==> Now() == old(Now())
      ensures change.Reported? ==> Passed(old(Now()), OurId(next), Now())
      ensures change.Reported? ==>
                (change.ok <==> OurId(next) == old(queued.inFlight) || OurId(next) == old(Now().Front()))
      ensures change.Reported? && !change.ok ==> queued.streams == map[] && queued.queue == []
      ensures change == Reported(true) && next.Ours? && next.id != INVALID ==>
                && queued.inFlight == next.id
                && queued.queue == if next.id == old(queued.inFlight) then old(queued.queue) else old(queued.queue)[1..]
      ensures !next.Ours? && old(queued.queue) == [] ==>
                change == Reported(true) && queued.inFlight == INVALID && queued.queue == []
      ensures next.Foreign? && old(queued.inFlight) != INVALID && old(queued.queue) != [] ==> change == Reported(false)
      ensures next.Foreign? && old(queued.inFlight) == INVALID && old(queued.queue) != [] ==>
                && change == Reported(true) && queued.inFlight == old(queued.queue)[0]
                && queued.queue == old(queued.queue)[1..]
      ensures old(queued.Exact()) ==> queued.Exact()
      ensures old(queued.Bounded()) ==> queued.Bounded()
    {
      hide Held, Mirrors;
      if next == NoStream && queued.queue != [] {
        return AssertionFailed;
      }
      MirrorsIds(queued.idSpace, queued.streams, queued.queue, queued.inFlight);
      var shifted, qs := queued.Shift(OurId(next));
      if shifted {
        if qs.Some? {
          forall l ensures Held(queued.streams, l) ==
                             old(Held(queued.streams, l)) - (if qs.value.list == l then 1 else 0)
                           && (qs.value.list == l ==> old(Held(queued.streams, l)) > 0) {
            HeldWithout(old(queued.streams), old(queued.inFlight), l);
          }
        }
        return Reported(true);
      }
      Clear();
      return Reported(false);
    }

    // One stream is taken from the front of the queue, or from the in-flight slot.
    method DropFront(ids: set<Id>) returns (r: Removal, rest: set<Id>)
      requires Valid()
      modifies queued, refs
      ensures Valid()
      ensures r.Removed? <==>
              IsFront(old(queued.queue), ids) || (old(queued.inFlight) != INVALID && old(queued.inFlight) in ids)
      ensures r.Nothing? <==> old(queued.queue) == [] && old(queued.inFlight) == INVALID
      ensures !r.Removed? ==> rest == ids && queued.streams == old(queued.streams) && queued.queue == old(queued.queue)
                              && queued.inFlight == old(queued.inFlight)
      ensures r.Removed? ==>
                && rest == ids - {r.stream.id} && r.stream.id in ids
                && queued.streams == old(queued.streams) - {r.stream.id}
                && if IsFront(old(queued.queue), ids) then
                     r.stream.id == old(queued.queue)[0] && queued.queue == old(queued.queue)[1..]
                     && queued.inFlight == old(queued.inFlight)
                   else
                     r.stream.id == old(queued.inFlight) && queued.queue == old(queued.queue)
                     && queued.inFlight == INVALID
      ensures CountedTwice(old(refs.counts), old(queued.streams), refs.counts, queued.streams)
    {
      hide Mirrors, Held, CountedTwice;
      r, rest := queued.RemoveFront(ids);
      if r.Removed? {
        refs.Unref(r.stream.list);
        OneDropped(old(refs.counts), old(queued.streams), refs.counts, r.stream.id);
      } else {
        NothingDropped(old(refs.counts), queued.streams, refs.counts);
      }
    }

    // The mirror while streams are being dropped
    ghost predicate Dropping(queue: seq<Id>, inFlight: Id, all: set<Id>, k: nat, landed: bool, ids: set<Id>)
      reads this, queued, refs
    {
      && Valid() && Progress(queue, inFlight, all, k, landed) && queued.queue == queue[k..]
      && queued.inFlight == (if landed then INVALID else inFlight)
      && ids == all - Taken(queue, inFlight, k, landed)
    }

    // One iteration of the loop in player_dropped_from_queue(); false if there has been an exception
    method DropNext(ghost queue: seq<Id>, ghost inFlight: Id, ghost all: set<Id>, ghost k: nat, ghost landed: bool,
                    ids: set<Id>)
      returns (ok: bool, rest: set<Id>, ghost k': nat, ghost landed': bool)
      requires Dropping(queue, inFlight, all, k, landed, ids) && ids != {} && queued.queue != []
      modifies queued, refs
      ensures Dropping(queue, inFlight, all, k', landed', rest) && rest <= ids && k' <= |queue|
      ensures Taken(queue, inFlight, k', landed') == Taken(queue, inFlight, k, landed) + (ids - rest)
      ensures queued.streams == old(queued.streams) - (ids - rest)
      ensures if ok then rest < ids else rest == ids && !DropSucceeds(queue, inFlight, all)
      ensures CountedTwice(old(refs.counts), old(queued.streams), refs.counts, queued.streams)
    {
      hide Mirrors, Held, DropSucceeds, CountedTwice;
      var qs: Removal;
      k', landed' := k, landed;
      TakeStep(queue, inFlight, all, k, landed);
      qs, rest := DropFront(ids);
      if qs.Removed? {
        if queue[k] in all {
          k' := k + 1;
        } else {
          landed' := true;
        }
        return true, rest, k', landed';
      }
      DropFails(queue, inFlight, all, k, landed);
      return false, rest, k', landed';
    }

    // player_dropped_from_queue()
    method PlayerDroppedFromQueue(dropped: seq<Stream>) returns (ok: bool)
      requires Valid()
      modifies queued, refs
      ensures Valid()
      ensures ok <==> DropSucceeds(old(queued.queue), old(queued.inFlight), OurIds(dropped))
      ensures ok ==>
                && queued.queue == old(queued.queue)[DropCount(old(queued.queue), OurIds(dropped))..]
                && queued.inFlight == (if Lands(old(queued.queue), old(queued.inFlight), OurIds(dropped)) then INVALID
                                       else old(queued.inFlight))
                && queued.streams == old(queued.streams)
                                     - Dropped(old(queued.queue), old(queued.inFlight), OurIds(dropped))
      ensures ok ==> CountedTwice(old(refs.counts), old(queued.streams), refs.counts, queued.streams)
      ensures !ok ==> queued.streams == map[] && queued.queue == [] && queued.inFlight == INVALID
      ensures old(queued.Bounded()) ==> queued.Bounded() && (!ok ==> queued.Exact())
    {
      hide Mirrors, Held, DropCount, Dropped, DropSucceeds, Lands, Taken, OurIds, Progress, CountedTwice;
      ghost var queue, inFlight := queued.queue, queued.inFlight;
      var ours := DropSet(dropped);
      ghost var all, landed := ours, false;
      ghost var k: nat := 0;
      MirrorsFacts(queued.idSpace, queued.streams, queue, inFlight, ours);
      NothingDropped(refs.counts, queued.streams, refs.counts);
      while ours != {} && queued.queue != []
        invariant Dropping(queue, inFlight, all, k, landed, ours) && k <= |queue|
        invariant queued.streams == old(queued.streams) - Taken(queue, inFlight, k, landed)
        invariant CountedTwice(old(refs.counts), old(queued.streams), refs.counts, queued.streams)
        decreases ours
      {
        ghost var counts, streams := refs.counts, queued.streams;
        ok, ours, k, landed := DropNext(queue, inFlight, all, k, landed, ours);
        CountedTwiceInSteps(old(refs.counts), old(queued.streams), counts, streams, refs.counts, queued.streams);
        if !ok {
          CountsBounded(old(refs.counts), old(queued.streams), refs.counts, queued.streams);
          Clear();
          return false;
        }
      }
      DropDone(queue, inFlight, all, k, landed);
      CountsBounded(old(refs.counts), old(queued.streams), refs.counts, queued.streams);
      return true;
    }

    // The IDs of our streams are sorted out from the streams dropped.
    method DropSet(dropped: seq<Stream>) returns (ours: set<Id>)
      ensures ours == OurIds(dropped) && INVALID !in ours
    {
      ours := {};
      for i := 0 to |dropped|
        invariant ours == OurIds(dropped[..i])
      {
        assert dropped[..i + 1] == dropped[..i] + [dropped[i]];
        if OurId(dropped[i]) != INVALID {
          ours := ours + {OurId(dropped[i])};
        }
      }
      assert dropped[..|dropped|] == dropped;
    }

    // player_rejected_unplayed_stream()
    method PlayerRejectedUnplayedStream(dropped: Stream)
      requires Valid()
      modifies queued, refs
      ensures Valid() && queued.inFlight == old(queued.inFlight)
      ensures !dropped.Ours? ==> queued.queue == old(queued.queue) && queued.streams == old(queued.streams)
      ensures OurId(dropped) !in old(queued.queue) ==>
                queued.queue == old(queued.queue) && queued.streams == old(queued.streams)
      ensures OurId(dropped) in old(queued.queue) ==>
                && queued.streams == old(queued.streams) - {OurId(dropped)}
                && exists k :: 0 <= k < |old(queued.queue)| && old(queued.queue)[k] == OurId(dropped)
                               && queued.queue == old(queued.queue)[..k] + old(queued.queue)[k + 1..]
      ensures CountedTwice(old(refs.counts), old(queued.streams), refs.counts, queued.streams)
      ensures old(queued.Bounded()) ==> queued.Bounded()
    {
      hide Held, CountedTwice, Mirrors;
      MirrorsIds(queued.idSpace, queued.streams, queued.queue, queued.inFlight);
      if OurId(dropped) == INVALID {
        NothingDropped(refs.counts, queued.streams, refs.counts);
        return;
      }
      var qs := queued.RemoveAnywhere(OurId(dropped));
      if qs.Some? {
        refs.Unref(qs.value.list);
        OneDropped(old(refs.counts), old(queued.streams), refs.counts, OurId(dropped));
      } else {
        NothingDropped(old(refs.counts), queued.streams, refs.counts);
      }
      CountsBounded(old(refs.counts), old(queued.streams), refs.counts, queued.streams);
    }

    method PlayerFinishedAndIdle()
      requires Valid()
      modifies queued, refs
      ensures Valid() && queued.streams == map[] && queued.queue == [] && queued.inFlight == INVALID
      ensures queued.Exact()
    {
      hide Mirrors;
      var _ := queued.Clear();
      refs.Clear();
      forall l ensures Held(map[], l) == 0 {
        assert HeldIds(map[], l) == {};
      }
    }

    // Any sequence of operations, beginning with exact reference counts, up to a failing assertion.  Counts are never
    // too high; they remain exact unless the player drops or rejects streams.
    method Run(events: seq<Event>) returns (n: nat, ghost states: seq<Mirror>)
      requires Valid() && queued.Exact()
      modifies queued, refs
      ensures Valid() && queued.Bounded()
      ensures n <= |events| && IsRun(states, events[..n]) && states[0] == old(Now()) && states[n] == Now()
      ensures n < |events| ==> FailsAssertion(Now(), events[n])
      ensures (forall e :: e in events[..n] ==> !e.DroppedFromQueue? && !e.Rejected?) ==> queued.Exact()
    {
      hide Mirrors, Held, CountIn, Transition;
      n, states := 0, [Now()];
      while n < |events|
        invariant n <= |events| && Valid() && queued.Bounded()
        invariant IsRun(states, events[..n]) && states[0] == old(Now()) && states[n] == Now()
        invariant (forall e :: e in events[..n] ==> !e.DroppedFromQueue? && !e.Rejected?) ==> queued.Exact()
        decreases |events| - n
      {
        var done := Step(events[n]);
        if !done {
          return;
        }
        assert events[..n + 1] == events[..n] + [events[n]];
        n, states := n + 1, states + [Now()];
      }
    }

    // False if an assertion has failed
    method Step(event: Event) returns (done: bool)
      requires Valid() && queued.Bounded()
      modifies queued, refs
      ensures Valid() && queued.Bounded()
      ensures done <==> !FailsAssertion(old(Now()), event)
      ensures if done then Transition(old(Now()), event, Now()) else Now() == old(Now())
      ensures done && !event.DroppedFromQueue? && !event.Rejected? && old(queued.Exact()) ==> queued.Exact()
    {
      hide Mirrors, Held, CountedTwice, DropSucceeds, DropCount, Lands, Dropped, Kept, Less, CountIn;
      ghost var m := Now();
      done := true;
      match event {
        case Append(list) => var _ := QueuedStreamAppend(list);
        case PlayingNext => QueuedStreamPlayingNext();
        case Remove(id) => QueuedStreamRemove(id);
        case RemoveAll(alsoPlaying) => RemoveAllQueuedStreams(alsoPlaying);
        case Changed(next) =>
          var change := StreamHasChanged(next);
          done := change.Reported?;
        case DroppedFromQueue(dropped) => var _ := PlayerDroppedFromQueue(dropped);
        case Rejected(stream) => PlayerRejectedUnplayedStream(stream);
        case Failed => Clear();
        case Finished => PlayerFinishedAndIdle();
      }
    }
  }
}
