// DCP::Queue and DCP::Transaction (src/dcp_transaction_queue.cc, src/dcp_transaction.cc): updates of
// views are merged while they are waiting, and sent one at a time.
module DcpQueue {
  import opened Wrappers

  type View = nat

  // An update of a view; also an entry of the queue, in which several updates may have been merged
  datatype Data = Data(view: View, full: bool, flags: bv32, busy: Option<bool>)

  type Updates = map<View, seq<Data>>

  // ---------------------------------------------------------------- merging

  function Or(a: bv32, b: bv32): bv32 {
    a | b
  }

  function And(a: bv32, b: bv32): bv32 {
    a & b
  }

  function Merge(d: Data, u: Data): Data {
    Data(d.view, d.full || u.full, Or(d.flags, u.flags), if u.busy.Some? then u.busy else d.busy)
  }

  function Merged(updates: seq<Data>): Data
    requires updates != []
  {
    if |updates| == 1 then updates[0] else Merge(Merged(updates[..|updates| - 1]), updates[|updates| - 1])
  }

  // The last busy flag known
  predicate IsLastKnown(updates: seq<Data>, busy: Option<bool>) {
    if busy == None then forall i :: 0 <= i < |updates| ==> updates[i].busy == None
    else exists i :: 0 <= i < |updates| && updates[i].busy == busy
                     && forall j :: i < j < |updates| ==> updates[j].busy == None
  }

  // One of the flags in a mask is set.
  predicate Has(d: Data, mask: bv32) {
    And(d.flags, mask) != 0
  }

  lemma HasMerged(d: Data, u: Data, mask: bv32)
    ensures Has(Merge(d, u), mask) <==> Has(d, mask) || Has(u, mask)
  {
    hide Or, And;
    OrMasked(d.flags, u.flags, mask);
    OrZero(And(d.flags, mask), And(u.flags, mask));
  }

  lemma OrMasked(a: bv32, b: bv32, mask: bv32)
    ensures And(Or(a, b), mask) == Or(And(a, mask), And(b, mask))
  {
  }

  lemma OrZero(a: bv32, b: bv32)
    ensures Or(a, b) == 0 <==> a == 0 && b == 0
  {
  }

  // No flag is lost by merging, and none is made up; of the busy flags known, the last one counts.
  lemma {:induction false} MergedHasAll(updates: seq<Data>, mask: bv32)
    requires updates != []
    ensures Merged(updates).view == updates[0].view
    ensures Merged(updates).full <==> exists i :: 0 <= i < |updates| && updates[i].full
    ensures Has(Merged(updates), mask) <==> exists i :: 0 <= i < |updates| && Has(updates[i], mask)
    ensures IsLastKnown(updates, Merged(updates).busy)
  {
    hide Has;
    if |updates| > 1 {
      var front, last := updates[..|updates| - 1], updates[|updates| - 1];
      MergedHasAll(front, mask);
      HasMerged(Merged(front), last, mask);
      assert updates == front + [last];
      FullExtended(front, last);
      FlagsExtended(front, last, mask);
      LastKnownExtended(front, last, Merged(front).busy);
    }
  }

  lemma FullExtended(front: seq<Data>, last: Data)
    ensures (exists i :: 0 <= i < |front + [last]| && (front + [last])[i].full) <==>
            last.full || exists i :: 0 <= i < |front| && front[i].full
  {
    var updates := front + [last];
    assert updates[|front|] == last;
    if i :| 0 <= i < |front| && front[i].full {
      assert updates[i].full;
    }
  }

  lemma FlagsExtended(front: seq<Data>, last: Data, mask: bv32)
    ensures (exists i :: 0 <= i < |front + [last]| && Has((front + [last])[i], mask)) <==>
            Has(last, mask) || exists i :: 0 <= i < |front| && Has(front[i], mask)
  {
    hide Has;
    var updates := front + [last];
    assert updates[|front|] == last;
    if i :| 0 <= i < |front| && Has(front[i], mask) {
      assert Has(updates[i], mask);
    }
  }

  lemma LastKnownExtended(front: seq<Data>, last: Data, busy: Option<bool>)
    requires IsLastKnown(front, busy)
    ensures IsLastKnown(front + [last], if last.busy.Some? then last.busy else busy)
  {
    var updates := front + [last];
    assert updates[|front|] == last;
    if last.busy == None && busy != None {
      var i :| 0 <= i < |front| && front[i].busy == busy && forall j :: i < j < |front| ==> front[j].busy == None;
      assert updates[i].busy == busy;
    }
  }

  lemma MergedExtended(updates: seq<Data>, u: Data)
    requires updates != []
    ensures Merged(updates + [u]) == Merge(Merged(updates), u)
  {
    assert (updates + [u])[..|updates|] == updates;
  }

  // ---------------------------------------------------------------- accounting

  function At(updates: Updates, v: View): seq<Data> {
    if v in updates then updates[v] else []
  }

  // Updates of a view which have been added, but not been handed to the writer
  ghost function Pending(added: Updates, handed: Updates, v: View): seq<Data>
    requires At(handed, v) <= At(added, v)
  {
    At(added, v)[|At(handed, v)|..]
  }

  ghost predicate Distinct(data: seq<Data>) {
    forall i, j :: 0 <= i < j < |data| ==> data[i].view != data[j].view
  }

  ghost predicate Queued(data: seq<Data>, v: View) {
    exists i :: 0 <= i < |data| && data[i].view == v
  }

  // The updates added are those handed over, followed by those pending; if there are any, then there is
  // an entry in the queue.
  ghost predicate ViewAccounted(data: seq<Data>, added: Updates, handed: Updates, v: View) {
    At(handed, v) <= At(added, v) && (Pending(added, handed, v) != [] ==> Queued(data, v))
  }

  // An entry in the queue is its view's pending updates, merged.
  ghost predicate EntryAccounted(d: Data, added: Updates, handed: Updates) {
    && At(handed, d.view) <= At(added, d.view) && Pending(added, handed, d.view) != []
    && d == Merged(Pending(added, handed, d.view))
  }

  ghost predicate Accounts(data: seq<Data>, added: Updates, handed: Updates) {
    && Distinct(data)
    && (forall v :: ViewAccounted(data, added, handed, v))
    && (forall i :: 0 <= i < |data| ==> EntryAccounted(data[i], added, handed))
  }

  function Added(added: Updates, u: Data): Updates {
    added[u.view := At(added, u.view) + [u]]
  }

  function Handed(added: Updates, handed: Updates, v: View): Updates {
    handed[v := At(added, v)]
  }

  lemma PendingAdded(added: Updates, handed: Updates, u: Data, v: View)
    requires At(handed, v) <= At(added, v)
    ensures At(handed, v) <= At(Added(added, u), v)
    ensures Pending(Added(added, u), handed, v) ==
            if v == u.view then Pending(added, handed, v) + [u] else Pending(added, handed, v)
  {
  }

  lemma PendingHanded(added: Updates, handed: Updates, view: View, v: View)
    requires At(handed, v) <= At(added, v)
    ensures At(Handed(added, handed, view), v) <= At(added, v)
    ensures Pending(added, Handed(added, handed, view), v) == if v == view then [] else Pending(added, handed, v)
  {
  }

  lemma AccountsNew(data: seq<Data>, added: Updates, handed: Updates, u: Data)
    requires Accounts(data, added, handed) && !Queued(data, u.view)
    ensures Accounts(data + [u], Added(added, u), handed)
  {
    hide Added, At, Pending;
    var data' := data + [u];
    assert data'[|data|] == u;
    forall v ensures ViewAccounted(data', Added(added, u), handed, v) {
      assert ViewAccounted(data, added, handed, v);
      PendingAdded(added, handed, u, v);
      if v != u.view && Queued(data, v) {
        var i :| 0 <= i < |data| && data[i].view == v;
        assert data'[i].view == v;
      }
    }
    assert ViewAccounted(data, added, handed, u.view);
    PendingAdded(added, handed, u, u.view);
    forall i | 0 <= i < |data| ensures data[i].view != u.view && EntryAccounted(data[i], Added(added, u), handed) {
      assert EntryAccounted(data[i], added, handed);
      assert !(data[i].view == u.view) by {
        assert data[i].view == u.view ==> Queued(data, u.view);
      }
      PendingAdded(added, handed, u, data[i].view);
    }
  }

  lemma AccountsMerged(data: seq<Data>, added: Updates, handed: Updates, u: Data, k: nat)
    requires Accounts(data, added, handed) && k < |data| && data[k].view == u.view
    ensures Accounts(data[k := Merge(data[k], u)], Added(added, u), handed)
  {
    hide Added, At, Pending, Merge, Merged;
    var data' := data[k := Merge(data[k], u)];
    assert Merge(data[k], u).view == data[k].view by { MergeView(data[k], u); }
    forall v ensures ViewAccounted(data', Added(added, u), handed, v) {
      assert ViewAccounted(data, added, handed, v);
      PendingAdded(added, handed, u, v);
      if Queued(data, v) {
        var i :| 0 <= i < |data| && data[i].view == v;
        assert data'[i].view == v;
      } else {
        assert data[k].view != v;
      }
    }
    forall i | 0 <= i < |data| ensures EntryAccounted(data'[i], Added(added, u), handed) {
      assert EntryAccounted(data[i], added, handed);
      PendingAdded(added, handed, u, data[i].view);
      MergedExtended(Pending(added, handed, data[i].view), u);
    }
  }

  lemma MergeView(d: Data, u: Data)
    ensures Merge(d, u).view == d.view
  {
  }

  // The front entry is handed to the writer, and its updates with it.
  lemma AccountsHanded(data: seq<Data>, added: Updates, handed: Updates)
    requires Accounts(data, added, handed) && data != []
    ensures Accounts(data[1..], added, Handed(added, handed, data[0].view))
    ensures EntryAccounted(data[0], added, handed)
  {
    hide Handed, At, Pending, Merge, Merged;
    var data', view := data[1..], data[0].view;
    forall v ensures ViewAccounted(data', added, Handed(added, handed, view), v) {
      assert ViewAccounted(data, added, handed, v);
      PendingHanded(added, handed, view, v);
      if v != view && Queued(data, v) {
        var i :| 0 <= i < |data| && data[i].view == v;
        assert data'[i - 1].view == v;
      }
    }
    forall i | 0 <= i < |data'| ensures EntryAccounted(data'[i], added, Handed(added, handed, view)) {
      assert data'[i] == data[i + 1];
      assert EntryAccounted(data[i + 1], added, handed);
      PendingHanded(added, handed, view, data'[i].view);
    }
  }

  // ---------------------------------------------------------------- flags are conserved

  function AllFlags(updates: seq<Data>): bv32 {
    if updates == [] then 0 else Or(AllFlags(updates[..|updates| - 1]), updates[|updates| - 1].flags)
  }

  lemma OrLaws(a: bv32, b: bv32, c: bv32)
    ensures Or(a, Or(b, c)) == Or(Or(a, b), c) && Or(a, 0) == a && Or(0, a) == a
  {
  }

  lemma {:induction false} AllFlagsConcat(a: seq<Data>, b: seq<Data>)
    ensures AllFlags(a + b) == Or(AllFlags(a), AllFlags(b))
  {
    hide Or;
    if b == [] {
      assert a + b == a;
      OrLaws(AllFlags(a), 0, 0);
    } else {
      var front, last := b[..|b| - 1], b[|b| - 1];
      AllFlagsConcat(a, front);
      assert (a + b)[..|a + b| - 1] == a + front;
      OrLaws(AllFlags(a), AllFlags(front), last.flags);
    }
  }

  lemma {:induction false} MergedFlags(updates: seq<Data>)
    requires updates != []
    ensures Merged(updates).flags == AllFlags(updates)
  {
    hide Or;
    if |updates| == 1 {
      assert updates[..0] == [];
      OrLaws(updates[0].flags, 0, 0);
      assert AllFlags(updates) == Or(AllFlags([]), updates[0].flags);
    } else {
      MergedFlags(updates[..|updates| - 1]);
    }
  }

  // Flags in the queue for a view
  ghost function QueuedFlags(data: seq<Data>, v: View): bv32 {
    if Queued(data, v) then (var i :| 0 <= i < |data| && data[i].view == v; data[i].flags) else 0
  }

  // The flags ever added for a view are those handed to the writer, and those pending.
  lemma FlagsConserved(data: seq<Data>, added: Updates, handed: Updates, v: View)
    requires Accounts(data, added, handed)
    ensures At(handed, v) <= At(added, v)
    ensures AllFlags(At(added, v)) == Or(AllFlags(At(handed, v)), QueuedFlags(data, v))
  {
    hide Or, Merged, AllFlags, At;
    assert ViewAccounted(data, added, handed, v);
    var pending := Pending(added, handed, v);
    assert At(added, v) == At(handed, v) + pending;
    AllFlagsConcat(At(handed, v), pending);
    if Queued(data, v) {
      var i :| 0 <= i < |data| && data[i].view == v && data[i].flags == QueuedFlags(data, v);
      assert EntryAccounted(data[i], added, handed);
      MergedFlags(pending);
    } else {
      NoFlags();
    }
  }

  lemma NoFlags()
    ensures AllFlags([]) == 0
  {
  }

  // ---------------------------------------------------------------- transactions

  datatype State = Idle | StartedAsync | WaitForCommit | WaitForAnswer

  datatype Result = OK | Failed | Timeout | InvalidAnswer | IOError

  // AssertionFailed: a run-time assertion has failed, which ends the program
  datatype Finish = Finished(ok: bool) | AssertionFailed

  datatype Mode = SyncIfPossible | ForceAsync

  // write_whole_xml(): what is written to the stream, and whether or not to go on with it
  type Writer = Data -> (bool, string)

  class Transaction {
    var state: State
    var buffer: string
    var output: seq<string>
    var hasOutput: bool
    // What the observer of the queue has done
    var timeoutArmed: bool
    var scheduled: nat

    constructor (hasOutput: bool)
      ensures state == Idle && buffer == "" && output == [] && this.hasOutput == hasOutput
      ensures !timeoutArmed && scheduled == 0
    {
      state, buffer, output, this.hasOutput := Idle, "", [], hasOutput;
      timeoutArmed, scheduled := false, 0;
    }

    predicate IsInProgress()
      reads this
    {
      state != Idle
    }

    method SetState(s: State)
      modifies this`state, this`timeoutArmed, this`scheduled
      ensures state == s
      ensures timeoutArmed == (s == WaitForAnswer || (s != Idle && old(timeoutArmed)))
      ensures scheduled == old(scheduled) + if s == StartedAsync then 1 else 0
    {
      state := s;
      match s {
        case Idle => timeoutArmed := false;
        case StartedAsync => scheduled := scheduled + 1;
        case WaitForCommit =>
        case WaitForAnswer => timeoutArmed := true;
      }
    }

    method Start(forceAsync: bool) returns (r: bool)
      modifies this`state, this`timeoutArmed, this`scheduled, this`buffer
      ensures r <==> old(state) == StartedAsync || (old(state) == Idle && !forceAsync)
      ensures state == if r then WaitForCommit else if old(state) == Idle then StartedAsync else old(state)
      ensures buffer == if old(state) == Idle then "" else old(buffer)
      ensures timeoutArmed == old(timeoutArmed)
      ensures scheduled == old(scheduled) + if old(state) == Idle && forceAsync then 1 else 0
    {
      match state {
        case Idle =>
          buffer := "";
          if forceAsync {
            SetState(StartedAsync);
            return false;
          }
        case StartedAsync =>
        case WaitForCommit | WaitForAnswer => return false;
      }
      SetState(WaitForCommit);
      return true;
    }

    method Commit() returns (r: bool)
      modifies this
      ensures hasOutput == old(hasOutput) && scheduled == old(scheduled)
      ensures r <==> old(state) == WaitForCommit
      ensures r ==> state == WaitForAnswer && timeoutArmed && buffer == ""
      ensures !r ==> state == old(state) && timeoutArmed == old(timeoutArmed) && buffer == old(buffer)
      ensures output == old(output) + if r && hasOutput && old(buffer) != "" then [old(buffer)] else []
    {
      if state != WaitForCommit {
        return false;
      }
      if buffer != "" {
        if hasOutput {
          output := output + [buffer];
        }
        buffer := "";
      }
      SetState(WaitForAnswer);
      return true;
    }

    method Done() returns (r: bool)
      modifies this`state, this`timeoutArmed, this`scheduled, this`buffer
      ensures scheduled == old(scheduled)
      ensures r <==> old(state) == WaitForAnswer
      ensures if r then state == Idle && !timeoutArmed && buffer == ""
              else state == old(state) && timeoutArmed == old(timeoutArmed) && buffer == old(buffer)
    {
      if state != WaitForAnswer {
        return false;
      }
      buffer := "";
      SetState(Idle);
      return true;
    }

    method Abort() returns (r: bool)
      modifies this`state, this`timeoutArmed, this`scheduled, this`buffer
      ensures scheduled == old(scheduled)
      ensures r <==> old(state) != Idle
      ensures state == Idle && (r ==> !timeoutArmed && buffer == "")
      ensures !r ==> timeoutArmed == old(timeoutArmed) && buffer == old(buffer)
    {
      if state == Idle {
        return false;
      }
      state := WaitForAnswer;
      r := Done();
    }
  }

  // ---------------------------------------------------------------- the queue

  // Number of entries at the front of the queue which the writer rejects
  function Rejected(data: seq<Data>, write: Writer): (k: nat)
    ensures k <= |data| && (forall i :: 0 <= i < k ==> !write(data[i]).0) && (k < |data| ==> write(data[k]).0)
  {
    if data != [] && !write(data[0]).0 then 1 + Rejected(data[1..], write) else 0
  }

  lemma {:induction false} RejectedIs(data: seq<Data>, write: Writer, k: nat)
    requires k <= |data| && (forall i :: 0 <= i < k ==> !write(data[i]).0) && (k < |data| ==> write(data[k]).0)
    ensures Rejected(data, write) == k
  {
    if k > 0 {
      RejectedIs(data[1..], write, k - 1);
    }
  }

  // What is sent if an entry is processed: nothing if the writer rejects it
  function Sent(data: seq<Data>, write: Writer, hasOutput: bool): seq<string> {
    var k := Rejected(data, write);
    if k < |data| && hasOutput && write(data[k]).1 != "" then [write(data[k]).1] else []
  }

  class Queue {
    var data: seq<Data>
    var active: Option<Data>
    const dcpd: Transaction
    ghost var added: Updates
    ghost var handed: Updates

    ghost predicate Valid()
      reads this, dcpd
    {
      && Accounts(data, added, handed)
      && Steady()
    }

    // Between any two operations, there is an active entry, and the timeout is armed, if and only if
    // an answer is waited for; and there is something in the queue if processing has been scheduled.
    ghost predicate Steady()
      reads this, dcpd
    {
      && dcpd.state != WaitForCommit && dcpd.buffer == ""
      && (active.Some? <==> dcpd.state == WaitForAnswer)
      && (dcpd.timeoutArmed <==> dcpd.state == WaitForAnswer)
      && (dcpd.state == StartedAsync ==> data != [])
    }

    constructor (hasOutput: bool)
      ensures Valid() && fresh(dcpd) && data == [] && active == None && dcpd.state == Idle && added == map[]
    {
      data, active, added, handed := [], None, map[], map[];
      dcpd := new Transaction(hasOutput);
    }

    // Position of a view's entry
    method Find(view: View) returns (k: nat)
      ensures k <= |data| && (k < |data| ==> data[k].view == view)
      ensures k == |data| <==> !Queued(data, view)
    {
      k := 0;
      while k < |data| && data[k].view != view
        invariant k <= |data| && forall i :: 0 <= i < k ==> data[i].view != view
      {
        k := k + 1;
      }
    }

    method Add(update: Data)
      requires Valid()
      modifies this`data, this`added
      ensures Valid() && added == Added(old(added), update)
      ensures if Queued(old(data), update.view) then
                |data| == |old(data)|
                && forall i :: 0 <= i < |data| ==>
                     data[i] == if old(data)[i].view == update.view then Merge(old(data)[i], update) else old(data)[i]
              else data == old(data) + [update]
    {
      hide Merge, Added, ViewAccounted, EntryAccounted;
      var k := Find(update.view);
      added := Added(added, update);
      if k == |data| {
        AccountsNew(data, old(added), handed, update);
        data := data + [update];
      } else {
        AccountsMerged(data, old(added), handed, update, k);
        var entry := MergeInto(data[k], update);
        data := data[k := entry];
      }
    }

    // An entry is updated in place.
    static method MergeInto(entry: Data, update: Data) returns (r: Data)
      ensures r == Merge(entry, update)
    {
      hide Or;
      r := entry;
      if update.full {
        r := r.(full := true);
      }
      r := r.(flags := Or(r.flags, update.flags));
      if update.busy.Some? {
        r := r.(busy := update.busy);
      }
    }

    // The entry at the front is handed to the writer, in a transaction which has been started.
    method ProcessFront(write: Writer) returns (r: bool)
      requires Accounts(data, added, handed) && data != []
      requires dcpd.state == WaitForCommit && dcpd.buffer == ""
      modifies this`data, this`active, this`handed, dcpd
      ensures Accounts(data, added, handed) && Steady()
      ensures data == old(data)[1..]
      ensures r <==> write(old(data)[0]).0
      ensures dcpd.state == if r then WaitForAnswer else Idle
      ensures active == if r then Some(old(data)[0]) else None
      ensures dcpd.output == old(dcpd.output)
                + if r && dcpd.hasOutput && write(old(data)[0]).1 != "" then [write(old(data)[0]).1] else []
      ensures dcpd.hasOutput == old(dcpd.hasOutput) && dcpd.scheduled == old(dcpd.scheduled)
    {
      hide Accounts, EntryAccounted, Handed;
      AccountsHanded(data, added, handed);
      handed := Handed(added, handed, data[0].view);
      active := Some(data[0]);
      data := data[1..];
      var result := write(active.value);
      assert dcpd.buffer + result.1 == result.1;
      dcpd.buffer := dcpd.buffer + result.1;
      if result.0 {
        r := dcpd.Commit();
      } else {
        var _ := dcpd.Abort();
        active := None;
        r := false;
      }
    }

    // Entries are taken from the queue until the writer goes along with one.
    method Process(write: Writer) returns (r: bool)
      requires Valid()
      modifies this`data, this`active, this`handed, dcpd
      ensures Valid()
      ensures old(data) == [] || old(dcpd.state) == WaitForAnswer ==>
                && !r && data == old(data) && active == old(active) && handed == old(handed)
                && dcpd.state == old(dcpd.state) && dcpd.output == old(dcpd.output)
      ensures old(data) != [] && old(dcpd.state) != WaitForAnswer ==>
                var k := Rejected(old(data), write);
                && (r <==> k < |old(data)|)
                && dcpd.state == (if r then WaitForAnswer else Idle)
                && active == (if r then Some(old(data)[k]) else None)
                && data == (if r then old(data)[k + 1..] else [])
                && dcpd.output == old(dcpd.output) + Sent(old(data), write, old(dcpd.hasOutput))
      ensures dcpd.hasOutput == old(dcpd.hasOutput) && dcpd.scheduled == old(dcpd.scheduled)
    {
      hide Accounts, EntryAccounted, Rejected, Handed;
      ghost var k := 0;
      while true
        invariant k <= |old(data)| && data == old(data)[k..] && Valid()
        invariant forall i :: 0 <= i < k ==> !write(old(data)[i]).0
        invariant dcpd.output == old(dcpd.output)
        invariant dcpd.hasOutput == old(dcpd.hasOutput) && dcpd.scheduled == old(dcpd.scheduled)
        invariant k == 0 ==> active == old(active) && dcpd.state == old(dcpd.state) && handed == old(handed)
        invariant k > 0 ==> dcpd.state == Idle && old(dcpd.state) != WaitForAnswer
        decreases |data|
      {
        if data == [] {
          break;
        }
        var started := dcpd.Start(false);
        if !started {
          break;
        }
        r := ProcessFront(write);
        if r {
          RejectedIs(old(data), write, k);
          return true;
        }
        k := k + 1;
      }
      if k == |old(data)| {
        RejectedIs(old(data), write, k);
      }
      return false;
    }

    method ProcessPendingTransactions(write: Writer) returns (r: bool)
      requires Valid()
      modifies this`data, this`active, this`handed, dcpd
      ensures Valid()
      ensures old(data) == [] || old(dcpd.state) == WaitForAnswer ==>
                !r && data == old(data) && active == old(active) && dcpd.state == old(dcpd.state)
                && dcpd.output == old(dcpd.output)
      ensures old(data) != [] && old(dcpd.state) != WaitForAnswer ==>
                var k := Rejected(old(data), write);
                && (r <==> k < |old(data)|)
                && dcpd.state == (if r then WaitForAnswer else Idle)
                && active == (if r then Some(old(data)[k]) else None)
                && data == (if r then old(data)[k + 1..] else [])
                && dcpd.output == old(dcpd.output) + Sent(old(data), write, old(dcpd.hasOutput))
    {
      hide Accounts, Rejected;
      var processed := Process(write);
      if !processed {
        return false;
      }
      label waiting:
      while processed
        invariant Valid() && dcpd.state == WaitForAnswer
        invariant data == old@waiting(data) && active == old@waiting(active) && dcpd.output == old@waiting(dcpd.output)
        decreases processed
      {
        processed := Process(write);
      }
      return true;
    }

    method StartTransaction(mode: Mode, write: Writer) returns (r: bool)
      requires Valid()
      modifies this`data, this`active, this`handed, dcpd
      ensures Valid()
      ensures old(data) == [] || old(dcpd.state) != Idle ==>
                && (r <==> old(data) != [])
                && data == old(data) && active == old(active) && dcpd.state == old(dcpd.state)
                   && dcpd.output == old(dcpd.output)
      ensures old(data) != [] && old(dcpd.state) == Idle && mode == ForceAsync ==>
                r && dcpd.output == old(dcpd.output) && dcpd.state == StartedAsync && data == old(data)
                && dcpd.scheduled == old(dcpd.scheduled) + 1
      ensures old(data) != [] && old(dcpd.state) == Idle && mode == SyncIfPossible ==>
                && (r <==> Rejected(old(data), write) < |old(data)|)
                && dcpd.state == (if r then WaitForAnswer else Idle)
                && data == (if r then old(data)[Rejected(old(data), write) + 1..] else [])
                && dcpd.output == old(dcpd.output) + Sent(old(data), write, old(dcpd.hasOutput))
    {
      hide Accounts, Rejected;
      if data == [] {
        return false;
      }
      if dcpd.IsInProgress() {
        return true;
      }
      if mode == ForceAsync {
        var _ := dcpd.Start(true);
        return dcpd.state == StartedAsync;
      }
      r := ProcessPendingTransactions(write);
    }

    // An answer of success while processing has only been scheduled fails an assertion.
    method FinishTransaction(result: Result) returns (r: Finish)
      requires Valid()
      modifies this`active, dcpd
      ensures Valid()
      ensures r.AssertionFailed? <==> old(dcpd.state) == StartedAsync && result == OK
      ensures r.AssertionFailed? ==> active == old(active) && dcpd.state == old(dcpd.state)
      ensures r.Finished? ==> active == None && dcpd.state == Idle
                              && (r.ok <==> old(dcpd.state) == Idle || result == OK)
      ensures dcpd.output == old(dcpd.output) && dcpd.scheduled == old(dcpd.scheduled)
    {
      hide Accounts;
      if !dcpd.IsInProgress() {
        return Finished(true);
      }
      if result == OK {
        if active == None {
          return AssertionFailed;
        }
        active := None;
        var done := dcpd.Done();
        if done {
          return Finished(true);
        }
      }
      active := None;
      var aborted := dcpd.Abort();
      assert aborted;
      return Finished(false);
    }
  }
}
