/** CoAP transactions: a confirmable message is sent again at doubled intervals until it is answered
    or given up, in one of a few slots that are used again and again. */
module Transactions {

  const MAX_OPEN_TRANSACTIONS := 4
  const MAX_RETRANSMIT := 4
  const RESPONSE_TIMEOUT := 2

  /** A slot of the pool. The callback, of which 0 stands for none, stays when the slot is freed. */
  datatype Slot = Slot(mid: nat, counter: nat, confirmable: bool, callback: nat, interval: nat, due: nat)

  /** The first interval is a random one of two to three seconds, a later one twice the one before. */
  function Interval(second: nat, s: Slot, random: nat): nat {
    if s.counter == 0 then second * RESPONSE_TIMEOUT + random % (second + 1) else s.interval * 2
  }

  /** What has happened to a transaction: the callback its slot has for it, when it was sent, the
      intervals that were set, and the callbacks that were called. */
  datatype Record =
    Record(mid: nat, confirmable: bool, callback: nat, sends: seq<nat>, intervals: seq<nat>, fired: seq<nat>)

  /** The calls that there are of a callback. */
  function Calls(callback: nat): seq<nat> { if callback == 0 then [] else [callback] }

  // ----- What holds of every transaction

  ghost predicate Doubling(intervals: seq<nat>) {
    forall k | 0 < k < |intervals| :: intervals[k] == 2 * intervals[k - 1]
  }

  /** No send comes before the interval after the one before it is over. */
  ghost predicate OnTime(sends: seq<nat>, intervals: seq<nat>) {
    forall k | 0 < k < |sends| && k <= |intervals| :: sends[k - 1] + intervals[k - 1] <= sends[k]
  }

  ghost predicate Scheduled(second: nat, r: Record) {
    && Doubling(r.intervals) && OnTime(r.sends, r.intervals)
    && (r.intervals != [] ==> 2 * second <= r.intervals[0] <= 3 * second)
  }

  /** A transaction that has been sent and waits for an answer. */
  ghost predicate Waiting(second: nat, s: Slot, r: Record) {
    && s.confirmable && r.confirmable && s.mid == r.mid && s.callback == r.callback && Scheduled(second, r)
    && |r.sends| == |r.intervals| == s.counter + 1 <= MAX_RETRANSMIT && r.fired == []
    && s.interval == r.intervals[s.counter] && s.due == r.sends[s.counter] + s.interval
  }

  ghost predicate Unsent(s: Slot, r: Record) {
    && s.counter == 0 && s.mid == r.mid && s.confirmable == r.confirmable && s.callback == r.callback
    && r.sends == [] && r.intervals == [] && r.fired == []
  }

  /** The states in which a slot can be between two operations. */
  ghost predicate Settled(second: nat, used: bool, s: Slot, r: Record) {
    used ==> Unsent(s, r) || Waiting(second, s, r)
  }

  /** A transaction that is over: given up after the last send without waiting, answered before, or
      not to be answered at all. The callback of a confirmable one has been called, once. */
  ghost predicate Ended(second: nat, r: Record) {
    && Scheduled(second, r)
    && (r.fired == Calls(r.callback) || (!r.confirmable && r.fired == []))
    && if r.confirmable then |r.sends| <= MAX_RETRANSMIT + 1
                              && |r.intervals| == (if |r.sends| > MAX_RETRANSMIT then MAX_RETRANSMIT else |r.sends|)
       else |r.sends| <= 1 && r.intervals == []
  }

  function Sum(s: seq<nat>): nat { if s == [] then 0 else Sum(s[..|s| - 1]) + s[|s| - 1] }

  lemma {:induction false} SumOfDoubling(s: seq<nat>)
    requires s != [] && Doubling(s)
    ensures Sum(s) + s[0] == 2 * s[|s| - 1]
    decreases |s|
  {
    if |s| > 1 {
      SumOfDoubling(s[..|s| - 1]);
    } else {
      assert Sum(s[..0]) == 0;
    }
  }

  /** However often a message is sent, the schedule lets the last send come at most 45 seconds after
      the first, and exactly 15 first intervals after it when there is no answer. */
  lemma LastSend(second: nat, r: Record)
    requires Ended(second, r)
    ensures Sum(r.intervals) <= 45 * second
    ensures |r.sends| == MAX_RETRANSMIT + 1 ==> r.confirmable && Sum(r.intervals) == 15 * r.intervals[0]
    ensures |r.sends| <= MAX_RETRANSMIT + 1
  {
    var s := r.intervals;
    if s != [] {
      SumOfDoubling(s);
      assert |s| > 1 ==> s[1] == 2 * s[0];
      assert |s| > 2 ==> s[2] == 2 * s[1];
      assert |s| > 3 ==> s[3] == 2 * s[2];
    }
  }

  /** In real time the k-th send is not before its schedule. */
  lemma {:induction false} NotEarly(r: Record, k: nat)
    requires OnTime(r.sends, r.intervals) && k < |r.sends| && k <= |r.intervals|
    ensures r.sends[0] + Sum(r.intervals[..k]) <= r.sends[k]
  {
    if k > 0 {
      NotEarly(r, k - 1);
      assert r.intervals[..k][..k - 1] == r.intervals[..k - 1];
    } else {
      assert r.intervals[..0] == [];
    }
  }

  // ----- Snapshots of the pool

  datatype State = State(second: nat, slots: seq<Slot>, used: seq<bool>, open: seq<nat>, clock: nat,
                         records: seq<Record>, ended: seq<Record>)

  ghost predicate IsState(s: State) {
    && |s.slots| == |s.used| == |s.records| == MAX_OPEN_TRANSACTIONS
    && (forall k | k in s.open :: k < MAX_OPEN_TRANSACTIONS) && Distinct(s.open)
    && (forall k | 0 <= k < MAX_OPEN_TRANSACTIONS :: s.used[k] <==> k in s.open)
  }

  /** Nothing has happened to a slot. */
  ghost predicate Same(s: State, t: State, i: nat)
    requires IsState(s) && IsState(t) && i < MAX_OPEN_TRANSACTIONS
  {
    t.slots[i] == s.slots[i] && t.used[i] == s.used[i] && t.records[i] == s.records[i]
  }

  ghost predicate Due(s: State, i: nat)
    requires IsState(s) && i < MAX_OPEN_TRANSACTIONS
  {
    s.slots[i].due <= s.clock
  }

  /** A message has been sent again: once, now, and with a doubled interval. */
  ghost predicate Resent(s: State, t: State, i: nat)
    requires IsState(s) && IsState(t) && i < MAX_OPEN_TRANSACTIONS
  {
    var x, r := s.slots[i], s.records[i];
    && t.used[i]
    && t.slots[i] == x.(counter := x.counter + 1, interval := 2 * x.interval, due := s.clock + 2 * x.interval)
    && t.records[i] == r.(sends := r.sends + [s.clock], intervals := r.intervals + [2 * x.interval])
  }

  /** It is due for the last time. */
  ghost predicate LastTime(s: State, i: nat)
    requires IsState(s) && i < MAX_OPEN_TRANSACTIONS
  {
    Due(s, i) && s.slots[i].counter == MAX_RETRANSMIT - 1
  }

  /** The first position from `k` on in the list of open transactions at which one is given up. */
  ghost function GivenUp(s: State, k: nat): (n: nat)
    requires IsState(s) && k <= |s.open|
    ensures k <= n <= |s.open| && (n < |s.open| ==> s.open[n] in s.open && LastTime(s, s.open[n]))
    ensures forall j | k <= j < n :: s.open[j] in s.open && !LastTime(s, s.open[j])
    decreases |s.open| - k
  {
    if k == |s.open| then k
    else
      assert s.open[k] in s.open;
      if LastTime(s, s.open[k]) then k else GivenUp(s, k + 1)
  }

  /** Of the transactions before position `n` in the list, the due ones have been sent again. */
  ghost predicate Looked(s: State, t: State, n: nat)
    requires IsState(s) && IsState(t) && n <= |s.open|
  {
    forall j | 0 <= j < n ::
      s.open[j] in s.open && if Due(s, s.open[j]) then Resent(s, t, s.open[j]) else Same(s, t, s.open[j])
  }

  /** Nothing has happened to the others. */
  ghost predicate NotLooked(s: State, t: State, n: nat)
    requires IsState(s) && IsState(t) && n <= |s.open|
  {
    && (forall j | n <= j < |s.open| :: s.open[j] in s.open && Same(s, t, s.open[j]))
    && forall k | 0 <= k < MAX_OPEN_TRANSACTIONS && k !in s.open :: Same(s, t, k)
  }

  lemma LookOn(s: State, t: State, u: State, n: nat)
    requires IsState(s) && IsState(t) && IsState(u) && n < |s.open| && Looked(s, t, n) && NotLooked(s, t, n)
    requires forall k | 0 <= k < MAX_OPEN_TRANSACTIONS && k != s.open[n] :: Same(t, u, k)
    ensures s.open[n] < MAX_OPEN_TRANSACTIONS && Same(s, t, s.open[n])
    ensures Looked(s, u, n) && NotLooked(s, u, n + 1)
    ensures (if Due(s, s.open[n]) then Resent(s, u, s.open[n]) else Same(s, u, s.open[n])) ==> Looked(s, u, n + 1)
  {
    hide Resent, Due;
    assert s.open[n] in s.open;
    forall j | 0 <= j < n
      ensures if Due(s, s.open[j]) then Resent(s, u, s.open[j]) else Same(s, u, s.open[j])
    {
      assert s.open[j] in s.open && s.open[j] != s.open[n] && Same(t, u, s.open[j]);
      StillLooked(s, t, u, s.open[j]);
    }
    forall j | n + 1 <= j < |s.open|
      ensures s.open[j] in s.open && Same(s, u, s.open[j])
    {
      assert s.open[j] in s.open && s.open[j] != s.open[n] && Same(t, u, s.open[j]) && Same(s, t, s.open[j]);
    }
    forall k | 0 <= k < MAX_OPEN_TRANSACTIONS && k !in s.open
      ensures Same(s, u, k)
    {
      assert k != s.open[n] && Same(t, u, k) && Same(s, t, k);
    }
  }

  lemma StillLooked(s: State, t: State, u: State, i: nat)
    requires IsState(s) && IsState(t) && IsState(u) && i < MAX_OPEN_TRANSACTIONS && Same(t, u, i)
    ensures Resent(s, t, i) ==> Resent(s, u, i)
    ensures Same(s, t, i) ==> Same(s, u, i)
  {
  }

  /** A transaction has ended: it is taken off the list, and its callback is the one that is called. */
  ghost predicate Over(s: State, t: State, i: nat, r: Record, fired: seq<nat>)
    requires IsState(s) && IsState(t) && i < MAX_OPEN_TRANSACTIONS
  {
    && !t.used[i] && t.open == Without(s.open, i) && t.slots[i].callback == s.slots[i].callback
    && t.ended == s.ended + [r.(fired := fired)]
  }

  /** A pass over the timers: due messages are sent again in the order of the list, up to the first one
      that is given up, which is sent for the last time and whose callback is called. */
  ghost predicate Checked(s: State, t: State, fired: seq<nat>) {
    && IsState(s) && IsState(t) && t.clock == s.clock && t.second == s.second
    && var n := GivenUp(s, 0);
    && Looked(s, t, n)
    && if n == |s.open| then NotLooked(s, t, n) && t.open == s.open && t.ended == s.ended && fired == []
       else
         && NotLooked(s, t, n + 1) && fired == Calls(s.slots[s.open[n]].callback)
         && var r := s.records[s.open[n]]; Over(s, t, s.open[n], r.(sends := r.sends + [s.clock]), fired)
  }

  /** The first free slot. */
  ghost function Free(used: seq<bool>): (i: nat)
    ensures i <= |used| && (forall k | 0 <= k < i :: used[k]) && (i < |used| ==> !used[i])
  {
    if used == [] || !used[0] then 0 else 1 + Free(used[1..])
  }

  /** A message is sent in a new transaction in the first free slot, if there is one. Without a callback
      of its own the transaction has the one that is in the slot. */
  ghost predicate Transmitted(s: State, t: State, mid: nat, callback: nat, confirmable: bool) {
    && IsState(s) && IsState(t) && t.clock == s.clock && t.second == s.second
    && var i := Free(s.used);
    && (forall k | 0 <= k < MAX_OPEN_TRANSACTIONS && k != i :: Same(s, t, k))
    && if i == MAX_OPEN_TRANSACTIONS then t == s
       else
         var c := if callback != 0 then callback else s.slots[i].callback;
         && t.slots[i].mid == mid && t.slots[i].callback == c && t.slots[i].confirmable == confirmable
         && if confirmable then
              && t.used[i] && t.open == s.open + [i] && t.ended == s.ended && t.slots[i].counter == 0
              && t.records[i] == Record(mid, true, c, [s.clock], [t.slots[i].interval], [])
              && 2 * s.second <= t.slots[i].interval <= 3 * s.second
              && t.slots[i].due == s.clock + t.slots[i].interval
            else
              !t.used[i] && t.open == s.open && t.ended == s.ended + [Record(mid, false, c, [s.clock], [], [])]
  }

  /** The first position from `k` on at which a transaction has the message id. */
  ghost function WithId(s: State, mid: nat, k: nat): (n: nat)
    requires IsState(s) && k <= |s.open|
    ensures k <= n <= |s.open| && (n < |s.open| ==> s.open[n] in s.open && s.slots[s.open[n]].mid == mid)
    ensures forall j | k <= j < n :: s.open[j] in s.open && s.slots[s.open[j]].mid != mid
    decreases |s.open| - k
  {
    if k == |s.open| then k
    else
      assert s.open[k] in s.open;
      if s.slots[s.open[k]].mid == mid then k else WithId(s, mid, k + 1)
  }

  /** An answer ends the first transaction with its message id. */
  ghost predicate Answered(s: State, t: State, mid: nat, fired: seq<nat>) {
    && IsState(s) && IsState(t) && t.clock == s.clock && t.second == s.second
    && var n := WithId(s, mid, 0);
    && t.slots == s.slots && t.records == s.records
    && if n == |s.open| then t == s && fired == []
       else
         && (forall k | 0 <= k < MAX_OPEN_TRANSACTIONS && k != s.open[n] :: t.used[k] == s.used[k])
         && fired == Calls(s.slots[s.open[n]].callback) && Over(s, t, s.open[n], s.records[s.open[n]], fired)
  }

  // ----- The pool

  predicate Distinct(list: seq<nat>) { forall a, b | 0 <= a < b < |list| :: list[a] != list[b] }

  function Without(list: seq<nat>, i: nat): (r: seq<nat>)
    ensures forall k | k in r :: k in list && k != i
    ensures forall k | k in list && k != i :: k in r
    ensures Distinct(list) ==> Distinct(r) && |r| == |list| - (if i in list then 1 else 0)
  {
    if list == [] then []
    else
      var rest := Without(list[1..], i);
      assert Distinct(list) ==> Distinct(list[1..]) && list[0] !in list[1..];
      assert Distinct(rest) && list[0] !in rest ==> Distinct([list[0]] + rest);
      if list[0] == i then rest else [list[0]] + rest
  }

  class Pool {
    // The number of clock ticks in a second.
    const second: nat
    var slots: seq<Slot>
    var used: seq<bool>
    // The transactions that are open, in the order of their creation.
    var open: seq<nat>
    var clock: nat
    ghost var records: seq<Record>
    ghost var ended: seq<Record>

    constructor (second: nat)
      ensures Valid() && this.second == second && ended == [] && open == []
    {
      this.second := second;
      var empty := Slot(0, 0, false, 0, 0, 0);
      slots, used := [empty, empty, empty, empty], [false, false, false, false];
      open, clock := [], 0;
      var none := Record(0, false, 0, [], [], []);
      records, ended := [none, none, none, none], [];
    }

    ghost function Snapshot(): State
      reads this
    {
      State(second, slots, used, open, clock, records, ended)
    }

    ghost predicate Open(i: nat)
      reads this
    {
      i < |used| && used[i]
    }

    /** Everything but slot `i` is as it should be. */
    ghost predicate ValidBut(i: int)
      reads this
    {
      && |slots| == |used| == |records| == MAX_OPEN_TRANSACTIONS
      && (forall k | 0 <= k < MAX_OPEN_TRANSACTIONS :: used[k] <==> k in open)
      && (forall k | k in open :: k < MAX_OPEN_TRANSACTIONS) && Distinct(open)
      && (forall k | 0 <= k < MAX_OPEN_TRANSACTIONS && k != i :: Settled(second, used[k], slots[k], records[k]))
      && (forall r | r in ended :: Ended(second, r))
    }

    ghost predicate Valid()
      reads this
    {
      ValidBut(-1)
    }

    /** Takes the first free slot, if there is one. The callback of its last user is left in it. */
    method NewTransaction(mid: nat) returns (i: int)
      requires Valid()
      modifies this`slots, this`used, this`open, this`records
      ensures Valid()
      ensures -1 <= i && (i == -1 <==> forall k | 0 <= k < MAX_OPEN_TRANSACTIONS :: old(used)[k])
      ensures i >= 0 ==> i < MAX_OPEN_TRANSACTIONS && !old(used)[i] && used == old(used)[i := true]
      ensures i >= 0 ==> open == old(open) + [i] && i == Free(old(used))
      ensures i >= 0 ==> slots == old(slots)[i := old(slots)[i].(mid := mid, counter := 0)]
      ensures i >= 0 ==> records == old(records)[i := records[i]] && Unsent(slots[i], records[i])
      ensures i < 0 ==> Free(old(used)) == MAX_OPEN_TRANSACTIONS
      ensures i < 0 ==> used == old(used) && slots == old(slots) && records == old(records) && open == old(open)
    {
      var k := 0;
      while k < MAX_OPEN_TRANSACTIONS && used[k]
        invariant k <= MAX_OPEN_TRANSACTIONS && forall j | 0 <= j < k :: used[j]
      {
        k := k + 1;
      }
      if k == MAX_OPEN_TRANSACTIONS {
        return -1;
      }
      used := used[k := true];
      slots := slots[k := slots[k].(mid := mid, counter := 0)];
      open := open + [k];
      records := records[k := Record(mid, slots[k].confirmable, slots[k].callback, [], [], [])];
      i := k;
    }

    /** The owner registers a callback. */
    method SetCallback(i: nat, callback: nat)
      requires Valid() && Open(i)
      modifies this`slots, this`records
      ensures Valid() && slots == old(slots)[i := old(slots)[i].(callback := callback)]
      ensures records == old(records)[i := old(records)[i].(callback := callback)]
      ensures old(Unsent(slots[i], records[i])) ==> Unsent(slots[i], records[i])
    {
      slots := slots[i := slots[i].(callback := callback)];
      records := records[i := records[i].(callback := callback)];
    }

    /** The message is packed. */
    method Pack(i: nat, confirmable: bool)
      requires Valid() && Open(i) && Unsent(slots[i], records[i])
      modifies this`slots, this`records
      ensures Valid() && slots == old(slots)[i := old(slots)[i].(confirmable := confirmable)]
      ensures records == old(records)[i := records[i]] && Unsent(slots[i], records[i])
    {
      slots := slots[i := slots[i].(confirmable := confirmable)];
      records := records[i := records[i].(confirmable := confirmable)];
    }

    /** Frees a slot; the record of its transaction, with the callbacks that are to be called, goes to
        those that have ended. */
    method Clear(i: nat, ghost fired: seq<nat>)
      requires ValidBut(i) && Open(i) && Ended(second, records[i].(fired := fired))
      modifies this`used, this`open, this`ended
      ensures Valid() && used == old(used)[i := false] && open == Without(old(open), i)
      ensures ended == old(ended) + [records[i].(fired := fired)]
    {
      hide Ended, Unsent, Waiting;
      used := used[i := false];
      open := Without(open, i);
      ended := ended + [records[i].(fired := fired)];
    }

    /** The slot is one that has not been sent, or whose interval is over and whose counter has been
        increased. */
    ghost predicate Ready(i: nat)
      requires |slots| == |records| == MAX_OPEN_TRANSACTIONS && i < MAX_OPEN_TRANSACTIONS
      reads this
    {
      var s, r := slots[i], records[i];
      if s.counter == 0 then Unsent(s, r)
      else Waiting(second, s.(counter := s.counter - 1), r) && s.due <= clock
    }

    /** Sends a message. A confirmable one is kept and its timer set, unless it was the last time: then
        it is given up at once, freed, and its callback is the one to call. */
    method SendTransaction(i: nat, random: nat) returns (callback: nat)
      requires ValidBut(i) && Open(i) && Ready(i)
      modifies this`slots, this`used, this`open, this`records, this`ended
      ensures Valid()
      ensures var s := old(slots[i]);
        var sent := old(records[i]).(sends := old(records[i]).sends + [clock]);
        if s.confirmable && s.counter < MAX_RETRANSMIT then
          var interval := Interval(second, s, random);
          && callback == 0 && Open(i) && open == old(open) && ended == old(ended)
          && records[i] == sent.(intervals := sent.intervals + [interval]) && Waiting(second, slots[i], records[i])
          && slots[i] == s.(interval := interval, due := clock + interval)
        else
          && slots[i] == s
          && !Open(i) && open == Without(old(open), i)
          && callback == (if s.confirmable then s.callback else 0)
          && ended == old(ended) + [sent.(fired := Calls(callback))]
      ensures forall k | 0 <= k < MAX_OPEN_TRANSACTIONS && k != i ::
        used[k] == old(used)[k] && slots[k] == old(slots)[k] && records[k] == old(records)[k]
    {
      hide Unsent, Waiting, Ended;
      SentOnce(second, slots[i], records[i], clock, random);
      records := records[i := records[i].(sends := records[i].sends + [clock])];
      callback := 0;
      if slots[i].confirmable {
        if slots[i].counter < MAX_RETRANSMIT {
          var interval := Interval(second, slots[i], random);
          slots := slots[i := slots[i].(interval := interval, due := clock + interval)];
          records := records[i := records[i].(intervals := records[i].intervals + [interval])];
        } else {
          callback := slots[i].callback;
          Clear(i, Calls(callback));
        }
      } else {
        Clear(i, []);
      }
    }

    /** Every open message has been sent. */
    ghost predicate AllSent()
      requires Valid()
      reads this
    {
      forall k | 0 <= k < MAX_OPEN_TRANSACTIONS && used[k] :: Waiting(second, slots[k], records[k])
    }

    /** An answer or a reset for a message has come. Its transaction is freed before its callback is
        called. */
    method Reply(mid: nat) returns (callback: nat)
      requires Valid()
      modifies this`used, this`open, this`ended
      ensures Valid()
      ensures Answered(old(Snapshot()), Snapshot(), mid, Calls(callback)) && (old(AllSent()) ==> AllSent())
    {
      hide Ended, Unsent, Waiting, Without, Same;
      var k := 0;
      while k < |open| && (assert open[k] in open; slots[open[k]].mid != mid)
        invariant k <= |open| && WithId(Snapshot(), mid, 0) == WithId(Snapshot(), mid, k)
      {
        assert open[k] in open;
        k := k + 1;
      }
      if k == |open| {
        return 0;
      }
      var i := open[k];
      assert i in open;
      callback := slots[i].callback;
      AnsweredEnds(second, slots[i], records[i]);
      Clear(i, Calls(callback));
    }

    method Tick(ticks: nat)
      requires Valid()
      modifies this`clock
      ensures Valid() && clock == old(clock) + ticks && (old(AllSent()) ==> AllSent())
    {
      clock := clock + ticks;
    }

    /** Sends the message in a slot again if its interval is over. */
    method LookAt(i: nat, random: nat) returns (fired: seq<nat>)
      requires Valid() && AllSent() && Open(i)
      modifies this`slots, this`used, this`open, this`records, this`ended
      ensures Valid() && AllSent()
      ensures forall k | 0 <= k < MAX_OPEN_TRANSACTIONS && k != i :: Same(old(Snapshot()), Snapshot(), k)
      ensures var s, t := old(Snapshot()), Snapshot();
        if LastTime(s, i) then
          && fired == Calls(s.slots[i].callback)
          && Over(s, t, i, s.records[i].(sends := s.records[i].sends + [clock]), fired)
        else
          && fired == [] && used[i] && open == old(open) && ended == old(ended)
          && if Due(s, i) then Resent(s, t, i) else t == s
    {
      hide Ended, Unsent, Waiting;
      fired := [];
      WaitingCounts(second, slots[i], records[i]);
      if slots[i].due <= clock {
        DueIsReady(second, slots[i], records[i]);
        slots := slots[i := slots[i].(counter := slots[i].counter + 1)];
        var callback := SendTransaction(i, random);
        fired := Calls(callback);
      }
    }

    /** Sends the messages again whose interval is over. The walk over the list ends at a transaction
        that is given up, as it is then the element of no list. */
    method CheckTransactions(randoms: seq<nat>) returns (fired: seq<nat>)
      requires Valid() && AllSent() && |randoms| >= |open|
      modifies this`slots, this`used, this`open, this`records, this`ended
      ensures Valid() && AllSent()
      ensures Checked(old(Snapshot()), Snapshot(), fired)
    {
      hide Ended, Unsent, Waiting, Same, Due, Resent, LastTime, Looked, NotLooked, Over;
      ghost var was := Snapshot();
      fired := [];
      LookNothing(was);
      var k := 0;
      while k < |open|
        invariant k <= |open| && open == old(open) && ended == old(ended) && fired == []
        invariant Valid() && AllSent() && IsState(was) && IsState(Snapshot())
        invariant Looked(was, Snapshot(), k) && NotLooked(was, Snapshot(), k) && GivenUp(was, 0) == GivenUp(was, k)
      {
        var i := open[k];
        ghost var s := Snapshot();
        assert i in open;
        fired := LookAt(i, randoms[k]);
        LookOn(was, s, Snapshot(), k);
        SameIsAsDue(was, s, Snapshot(), i, fired);
        if !used[i] {
          return;
        }
        k := k + 1;
      }
    }
  }

  lemma LookNothing(s: State)
    requires IsState(s)
    ensures Looked(s, s, 0) && NotLooked(s, s, 0)
  {
  }

  /** Looking at a slot to which nothing has happened before. */
  lemma SameIsAsDue(s: State, t: State, u: State, i: nat, fired: seq<nat>)
    requires IsState(s) && IsState(t) && IsState(u) && i < MAX_OPEN_TRANSACTIONS && Same(s, t, i) && t.used[i]
    requires s.clock == t.clock && s.open == t.open && s.ended == t.ended
    ensures LastTime(s, i) == LastTime(t, i) && Due(s, i) == Due(t, i)
    ensures Resent(t, u, i) ==> Resent(s, u, i)
    ensures t == u ==> Same(s, u, i)
    ensures var r := s.records[i].(sends := s.records[i].sends + [s.clock]);
      t.records[i].(sends := t.records[i].sends + [t.clock]) == r && (Over(t, u, i, r, fired) ==> Over(s, u, i, r, fired))
    ensures forall r | Over(s, u, i, r, fired) :: !u.used[i]
    ensures t.slots[i] == s.slots[i]
  {
  }

  lemma WaitingCounts(second: nat, s: Slot, r: Record)
    requires Waiting(second, s, r)
    ensures s.counter + 1 <= MAX_RETRANSMIT && s.confirmable && s.interval == r.intervals[s.counter]
  {
  }

  // ----- Runs

  /** What can happen: a message is sent in a new transaction, with a callback unless that is 0, if a
      slot is free; an answer comes; time passes; the timers are looked at. */
  datatype Step =
    | Transmit(mid: nat, callback: nat, confirmable: bool, random: nat)
    | Answer(mid: nat)
    | Wait(ticks: nat)
    | Check

  /** The callbacks that some transactions have called. */
  function AllFired(rs: seq<Record>): seq<nat> {
    if rs == [] then [] else AllFired(rs[..|rs| - 1]) + rs[|rs| - 1].fired
  }

  lemma OneMoreEnded(ended: seq<Record>, r: Record, before: nat)
    requires before <= |ended|
    ensures AllFired((ended + [r])[before..]) == AllFired(ended[before..]) + r.fired
  {
    assert (ended + [r])[before..][..|ended| - before] == ended[before..];
  }

  /** Takes a slot for a message and puts its callback and the message into it. */
  method Prepare(pool: Pool, mid: nat, callback: nat, confirmable: bool) returns (i: int)
    requires pool.Valid()
    modifies pool`slots, pool`used, pool`open, pool`records
    ensures pool.Valid()
    ensures i < 0 ==> Free(old(pool.used)) == MAX_OPEN_TRANSACTIONS && pool.Snapshot() == old(pool.Snapshot())
    ensures i >= 0 ==>
      && i == Free(old(pool.used)) < MAX_OPEN_TRANSACTIONS && pool.used == old(pool.used)[i := true]
      && pool.open == old(pool.open) + [i] && i !in old(pool.open)
    ensures i >= 0 ==>
      var c := if callback != 0 then callback else old(pool.slots)[i].callback;
      && pool.slots == old(pool.slots)[i := Slot(mid, 0, confirmable, c, pool.slots[i].interval, pool.slots[i].due)]
      && pool.records == old(pool.records)[i := Record(mid, confirmable, c, [], [], [])]
      && Unsent(pool.slots[i], pool.records[i])
  {
    hide Waiting, Ended, Free, Without;
    i := pool.NewTransaction(mid);
    if i < 0 {
      return;
    }
    if callback != 0 {
      pool.SetCallback(i, callback);
    }
    pool.Pack(i, confirmable);
    UnsentRecord(pool.slots[i], pool.records[i]);
  }

  /** Sends a message in a new transaction, which is over at once unless an answer is needed. */
  method TransmitIn(pool: Pool, mid: nat, callback: nat, confirmable: bool, random: nat)
    requires pool.Valid() && pool.AllSent()
    modifies pool
    ensures pool.Valid() && pool.AllSent()
    ensures Transmitted(old(pool.Snapshot()), pool.Snapshot(), mid, callback, confirmable)
  {
    hide Waiting, Ended, Free, Without, Interval, Unsent;
    ghost var was := pool.Snapshot();
    var i := Prepare(pool, mid, callback, confirmable);
    if i < 0 {
      return;
    }
    WithoutLast(was.open, i);
    FirstInterval(pool.second, pool.slots[i], random);
    assert [] + [pool.clock] == [pool.clock];
    var none := pool.SendTransaction(i, random);
    assert forall k | 0 <= k < MAX_OPEN_TRANSACTIONS && k != i :: Same(was, pool.Snapshot(), k);
  }

  lemma UnsentRecord(s: Slot, r: Record)
    requires Unsent(s, r)
    ensures r == Record(s.mid, s.confirmable, s.callback, [], [], []) && s.counter == 0
  {
  }

  lemma FirstInterval(second: nat, s: Slot, random: nat)
    requires s.counter == 0
    ensures 2 * second <= Interval(second, s, random) <= 3 * second
  {
  }

  lemma WithoutLast(list: seq<nat>, i: nat)
    requires i !in list
    ensures Without(list + [i], i) == list
  {
    if list != [] {
      assert (list + [i])[1..] == list[1..] + [i];
      WithoutLast(list[1..], i);
    } else {
      assert (list + [i])[1..] == [];
    }
  }

  /** A transaction has kept to its schedule: it was sent at most five times, never early, and the last
      time within 45 scheduled seconds; the callback of a confirmable one was called exactly once. */
  ghost predicate KeptSchedule(second: nat, r: Record) {
    && |r.sends| <= MAX_RETRANSMIT + 1 && Sum(r.intervals) <= 45 * second
    && (forall k | 0 <= k < |r.sends| && k <= |r.intervals| :: r.sends[0] + Sum(r.intervals[..k]) <= r.sends[k])
    && (if r.confirmable then r.fired == Calls(r.callback) else |r.fired| <= 1)
  }

  lemma EndedKeptSchedule(second: nat, r: Record)
    requires Ended(second, r)
    ensures KeptSchedule(second, r)
  {
    LastSend(second, r);
    forall k | 0 <= k < |r.sends| && k <= |r.intervals|
      ensures r.sends[0] + Sum(r.intervals[..k]) <= r.sends[k]
    {
      NotEarly(r, k);
    }
  }

  /** What one step does to the pool, and the callbacks it calls. */
  ghost predicate Stepped(s: State, step: Step, t: State, fired: seq<nat>) {
    && IsState(s) && IsState(t)
    && match step
       case Transmit(mid, callback, confirmable, _) => Transmitted(s, t, mid, callback, confirmable) && fired == []
       case Answer(mid) => Answered(s, t, mid, fired)
       case Wait(ticks) => t == s.(clock := s.clock + ticks) && fired == []
       case Check => Checked(s, t, fired)
  }

  /** A step ends at most one transaction, and a step that sends a message starts one if a slot is free. */
  lemma StepCounts(s: State, step: Step, t: State, fired: seq<nat>)
    requires Stepped(s, step, t, fired)
    ensures s.ended <= t.ended && |t.ended| <= |s.ended| + 1
    ensures |t.open| + |t.ended| == |s.open| + |s.ended| + (if Starts(s, step) then 1 else 0)
    ensures if |t.ended| > |s.ended| then fired == t.ended[|s.ended|].fired else fired == []
  {
    hide Looked, NotLooked, Same, LastTime, Due;
  }

  predicate Starts(s: State, step: Step) { step.Transmit? && false in s.used }

  /** A step leaves an open transaction its callback, or ends it and calls that. */
  lemma StepKeepsCallback(s: State, step: Step, t: State, fired: seq<nat>, i: nat)
    requires Stepped(s, step, t, fired) && i < MAX_OPEN_TRANSACTIONS && s.used[i]
    ensures t.used[i] ==>
      && t.slots[i].callback == s.slots[i].callback && t.records[i].callback == s.records[i].callback
      && t.records[i].mid == s.records[i].mid && s.records[i].sends <= t.records[i].sends
    ensures !t.used[i] ==>
      && fired == Calls(s.slots[i].callback) && |t.ended| == |s.ended| + 1
      && var r := t.ended[|s.ended|];
      && r.callback == s.records[i].callback && r.mid == s.records[i].mid && r.fired == fired
      && s.records[i].sends <= r.sends
  {
    match step {
      case Transmit(_, _, _, _) =>
        assert i != Free(s.used) && Same(s, t, i);
      case Answer(_) =>
      case Wait(_) =>
      case Check =>
        CheckedSlot(s, t, fired, i);
    }
  }

  /** What a pass over the timers does to an open transaction. */
  lemma CheckedSlot(s: State, t: State, fired: seq<nat>, i: nat)
    requires Checked(s, t, fired) && i < MAX_OPEN_TRANSACTIONS && s.used[i]
    ensures t.used[i] ==> Same(s, t, i) || Resent(s, t, i)
    ensures !t.used[i] ==>
      && LastTime(s, i) && fired == Calls(s.slots[i].callback)
      && Over(s, t, i, s.records[i].(sends := s.records[i].sends + [s.clock]), fired)
  {
    hide Same, Resent, LastTime, Due;
    assert i in s.open;
    var j :| 0 <= j < |s.open| && s.open[j] == i;
    var n := GivenUp(s, 0);
    if j < n {
      assert if Due(s, s.open[j]) then Resent(s, t, s.open[j]) else Same(s, t, s.open[j]);
      StillUsed(s, t, i);
    } else if j > n || n == |s.open| {
      assert Same(s, t, s.open[j]);
      StillUsed(s, t, i);
    }
  }

  lemma StillUsed(s: State, t: State, i: nat)
    requires IsState(s) && IsState(t) && i < MAX_OPEN_TRANSACTIONS && s.used[i]
    ensures Same(s, t, i) || Resent(s, t, i) ==> t.used[i]
  {
  }

  // ----- Traces

  /** The states of a run, one more than there are steps. */
  ghost predicate IsTrace(trace: seq<State>, steps: seq<Step>, calls: seq<seq<nat>>) {
    && |trace| == |steps| + 1 && |calls| == |steps|
    && forall k | 0 <= k < |steps| :: Stepped(trace[k], steps[k], trace[k + 1], calls[k])
  }

  ghost function StartsIn(trace: seq<State>, steps: seq<Step>, n: nat): nat
    requires n <= |steps| < |trace|
  {
    if n == 0 then 0 else StartsIn(trace, steps, n - 1) + if Starts(trace[n - 1], steps[n - 1]) then 1 else 0
  }

  function Concat(calls: seq<seq<nat>>): seq<nat> {
    if calls == [] then [] else Concat(calls[..|calls| - 1]) + calls[|calls| - 1]
  }

  /** Every transaction that was started is open or has ended, and the callbacks that were called are
      those of the ones that have ended, in order. */
  lemma {:induction false} TraceCounts(trace: seq<State>, steps: seq<Step>, calls: seq<seq<nat>>, n: nat)
    requires IsTrace(trace, steps, calls) && n <= |steps|
    ensures trace[0].ended <= trace[n].ended
    ensures |trace[n].open| + |trace[n].ended| == |trace[0].open| + |trace[0].ended| + StartsIn(trace, steps, n)
    ensures Concat(calls[..n]) == AllFired(trace[n].ended[|trace[0].ended|..])
  {
    hide Stepped, AllFired;
    if n == 0 {
      NoneEnded();
      assert trace[0].ended[|trace[0].ended|..] == [];
    } else {
      TraceCounts(trace, steps, calls, n - 1);
      var s, t := trace[n - 1], trace[n];
      assert Stepped(s, steps[n - 1], t, calls[n - 1]);
      StepCounts(s, steps[n - 1], t, calls[n - 1]);
      assert calls[..n][..n - 1] == calls[..n - 1];
      if |t.ended| > |s.ended| {
        OneMoreEnded(s.ended, t.ended[|s.ended|], |trace[0].ended|);
        assert t.ended == s.ended + [t.ended[|s.ended|]];
      } else {
        assert t.ended == s.ended;
      }
    }
  }

  /** Step `k` sends a confirmable message in slot `i`. */
  ghost predicate Begins(trace: seq<State>, steps: seq<Step>, k: nat, i: nat) {
    && k < |steps| && |steps| < |trace| && IsState(trace[k])
    && steps[k].Transmit? && steps[k].confirmable && i == Free(trace[k].used) < MAX_OPEN_TRANSACTIONS
  }

  /** The transaction in slot `i` stays open behind step `k` and up to state `m`. */
  ghost predicate StaysOpen(trace: seq<State>, k: nat, m: nat, i: nat) {
    && k < m < |trace| && i < MAX_OPEN_TRANSACTIONS
    && forall j | k < j <= m :: IsState(trace[j]) && trace[j].used[i]
  }

  /** The callback of a message: its own, or what the slot has. */
  ghost function CallbackOf(trace: seq<State>, steps: seq<Step>, k: nat, i: nat): nat
    requires Begins(trace, steps, k, i)
  {
    if steps[k].callback != 0 then steps[k].callback else trace[k].slots[i].callback
  }

  /** An open transaction has its message id, its callback and the time of its first send. */
  ghost predicate Carries(s: State, i: nat, mid: nat, callback: nat, clock: nat) {
    && IsState(s) && i < MAX_OPEN_TRANSACTIONS
    && s.slots[i].callback == callback && s.records[i].callback == callback && s.records[i].mid == mid
    && s.records[i].sends != [] && s.records[i].sends[0] == clock
  }

  lemma {:induction false} CarriesOn(trace: seq<State>, steps: seq<Step>, calls: seq<seq<nat>>, k: nat, m: nat, i: nat)
    requires IsTrace(trace, steps, calls) && Begins(trace, steps, k, i) && StaysOpen(trace, k, m, i)
    ensures Carries(trace[m], i, steps[k].mid, CallbackOf(trace, steps, k, i), trace[k].clock)
    decreases m
  {
    hide Checked, Answered;
    assert Stepped(trace[k], steps[k], trace[k + 1], calls[k]);
    if m > k + 1 {
      CarriesOn(trace, steps, calls, k, m - 1, i);
      assert Stepped(trace[m - 1], steps[m - 1], trace[m], calls[m - 1]);
      StepKeepsCallback(trace[m - 1], steps[m - 1], trace[m], calls[m - 1], i);
    }
  }

  /** The callback that a confirmable message was sent with is the one that is called when its
      transaction ends, at step `m`, and that step calls no other. */
  lemma OwnCallback(trace: seq<State>, steps: seq<Step>, calls: seq<seq<nat>>, k: nat, m: nat, i: nat)
    requires IsTrace(trace, steps, calls) && Begins(trace, steps, k, i) && StaysOpen(trace, k, m, i) && m < |steps|
    requires IsState(trace[m + 1]) && !trace[m + 1].used[i]
    ensures calls[m] == Calls(CallbackOf(trace, steps, k, i)) && |trace[m + 1].ended| == |trace[m].ended| + 1
    ensures var r := trace[m + 1].ended[|trace[m].ended|];
      && r.callback == CallbackOf(trace, steps, k, i) && r.fired == calls[m] && r.mid == steps[k].mid
      && r.sends != [] && r.sends[0] == trace[k].clock
  {
    hide Checked, Answered, Transmitted;
    CarriesOn(trace, steps, calls, k, m, i);
    assert Stepped(trace[m], steps[m], trace[m + 1], calls[m]);
    StepKeepsCallback(trace[m], steps[m], trace[m + 1], calls[m], i);
  }

  /** A callback belongs to a slot, not to a transaction: a confirmable message that was sent without one
      calls, when it ends, what was called for the last user of its slot, hence nothing if and only if
      that slot had none. */
  lemma StaleCallback(trace: seq<State>, steps: seq<Step>, calls: seq<seq<nat>>, k: nat, m: nat, i: nat)
    requires IsTrace(trace, steps, calls) && Begins(trace, steps, k, i) && StaysOpen(trace, k, m, i) && m < |steps|
    requires IsState(trace[m + 1]) && !trace[m + 1].used[i] && steps[k].callback == 0
    ensures calls[m] == Calls(trace[k].slots[i].callback) && (calls[m] == [] <==> trace[k].slots[i].callback == 0)
  {
    hide IsTrace, StaysOpen;
    OwnCallback(trace, steps, calls, k, m, i);
  }

  /** In every pool with a free slot: a message that is sent without a callback and answered calls what
      is in the slot. */
  method StaleExchange(pool: Pool, mid: nat, random: nat) returns (fired: seq<nat>)
    requires pool.Valid() && pool.AllSent() && false in pool.used
    requires forall k | k in pool.open :: pool.slots[k].mid != mid
    modifies pool
    ensures pool.Valid() && pool.AllSent() && Free(old(pool.used)) < MAX_OPEN_TRANSACTIONS
    ensures fired == Calls(old(pool.slots)[Free(old(pool.used))].callback)
  {
    hide Waiting, Unsent, Ended;
    ghost var s := pool.Snapshot();
    TransmitIn(pool, mid, 0, true, random);
    ghost var t := pool.Snapshot();
    LastWithId(s, t, mid);
    var callback := pool.Reply(mid);
    fired := Calls(callback);
  }

  lemma LastWithId(s: State, t: State, mid: nat)
    requires Transmitted(s, t, mid, 0, true) && false in s.used && forall k | k in s.open :: s.slots[k].mid != mid
    ensures Free(s.used) < MAX_OPEN_TRANSACTIONS && WithId(t, mid, 0) == |s.open| < |t.open|
    ensures t.open[|s.open|] == Free(s.used)
  {
    assert t.open[|s.open|] == Free(s.used) && t.open[|s.open|] in t.open;
    forall j | 0 <= j < |s.open|
      ensures t.open[j] in t.open && t.slots[t.open[j]].mid != mid
    {
      assert t.open[j] == s.open[j] && s.open[j] in s.open && Same(s, t, s.open[j]);
    }
  }

  /** Takes one step. */
  method TakeStep(pool: Pool, step: Step) returns (fired: seq<nat>)
    requires pool.Valid() && pool.AllSent()
    modifies pool
    ensures pool.Valid() && pool.AllSent() && Stepped(old(pool.Snapshot()), step, pool.Snapshot(), fired)
  {
    hide Waiting, Unsent, Ended, Transmitted, Answered, Checked;
    fired := [];
    match step {
      case Transmit(mid, callback, confirmable, random) =>
        TransmitIn(pool, mid, callback, confirmable, random);
      case Answer(mid) =>
        var callback := pool.Reply(mid);
        fired := Calls(callback);
      case Wait(ticks) =>
        pool.Tick(ticks);
      case Check =>
        fired := pool.CheckTransactions(seq(|pool.open|, _ => 0));
    }
  }

  /** One step after another. Each does what it should; every transaction that was started is open or has
      ended, the ones that have ended kept to their schedule, and the callbacks that were called are
      theirs, in order. */
  method Run(pool: Pool, steps: seq<Step>)
    returns (callbacks: seq<nat>, ghost trace: seq<State>, ghost calls: seq<seq<nat>>)
    requires pool.Valid() && pool.AllSent()
    modifies pool
    ensures pool.Valid() && pool.AllSent()
    ensures IsTrace(trace, steps, calls) && trace[0] == old(pool.Snapshot()) && trace[|steps|] == pool.Snapshot()
    ensures callbacks == Concat(calls)
    ensures old(pool.ended) <= pool.ended && forall r | r in pool.ended :: KeptSchedule(pool.second, r)
    ensures |pool.open| + |pool.ended| == |old(pool.open)| + |old(pool.ended)| + StartsIn(trace, steps, |steps|)
    ensures callbacks == AllFired(pool.ended[|old(pool.ended)|..])
  {
    hide Waiting, Unsent, Ended, AllFired, KeptSchedule, Stepped;
    callbacks, trace, calls := [], [pool.Snapshot()], [];
    for k := 0 to |steps|
      invariant pool.Valid() && pool.AllSent()
      invariant IsTrace(trace, steps[..k], calls) && trace[0] == old(pool.Snapshot()) && trace[k] == pool.Snapshot()
      invariant callbacks == Concat(calls)
    {
      var fired := TakeStep(pool, steps[k]);
      assert (calls + [fired])[..k] == calls;
      trace, calls := trace + [pool.Snapshot()], calls + [fired];
      callbacks := callbacks + fired;
    }
    assert steps[..|steps|] == steps && calls[..|steps|] == calls;
    TraceCounts(trace, steps, calls, |steps|);
    forall r | r in pool.ended
      ensures KeptSchedule(pool.second, r)
    {
      EndedKeptSchedule(pool.second, r);
    }
  }

  lemma NoneEnded()
    ensures AllFired([]) == []
  {
  }

  lemma AnsweredEnds(second: nat, s: Slot, r: Record)
    requires Settled(second, true, s, r)
    ensures Ended(second, r.(fired := Calls(s.callback)))
  {
  }

  lemma DueIsReady(second: nat, s: Slot, r: Record)
    requires Waiting(second, s, r)
    ensures Waiting(second, s.(counter := s.counter + 1).(counter := s.counter), r)
    ensures s.confirmable && |r.sends| == s.counter + 1 <= MAX_RETRANSMIT
  {
    assert s.(counter := s.counter + 1).(counter := s.counter) == s;
  }

  lemma SentOnce(second: nat, s: Slot, r: Record, clock: nat, random: nat)
    requires if s.counter == 0 then Unsent(s, r)
             else Waiting(second, s.(counter := s.counter - 1), r) && s.due <= clock
    ensures var sent := r.(sends := r.sends + [clock]);
      var interval := Interval(second, s, random);
      && (s.confirmable && s.counter < MAX_RETRANSMIT ==>
            Waiting(second, s.(interval := interval, due := clock + interval), sent.(intervals := r.intervals + [interval])))
      && (!s.confirmable || s.counter >= MAX_RETRANSMIT ==>
            Ended(second, sent.(fired := if s.confirmable then Calls(s.callback) else [])))
  {
  }
}
