/** The queue that stores range texts in the background (internal/caches/partial_ranges_queue.go): concurrent Puts, each
    a store into the map and then a send on the channel, and one Dump loop that receives, takes and writes. */
module RangesQueue {
  import opened Wrappers

  type Data = string

  datatype DumpPhase = Idle | Received(name: string) | Took(name: string, data: Data)

  datatype State = State(
    m: map<string, Data>,        // waiting data
    sending: multiset<string>,   // Puts between store and send
    c: seq<string>,              // the channel
    dump: DumpPhase,
    files: map<string, Data>,
    last: map<string, Data>      // history: the data of the last Put for each name
  )

  const INITIAL := State(map[], multiset{}, [], Idle, map[], map[])

  datatype Action = PutStore(name: string, data: Data) | PutSend(name: string) | DumpReceive | DumpTake | DumpWrite

  predicate Enabled(s: State, a: Action, capacity: nat)
  {
    match a
    case PutStore(_, _) => true
    case PutSend(name) => name in s.sending && |s.c| < capacity
    case DumpReceive => s.dump.Idle? && s.c != []
    case DumpTake => s.dump.Received?
    case DumpWrite => s.dump.Took?
  }

  function Step(s: State, a: Action, capacity: nat): State
    requires Enabled(s, a, capacity)
  {
    match a
    case PutStore(name, data) =>
      s.(m := s.m[name := data], sending := s.sending + multiset{name}, last := s.last[name := data])
    case PutSend(name) =>
      s.(sending := s.sending - multiset{name}, c := s.c + [name])
    case DumpReceive =>
      s.(dump := Received(s.c[0]), c := s.c[1..])
    case DumpTake =>
      var name := s.dump.name;
      if name !in s.m then s.(dump := Idle)
      else s.(m := s.m - {name}, dump := if |s.m[name]| == 0 then Idle else Took(name, s.m[name]))
    case DumpWrite =>
      s.(files := s.files[s.dump.name := s.dump.data], dump := Idle)
  }

  // ---------- safety over every run ----------

  ghost predicate Notified(s: State, name: string)
  {
    name in s.sending || name in s.c || s.dump == Received(name)
  }

  /** The last Put of a name is in the map, or with the Dump loop, or in the file. */
  ghost predicate LastIsSafe(s: State, name: string)
    requires name in s.last
  {
    if name in s.m then s.m[name] == s.last[name]
    else if s.dump.Took? && s.dump.name == name then s.dump.data == s.last[name]
    else s.last[name] == "" || (name in s.files && s.files[name] == s.last[name])
  }

  ghost predicate Inv(s: State)
  {
    && (forall name :: name in s.m ==> Notified(s, name))
    && s.m.Keys <= s.last.Keys
    && (forall name :: name in s.last ==> LastIsSafe(s, name))
    && NoEmptyWrites(s)
  }

  /** Empty data is never taken to be written. */
  ghost predicate NoEmptyWrites(s: State)
  {
    && (s.dump.Took? ==> s.dump.data != "")
    && (forall name :: name in s.files ==> s.files[name] != "")
  }

  lemma StepKeepsInv(s: State, a: Action, capacity: nat)
    requires Inv(s) && Enabled(s, a, capacity)
    ensures Inv(Step(s, a, capacity))
  {
    var t := Step(s, a, capacity);
    forall name | name in t.m ensures Notified(t, name) {
      if name in s.m {
        assert Notified(s, name);
      }
      if a == DumpReceive {
        assert s.c == [s.c[0]] + s.c[1..];
      }
    }
    forall name | name in t.last ensures LastIsSafe(t, name) {
      if name in s.last {
        assert LastIsSafe(s, name);
      }
    }
  }

  ghost predicate IsRun(states: seq<State>, actions: seq<Action>, capacity: nat)
  {
    && |states| == |actions| + 1
    && states[0] == INITIAL
    && forall k :: 0 <= k < |actions| ==>
         Enabled(states[k], actions[k], capacity) && states[k + 1] == Step(states[k], actions[k], capacity)
  }

  /** The data of the last Put for a name among some actions. */
  function LastPut(actions: seq<Action>, name: string): Option<Data>
  {
    if actions == [] then None
    else
      var a := actions[|actions| - 1];
      if a.PutStore? && a.name == name then Some(a.data) else LastPut(actions[..|actions| - 1], name)
  }

  predicate Quiet(s: State)
  {
    s.sending == multiset{} && s.c == [] && s.dump.Idle?
  }

  /** The history is that of the Puts of the run. */
  lemma {:induction false} HistoryIsOfPuts(states: seq<State>, actions: seq<Action>, capacity: nat, name: string)
    requires IsRun(states, actions, capacity)
    ensures forall k :: 0 <= k < |states| ==>
      LastPut(actions[..k], name) == if name in states[k].last then Some(states[k].last[name]) else None
  {
    for k := 0 to |actions|
      invariant forall j :: 0 <= j <= k ==>
        LastPut(actions[..j], name) == if name in states[j].last then Some(states[j].last[name]) else None
    {
      assert actions[..k + 1][..k] == actions[..k];
      assert states[k + 1] == Step(states[k], actions[k], capacity);
    }
  }

  /** In every interleaving every waiting entry has a notification on its way, and in every quiet state nothing waits and
      a file holds its last Put exactly when that was not empty. */
  lemma {:induction false} EveryRunIsSafe(states: seq<State>, actions: seq<Action>, capacity: nat)
    requires IsRun(states, actions, capacity)
    ensures forall k :: 0 <= k < |states| ==> Inv(states[k])
    ensures forall k :: 0 <= k < |states| && Quiet(states[k]) ==>
              && states[k].m == map[]
              && forall name :: name in states[k].last ==>
                   (name in states[k].files && states[k].files[name] == states[k].last[name] <==> states[k].last[name] != "")
  {
    for k := 0 to |actions|
      invariant forall j :: 0 <= j <= k ==> Inv(states[j])
    {
      StepKeepsInv(states[k], actions[k], capacity);
    }
    forall k | 0 <= k < |states| && Quiet(states[k])
      ensures states[k].m == map[]
      ensures forall name :: name in states[k].last ==>
                (name in states[k].files && states[k].files[name] == states[k].last[name] <==> states[k].last[name] != "")
    {
      var s := states[k];
      forall name ensures name !in s.m {
        assert !Notified(s, name);
      }
      assert s.m == map[];
      forall name | name in s.last
        ensures name in s.files && s.files[name] == s.last[name] <==> s.last[name] != ""
      {
        assert LastIsSafe(s, name);
      }
    }
  }

  // ---------- what Get returns ----------

  function Get(s: State, name: string): Option<Data>
  {
    if name in s.m then Some(s.m[name]) else if name in s.files then Some(s.files[name]) else None
  }

  /** Between take and write the data of a name is neither in the map nor in the file. */
  ghost predicate InFlight(s: State, name: string)
  {
    && s.dump.Took? && s.dump.name == name && name !in s.m
    && !(name in s.files && s.files[name] == s.dump.data)
  }

  /** Get returns the last Put, except exactly while that Put is in flight, and when it was empty and has been taken. */
  lemma GetReturnsLastPut(s: State, name: string)
    requires Inv(s) && name in s.last
    ensures Get(s, name) == Some(s.last[name]) <==> if s.last[name] != "" then !InFlight(s, name) else name in s.m
  {
    assert LastIsSafe(s, name);
  }

  /** So whenever nothing is on its way, a file holds the data of its last Put exactly when that was not empty. */
  lemma {:induction false} FilesHoldLastPut(states: seq<State>, actions: seq<Action>, capacity: nat, k: nat, name: string)
    requires IsRun(states, actions, capacity) && k < |states| && Quiet(states[k])
    ensures LastPut(actions[..k], name).Some? ==>
      var data := LastPut(actions[..k], name).value;
      name in states[k].files && states[k].files[name] == data <==> data != ""
  {
    EveryRunIsSafe(states, actions, capacity);
    HistoryIsOfPuts(states, actions, capacity, name);
  }

  /** At every time Get returns the data of the last Put, unless that is between take and write, or was empty. */
  lemma {:induction false} GetFollowsPuts(states: seq<State>, actions: seq<Action>, capacity: nat, k: nat, name: string)
    requires IsRun(states, actions, capacity) && k < |states| && LastPut(actions[..k], name).Some?
    ensures var s, data := states[k], LastPut(actions[..k], name).value;
      Get(s, name) == Some(data) <==> if data != "" then !InFlight(s, name) else name in s.m
  {
    EveryRunIsSafe(states, actions, capacity);
    HistoryIsOfPuts(states, actions, capacity, name);
    GetReturnsLastPut(states[k], name);
  }

  /** A Put of empty data is dropped: it runs through the queue and every file keeps what it had. */
  lemma EmptyPutIsDropped(s: State, name: string, capacity: nat) returns (t: State)
    requires Quiet(s) && capacity > 0
    ensures Quiet(t) && t.last == s.last[name := ""] && t.files == s.files && name !in t.m
  {
    var s1 := Step(s, PutStore(name, ""), capacity);
    var s2 := Step(s1, PutSend(name), capacity);
    assert s2.c == [name] && s2.sending == multiset{};
    var s3 := Step(s2, DumpReceive, capacity);
    t := Step(s3, DumpTake, capacity);
  }

  // ---------- the queue drains ----------

  function Work(s: State): nat
  {
    4 * |s.sending| + 3 * |s.c| + match s.dump case Idle => 0 case Received(_) => 2 case Took(_, _) => 1
  }

  /** Every step other than a new Put brings the queue closer to quiet. */
  lemma StepsReduceWork(s: State, a: Action, capacity: nat)
    requires Enabled(s, a, capacity) && !a.PutStore?
    ensures Work(Step(s, a, capacity)) < Work(s)
  {
    if a.PutSend? {
      assert s.sending == (s.sending - multiset{a.name}) + multiset{a.name};
    }
  }

  /** And some such step is possible until then: no deadlock, even when the channel is full. */
  lemma NeverStuck(s: State, capacity: nat) returns (a: Action)
    requires !Quiet(s) && capacity > 0
    ensures !a.PutStore? && Enabled(s, a, capacity)
  {
    match s.dump
    case Received(_) => a := DumpTake;
    case Took(_, _) => a := DumpWrite;
    case Idle =>
      if s.c != [] {
        a := DumpReceive;
      } else {
        var name :| name in s.sending;
        a := PutSend(name);
      }
  }

  // ---------- the queue itself ----------

  class PartialRangesQueue {
    var m: map<string, Data>
    var c: seq<string>
    const capacity: nat

    // the goroutines and the disk
    var sending: multiset<string>
    var dump: DumpPhase
    var files: map<string, Data>
    ghost var last: map<string, Data>

    ghost function Abstract(): State
      reads this
    {
      State(m, sending, c, dump, files, last)
    }

    constructor (capacity: nat)
      ensures Abstract() == INITIAL && this.capacity == capacity
    {
      this.capacity := capacity;
      m, c, sending, dump, files, last := map[], [], multiset{}, Idle, map[], map[];
    }

    /** First half of Put, under the lock. */
    method StorePut(name: string, data: Data)
      modifies this
      ensures Abstract() == Step(old(Abstract()), PutStore(name, data), capacity)
    {
      m := m[name := data];
      sending := sending + multiset{name};
      last := last[name := data];
    }

    /** Second half of Put; blocks while the channel is full. */
    method SendPut(name: string)
      requires Enabled(Abstract(), PutSend(name), capacity)
      modifies this
      ensures Abstract() == Step(old(Abstract()), PutSend(name), capacity)
    {
      c := c + [name];
      sending := sending - multiset{name};
    }

    method GetData(name: string) returns (data: Option<Data>)
      ensures data == Get(Abstract(), name)
      ensures Inv(Abstract()) && name in last ==>
        (data == Some(last[name]) <==> if last[name] != "" then !InFlight(Abstract(), name) else name in m)
    {
      if Inv(Abstract()) && name in last {
        GetReturnsLastPut(Abstract(), name);
      }
      data := if name in m then Some(m[name]) else if name in files then Some(files[name]) else None;
    }

    method Receive()
      requires Enabled(Abstract(), DumpReceive, capacity)
      modifies this
      ensures Abstract() == Step(old(Abstract()), DumpReceive, capacity)
    {
      dump := Received(c[0]);
      c := c[1..];
    }

    method Take()
      requires Enabled(Abstract(), DumpTake, capacity)
      modifies this
      ensures Abstract() == Step(old(Abstract()), DumpTake, capacity)
    {
      var name := dump.name;
      dump := Idle;
      if name in m {
        var data := m[name];
        m := m - {name};
        if |data| > 0 {
          dump := Took(name, data);
        }
      }
    }

    method WriteFile()
      requires Enabled(Abstract(), DumpWrite, capacity)
      modifies this
      ensures Abstract() == Step(old(Abstract()), DumpWrite, capacity)
    {
      files := files[dump.name := dump.data];
      dump := Idle;
    }
  }
}
