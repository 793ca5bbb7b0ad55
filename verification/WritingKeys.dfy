/** Which keys are being written in the memory cache: openWriter takes a key's slot, and each writer gives it back once, in
    whatever order and however often Close and Discard are called (internal/caches/storage_memory.go, writer_memory.go). */
module WritingKeys {

  datatype Writer = Writer(key: string, released: bool)

  datatype State = State(writing: set<string>, writers: map<nat, Writer>)

  const INITIAL := State({}, map[])

  /** Opening may be refused after the slot was taken; ending is the once-guarded last step of Close and of Discard. */
  datatype Action = Open(key: string, id: nat, refused: bool) | End(id: nat)

  predicate Enabled(s: State, a: Action)
  {
    match a
    case Open(_, id, _) => id !in s.writers
    case End(id) => id in s.writers
  }

  function Step(s: State, a: Action): State
    requires Enabled(s, a)
  {
    match a
    case Open(key, id, refused) =>
      if key in s.writing || refused then s
      else State(s.writing + {key}, s.writers[id := Writer(key, false)])
    case End(id) =>
      var w := s.writers[id];
      if w.released then s else State(s.writing - {w.key}, s.writers[id := w.(released := true)])
  }

  predicate Active(s: State, id: nat) { id in s.writers && !s.writers[id].released }

  ghost predicate Inv(s: State)
  {
    && (forall key :: key in s.writing <==> exists id :: Active(s, id) && s.writers[id].key == key)
    && (forall id, other :: Active(s, id) && Active(s, other) && s.writers[id].key == s.writers[other].key ==> id == other)
  }

  lemma StepKeepsInv(s: State, a: Action)
    requires Inv(s) && Enabled(s, a)
    ensures Inv(Step(s, a))
  {
    var t := Step(s, a);
    forall key ensures key in t.writing <==> exists id :: Active(t, id) && t.writers[id].key == key {
      if key in s.writing {
        var id :| Active(s, id) && s.writers[id].key == key;
        assert t.writers[id].released || Active(t, id);
      }
      if a.Open? && key == a.key && key in t.writing && key !in s.writing {
        assert Active(t, a.id);
      }
      if id :| Active(t, id) && t.writers[id].key == key {
        assert Active(s, id) || (a.Open? && a.id == id);
      }
    }
    forall id, other | Active(t, id) && Active(t, other) && t.writers[id].key == t.writers[other].key
      ensures id == other
    {
      assert Active(s, id) || (a.Open? && a.id == id);
      assert Active(s, other) || (a.Open? && a.id == other);
    }
  }

  ghost predicate IsRun(states: seq<State>, actions: seq<Action>)
  {
    && |states| == |actions| + 1
    && states[0] == INITIAL
    && forall k :: 0 <= k < |actions| ==> Enabled(states[k], actions[k]) && states[k + 1] == Step(states[k], actions[k])
  }

  /** In every run the slots are exactly those of the writers that have not ended, at most one for each key. */
  lemma {:induction false} EveryRunIsSafe(states: seq<State>, actions: seq<Action>)
    requires IsRun(states, actions)
    ensures forall k :: 0 <= k < |states| ==> Inv(states[k])
  {
    for k := 0 to |actions|
      invariant forall j :: 0 <= j <= k ==> Inv(states[j])
    {
      StepKeepsInv(states[k], actions[k]);
    }
  }

  /** Ending a writer never takes the slot of another one, not even of a later one on the same key. */
  lemma EndFreesOwnSlotOnly(s: State, id: nat, other: nat)
    requires Inv(s) && Enabled(s, End(id)) && Active(s, other) && other != id
    ensures Active(Step(s, End(id)), other) && s.writers[other].key in Step(s, End(id)).writing
  {
  }

  /** A key can be opened exactly when all its writers have ended, unless the storage refuses. */
  lemma OpensWhenFree(s: State, key: string, id: nat)
    requires Inv(s) && id !in s.writers
    ensures Active(Step(s, Open(key, id, false)), id) <==>
            forall other :: Active(s, other) ==> s.writers[other].key != key
  {
  }

  /** Without the guard that lets a writer end only once, a late call would take the slot of a newer writer. */
  lemma OnceIsNeeded(s: State, late: nat, newer: nat)
    requires Inv(s) && late in s.writers && s.writers[late].released && Active(s, newer)
    requires s.writers[late].key == s.writers[newer].key
    ensures !Inv(State(s.writing - {s.writers[late].key}, s.writers))
  {
    var t := State(s.writing - {s.writers[late].key}, s.writers);
    assert Active(t, newer);
  }
}
