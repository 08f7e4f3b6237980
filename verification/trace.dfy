/** The action vocabulary of a worker's trace and `execute`, which replays a
    trace against one record, in order, discarding what it reads. */
module Trace {
  import opened Text
  import opened Record

  datatype Op = Read | Write | Str

  /** `struct Action`: an operation with its field and value. The source's
      member defaults are `field = -1` and `value = 0`; a parsed READ keeps
      the default value and a parsed STR keeps both defaults. */
  datatype Action = Action(op: Op, field: int32, value: int32)

  /** The effect of one action on the record: only WRITE changes it. */
  function Step(s: Slots, a: Action): Slots {
    match a.op
    case Read => s
    case Write => Store(s, a.field, a.value)
    case Str => s
  }

  /** The record after applying `actions` one after the other, first to last. */
  function Replay(s: Slots, actions: seq<Action>): Slots
    decreases |actions|
  {
    if actions == [] then s else Replay(Step(s, actions[0]), actions[1..])
  }

  /** The WRITE actions of a trace, in their original order. */
  function Writes(actions: seq<Action>): (w: seq<Action>)
    ensures |w| <= |actions|
    ensures forall i :: 0 <= i < |w| ==> w[i].op == Write
  {
    if actions == [] then []
    else (if actions[0].op == Write then [actions[0]] else []) + Writes(actions[1..])
  }

  /** The value of slot `field` after a trace: the value of the last WRITE to
      `field`, or `initial` when the trace never writes it. */
  function LastWrite(actions: seq<Action>, field: int, initial: int32): int32
    decreases |actions|
  {
    if actions == [] then initial
    else
      var a := actions[|actions| - 1];
      if a.op == Write && a.field == field then a.value
      else LastWrite(actions[..|actions| - 1], field, initial)
  }

  /** Replaying two traces back to back is replaying their concatenation:
      actions take effect strictly in trace order. */
  lemma {:induction false} ReplayAppend(s: Slots, first: seq<Action>, second: seq<Action>)
    ensures Replay(s, first + second) == Replay(Replay(s, first), second)
    decreases |first|
  {
    if first == [] {
      assert first + second == second;
    } else {
      assert (first + second)[1..] == first[1..] + second;
      ReplayAppend(Step(s, first[0]), first[1..], second);
    }
  }

  /** READ and STR actions have no effect: the record after a trace is the
      record after its WRITE actions alone. */
  lemma {:induction false} ReplayWrites(s: Slots, actions: seq<Action>)
    ensures Replay(s, actions) == Replay(s, Writes(actions))
    decreases |actions|
  {
    if actions != [] {
      var a := actions[0];
      var w := Writes(actions[1..]);
      ReplayWrites(Step(s, a), actions[1..]);
      if a.op == Write {
        assert ([a] + w)[1..] == w;
      } else {
        assert [] + w == w;
      }
    }
  }

  /** A trace without WRITE actions leaves the record as it was; in
      particular so does the empty trace. */
  lemma {:induction false} ReplayWithoutWrites(s: Slots, actions: seq<Action>)
    requires forall i :: 0 <= i < |actions| ==> actions[i].op != Write
    ensures Replay(s, actions) == s
    decreases |actions|
  {
    if actions != [] {
      ReplayWithoutWrites(Step(s, actions[0]), actions[1..]);
    }
  }

  /** Each in-range slot ends with the value of the last WRITE to it. */
  lemma {:induction false} ReplayLastWrite(s: Slots, actions: seq<Action>, field: int)
    requires InRange(field)
    ensures Load(Replay(s, actions), field) == LastWrite(actions, field, s[field])
    decreases |actions|
  {
    if actions != [] {
      var init := actions[..|actions| - 1];
      var a := actions[|actions| - 1];
      assert actions == init + [a];
      ReplayAppend(s, init, [a]);
      ReplayLastWrite(s, init, field);
      LoadStore(Replay(s, init), a.field, a.value, field);
    }
  }

  /** `execute(actions, s)`: apply every action to the record in order. */
  method Execute(actions: seq<Action>, s: SafeStruct)
    requires s.Valid()
    modifies s.data
    ensures s.Valid()
    ensures s.Value() == Replay(old(s.Value()), actions)
  {
    ghost var start := s.Value();
    for k := 0 to |actions|
      invariant s.Valid()
      invariant s.Value() == Replay(start, actions[..k])
    {
      var a := actions[k];
      if a.op == Read {
        var observed := s.Get(a.field);
      } else if a.op == Write {
        s.Set(a.field, a.value);
      } else {
        var observed := s.ToString();
      }
      assert actions[..k + 1] == actions[..k] + [a];
      ReplayAppend(start, actions[..k], [a]);
    }
    assert actions[..|actions|] == actions;
  }

  /** A single worker running WRITE 0 7 then READ 0 on a fresh record leaves
      7 in slot 0. */
  method WriteThenRead() returns (v: int32)
    ensures v == 7
  {
    var s := new SafeStruct();
    Execute([Action(Write, 0, 7), Action(Read, 0, 0)], s);
    v := s.Get(0);
  }
}
