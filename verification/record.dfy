/** The shared record of the benchmark (`SafeStruct`): two `int` slots, each
    guarded by its own mutex in the C++ program. In this sequential model a
    lock acquisition and its release do nothing, so every operation is the
    plain read or write it protects. */
module Record {
  import opened Text

  /** Number of slots, `data.size()` in the source. */
  const Fields := 2

  /** The abstract value of a record: its two slots, slot 0 first. */
  type Slots = s: seq<int32> | |s| == Fields witness [0, 0]

  /** The value every slot holds when a record is constructed. */
  const Fresh: Slots := [0, 0]

  /** A field index `set` and `get` act on; every other index is ignored. */
  predicate InRange(field: int) {
    0 <= field < Fields
  }

  /** What `get(field)` returns on a record whose slots are `s`. */
  function Load(s: Slots, field: int): int32 {
    if InRange(field) then s[field] else 0
  }

  /** The slots after `set(field, value)` on a record whose slots are `s`. */
  function Store(s: Slots, field: int, value: int32): Slots {
    if InRange(field) then s[field := value] else s
  }

  /** The string conversion of a record: slot 0, one space, slot 1. */
  function Snapshot(s: Slots): string {
    Decimal(s[0]) + " " + Decimal(s[1])
  }

  /** A `get` after a `set` sees the stored value on that field and the old
      value on every other field; an ignored `set` changes no `get`. */
  lemma LoadStore(s: Slots, field: int, value: int32, other: int)
    ensures Load(Store(s, field, value), other)
         == if InRange(field) && other == field then value else Load(s, other)
  {
  }

  /** The snapshot string reads back as the two slot values: the first
      integer extraction gives slot 0 and leaves " " followed by slot 1, and
      the second gives slot 1 and leaves nothing. */
  lemma SnapshotReadsBack(s: Slots)
    ensures ReadInt(Snapshot(s)) == Some((s[0], " " + Decimal(s[1])))
    ensures ReadInt(" " + Decimal(s[1])) == Some((s[1], ""))
  {
    var tail := " " + Decimal(s[1]);
    assert tail[0] == ' ';
    ReadDecimal(s[0], tail);
    assert Snapshot(s) == Decimal(s[0]) + tail;
    ReadSpacedDecimal(s[1], "");
    assert " " + Decimal(s[1]) + "" == tail;
  }

  class SafeStruct {
    var data: array<int32>

    ghost predicate Valid()
      reads this
    {
      data.Length == Fields
    }

    /** The two slots as a value. */
    function Value(): (s: Slots)
      reads this, data
      requires Valid()
    {
      data[..]
    }

    /** `data{0, 0}`: a new record holds zero in both slots. */
    constructor ()
      ensures Valid() && fresh(data)
      ensures Value() == Fresh
      ensures Load(Value(), 0) == 0 && Load(Value(), 1) == 0
    {
      data := new int32[Fields](_ => 0);
    }

    /** `set(field, value)`: an out-of-range field returns at once; otherwise
        the slot `field` takes `value` and the other slot keeps its value. */
    method Set(field: int32, value: int32)
      requires Valid()
      modifies data
      ensures Valid()
      ensures Value() == Store(old(Value()), field, value)
      ensures !InRange(field) ==> Value() == old(Value())
      ensures InRange(field) ==> data[field] == value && data[1 - field] == old(data[1 - field])
    {
      if field < 0 || field >= data.Length {
        return;
      }
      data[field] := value;
    }

    /** `get(field)`: 0 for an out-of-range field, else the slot's value.
        The record is not modified. */
    method Get(field: int32) returns (v: int32)
      requires Valid()
      ensures v == Load(Value(), field)
      ensures !InRange(field) ==> v == 0
      ensures InRange(field) ==> v == data[field]
    {
      if field < 0 || field >= data.Length {
        return 0;
      }
      v := data[field];
    }

    /** `operator std::string`: both slots in decimal, separated by one
        space. The record is not modified. */
    method ToString() returns (text: string)
      requires Valid()
      ensures text == Snapshot(Value())
    {
      text := Decimal(data[0]) + " " + Decimal(data[1]);
    }
  }
}
