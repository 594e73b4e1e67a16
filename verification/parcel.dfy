/** An Android `Parcel` seen as the sequence of typed slots written into it.
    Each `readX` consumes exactly one slot of its own kind from the front. */
module Parcel {
  import opened Wrappers
  import opened Jvm

  datatype Slot =
    | StringSlot(str: Option<string>)
    | IntSlot(number: Int32)
    | ByteSlot(byte: Int8)
    | SerializableSlot(url: Option<Url>)

  /** A value read from a parcel together with the slots left after it. */
  datatype Read<T> = Read(value: T, rest: seq<Slot>)

  function ReadString(parcel: seq<Slot>): (r: Option<Read<Option<string>>>)
    ensures r.Some? <==> |parcel| > 0 && parcel[0].StringSlot?
    ensures r.Some? ==> r.value.value == parcel[0].str && r.value.rest == parcel[1..]
  {
    if |parcel| > 0 && parcel[0].StringSlot? then Some(Read(parcel[0].str, parcel[1..])) else None
  }

  function ReadInt(parcel: seq<Slot>): (r: Option<Read<Int32>>)
    ensures r.Some? <==> |parcel| > 0 && parcel[0].IntSlot?
    ensures r.Some? ==> r.value.value == parcel[0].number && r.value.rest == parcel[1..]
  {
    if |parcel| > 0 && parcel[0].IntSlot? then Some(Read(parcel[0].number, parcel[1..])) else None
  }

  function ReadByte(parcel: seq<Slot>): (r: Option<Read<Int8>>)
    ensures r.Some? <==> |parcel| > 0 && parcel[0].ByteSlot?
    ensures r.Some? ==> r.value.value == parcel[0].byte && r.value.rest == parcel[1..]
  {
    if |parcel| > 0 && parcel[0].ByteSlot? then Some(Read(parcel[0].byte, parcel[1..])) else None
  }

  function ReadSerializable(parcel: seq<Slot>): (r: Option<Read<Option<Url>>>)
    ensures r.Some? <==> |parcel| > 0 && parcel[0].SerializableSlot?
    ensures r.Some? ==> r.value.value == parcel[0].url && r.value.rest == parcel[1..]
  {
    if |parcel| > 0 && parcel[0].SerializableSlot? then Some(Read(parcel[0].url, parcel[1..])) else None
  }

  /** `n` consecutive `readString` calls: the strings (null included) in the
      order they were written. */
  function ReadStrings(parcel: seq<Slot>, n: nat): (r: Option<Read<seq<Option<string>>>>)
    ensures r.Some? <==> n <= |parcel| && forall i :: 0 <= i < n ==> parcel[i].StringSlot?
    ensures r.Some? ==> && |r.value.value| == n
                        && (forall i :: 0 <= i < n ==> r.value.value[i] == parcel[i].str)
                        && r.value.rest == parcel[n..]
    decreases n
  {
    if n == 0 then Some(Read([], parcel))
    else
      var first :- ReadString(parcel);
      var others :- ReadStrings(first.rest, n - 1);
      Some(Read([first.value] + others.value, others.rest))
  }
}
