/**
 * The growable byte array that every C parser keeps as (pointer, length, capacity), with the
 * doubling loop and its overflow escape. Allocation is assumed to succeed.
 */
module Buffers {
  import opened Bytes

  class ByteBuffer {
    const sizeMax: nat
    const initial: nat
    var data: array<byte>
    var length: nat
    /** All bytes ever appended, and all bytes ever copied by regrowth. */
    ghost var appended: nat
    ghost var copied: nat

    ghost predicate Valid()
      reads this
    {
      && 0 < initial <= sizeMax
      && length <= data.Length <= sizeMax
      && length <= appended
      && (data.Length == 0 ==> copied == 0)
      && (data.Length > 0 ==> data.Length >= initial)
      && (appended <= sizeMax / 2 && data.Length > 0 ==>
            && copied + initial <= data.Length
            && (data.Length == initial || data.Length < 2 * appended))
    }

    function Contents(): bytes
      requires length <= data.Length
      reads this, data
    {
      data[..length]
    }

    ghost function Repr(): set<object>
      reads this
    {
      {this, data}
    }

    constructor (sizeMax: nat, initial: nat)
      requires 0 < initial <= sizeMax
      ensures Valid() && Contents() == [] && fresh(data)
      ensures this.sizeMax == sizeMax && this.initial == initial && appended == 0
    {
      this.sizeMax, this.initial := sizeMax, initial;
      data := new byte[0];
      length, appended, copied := 0, 0, 0;
    }

    /** Regrowth is linear overall: appending n bytes in any number of calls, with clears and
        drops in between, copies at most 2n bytes while n is at most half of SIZE_MAX. */
    lemma GrowthIsLinear()
      requires Valid() && appended <= sizeMax / 2
      ensures copied <= 2 * appended
    {
    }

    /** The doubling loop. */
    method GrownCapacity(required: nat) returns (grown: nat)
      requires Valid() && data.Length < required <= sizeMax
      ensures required <= grown <= sizeMax
      ensures initial <= grown
      ensures required <= sizeMax / 2 ==> 2 * data.Length <= grown && (grown == initial || grown < 2 * required)
    {
      grown := if data.Length == 0 then initial else data.Length;
      ghost var start := grown;
      while grown < required
        invariant start <= grown <= sizeMax
        invariant grown == start || (2 * start <= grown && grown < 2 * required)
        decreases required - grown
      {
        if grown > sizeMax / 2 {
          grown := required;
          break;
        }
        grown := grown * 2;
      }
    }

    method Reserve(required: nat)
      requires Valid() && required <= sizeMax && required <= appended
      modifies this
      ensures required <= data.Length <= sizeMax
      ensures data == old(data) || fresh(data)
      ensures length == old(length) && appended == old(appended)
      ensures Valid() && Contents() == old(Contents())
    {
      if required <= data.Length {
        return;
      }
      var grown := GrownCapacity(required);
      var moved := new byte[grown];
      forall k | 0 <= k < data.Length {
        moved[k] := data[k];
      }
      copied := copied + data.Length;
      data := moved;
    }

    /** Fails, changing nothing, only when the length would no longer fit a size. */
    method Append(source: bytes) returns (ok: bool)
      requires Valid()
      modifies this, data
      ensures Valid() && (data == old(data) || fresh(data))
      ensures ok <==> old(length) + |source| <= sizeMax
      ensures length == old(length) + if ok then |source| else 0
      ensures Contents() == if ok then old(Contents()) + source else old(Contents())
      ensures appended == old(appended) + if ok then |source| else 0
    {
      if |source| == 0 {
        return true;
      }
      if length > sizeMax - |source| {
        return false;
      }
      appended := appended + |source|;
      Reserve(length + |source|);
      forall k | 0 <= k < |source| {
        data[length + k] := source[k];
      }
      length := length + |source|;
      ok := true;
    }

    method AppendByte(b: byte) returns (ok: bool)
      requires Valid()
      modifies this, data
      ensures Valid() && (data == old(data) || fresh(data))
      ensures ok <==> old(length) != sizeMax
      ensures length == old(length) + if ok then 1 else 0
      ensures Contents() == if ok then old(Contents()) + [b] else old(Contents())
      ensures appended == old(appended) + if ok then 1 else 0
    {
      if length == sizeMax {
        return false;
      }
      appended := appended + 1;
      Reserve(length + 1);
      data[length] := b;
      length := length + 1;
      ok := true;
    }

    method Clear()
      requires Valid()
      modifies this`length
      ensures Valid() && Contents() == []
    {
      length := 0;
    }

    /** `memmove` of the tail to the front: the bytes move within the same array. */
    method DropFront(count: nat)
      requires Valid() && count <= length
      modifies this`length, data
      ensures Valid() && Contents() == old(Contents())[count..]
    {
      var left := length - count;
      var index := 0;
      while index < left
        invariant 0 <= index <= left
        invariant forall k :: 0 <= k < index ==> data[k] == old(data[k + count])
        invariant forall k :: index <= k < data.Length ==> data[k] == old(data[k])
      {
        data[index] := data[index + count];
        index := index + 1;
      }
      length := left;
    }
  }
}
