/** RspPacketBuilder (RspPacket.cpp, RspPacket.h): a bounded buffer that ignores what does not fit. */
module PacketBuilder {
  import opened Bytes

  /** The builder's rule for adding a block of bytes: all of it or none of it. */
  function Add(buf: seq<byte>, data: seq<byte>, capacity: nat): (r: seq<byte>)
    ensures |buf| <= capacity ==> |r| <= capacity
    ensures |buf| + |data| <= capacity ==> r == buf + data
    ensures |buf| + |data| > capacity ==> r == buf
  {
    if |buf| + |data| > capacity then buf else buf + data
  }

  class RspPacketBuilder {
    const data: array<byte>
    var len: nat

    /** Beyond `len` the buffer is zero, so the data reads as a terminated string while there is room. */
    ghost predicate Valid()
      reads this, data
    {
      len <= data.Length && forall i | len <= i < data.Length :: data[i] == 0
    }

    function Contents(): seq<byte>
      requires Valid()
      reads this, data
    {
      data[..len]
    }

    constructor (capacity: nat)
      ensures Valid() && fresh(data) && data.Length == capacity && Contents() == []
    {
      data := new byte[capacity](_ => 0);
      len := 0;
    }

    function GetRemaining(): nat
      requires Valid()
      reads this, data
    {
      data.Length - len
    }

    method AppendChar(c: byte)
      requires Valid()
      modifies this`len, data
      ensures Valid() && Contents() == Add(old(Contents()), [c], data.Length)
    {
      if len == data.Length {
        return;
      }
      data[len] := c;
      len := len + 1;
    }

    method AddData(str: seq<byte>)
      requires Valid()
      modifies this`len, data
      ensures Valid() && Contents() == Add(old(Contents()), str, data.Length)
    {
      if len + |str| > data.Length {
        return;
      }
      var start := len;
      forall i | 0 <= i < |str| {
        data[start + i] := str[i];
      }
      len := len + |str|;
      assert data[..start] == old(Contents());
      assert data[start..len] == str;
      assert data[..len] == data[..start] + data[start..len];
    }

    method Erase()
      requires Valid()
      modifies this`len, data
      ensures Valid() && Contents() == []
    {
      forall i | 0 <= i < data.Length {
        data[i] := 0;
      }
      len := 0;
    }
  }
}
