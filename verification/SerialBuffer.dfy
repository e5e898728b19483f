/** `CSerialBuffer`: a string, a cursor into it and a count of unread bytes,
    implementing a byte queue. */
module SerialBuffers {
  import opened Bytes

  class SerialBuffer {
    var internalBuffer: seq<byte>
    var curPos: nat
    var bytesUnread: nat

    ghost predicate Valid()
      reads this
    {
      && curPos + bytesUnread == |internalBuffer|
      && (bytesUnread == 0 <==> internalBuffer == [])
    }

    /** The abstract queue: what has not been read yet. */
    ghost function Unread(): (u: seq<byte>)
      requires Valid()
      reads this
      ensures |u| == bytesUnread
    {
      internalBuffer[curPos..]
    }

    /** What has been read but is still in the string. */
    ghost function Stale(): (u: seq<byte>)
      requires Valid()
      reads this
      ensures |u| == curPos && internalBuffer == u + Unread()
    {
      internalBuffer[..curPos]
    }

    constructor ()
      ensures Valid() && Unread() == [] && Stale() == []
    {
      internalBuffer, curPos, bytesUnread := [], 0, 0;
    }

    method ClearAndReset()
      modifies this
      ensures Valid() && Unread() == [] && Stale() == []
    {
      internalBuffer, bytesUnread, curPos := [], 0, 0;
    }

    method Flush()
      modifies this
      ensures Valid() && Unread() == [] && Stale() == []
    {
      internalBuffer, bytesUnread, curPos := [], 0, 0;
    }

    method AddByte(ch: byte)
      requires Valid()
      modifies this
      ensures Valid() && Unread() == old(Unread()) + [ch] && Stale() == old(Stale())
    {
      internalBuffer := internalBuffer + [ch];
      bytesUnread := bytesUnread + 1;
    }

    method AddData(data: seq<byte>)
      requires Valid()
      modifies this
      ensures Valid() && Unread() == old(Unread()) + data && Stale() == old(Stale())
    {
      internalBuffer := internalBuffer + data;
      bytesUnread := bytesUnread + |data|;
    }

    /** Looks at the string only, and is nevertheless right about the queue. */
    predicate IsEmpty()
      reads this
      ensures Valid() ==> (IsEmpty() <==> Unread() == [])
    {
      |internalBuffer| == 0
    }

    function GetSize(): nat
      reads this
    {
      |internalBuffer|
    }

    /** Appends up to `count` unread bytes to `data` and consumes them. */
    method ReadN(data: seq<byte>, count: nat) returns (data': seq<byte>, n: nat)
      requires Valid()
      modifies this
      ensures Valid()
      ensures n == if count <= |old(Unread())| then count else |old(Unread())|
      ensures data' == data + old(Unread())[..n]
      ensures Unread() == old(Unread())[n..]
      ensures Stale() == if n == |old(Unread())| then [] else old(Stale()) + old(Unread())[..n]
    {
      n := if count <= bytesUnread then count else bytesUnread;
      data' := data + internalBuffer[curPos..curPos + n];
      curPos := curPos + n;
      bytesUnread := bytesUnread - n;
      if bytesUnread == 0 {
        ClearAndReset();
      }
    }

    /** Appends the whole string to `data`, consumed bytes included. */
    method ReadAvailable(data: seq<byte>) returns (data': seq<byte>, some: bool)
      requires Valid()
      modifies this
      ensures Valid() && Unread() == [] && Stale() == []
      ensures data' == data + (old(Stale()) + old(Unread()))
      ensures data' == data + old(Unread()) <==> old(curPos) == 0
      ensures some <==> data' != []
    {
      data' := data + internalBuffer;
      StaleShows(data, Stale(), Unread());
      ClearAndReset();
      some := |data'| > 0;
    }

    /** Appends unread bytes to `data` up to and including the first
        terminator, or all of them if there is none, and consumes them. */
    method ReadUpto(data: seq<byte>, term: byte) returns (data': seq<byte>, found: bool)
      requires Valid()
      modifies this
      ensures Valid()
      ensures found <==> term in old(Unread())
      ensures var n := if found then FirstIndex(old(Unread()), term) + 1 else |old(Unread())|;
        && data' == data + old(Unread())[..n]
        && Unread() == old(Unread())[n..]
    {
      found, data' := false, data;
      ghost var u := Unread();
      if bytesUnread > 0 {
        var actualSize := GetSize();
        var incrementPos := 0;
        var i := curPos;
        Unit(data);
        while i < actualSize
          invariant curPos == old(curPos) && internalBuffer == old(internalBuffer) && actualSize == |internalBuffer|
          invariant curPos <= i <= actualSize && incrementPos == i - curPos && bytesUnread == actualSize - i
          invariant data' == data + u[..incrementPos]
          invariant term !in u[..incrementPos]
        {
          assert internalBuffer[i] == u[incrementPos];
          TakeStep(u, incrementPos);
          Assoc(data, u[..incrementPos], [u[incrementPos]]);
          data' := data' + [internalBuffer[i]];
          bytesUnread := bytesUnread - 1;
          if internalBuffer[i] == term {
            FirstIndexIs(u, term, incrementPos);
            incrementPos := incrementPos + 1;
            found := true;
            break;
          }
          incrementPos := incrementPos + 1;
          i := i + 1;
        }
        curPos := curPos + incrementPos;
        if bytesUnread == 0 {
          ClearAndReset();
        }
      }
    }
  }

  function FirstIndex(s: seq<byte>, b: byte): (k: nat)
    requires b in s
    ensures k < |s| && s[k] == b && b !in s[..k]
  {
    if s[0] == b then 0 else
      var k := FirstIndex(s[1..], b);
      assert s[..k + 1] == [s[0]] + s[1..][..k];
      k + 1
  }

  lemma {:induction false} FirstIndexIs(s: seq<byte>, b: byte, k: nat)
    requires k < |s| && s[k] == b && b !in s[..k]
    ensures FirstIndex(s, b) == k
  {}

  /** Bytes that are shown again make a difference, whatever they are. */
  lemma {:induction false} StaleShows(data: seq<byte>, stale: seq<byte>, unread: seq<byte>)
    ensures data + (stale + unread) == data + unread <==> stale == []
  {
    if stale == [] {
      Unit(unread);
    } else {
      assert |data + (stale + unread)| > |data + unread|;
    }
  }
}
