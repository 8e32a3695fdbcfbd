/** Sending the queued messages of a peer over a socket that may take only part of what it is offered. */
module NetSend {
  import opened Common

  import opened NetReceive

  function Flatten(msgs: seq<seq<Byte>>): seq<Byte> {
    if msgs == [] then [] else msgs[0] + Flatten(msgs[1..])
  }

  /** What the socket answers an offer: how many bytes it would take, or an error. */
  datatype Answer = Takes(nBytes: nat) | WouldBlock | Broken

  /** How much of an offer is taken. */
  function TakenOf(answer: Answer, offered: nat): nat {
    if answer.Takes? then Min(answer.nBytes, offered) else 0
  }

  /** How many bytes the socket takes when the k-th and later offers are answered so: it is offered the next
      message only while it takes everything. */
  function Took(msgs: seq<seq<Byte>>, offset: nat, answers: nat -> Answer, k: nat): nat
    requires msgs != [] ==> offset <= |msgs[0]|
  {
    if msgs == [] then 0 else
      var n := TakenOf(answers(k), |msgs[0]| - offset);
      if n == |msgs[0]| - offset then n + Took(msgs[1..], 0, answers, k + 1) else n
  }

  /** Whether the offer that ends the turn fails for good. */
  predicate Breaks(msgs: seq<seq<Byte>>, offset: nat, answers: nat -> Answer, k: nat)
    requires msgs != [] ==> offset <= |msgs[0]|
  {
    msgs != [] &&
    (answers(k).Broken? ||
     (TakenOf(answers(k), |msgs[0]| - offset) == |msgs[0]| - offset && Breaks(msgs[1..], 0, answers, k + 1)))
  }

  class SendQueue {
    var vSendMsg: seq<seq<Byte>>
    var nSendSize: nat
    var nSendOffset: nat
    var nSendBytes: nat
    var fDisconnect: bool
    /** Every byte the socket ever took. */
    ghost var wire: seq<Byte>

    ghost predicate Valid()
      reads this
    {
      && (forall i :: 0 <= i < |vSendMsg| ==> vSendMsg[i] != [])
      && (if vSendMsg == [] then nSendOffset == 0 else nSendOffset < |vSendMsg[0]|)
      && nSendSize == |Flatten(vSendMsg)|
      && nSendOffset <= |Flatten(vSendMsg)|
      && nSendBytes == |wire|
    }

    /** The bytes still to be sent. */
    ghost function Pending(): seq<Byte>
      requires Valid()
      reads this
    {
      Flatten(vSendMsg)[nSendOffset..]
    }

    constructor ()
      ensures Valid() && Pending() == [] && wire == [] && !fDisconnect
    {
      vSendMsg, nSendSize, nSendOffset, nSendBytes, fDisconnect, wire := [], 0, 0, 0, false, [];
    }

    /** A finished message joins the queue. */
    method Push(data: seq<Byte>)
      requires Valid() && data != []
      modifies this
      ensures Valid() && Pending() == old(Pending()) + data && wire == old(wire)
    {
      FlattenAppend(vSendMsg, data);
      vSendMsg, nSendSize := vSendMsg + [data], nSendSize + |data|;
    }

    /** Nothing is lost, repeated or reordered: the socket gets the next bytes pending, as many as it takes. */
    method SocketSendData(answers: nat -> Answer)
      requires Valid()
      modifies this
      ensures Valid()
      ensures old(Took(vSendMsg, nSendOffset, answers, 0)) <= |old(Pending())|
      ensures wire == old(wire) + old(Pending())[..old(Took(vSendMsg, nSendOffset, answers, 0))]
      ensures Pending() == old(Pending())[old(Took(vSendMsg, nSendOffset, answers, 0))..]
      ensures fDisconnect == old(fDisconnect || Breaks(vSendMsg, nSendOffset, answers, 0))
    {
      hide Took;
      hide Breaks;
      hide Flatten;
      Nothing(answers);
      ghost var n := Took(vSendMsg, nSendOffset, answers, 0);
      var it := OfferAll(answers);
      if it == |vSendMsg| {
        assert vSendMsg[it..] == [];
        assert nSendOffset == 0;
        assert nSendSize == 0;
      }
      vSendMsg := vSendMsg[it..];
      WholeQueue(vSendMsg, nSendOffset);
      CutAt(old(wire), old(Pending()), wire, Pending(), n);
    }

    /** The loop: message after message is offered as long as all of it is taken. */
    method OfferAll(answers: nat -> Answer) returns (it: nat)
      requires Valid()
      modifies `nSendSize, `nSendOffset, `nSendBytes, `fDisconnect, `wire
      ensures it <= |vSendMsg| && Offering(vSendMsg[it..], nSendOffset, nSendSize) && nSendBytes == |wire|
      ensures wire + Left(vSendMsg[it..], nSendOffset) == old(wire + Pending())
      ensures |wire| == |old(wire)| + old(Took(vSendMsg, nSendOffset, answers, 0))
      ensures fDisconnect == old(fDisconnect || Breaks(vSendMsg, nSendOffset, answers, 0))
    {
      hide Took;
      hide Breaks;
      hide Flatten;
      hide Left;
      Nothing(answers);
      WholeQueue(vSendMsg, nSendOffset);
      it := 0;
      ghost var all, n := wire + Pending(), Took(vSendMsg, nSendOffset, answers, 0);
      while it < |vSendMsg|
        invariant it <= |vSendMsg| && Offering(vSendMsg[it..], nSendOffset, nSendSize) && nSendBytes == |wire|
        invariant wire + Left(vSendMsg[it..], nSendOffset) == all
        invariant n == |wire| - |old(wire)| + Took(vSendMsg[it..], nSendOffset, answers, it)
        invariant fDisconnect == old(fDisconnect)
        invariant old(Breaks(vSendMsg, nSendOffset, answers, 0)) == Breaks(vSendMsg[it..], nSendOffset, answers, it)
      {
        var data := vSendMsg[it];
        var nBytes := TakenOf(answers(it), |data| - nSendOffset);
        assert vSendMsg[it..][1..] == vSendMsg[it + 1..];
        OneOffer(vSendMsg[it..], nSendOffset, answers, it);
        BytesTaken(wire, vSendMsg[it..], nSendOffset, nSendSize, nBytes);
        if nBytes > 0 {
          wire := wire + data[nSendOffset..nSendOffset + nBytes];
          nSendBytes := nSendBytes + nBytes;
          nSendOffset := nSendOffset + nBytes;
          if nSendOffset == |data| {
            nSendOffset := 0;
            nSendSize := nSendSize - |data|;
            it := it + 1;
          } else {
            return;
          }
        } else {
          if answers(it).Broken? {
            fDisconnect := true;
          }
          return;
        }
      }
      assert vSendMsg[it..] == [];
    }
  }

  /** The queue during the loop: its first message is sent up to the offset. */
  ghost predicate Offering(msgs: seq<seq<Byte>>, offset: nat, size: nat) {
    && (if msgs == [] then offset == 0 else offset < |msgs[0]|)
    && size == |Flatten(msgs)| && offset <= size
  }

  /** What is left of the queue. */
  ghost function Left(msgs: seq<seq<Byte>>, offset: nat): seq<Byte> {
    if offset <= |Flatten(msgs)| then Flatten(msgs)[offset..] else []
  }

  lemma WholeQueue(msgs: seq<seq<Byte>>, offset: nat)
    ensures msgs[0..] == msgs
    ensures offset <= |Flatten(msgs)| ==> Left(msgs, offset) == Flatten(msgs)[offset..]
  {
  }

  /** The socket would take all that is left of message i. */
  ghost predicate TakenWhole(msgs: seq<seq<Byte>>, offset: nat, answers: nat -> Answer, k: nat, i: nat) {
    i < |msgs| && answers(k + i).Takes? && answers(k + i).nBytes >= |msgs[i]| - if i == 0 then offset else 0
  }

  /** How a turn at the queue goes: some messages are taken whole, and the next, if there is one, only in part or not at
      all. The turn breaks the connection exactly when that offer meets an error. */
  lemma {:induction false} TurnStops(msgs: seq<seq<Byte>>, offset: nat, answers: nat -> Answer, k: nat) returns (j: nat)
    requires (if msgs == [] then offset == 0 else offset < |msgs[0]|) && forall i :: 0 <= i < |msgs| ==> msgs[i] != []
    ensures j <= |msgs|
    ensures forall i :: 0 <= i < j ==> TakenWhole(msgs, offset, answers, k, i)
    ensures j < |msgs| && answers(k + j).Takes? ==> answers(k + j).nBytes < |msgs[j]| - if j == 0 then offset else 0
    ensures Took(msgs, offset, answers, k) ==
            |Flatten(msgs[..j])| - (if j == 0 then 0 else offset)
            + (if j < |msgs| && answers(k + j).Takes? then answers(k + j).nBytes else 0)
    ensures Breaks(msgs, offset, answers, k) <==> j < |msgs| && answers(k + j) == Broken
    decreases |msgs|
  {
    j := 0;
    if msgs != [] {
      OneOffer(msgs, offset, answers, k);
      var n := TakenOf(answers(k), |msgs[0]| - offset);
      if n == |msgs[0]| - offset {
        var i := TurnStops(msgs[1..], 0, answers, k + 1);
        j := i + 1;
        assert msgs[..j] == [msgs[0]] + msgs[1..][..i];
        FlattenFirst(msgs[0], msgs[1..][..i]);
        forall m | 0 <= m < j
          ensures TakenWhole(msgs, offset, answers, k, m)
        {
          if m > 0 {
            assert TakenWhole(msgs[1..], 0, answers, k + 1, m - 1);
          }
        }
      }
    }
  }

  lemma FlattenFirst(data: seq<Byte>, msgs: seq<seq<Byte>>)
    ensures Flatten([data] + msgs) == data + Flatten(msgs)
  {
    assert ([data] + msgs)[1..] == msgs;
  }

  lemma OneOffer(msgs: seq<seq<Byte>>, offset: nat, answers: nat -> Answer, k: nat)
    requires msgs != [] && offset < |msgs[0]|
    ensures Flatten(msgs) == msgs[0] + Flatten(msgs[1..])
    ensures var n := TakenOf(answers(k), |msgs[0]| - offset);
            if n == |msgs[0]| - offset then
              && Took(msgs, offset, answers, k) == n + Took(msgs[1..], 0, answers, k + 1)
              && Breaks(msgs, offset, answers, k) == Breaks(msgs[1..], 0, answers, k + 1)
            else
              && Took(msgs, offset, answers, k) == n
              && Breaks(msgs, offset, answers, k) == answers(k).Broken?
  {
  }

  lemma Nothing(answers: nat -> Answer)
    ensures Flatten([]) == []
    ensures forall k :: Took([], 0, answers, k) == 0 && !Breaks([], 0, answers, k)
  {
  }

  lemma CutAt(wire0: seq<Byte>, pending0: seq<Byte>, wire: seq<Byte>, pending: seq<Byte>, n: nat)
    requires wire + pending == wire0 + pending0 && |wire| == |wire0| + n
    ensures n <= |pending0| && wire == wire0 + pending0[..n] && pending == pending0[n..]
  {
    var all := wire0 + pending0;
    assert wire == all[..|wire|] && pending == all[|wire|..];
    assert wire0 + pending0[..n] == all[..|wire|] && pending0[n..] == all[|wire|..];
  }

  /** What the socket takes of the first message moves from the queue to the wire. */
  lemma BytesTaken(wire: seq<Byte>, msgs: seq<seq<Byte>>, offset: nat, size: nat, n: nat)
    requires msgs != [] && Offering(msgs, offset, size) && offset + n <= |msgs[0]|
    requires forall i :: 0 <= i < |msgs| ==> msgs[i] != []
    ensures size >= |msgs[0]| && (offset + n < |msgs[0]| ==> Offering(msgs, offset + n, size))
    ensures offset + n == |msgs[0]| ==> Offering(msgs[1..], 0, size - |msgs[0]|)
    ensures wire + Left(msgs, offset) == (wire + msgs[0][offset..offset + n]) + Left(msgs, offset + n)
    ensures offset + n == |msgs[0]| ==> Left(msgs, offset + n) == Left(msgs[1..], 0)
    ensures n == 0 ==> wire + msgs[0][offset..offset + n] == wire
  {
    var data, rest := msgs[0], Flatten(msgs[1..]);
    assert Flatten(msgs) == data + rest;
    assert (data + rest)[offset..] == data[offset..offset + n] + (data + rest)[offset + n..];
  }

  lemma {:induction false} FlattenAppend(msgs: seq<seq<Byte>>, data: seq<Byte>)
    ensures Flatten(msgs + [data]) == Flatten(msgs) + data
    decreases |msgs|
  {
    if msgs == [] {
      assert msgs + [data] == [data] && Flatten([data]) == data + Flatten([]);
    } else {
      FlattenAppend(msgs[1..], data);
      assert (msgs + [data])[1..] == msgs[1..] + [data];
    }
  }

  /** A turn at the queue: a message is pushed, or the socket is ready. */
  datatype Turn = Push(data: seq<Byte>) | Ready(answers: nat -> Answer)

  function Pushed(turns: seq<Turn>): seq<Byte> {
    if turns == [] then [] else
      var t := turns[|turns| - 1];
      if t.Push? then Pushed(turns[..|turns| - 1]) + t.data else Pushed(turns[..|turns| - 1])
  }

  lemma PushedNothing()
    ensures Pushed([]) == []
  {
  }

  lemma PushedNext(turns: seq<Turn>, k: nat)
    requires k < |turns|
    ensures Pushed(turns[..k + 1]) == if turns[k].Push? then Pushed(turns[..k]) + turns[k].data else Pushed(turns[..k])
  {
    assert turns[..k + 1][..k] == turns[..k];
  }

  /** Over a whole connection the socket takes a prefix of the messages pushed, in order, and the rest is pending. */
  method Connection(turns: seq<Turn>) returns (q: SendQueue)
    requires forall t :: t in turns && t.Push? ==> t.data != []
    ensures fresh(q) && q.Valid() && q.wire + q.Pending() == Pushed(turns)
  {
    hide Took;
    hide Breaks;
    hide Flatten;
    hide Pushed;
    PushedNothing();
    q := new SendQueue();
    for k := 0 to |turns|
      invariant fresh(q) && q.Valid() && q.wire + q.Pending() == Pushed(turns[..k])
    {
      PushedNext(turns, k);
      if turns[k].Push? {
        ghost var wire, pending := q.wire, q.Pending();
        q.Push(turns[k].data);
        assert wire + (pending + turns[k].data) == (wire + pending) + turns[k].data;
      } else {
        var answers := turns[k].answers;
        ghost var wire, pending, n := q.wire, q.Pending(), Took(q.vSendMsg, q.nSendOffset, answers, 0);
        q.SocketSendData(answers);
        assert wire + pending == (wire + pending[..n]) + pending[n..];
      }
    }
    assert turns[..|turns|] == turns;
  }
}
