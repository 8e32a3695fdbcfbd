/** Cutting the byte stream of a peer into messages, however the bytes arrive. */
module NetReceive {
  import opened Common

  type Byte = b: int | 0 <= b < 256

  const HEADER: nat := 24
  const AHEAD: nat := 256 * 1024

  function LittleEndian(b0: int, b1: int, b2: int, b3: int): int {
    b0 + 0x100 * b1 + 0x1_0000 * b2 + 0x100_0000 * b3
  }

  /** The size field of a header: four bytes at offset 16, the lowest first. */
  function SizeOf(header: seq<Byte>): nat
    requires |header| == HEADER
  {
    LittleEndian(header[16], header[17], header[18], header[19])
  }

  // ---------------------------------------------------------------- what a stream means

  datatype Frame = Frame(header: seq<Byte>, payload: seq<Byte>)

  /** The messages a stream holds, the bytes of the one begun, and whether the header of that one was refused. */
  datatype Parsed = Parsed(frames: seq<Frame>, rest: seq<Byte>, refused: bool)

  /** The stream starts with a header that asks for too much. */
  predicate Refuses(maxSize: nat, s: seq<Byte>) {
    |s| >= HEADER && SizeOf(s[..HEADER]) > maxSize
  }

  /** Where the first message ends. */
  function End(s: seq<Byte>): nat
    requires |s| >= HEADER
  {
    HEADER + SizeOf(s[..HEADER])
  }

  predicate HasFrame(maxSize: nat, s: seq<Byte>) {
    |s| >= HEADER && !Refuses(maxSize, s) && |s| >= End(s)
  }

  function First(s: seq<Byte>): Frame
    requires |s| >= HEADER && |s| >= End(s)
  {
    Frame(s[..HEADER], s[HEADER..End(s)])
  }

  function Parse(maxSize: nat, s: seq<Byte>): Parsed
    decreases |s|
  {
    if HasFrame(maxSize, s) then
      var later := Parse(maxSize, s[End(s)..]);
      later.(frames := [First(s)] + later.frames)
    else if Refuses(maxSize, s) then Parsed([], s[..HEADER], true)
    else Parsed([], s, false)
  }

  /** More bytes arrive. */
  function Feed(maxSize: nat, p: Parsed, bytes: seq<Byte>): Parsed {
    if p.refused then p else
      var q := Parse(maxSize, p.rest + bytes);
      q.(frames := p.frames + q.frames)
  }

  /** The bytes of the messages in order. */
  function Flat(frames: seq<Frame>): seq<Byte> {
    if frames == [] then [] else frames[0].header + frames[0].payload + Flat(frames[1..])
  }

  /** Nothing but the message begun is left over. */
  ghost predicate Begun(maxSize: nat, p: Parsed) {
    if p.refused then |p.rest| == HEADER && Refuses(maxSize, p.rest)
    else !Refuses(maxSize, p.rest) && !HasFrame(maxSize, p.rest)
  }

  lemma MoreOfTheSame(maxSize: nat, a: seq<Byte>, b: seq<Byte>)
    ensures Refuses(maxSize, a) ==> Refuses(maxSize, a + b) && (a + b)[..HEADER] == a[..HEADER]
    ensures HasFrame(maxSize, a) ==> HasFrame(maxSize, a + b) && End(a + b) == End(a) && First(a + b) == First(a)
    ensures HasFrame(maxSize, a) ==> (a + b)[End(a)..] == a[End(a)..] + b
  {
    if |a| >= HEADER {
      assert (a + b)[..HEADER] == a[..HEADER];
      if |a| >= End(a) {
        assert (a + b)[HEADER..End(a)] == a[HEADER..End(a)];
      }
    }
  }

  /** Parsing a longer stream continues where parsing the shorter one stopped. */
  lemma {:induction false} ParseContinues(maxSize: nat, a: seq<Byte>, b: seq<Byte>)
    ensures Parse(maxSize, a + b) == Feed(maxSize, Parse(maxSize, a), b)
    ensures Begun(maxSize, Parse(maxSize, a))
    decreases |a|
  {
    hide First;
    MoreOfTheSame(maxSize, a, b);
    if HasFrame(maxSize, a) {
      var next := a[End(a)..];
      ParseContinues(maxSize, next, b);
      var p := Parse(maxSize, next);
      if !p.refused {
        var t := Parse(maxSize, p.rest + b);
        assert [First(a)] + (p.frames + t.frames) == ([First(a)] + p.frames) + t.frames;
      }
    } else if Refuses(maxSize, a) {
      assert a[..HEADER][..HEADER] == a[..HEADER];
    } else {
      var t := Parse(maxSize, a + b);
      assert [] + t.frames == t.frames;
    }
  }

  /** Bytes in two pieces are the same as in one: the messages and the verdict do not depend on the split. */
  lemma FeedInPieces(maxSize: nat, p: Parsed, a: seq<Byte>, b: seq<Byte>)
    ensures Feed(maxSize, Feed(maxSize, p, a), b) == Feed(maxSize, p, a + b)
  {
    hide Parse;
    if !p.refused {
      assert p.rest + (a + b) == (p.rest + a) + b;
      ParseContinues(maxSize, p.rest + a, b);
      var q := Parse(maxSize, p.rest + a);
      if !q.refused {
        var t := Parse(maxSize, q.rest + b);
        assert p.frames + (q.frames + t.frames) == (p.frames + q.frames) + t.frames;
      }
    }
  }

  function Join(pieces: seq<seq<Byte>>): seq<Byte> {
    if pieces == [] then [] else pieces[0] + Join(pieces[1..])
  }

  function FeedAll(maxSize: nat, p: Parsed, pieces: seq<seq<Byte>>): Parsed
    decreases |pieces|
  {
    if pieces == [] then p else FeedAll(maxSize, Feed(maxSize, p, pieces[0]), pieces[1..])
  }

  lemma {:induction false} FeedAllIsParse(maxSize: nat, s: seq<Byte>, pieces: seq<seq<Byte>>)
    ensures FeedAll(maxSize, Parse(maxSize, s), pieces) == Parse(maxSize, s + Join(pieces))
    decreases |pieces|
  {
    hide Parse;
    hide Feed;
    if pieces == [] {
      assert s + Join(pieces) == s;
    } else {
      ParseContinues(maxSize, s, pieces[0]);
      FeedAllIsParse(maxSize, s + pieces[0], pieces[1..]);
      assert s + (pieces[0] + Join(pieces[1..])) == s + pieces[0] + Join(pieces[1..]);
    }
  }

  /** The bytes consumed are exactly the headers and payloads in order; what follows a refused header is dropped. */
  lemma {:induction false} NothingIsLost(maxSize: nat, s: seq<Byte>)
    ensures var p := Parse(maxSize, s); Flat(p.frames) + p.rest <= s && (!p.refused ==> Flat(p.frames) + p.rest == s)
    decreases |s|
  {
    hide First;
    var p := Parse(maxSize, s);
    if HasFrame(maxSize, s) {
      var later := Parse(maxSize, s[End(s)..]);
      NothingIsLost(maxSize, s[End(s)..]);
      FlatFirst(First(s), later.frames);
      FirstIsPrefix(maxSize, s);
      PrefixAfter(First(s).header + First(s).payload, Flat(later.frames), later.rest, s[End(s)..]);
    } else {
      assert Flat(p.frames) + p.rest == p.rest;
    }
  }

  lemma FirstIsPrefix(maxSize: nat, s: seq<Byte>)
    requires HasFrame(maxSize, s)
    ensures s == First(s).header + First(s).payload + s[End(s)..]
  {
  }

  lemma PrefixAfter(head: seq<Byte>, flat: seq<Byte>, rest: seq<Byte>, s: seq<Byte>)
    requires flat + rest <= s
    ensures (head + flat) + rest <= head + s
    ensures flat + rest == s ==> (head + flat) + rest == head + s
  {
    assert (head + flat) + rest == head + (flat + rest);
  }

  lemma FlatFirst(f: Frame, frames: seq<Frame>)
    ensures Flat([f] + frames) == f.header + f.payload + Flat(frames)
  {
    assert ([f] + frames)[1..] == frames;
  }

  /** The size in bytes 16 to 19 of a header, the lowest first. */
  ghost predicate Announces(header: seq<Byte>, size: int) {
    && |header| == 24
    && var b0: int, b1: int, b2: int, b3: int := header[16], header[17], header[18], header[19];
    && size == b0 + 256 * b1 + 65536 * b2 + 16777216 * b3
  }

  /** Every message has a header of 24 bytes and the length announced in bytes 16 to 19 of it, the lowest first, and
      none asks for more than is allowed. What is left is a header that asks for more, exactly when the stream is
      refused, or else less than a message. */
  lemma {:induction false} FramesAreWhole(maxSize: nat, s: seq<Byte>)
    ensures forall f :: f in Parse(maxSize, s).frames ==>
              |f.header| == 24 && |f.payload| <= maxSize && Announces(f.header, |f.payload|)
    ensures var rest := Parse(maxSize, s).rest;
            if Parse(maxSize, s).refused
            then |rest| == 24 && exists size :: size > maxSize && Announces(rest, size)
            else |rest| < 24 || exists size :: |rest| - 24 < size <= maxSize && Announces(rest[..24], size)
    decreases |s|
  {
    if HasFrame(maxSize, s) {
      FramesAreWhole(maxSize, s[End(s)..]);
    } else if |s| >= HEADER {
      assert Announces(s[..24], SizeOf(s[..24]));
    }
  }

  /** The messages so far and then those of p. */
  function After(frames: seq<Frame>, p: Parsed): Parsed {
    p.(frames := frames + p.frames)
  }

  lemma FeedAfter(maxSize: nat, frames: seq<Frame>, p: Parsed, bytes: seq<Byte>)
    ensures Feed(maxSize, After(frames, p), bytes) == After(frames, Feed(maxSize, p, bytes))
  {
    if !p.refused {
      var q := Parse(maxSize, p.rest + bytes);
      assert frames + (p.frames + q.frames) == (frames + p.frames) + q.frames;
    }
  }

  lemma FeedRefused(maxSize: nat, p: Parsed, bytes: seq<Byte>)
    requires p.refused
    ensures Feed(maxSize, p, bytes) == p
  {
  }

  /** Bytes that do not reach past the header, or past the message, begun. */
  lemma FeedWithin(maxSize: nat, p: Parsed, bytes: seq<Byte>)
    requires Begun(maxSize, p) && !p.refused
    requires |p.rest + bytes| <= if |p.rest| < HEADER then HEADER else End(p.rest)
    ensures var s := p.rest + bytes;
            Feed(maxSize, p, bytes) ==
            if Refuses(maxSize, s) then p.(rest := s, refused := true)
            else if HasFrame(maxSize, s) then Parsed(p.frames + [Frame(s[..HEADER], s[HEADER..])], [], false)
            else p.(rest := s)
  {
    var s := p.rest + bytes;
    if |s| >= HEADER {
      assert |p.rest| >= HEADER ==> s[..HEADER] == p.rest[..HEADER];
      if Refuses(maxSize, s) {
        assert s[..HEADER] == s;
      } else if HasFrame(maxSize, s) {
        assert |s| == End(s);
        assert s[End(s)..] == [] && s[HEADER..End(s)] == s[HEADER..];
        assert Parse(maxSize, s[End(s)..]) == Parsed([], [], false);
      }
    }
    assert p.frames + [] == p.frames;
  }

  // ---------------------------------------------------------------- the message under way

  class CNetMessage {
    const maxSize: nat
    var in_data: bool
    var hdrbuf: seq<Byte>
    var nHdrPos: nat
    var nMessageSize: nat
    var vRecv: seq<Byte>
    var nDataPos: nat

    ghost predicate Valid()
      reads this
    {
      && |hdrbuf| == HEADER && nHdrPos <= HEADER
      && (!in_data ==> nDataPos == 0 && vRecv == [] && (nHdrPos == HEADER ==> SizeOf(hdrbuf) > maxSize))
      && (in_data ==> nHdrPos == HEADER && nMessageSize == SizeOf(hdrbuf) <= maxSize)
      && (in_data ==> nDataPos <= |vRecv| <= nMessageSize && |vRecv| <= nDataPos + AHEAD)
    }

    ghost function Bytes(): seq<Byte>
      requires Valid()
      reads this
    {
      hdrbuf[..nHdrPos] + vRecv[..nDataPos]
    }

    ghost function Whole(): Frame
      requires Valid() && Complete()
      reads this
    {
      Frame(hdrbuf, vRecv[..nDataPos])
    }

    ghost predicate Refused()
      reads this
    {
      !in_data && nHdrPos == HEADER
    }

    constructor (maxSize: nat)
      ensures Valid() && Bytes() == [] && !Complete() && !Refused() && this.maxSize == maxSize
    {
      this.maxSize, in_data, nHdrPos, nMessageSize, vRecv, nDataPos := maxSize, false, 0, 0, [], 0;
      hdrbuf := seq(HEADER, i => 0);
    }

    predicate Complete()
      reads this
    {
      in_data && nMessageSize == nDataPos
    }

    /** Up to the end of the header at most; a header that asks for too much is refused. */
    method ReadHeader(pch: seq<Byte>) returns (handled: int)
      requires Valid() && !in_data && pch != []
      modifies this
      ensures Valid()
      ensures handled < 0 <==> Refused()
      ensures old(Refused()) ==> Refused() && Bytes() == old(Bytes())
      ensures !old(Refused()) ==>
                var n := Min(HEADER - |old(Bytes())|, |pch|);
                && n > 0 && Bytes() == old(Bytes()) + pch[..n] && |Bytes()| <= HEADER
                && (Refused() <==> exists size :: size > maxSize && Announces(Bytes(), size))
                && (!Refused() ==> handled == n && (in_data <==> |Bytes()| == HEADER))
    {
      var nRemaining := HEADER - nHdrPos;
      var nCopy := Min(nRemaining, |pch|);
      hdrbuf := hdrbuf[..nHdrPos] + pch[..nCopy] + hdrbuf[nHdrPos + nCopy..];
      nHdrPos := nHdrPos + nCopy;
      assert hdrbuf[..nHdrPos] + [] == hdrbuf[..nHdrPos];
      if nHdrPos < HEADER {
        return nCopy;
      }
      assert hdrbuf == hdrbuf[..nHdrPos];
      nMessageSize := SizeOf(hdrbuf);
      assert Announces(hdrbuf, nMessageSize);
      if nMessageSize > maxSize {
        return -1;
      }
      in_data := true;
      return nCopy;
    }

    /** Up to the end of the message at most. */
    method ReadData(pch: seq<Byte>) returns (handled: int)
      requires Valid() && in_data && !Complete() && pch != []
      modifies this
      ensures Valid() && in_data && !Refused()
      ensures handled == Min(HEADER + SizeOf(old(hdrbuf)) - |old(Bytes())|, |pch|) > 0
      ensures Bytes() == old(Bytes()) + pch[..handled] && hdrbuf == old(hdrbuf)
      ensures |vRecv| <= nMessageSize && Announces(hdrbuf, nMessageSize) && |vRecv| <= nDataPos + 262144
    {
      var nRemaining := nMessageSize - nDataPos;
      var nCopy := Min(nRemaining, |pch|);
      if |vRecv| < nDataPos + nCopy {
        var n := Min(nMessageSize, nDataPos + nCopy + AHEAD);
        vRecv := vRecv + seq(n - |vRecv|, i => 0);
      }
      vRecv := vRecv[..nDataPos] + pch[..nCopy] + vRecv[nDataPos + nCopy..];
      nDataPos := nDataPos + nCopy;
      return nCopy;
    }

    /** The message read as a stream of its own. */
    ghost function Progress(): Parsed
      requires Valid()
      reads this
    {
      if Complete() then Parsed([Whole()], [], false) else Parsed([], Bytes(), Refused())
    }

    lemma ProgressIsBegun()
      requires Valid()
      ensures Begun(maxSize, Progress())
      ensures in_data ==> |Bytes()| >= HEADER && Bytes()[..HEADER] == hdrbuf && Bytes()[HEADER..] == vRecv[..nDataPos]
      ensures Refuses(maxSize, Bytes()) <==> Refused()
      ensures HasFrame(maxSize, Bytes()) <==> Complete()
    {
      if nHdrPos == HEADER {
        assert Bytes()[..HEADER] == hdrbuf;
        assert Bytes()[HEADER..] == vRecv[..nDataPos];
        assert !in_data ==> Bytes() == hdrbuf;
      }
    }

    /** One step: the message takes what it can. */
    method Absorb(pch: seq<Byte>) returns (handled: int)
      requires Valid() && !Complete() && pch != []
      modifies this
      ensures Valid() && handled <= |pch| && handled != 0
      ensures handled < 0 <==> Refused()
      ensures Progress() == Feed(maxSize, old(Progress()), if handled < 0 then pch else pch[..handled])
    {
      hide Feed;
      hide Begun;
      ghost var p := Progress();
      ghost var n := Min(if in_data then End0() - |Bytes()| else HEADER - |Bytes()|, |pch|);
      ProgressIsBegun();
      if !in_data {
        handled := ReadHeader(pch);
      } else {
        handled := ReadData(pch);
      }
      if p.refused {
        FeedRefused(maxSize, p, pch);
      } else {
        FeedWithin(maxSize, p, pch[..n]);
        ProgressIsBegun();
        if handled < 0 {
          FeedRefused(maxSize, Progress(), pch[n..]);
          FeedInPieces(maxSize, p, pch[..n], pch[n..]);
          assert pch[..n] + pch[n..] == pch;
        }
      }
    }

    ghost function End0(): nat
      requires Valid() && in_data
      reads this
    {
      HEADER + SizeOf(hdrbuf)
    }
  }

  // ---------------------------------------------------------------- the peer

  class CNode {
    const maxSize: nat
    var vRecvMsg: seq<CNetMessage>

    /** Only the last message may be under way. */
    ghost predicate Valid()
      reads this, vRecvMsg
    {
      && (forall i :: 0 <= i < |vRecvMsg| ==> vRecvMsg[i].Valid() && vRecvMsg[i].maxSize == maxSize)
      && (forall i, j :: 0 <= i < j < |vRecvMsg| ==> vRecvMsg[i] != vRecvMsg[j])
      && (forall i :: 0 <= i < |vRecvMsg| - 1 ==> vRecvMsg[i].Complete())
    }

    /** What the queue holds, read as messages. */
    ghost function State(): Parsed
      requires Valid()
      reads this, vRecvMsg
    {
      var n := |vRecvMsg|;
      if n == 0 then Parsed([], [], false) else Then(FramesOf(vRecvMsg[..n - 1]), vRecvMsg[n - 1])
    }

    constructor (maxSize: nat)
      ensures Valid() && State() == Parsed([], [], false) && this.maxSize == maxSize && vRecvMsg == []
    {
      this.maxSize, vRecvMsg := maxSize, [];
    }

    /** Receiving bytes is feeding them to the stream; the verdict is false when a header was refused. */
    method ReceiveMsgBytes(pch: seq<Byte>) returns (ok: bool)
      requires Valid()
      modifies this, vRecvMsg
      ensures Valid() && fresh(set m | m in vRecvMsg && m !in old(vRecvMsg))
      ensures State() == Feed(maxSize, old(State()), pch)
      ensures ok <==> pch == [] || !State().refused
    {
      var k := 0;
      hide Feed;
      hide State;
      hide Begun;
      ghost var p := State();
      StateIsBegun();
      FeedNothing(maxSize, p);
      while k < |pch|
        invariant 0 <= k <= |pch|
        invariant Valid() && fresh(set m | m in vRecvMsg && m !in old(vRecvMsg))
        invariant State() == Feed(maxSize, p, pch[..k])
        invariant k > 0 ==> !State().refused
        decreases |pch| - k
      {
        if vRecvMsg == [] || vRecvMsg[|vRecvMsg| - 1].Complete() {
          AddMessage();
        }
        ghost var q := State();
        var handled := Absorb(pch[k..]);
        if handled < 0 {
          FeedInPieces(maxSize, p, pch[..k], pch[k..]);
          assert pch[..k] + pch[k..] == pch;
          return false;
        }
        FeedInPieces(maxSize, p, pch[..k], pch[k..][..handled]);
        assert pch[..k] + pch[k..][..handled] == pch[..k + handled];
        k := k + handled;
      }
      assert pch[..k] == pch;
      return true;
    }

    lemma StateIsBegun()
      requires Valid()
      ensures Begun(maxSize, State())
    {
      if vRecvMsg != [] {
        vRecvMsg[|vRecvMsg| - 1].ProgressIsBegun();
      }
    }

    method AddMessage()
      requires Valid() && (vRecvMsg == [] || vRecvMsg[|vRecvMsg| - 1].Complete())
      modifies this
      ensures Valid() && State() == old(State())
      ensures vRecvMsg != [] && !vRecvMsg[|vRecvMsg| - 1].Complete()
      ensures exists m :: vRecvMsg == old(vRecvMsg) + [m] && fresh(m)
    {
      var m := new CNetMessage(maxSize);
      ghost var was := vRecvMsg;
      vRecvMsg := vRecvMsg + [m];
      assert vRecvMsg[..|vRecvMsg| - 1] == was;
    }

    /** One step: the last message takes what it can. */
    method Absorb(pch: seq<Byte>) returns (handled: int)
      requires Valid() && vRecvMsg != [] && !vRecvMsg[|vRecvMsg| - 1].Complete() && pch != []
      modifies vRecvMsg[|vRecvMsg| - 1]
      ensures Valid() && handled <= |pch| && handled != 0
      ensures handled < 0 <==> State().refused
      ensures State() == Feed(maxSize, old(State()), if handled < 0 then pch else pch[..handled])
    {
      hide Feed;
      hide Begun;
      ghost var front := FramesOf(vRecvMsg[..|vRecvMsg| - 1]);
      ghost var q := vRecvMsg[|vRecvMsg| - 1].Progress();
      handled := vRecvMsg[|vRecvMsg| - 1].Absorb(pch);
      assert FramesOf(vRecvMsg[..|vRecvMsg| - 1]) == front;
      FeedAfter(maxSize, front, q, if handled < 0 then pch else pch[..handled]);
    }
  }

  /** The reading of one connection, buffer by buffer, until a header is refused. */
  method Session(maxSize: nat, buffers: seq<seq<Byte>>) returns (node: CNode, disconnected: bool)
    requires forall b :: b in buffers ==> b != []
    ensures fresh(node) && node.Valid()
    ensures node.State() == Parse(maxSize, Join(buffers))
    ensures disconnected <==> Parse(maxSize, Join(buffers)).refused
  {
    hide Parse;
    hide Feed;
    node := new CNode(maxSize);
    disconnected := false;
    NothingParsed(maxSize);
    for k := 0 to |buffers|
      invariant fresh(node) && node.Valid() && node.maxSize == maxSize && fresh(node.vRecvMsg)
      invariant node.State() == Parse(maxSize, Join(buffers[..k]))
      invariant disconnected <==> node.State().refused
    {
      assert buffers[k] in buffers;
      JoinNext(buffers, k);
      ParseContinues(maxSize, Join(buffers[..k]), buffers[k]);
      if !disconnected {
        var ok := node.ReceiveMsgBytes(buffers[k]);
        disconnected := !ok;
      } else {
        FeedRefused(maxSize, node.State(), buffers[k]);
      }
    }
    assert buffers[..|buffers|] == buffers;
  }

  lemma NothingParsed(maxSize: nat)
    ensures Parse(maxSize, Join([])) == Parsed([], [], false)
  {
  }

  lemma {:induction false} JoinNext(pieces: seq<seq<Byte>>, k: nat)
    requires k < |pieces|
    ensures Join(pieces[..k + 1]) == Join(pieces[..k]) + pieces[k]
    decreases k
  {
    if k == 0 {
      assert pieces[..1] == [pieces[0]] && Join([pieces[0]]) == pieces[0] + Join([]);
    } else {
      JoinNext(pieces[1..], k - 1);
      assert pieces[..k + 1][1..] == pieces[1..][..k];
      assert pieces[..k][1..] == pieces[1..][..k - 1];
    }
  }

  lemma FeedNothing(maxSize: nat, p: Parsed)
    requires Begun(maxSize, p)
    ensures Feed(maxSize, p, []) == p
  {
    if !p.refused {
      assert p.rest + [] == p.rest;
      assert p.frames + [] == p.frames;
    }
  }

  ghost function FramesOf(msgs: seq<CNetMessage>): seq<Frame>
    requires forall i :: 0 <= i < |msgs| ==> msgs[i].Valid() && msgs[i].Complete()
    reads msgs
  {
    if msgs == [] then [] else FramesOf(msgs[..|msgs| - 1]) + [msgs[|msgs| - 1].Whole()]
  }

  /** The messages so far and then the last one. */
  ghost function Then(frames: seq<Frame>, m: CNetMessage): Parsed
    requires m.Valid()
    reads m
  {
    After(frames, m.Progress())
  }
}
