/**
 Message framing over a TCP stream, as the gateway talks to its signalling peer: a length in
 network byte order, then the message.  The stream is adversarial: `recv` may cut it anywhere
 and be interrupted any finite number of times.
 */
module Framing {
  import opened Bytes

  const INT_MAX: nat := 0x7fff_ffff
  const BUFFER_SIZE: nat := 10240

  // ---- frames ----

  function Frame(m: seq<bv8>): (f: seq<bv8>)
    requires |m| < 0x1_0000_0000
    ensures |f| == 4 + |m|
  {
    Encode4(|m|) + m
  }

  /** Four octets of length, the most significant first, and the message. */
  lemma FrameOctets(m: seq<bv8>)
    requires |m| < 0x1_0000_0000
    ensures var f := Frame(m);
            && NatOf(f[0]) == |m| / 0x100_0000 && NatOf(f[1]) == |m| / 0x1_0000 % 0x100
            && NatOf(f[2]) == |m| / 0x100 % 0x100 && NatOf(f[3]) == |m| % 0x100
            && f[4..] == m
  {
    hide NatOf, Encode4;
    Encode4Octets(|m|);
  }

  /** Messages that sendPacket frames: not empty, and short enough for the length field. */
  predicate Sendable(msgs: seq<seq<bv8>>) {
    forall i :: 0 <= i < |msgs| ==> 0 < |msgs[i]| < 0x1_0000_0000
  }

  /** The octet stream of a list of messages. */
  function Wire(msgs: seq<seq<bv8>>): seq<bv8>
    requires Sendable(msgs)
    decreases |msgs|
  {
    if msgs == [] then [] else Frame(msgs[0]) + Wire(msgs[1..])
  }

  /** The stream starts with a complete frame. */
  predicate HasFrame(stream: seq<bv8>) {
    |stream| >= 4 && |stream| >= 4 + Decode4(stream[..4])
  }

  lemma WireHasFrame(msgs: seq<seq<bv8>>)
    requires Sendable(msgs) && msgs != []
    ensures var stream := Wire(msgs);
            && HasFrame(stream)
            && Decode4(stream[..4]) == |msgs[0]|
            && stream[4..4 + |msgs[0]|] == msgs[0]
            && Sendable(msgs[1..])
            && stream[4 + |msgs[0]|..] == Wire(msgs[1..])
  {
    hide Encode4, Decode4;
    DecodeEncode4(|msgs[0]|);
    var stream, rest := Wire(msgs), Wire(msgs[1..]);
    assert stream == Encode4(|msgs[0]|) + msgs[0] + rest;
    assert stream[..4] == Encode4(|msgs[0]|);
  }

  /** The position of the first message that does not fit `len` octets, or the number of messages. */
  function FirstTooLong(msgs: seq<seq<bv8>>, len: nat): (k: nat)
    ensures k <= |msgs|
    ensures forall i :: 0 <= i < k ==> |msgs[i]| <= len
    ensures k < |msgs| ==> |msgs[k]| > len
  {
    if msgs == [] || |msgs[0]| > len then 0
    else
      var k := FirstTooLong(msgs[1..], len);
      assert forall i :: 1 <= i < k + 1 ==> msgs[i] == msgs[1..][i - 1];
      k + 1
  }

  // ---- the socket ----

  /** How the peer ends the stream: by closing it, or with an error. */
  datatype Ending = Closed | Broken

  class Socket {
    var incoming: seq<bv8>    // what the peer still sends
    var ending: Ending        // what comes after it
    var interrupts: nat       // how many signals may still interrupt a call
    var outgoing: seq<bv8>    // what was sent to the peer

    constructor (incoming: seq<bv8>, ending: Ending, interrupts: nat)
      ensures this.incoming == incoming && this.ending == ending && outgoing == []
    {
      this.incoming, this.ending, this.interrupts := incoming, ending, interrupts;
      outgoing := [];
    }

    /** recv: some octets of the stream, but perhaps fewer than there is room for. */
    method Recv(buf: array<bv8>, at: nat, n: nat) returns (r: int, interrupted: bool)
      requires 0 < n && at + n <= buf.Length
      modifies this`incoming, this`interrupts, buf
      ensures interrupted ==> r == -1 && incoming == old(incoming) && interrupts < old(interrupts) && buf[..] == old(buf[..])
      ensures !interrupted ==> interrupts == old(interrupts)
      ensures !interrupted && old(incoming) == [] ==>
                r == (if ending == Closed then 0 else -1) && incoming == [] && buf[..] == old(buf[..])
      ensures !interrupted && old(incoming) != [] ==>
                && 0 < r <= n && r <= |old(incoming)| && incoming == old(incoming)[r..]
                && buf[..] == old(buf[..at]) + old(incoming)[..r] + old(buf[at + r..])
    {
      if interrupts > 0 {
        if * {
          interrupts := interrupts - 1;
          return -1, true;
        }
      }
      if incoming == [] {
        return if ending == Closed then 0 else -1, false;
      }
      var k: nat :| 0 < k <= n && k <= |incoming|;
      ghost var before := buf[..];
      for i := 0 to k
        invariant incoming == old(incoming) && interrupts == old(interrupts)
        invariant forall j :: 0 <= j < buf.Length ==> buf[j] == if at <= j < at + i then incoming[j - at] else before[j]
      {
        buf[at + i] := incoming[i];
      }
      incoming := incoming[k..];
      return k, false;
    }

    /** readn: as many octets as asked for, unless the stream ends before. */
    method Readn(buf: array<bv8>, len: nat) returns (r: int)
      requires len <= buf.Length && len <= INT_MAX
      modifies this`incoming, this`interrupts, buf
      ensures |old(incoming)| >= len ==>
                r == len && incoming == old(incoming)[len..] && buf[..] == old(incoming)[..len] + old(buf[len..])
      ensures |old(incoming)| < len ==> incoming == [] && r == if ending == Closed then |old(incoming)| else -1
    {
      ghost var stream, rest := incoming, buf[len..];
      var at := 0;
      while at < len
        invariant 0 <= at <= len && at <= |stream| && incoming == stream[at..]
        invariant buf[..at] == stream[..at] && buf[len..] == rest
        decreases len - at, interrupts
      {
        ghost var before := buf[..];
        var got, interrupted := Recv(buf, at, len - at);
        if got < 0 {
          if interrupted {
            continue;
          }
          return -1;
        }
        if got == 0 {
          return at;
        }
        assert buf[..at + got] == before[..at] + stream[at..][..got];
        assert stream[..at + got] == stream[..at] + stream[at..][..got];
        at := at + got;
      }
      assert buf[..] == buf[..len] + buf[len..];
      return len;
    }

    /** The octets of a frame that is too long for the buffer, read and dropped. */
    method SkipFrame(buf: array<bv8>, len: nat, n: nat) returns (r: int)
      requires 0 < len <= buf.Length && len <= INT_MAX && n > len
      modifies this`incoming, this`interrupts, buf
      ensures |old(incoming)| >= n ==> r == -1 && incoming == old(incoming)[n..]
      ensures |old(incoming)| < n ==> r == (if ending == Closed then 0 else -1) && incoming == []
    {
      ghost var stream := incoming;
      var left, part := n, len;
      while left > 0
        invariant 0 <= left <= n && n - left <= |stream| && incoming == stream[n - left..]
        invariant part <= left && (left > 0 ==> part > 0) && part <= len
      {
        var got := Readn(buf, part);
        if got != part {
          return if got < 0 then got else 0;
        }
        left := left - part;
        if part > left {
          part := left;
        }
      }
      return -1;
    }

    /**
     readPacket: one frame.  A message that fits is returned; one that does not is dropped, and
     the stream stands at the next frame in both cases.  A stream that ends within the frame
     is used up.
     */
    method ReadPacket(buf: array<bv8>, len: nat) returns (r: int)
      requires 0 < len <= buf.Length && len <= INT_MAX
      modifies this`incoming, this`interrupts, buf
      ensures var stream := old(incoming);
              if HasFrame(stream) then
                var n := Decode4(stream[..4]);
                && incoming == stream[4 + n..]
                && (if n <= len then r == n && buf[..n] == stream[4..4 + n] else r == -1)
              else
                incoming == [] && r == if ending == Closed then 0 else -1
    {
      hide Decode4;
      ghost var stream := incoming;
      var header := new bv8[4];
      var got := Readn(header, 4);
      if got != 4 {
        return if got < 0 then got else 0;
      }
      assert header[..] == stream[..4];
      var n := Decode4(header[..]);
      if n > len {
        r := SkipFrame(buf, len, n);
        assert HasFrame(stream) ==> incoming == stream[4 + n..];
        return;
      }
      got := Readn(buf, n);
      if got != n {
        return if got < 0 then got else 0;
      }
      assert buf[..n] == stream[4..][..n];
      return got;
    }

    /** The receive loop of the gateway: messages until readPacket returns no positive number. */
    method ReceiveAll(ghost sent: seq<seq<bv8>>) returns (msgs: seq<seq<bv8>>, last: int)
      requires Sendable(sent) && incoming == Wire(sent)
      modifies this`incoming, this`interrupts
      ensures var k := FirstTooLong(sent, BUFFER_SIZE);
              && msgs == sent[..k]
              && last == (if k < |sent| || ending == Broken then -1 else 0)
              && (if k < |sent| then Sendable(sent[k + 1..]) && incoming == Wire(sent[k + 1..]) else incoming == [])
    {
      hide Decode4, Frame;
      var message := new bv8[BUFFER_SIZE];
      msgs := [];
      ghost var i := 0;
      while true
        invariant i <= FirstTooLong(sent, BUFFER_SIZE) && msgs == sent[..i]
        invariant Sendable(sent[i..]) && incoming == Wire(sent[i..])
        decreases |sent| - i
      {
        if i < |sent| {
          WireHasFrame(sent[i..]);
          assert sent[i..][1..] == sent[i + 1..];
        }
        last := ReadPacket(message, BUFFER_SIZE);
        if last <= 0 {
          return;
        }
        msgs := msgs + [message[..last]];
        i := i + 1;
      }
    }

    /** sendPacket: the text before the terminating zero as one frame; nothing for an empty text. */
    method SendPacket(text: seq<bv8>) returns (sendlen: nat)
      requires 0 in text && StrLen(text) < BUFFER_SIZE
      modifies this`outgoing
      ensures var m := text[..StrLen(text)];
              && outgoing == (if m == [] then old(outgoing) else old(outgoing) + Frame(m))
              && sendlen == if m == [] then 0 else |m| + 4
    {
      var n := StrLen(text);
      if n > 0 {
        outgoing := outgoing + Encode4(n) + text[..n];
        return n + 4;
      }
      return 0;
    }
  }

  // ---- from sendPacket to readPacket ----

  predicate Texts(texts: seq<seq<bv8>>) {
    forall i :: 0 <= i < |texts| ==> 0 in texts[i] && StrLen(texts[i]) < BUFFER_SIZE
  }

  /** The messages in a list of zero-terminated texts; an empty text is none. */
  function Messages(texts: seq<seq<bv8>>): (msgs: seq<seq<bv8>>)
    requires Texts(texts)
    ensures Sendable(msgs) && forall i :: 0 <= i < |msgs| ==> |msgs[i]| < BUFFER_SIZE
    decreases |texts|
  {
    if texts == [] then []
    else
      var n := |texts| - 1;
      var m := texts[n][..StrLen(texts[n])];
      if m == [] then Messages(texts[..n]) else Messages(texts[..n]) + [m]
  }

  lemma {:induction false} WireOneMore(msgs: seq<seq<bv8>>, m: seq<bv8>)
    requires Sendable(msgs) && 0 < |m| < 0x1_0000_0000
    ensures Sendable(msgs + [m]) && Wire(msgs + [m]) == Wire(msgs) + Frame(m)
    decreases |msgs|
  {
    hide Frame;
    if msgs == [] {
      assert Wire([m]) == Frame(m) + Wire([]);
    } else {
      assert (msgs + [m])[1..] == msgs[1..] + [m] && (msgs + [m])[0] == msgs[0];
      WireOneMore(msgs[1..], m);
      assert (Frame(msgs[0]) + Wire(msgs[1..])) + Frame(m) == Frame(msgs[0]) + (Wire(msgs[1..]) + Frame(m));
    }
  }

  /**
   Whatever one end sends, the other end receives: exactly the texts that are not empty, in
   order, however the stream is cut into pieces and interrupted on the way.
   */
  method Exchange(texts: seq<seq<bv8>>, interrupts: nat) returns (msgs: seq<seq<bv8>>, last: int)
    requires Texts(texts)
    ensures msgs == Messages(texts) && last == 0
  {
    hide Frame, StrLen;
    var sender := new Socket([], Closed, 0);
    for i := 0 to |texts|
      invariant fresh(sender) && sender.outgoing == Wire(Messages(texts[..i]))
    {
      assert texts[..i + 1][..i] == texts[..i];
      var m := texts[i][..StrLen(texts[i])];
      if m != [] {
        WireOneMore(Messages(texts[..i]), m);
      }
      var sent := sender.SendPacket(texts[i]);
    }
    assert texts[..|texts|] == texts;
    ghost var all := Messages(texts);
    var receiver := new Socket(sender.outgoing, Closed, interrupts);
    msgs, last := receiver.ReceiveAll(all);
    assert all[..|all|] == all;
  }

  /** strlen */
  function StrLen(text: seq<bv8>): (n: nat)
    requires 0 in text
    ensures n < |text| && text[n] == 0 && 0 !in text[..n]
  {
    if text[0] == 0 then 0
    else
      var n := StrLen(text[1..]);
      assert text[..n + 1] == [text[0]] + text[1..][..n];
      n + 1
  }
}
