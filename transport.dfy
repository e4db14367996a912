/** The reader as the MIFARE layer sees it: a command is sent and acknowledged
    (or not), then a reply of a fixed length is read. The reader's behaviour is
    supplied in advance as a script of acknowledgements and replies, so every
    sequence of answers a real reader could give is one initial state. */
module Transport {
  import opened Base

  /** The state of the link: acknowledgements and replies still to come, and the
      command frames sent so far. */
  datatype Link = Link(acks: seq<bool>, replies: seq<seq<byte>>, sent: seq<seq<byte>>)

  /** The next acknowledgement; a reader that has stopped answering never acknowledges. */
  function NextAck(acks: seq<bool>): bool {
    acks != [] && acks[0]
  }

  /** What a read of `n` bytes delivers: the next reply cut or zero-padded to `n`
      bytes; all zeros once the reader has stopped answering. */
  function NextReply(replies: seq<seq<byte>>, n: nat): seq<byte> {
    Fit(if replies == [] then [] else replies[0], n)
  }

  /** The script after its next entry has been used. */
  function Rest<T>(s: seq<T>): (r: seq<T>)
    ensures s == [] ==> r == []
    ensures s != [] ==> [s[0]] + r == s
  {
    if s == [] then [] else s[1..]
  }

  /** The outcome of one command: whether it was acknowledged, the reply read
      after an acknowledgement, and the link afterwards. */
  datatype Exchange = Exchange(acked: bool, reply: seq<byte>, after: Link)

  /** Send `frame`; when the reader acknowledges it, read an `n`-byte reply.
      This is the pattern every command of the MIFARE layer follows. */
  function Transact(l: Link, frame: seq<byte>, n: nat): Exchange {
    if NextAck(l.acks) then Exchange(true, NextReply(l.replies, n), Link(Rest(l.acks), Rest(l.replies), l.sent + [frame]))
    else Exchange(false, [], Link(Rest(l.acks), l.replies, l.sent + [frame]))
  }

  /** The transport object (`board`) the driver talks through. */
  class Board {
    var acks: seq<bool>
    var replies: seq<seq<byte>>
    var sent: seq<seq<byte>>

    function State(): Link
      reads this
    {
      Link(acks, replies, sent)
    }

    constructor (acks: seq<bool>, replies: seq<seq<byte>>)
      ensures State() == Link(acks, replies, [])
    {
      this.acks := acks;
      this.replies := replies;
      this.sent := [];
    }

    /** `sendCommandCheckAck`: sends the first `n` bytes of `frame` and reports
        whether the reader acknowledged them. */
    method SendCommandCheckAck(frame: array<byte>, n: nat) returns (ack: bool)
      requires n <= frame.Length
      modifies this
      ensures ack == NextAck(old(acks))
      ensures State() == Link(Rest(old(acks)), old(replies), old(sent) + [frame[..n]])
    {
      sent := sent + [frame[..n]];
      ack := NextAck(acks);
      acks := Rest(acks);
    }

    /** `readdata`: reads an `n`-byte reply into the front of `buffer`. */
    method ReadData(buffer: array<byte>, n: nat)
      requires n <= buffer.Length
      modifies this, buffer
      ensures buffer[..n] == NextReply(old(replies), n)
      ensures buffer[n..] == old(buffer[n..])
      ensures State() == Link(old(acks), Rest(old(replies)), old(sent))
    {
      var r := NextReply(replies, n);
      forall i | 0 <= i < n {
        buffer[i] := r[i];
      }
      assert buffer[..n] == r;
      assert buffer[n..] == old(buffer[n..]);
      replies := Rest(replies);
    }
  }
}
