/** The SPI connection the reader talks through, reduced to what the reader
    can observe of it. The electrical transfer is a call into a library this
    model does not contain, so the connection is an oracle: `answer(i)` is
    what the i-th transfer on it yields, either the three bytes clocked back
    into the receive buffer or a transport error. The connection also keeps
    the log of frames sent so far, which is how the reader's sequencing is
    stated. */
module Bus {
  import opened Frame

  datatype Option<+T> = None | Some(value: T)

  /** A transport failure. Go's `error` is opaque to the reader, which only
      passes it on; it is identified here by its message. */
  datatype TxError = TxError(message: string)

  /** What one transfer yields. */
  datatype Outcome = Ok(rx: Rx) | Err(error: TxError)

  /** A connection: the device's answers, transfer by transfer, and the
      frames clocked out on it so far, oldest first. */
  datatype Conn = Conn(answer: nat -> Outcome, sent: seq<seq<byte>>)

  /** `c.Tx(tx, rx)`: send one frame and receive the next answer. The frame
      is appended to the log and the device's answers are left as they are. */
  function Tx(c: Conn, tx: seq<byte>): (r: (Outcome, Conn))
    ensures r.0 == Next(c, 0)
    ensures r.1.answer == c.answer && r.1.sent == c.sent + [tx]
  {
    (Next(c, 0), Conn(c.answer, c.sent + [tx]))
  }

  /** After a transfer, the answer `i` transfers ahead is the one that was
      `i + 1` transfers ahead before it: each answer is consumed once. */
  lemma TxAdvances(c: Conn, tx: seq<byte>, i: nat)
    ensures Next(Tx(c, tx).1, i) == Next(c, i + 1)
  {
  }

  /** The answer the connection will give `i` transfers from now. */
  function Next(c: Conn, i: nat): Outcome
  {
    c.answer(|c.sent| + i)
  }

  /** The next `n` answers the connection will give, in order. */
  function Upcoming(c: Conn, n: nat): (outs: seq<Outcome>)
    ensures |outs| == n
    ensures forall i :: 0 <= i < n ==> outs[i] == Next(c, i)
  {
    seq(n, i requires 0 <= i => Next(c, i))
  }

  /** After one transfer, the upcoming answers are the old ones minus the
      first. */
  lemma UpcomingAfterTx(c: Conn, tx: seq<byte>, n: nat)
    ensures Upcoming(Tx(c, tx).1, n) == Upcoming(c, n + 1)[1..]
  {
  }
}
