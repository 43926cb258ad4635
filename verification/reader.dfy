/** Reading the converter: one channel per transfer (`readMCP3008`), and all
    eight channels in order, stopping at the first transport error
    (`readAllChannels`). */
module Reader {
  import opened Frame
  import opened Bus

  /** The value `readMCP3008` returns next to a transport error. */
  const FailedSample: int := -1

  /** Go's `(int, error)` result of reading one channel; `None` is `nil`. */
  datatype Reply = Reply(value: int, err: Option<TxError>)

  /** Go's `([]int, error)` result of reading every channel; `None` is `nil`. */
  datatype Readings = Readings(values: Option<seq<int>>, err: Option<TxError>)

  /** The command frames for `n` consecutive channels starting at `from`. */
  function Frames(from: int, n: nat): (frames: seq<seq<byte>>)
    ensures |frames| == n
    ensures forall i :: 0 <= i < n ==> frames[i] == EncodeCommand(from + i)
  {
    seq(n, i requires 0 <= i => EncodeCommand(from + i))
  }

  /** A channel's frame followed by the frames of the channels after it. */
  lemma FramesCons(from: int, n: nat)
    ensures [EncodeCommand(from)] + Frames(from + 1, n) == Frames(from, n + 1)
  {
  }

  /** Index of the first failed transfer in `outs`, or `|outs|` if none
      failed: every outcome before it is a success, and it is a failure. */
  function FirstFailure(outs: seq<Outcome>): (k: nat)
    ensures k <= |outs|
    ensures forall i :: 0 <= i < k ==> outs[i].Ok?
    ensures k < |outs| ==> outs[k].Err?
  {
    if |outs| == 0 || outs[0].Err? then 0 else 1 + FirstFailure(outs[1..])
  }

  /** `readMCP3008(c, channel)`: send the channel's command frame in one
      transfer; on a transport error return the sentinel and the error
      unchanged, otherwise the decoded sample and no error. */
  function ReadMCP3008(c: Conn, channel: int): (r: (Reply, Conn))
    ensures r.1.answer == c.answer
    ensures r.1.sent == c.sent + [EncodeCommand(channel)]
    ensures r.0.err == None <==> Next(c, 0).Ok?
    ensures Next(c, 0).Ok? ==>
      var rx := Next(c, 0).rx;
      0 <= r.0.value <= MaxSample && r.0.value == (rx[1] as int % 4) * 256 + rx[2] as int
    ensures Next(c, 0).Err? ==>
      r.0 == Reply(FailedSample, Some(Next(c, 0).error))
  {
    var (outcome, c') := Tx(c, EncodeCommand(channel));
    match outcome
    case Err(e) => (Reply(FailedSample, Some(e)), c')
    case Ok(rx) =>
      DecodeArithmetic(rx);
      (Reply(DecodeSample(rx), None), c')
  }

  /** What the loop of `readAllChannels` promises when started at `channel`
      with the samples of the channels before it in `values`: it issues one
      transfer per channel until one fails, the transfers carry the frames of
      consecutive channels, and a failure discards every sample. */
  ghost predicate LoopOutcome(c: Conn, channel: nat, values: seq<int>, r: (Readings, Conn))
    requires channel <= Channels && |values| == Channels
  {
    var outs := Upcoming(c, Channels - channel);
    var k := FirstFailure(outs);
    && r.1.answer == c.answer
    && (k < |outs| ==>
          && r.0 == Readings(None, Some(outs[k].error))
          && r.1.sent == c.sent + Frames(channel, k + 1))
    && (k == |outs| ==>
          && r.0.err == None
          && r.0.values.Some?
          && |r.0.values.value| == Channels
          && r.0.values.value[..channel] == values[..channel]
          && (forall i :: channel <= i < Channels ==>
                r.0.values.value[i] == DecodeSample(outs[i - channel].rx))
          && r.1.sent == c.sent + Frames(channel, |outs|))
  }

  /** One successful iteration extends what the rest of the loop
      promises to what the loop from this channel promises. */
  lemma LoopStep(c: Conn, channel: nat, values: seq<int>, r: (Readings, Conn))
    requires channel < Channels && |values| == Channels
    requires Next(c, 0).Ok?
    requires
      var c' := Tx(c, EncodeCommand(channel)).1;
      LoopOutcome(c', channel + 1, values[channel := DecodeSample(Next(c, 0).rx)], r)
    ensures LoopOutcome(c, channel, values, r)
  {
    var outs := Upcoming(c, Channels - channel);
    UpcomingAfterTx(c, EncodeCommand(channel), Channels - (channel + 1));
    var k' := FirstFailure(outs[1..]);
    assert FirstFailure(outs) == k' + 1;
    if k' < |outs| - 1 {
      LoopStepLaterFailure(c, channel, values, r);
    } else {
      LoopStepNoFailure(c, channel, values, r);
    }
  }

  /** A failure further on reaches the caller unchanged, with this channel's
      frame in front of the frames sent after it. */
  lemma LoopStepLaterFailure(c: Conn, channel: nat, values: seq<int>, r: (Readings, Conn))
    requires channel < Channels && |values| == Channels
    requires Next(c, 0).Ok?
    requires
      var c' := Tx(c, EncodeCommand(channel)).1;
      LoopOutcome(c', channel + 1, values[channel := DecodeSample(Next(c, 0).rx)], r)
    requires
      var outs := Upcoming(c, Channels - channel);
      FirstFailure(outs[1..]) < |outs| - 1 && FirstFailure(outs) == FirstFailure(outs[1..]) + 1
    requires Upcoming(Tx(c, EncodeCommand(channel)).1, Channels - (channel + 1))
          == Upcoming(c, Channels - channel)[1..]
    ensures LoopOutcome(c, channel, values, r)
  {
    var outs := Upcoming(c, Channels - channel);
    var rest := outs[1..];
    var k' := FirstFailure(rest);
    assert rest[k'] == outs[k' + 1];
    SentStep(c.sent, channel, k' + 1, r.1.sent);
  }

  /** With no failure anywhere, this channel's sample sits in front of the
      samples read after it, and its frame in front of theirs. */
  lemma LoopStepNoFailure(c: Conn, channel: nat, values: seq<int>, r: (Readings, Conn))
    requires channel < Channels && |values| == Channels
    requires Next(c, 0).Ok?
    requires
      var c' := Tx(c, EncodeCommand(channel)).1;
      LoopOutcome(c', channel + 1, values[channel := DecodeSample(Next(c, 0).rx)], r)
    requires
      var outs := Upcoming(c, Channels - channel);
      FirstFailure(outs[1..]) == |outs| - 1 && FirstFailure(outs) == |outs|
    requires Upcoming(Tx(c, EncodeCommand(channel)).1, Channels - (channel + 1))
          == Upcoming(c, Channels - channel)[1..]
    ensures LoopOutcome(c, channel, values, r)
  {
    var outs := Upcoming(c, Channels - channel);
    var rest := outs[1..];
    SentStep(c.sent, channel, |rest|, r.1.sent);
    var vs := r.0.values.value;
    PrefixStep(values, channel, DecodeSample(outs[0].rx), vs);
    SuffixStep(vs, channel, outs);
  }

  /** This channel's frame sent before the frames of the channels after it
      extends the log by the frames from this channel on. */
  lemma SentStep(before: seq<seq<byte>>, channel: int, n: nat, sent: seq<seq<byte>>)
    requires sent == (before + [EncodeCommand(channel)]) + Frames(channel + 1, n)
    ensures sent == before + Frames(channel, n + 1)
  {
    FramesCons(channel, n);
    assert (before + [EncodeCommand(channel)]) + Frames(channel + 1, n)
        == before + ([EncodeCommand(channel)] + Frames(channel + 1, n));
  }

  /** Storing sample `d` at `channel` leaves the slots before it alone. */
  lemma PrefixStep(values: seq<int>, channel: nat, d: int, vs: seq<int>)
    requires channel < |values| == |vs|
    requires vs[..channel + 1] == values[channel := d][..channel + 1]
    ensures vs[..channel] == values[..channel] && vs[channel] == d
  {
    assert vs[channel] == vs[..channel + 1][channel];
    assert vs[..channel] == vs[..channel + 1][..channel];
  }

  /** The sample at `channel` in front of the samples decoded from the
      remaining answers covers every slot from `channel` on. */
  lemma SuffixStep(vs: seq<int>, channel: nat, outs: seq<Outcome>)
    requires channel < Channels && |vs| == Channels && |outs| == Channels - channel
    requires forall i :: 0 <= i < |outs| ==> outs[i].Ok?
    requires vs[channel] == DecodeSample(outs[0].rx)
    requires forall i :: channel + 1 <= i < Channels ==>
      vs[i] == DecodeSample(outs[1..][i - (channel + 1)].rx)
    ensures forall i :: channel <= i < Channels ==> vs[i] == DecodeSample(outs[i - channel].rx)
  {
    forall i | channel < i < Channels
      ensures vs[i] == DecodeSample(outs[i - channel].rx)
    {
      assert outs[1..][i - (channel + 1)] == outs[i - channel];
    }
  }

  /** The loop of `readAllChannels` from `channel` on, with the samples of
      the channels before it already stored in `values`. */
  function ReadLoop(c: Conn, channel: nat, values: seq<int>): (r: (Readings, Conn))
    requires channel <= Channels && |values| == Channels
    ensures LoopOutcome(c, channel, values, r)
    decreases Channels - channel
  {
    if channel < Channels then
      var (reply, c') := ReadMCP3008(c, channel);
      if reply.err != None then
        assert Frames(channel, 1) == [EncodeCommand(channel)];
        (Readings(None, reply.err), c')
      else
        var r := ReadLoop(c', channel + 1, values[channel := reply.value]);
        LoopStep(c, channel, values, r);
        r
    else
      (Readings(Some(values), None), c)
  }

  /** `readAllChannels(c)`: channels 0 to 7 in order, one transfer each.
      If transfer k is the first to fail, the result is that transfer's
      error and no samples, after exactly k + 1 transfers carrying the
      frames of channels 0..k. Otherwise the result is eight samples, sample
      i decoded from the i-th answer, after the frames of channels 0..7. */
  function ReadAllChannels(c: Conn): (r: (Readings, Conn))
    ensures r.1.answer == c.answer
    ensures
      var outs := Upcoming(c, Channels);
      var k := FirstFailure(outs);
      && (r.0.err == None <==> k == Channels)
      && (k < Channels ==>
            && r.0 == Readings(None, Some(outs[k].error))
            && r.1.sent == c.sent + Frames(0, k + 1))
      && (k == Channels ==>
            && r.0.values.Some?
            && |r.0.values.value| == Channels
            && (forall i :: 0 <= i < Channels ==>
                  r.0.values.value[i] == DecodeSample(outs[i].rx))
            && r.1.sent == c.sent + Frames(0, Channels))
  {
    ReadLoop(c, 0, seq(Channels, _ => 0))
  }

  // ---------------------------------------------------------------------
  // Properties of the collector
  // ---------------------------------------------------------------------

  /** `FirstFailure` is pinned down by its contract: any index before which
      everything succeeded and at which a failure occurred is it. */
  lemma {:induction false} FirstFailureUnique(outs: seq<Outcome>, k: nat)
    requires k <= |outs|
    requires forall i :: 0 <= i < k ==> outs[i].Ok?
    requires k < |outs| ==> outs[k].Err?
    ensures FirstFailure(outs) == k
    decreases |outs|
  {
    if k > 0 {
      assert outs[0].Ok?;
      FirstFailureUnique(outs[1..], k - 1);
    }
  }

  /** The collector succeeds exactly when all eight transfers do, and then
      every sample is in range and is the arithmetic reading of its
      answer. */
  lemma SucceedsIffAllTransfersSucceed(c: Conn)
    ensures ReadAllChannels(c).0.err == None <==>
      forall i :: 0 <= i < Channels ==> Next(c, i).Ok?
    ensures ReadAllChannels(c).0.err == None ==>
      var vs := ReadAllChannels(c).0.values.value;
      forall i :: 0 <= i < Channels ==>
        var rx := Next(c, i).rx;
        0 <= vs[i] <= MaxSample && vs[i] == (rx[1] as int % 4) * 256 + rx[2] as int
  {
    var outs := Upcoming(c, Channels);
    if forall i :: 0 <= i < Channels ==> Next(c, i).Ok? {
      FirstFailureUnique(outs, Channels);
      forall i | 0 <= i < Channels {
        DecodeArithmetic(outs[i].rx);
      }
    }
  }

  /** If transfer k is the first to fail, the collector returns no samples
      and that transfer's error, having issued exactly k + 1 transfers, the
      j-th of them carrying channel j's frame; channels after k are never
      read. */
  lemma FailureAtChannel(c: Conn, k: nat)
    requires k < Channels
    requires forall i :: 0 <= i < k ==> Next(c, i).Ok?
    requires Next(c, k).Err?
    ensures ReadAllChannels(c).0 == Readings(None, Some(Next(c, k).error))
    ensures |ReadAllChannels(c).1.sent| == |c.sent| + k + 1
    ensures forall j :: 0 <= j <= k ==>
      ReadAllChannels(c).1.sent[|c.sent| + j] == EncodeCommand(j)
  {
    FirstFailureUnique(Upcoming(c, Channels), k);
  }

  /** Transfers are issued in channel order: the j-th transfer of a
      collection asks for channel j, and there are as many transfers as
      channels read up to and including the first failure. */
  lemma TransfersInChannelOrder(c: Conn)
    ensures
      var k := FirstFailure(Upcoming(c, Channels));
      |ReadAllChannels(c).1.sent| - |c.sent| == (if k < Channels then k + 1 else Channels)
    ensures
      var sent := ReadAllChannels(c).1.sent;
      |c.sent| <= |sent| &&
      forall j :: |c.sent| <= j < |sent| ==>
        CommandChannel(sent[j]) == j - |c.sent| && IsSingleEnded(sent[j])
  {
    var sent := ReadAllChannels(c).1.sent;
    forall j | |c.sent| <= j < |sent|
      ensures CommandChannel(sent[j]) == j - |c.sent| && IsSingleEnded(sent[j])
    {
      CommandRoundTrip(j - |c.sent|);
    }
  }

  /** Answers after the first failure are never consulted: two connections
      with the same history that agree up to and including the first failed
      transfer give the same result and send the same frames. */
  lemma LaterAnswersIgnored(c: Conn, d: Conn)
    requires c.sent == d.sent
    requires
      var k := FirstFailure(Upcoming(c, Channels));
      forall i :: 0 <= i < Channels && i <= k ==> Next(c, i) == Next(d, i)
    ensures ReadAllChannels(c).0 == ReadAllChannels(d).0
    ensures ReadAllChannels(c).1.sent == ReadAllChannels(d).1.sent
  {
    var oc, od := Upcoming(c, Channels), Upcoming(d, Channels);
    var k := FirstFailure(oc);
    if k < Channels {
      assert forall i :: 0 <= i <= k ==> oc[i] == od[i];
      FirstFailureUnique(od, k);
    } else {
      assert forall i :: 0 <= i < Channels ==> oc[i] == od[i];
      SameAnswersSameReadings(c, d);
    }
  }

  /** Two connections with the same history and the same next eight answers
      give the same readings and send the same frames. */
  lemma SameAnswersSameReadings(c: Conn, d: Conn)
    requires c.sent == d.sent
    requires Upcoming(c, Channels) == Upcoming(d, Channels)
    ensures ReadAllChannels(c).0 == ReadAllChannels(d).0
    ensures ReadAllChannels(c).1.sent == ReadAllChannels(d).1.sent
  {
    var outs := Upcoming(c, Channels);
    var rc, rd := ReadAllChannels(c), ReadAllChannels(d);
    if FirstFailure(outs) == Channels {
      SamplesDetermined(rc.0.values.value, rd.0.values.value, outs);
    }
  }

  /** Eight samples each decoded from the same eight answers are equal. */
  lemma SamplesDetermined(vc: seq<int>, vd: seq<int>, outs: seq<Outcome>)
    requires |vc| == Channels && |vd| == Channels && |outs| == Channels
    requires forall i :: 0 <= i < Channels ==> outs[i].Ok?
    requires forall i :: 0 <= i < Channels ==> vc[i] == DecodeSample(outs[i].rx)
    requires forall i :: 0 <= i < Channels ==> vd[i] == DecodeSample(outs[i].rx)
    ensures vc == vd
  {
  }

  /** Encoding then decoding through the whole collector: a device that
      answers every transfer with the ideal response for its channel's
      sample has exactly those eight samples read back. */
  lemma DeviceEndToEnd(c: Conn, vals: seq<int>)
    requires |vals| == Channels
    requires forall i :: 0 <= i < Channels ==> 0 <= vals[i] <= MaxSample
    requires forall i :: 0 <= i < Channels ==> Next(c, i) == Ok(DeviceResponse(0, 0, vals[i]))
    ensures ReadAllChannels(c).0 == Readings(Some(vals), None)
  {
    var outs := Upcoming(c, Channels);
    FirstFailureUnique(outs, Channels);
    var vs := ReadAllChannels(c).0.values.value;
    forall i | 0 <= i < Channels
      ensures vs[i] == vals[i]
    {
      DecodeDeviceRoundTrip(0, 0, vals[i]);
    }
    assert vs == vals;
  }

  /** A device answering zero on every channel yields eight zero samples. */
  lemma AllZeroResponses(c: Conn)
    requires forall i :: 0 <= i < Channels ==> Next(c, i) == Ok([0, 0, 0])
    ensures ReadAllChannels(c).0 == Readings(Some([0, 0, 0, 0, 0, 0, 0, 0]), None)
  {
    var outs := Upcoming(c, Channels);
    FirstFailureUnique(outs, Channels);
    var vs := ReadAllChannels(c).0.values.value;
    forall i | 0 <= i < Channels
      ensures vs[i] == 0
    {
      DecodeArithmetic(outs[i].rx);
    }
    assert vs == [0, 0, 0, 0, 0, 0, 0, 0];
  }
}
