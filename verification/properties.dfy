/** What the driver's operations guarantee, stated over their reference runs
    against every script of device replies. */
module Properties {
  import opened Bytes
  import opened I2c
  import opened Defmt
  import opened Stts22h

  /** A STATUS reply that reports a conversion still in progress. */
  predicate BusyReply(reply: Reply) {
    reply.Answer? && Status(Received(1, reply.data)[0]).Busy()
  }

  /** Every wait issues at least one transaction, takes one reply per
      transaction, and stops at the first failed one: all replies before the
      last were answers, and it fails exactly when the last reply did, with
      that reply's error. */
  lemma {:induction false} AwaitConsumes(phase: Phase, script: seq<Reply>)
    ensures var a := Await(phase, script); var n := |a.events|;
      && n >= 1
      && a.rest == Drop(script, n)
      && (forall i :: 0 <= i < n - 1 ==> ReplyAt(script, i).Answer?)
      && (a.result.Err? <==> ReplyAt(script, n - 1).Failed?)
      && (a.result.Err? ==> a.result.error == ReplyAt(script, n - 1).error)
    decreases |script|
  {
    var reply := ReplyAt(script, 0);
    if reply.Answer? && After(phase, reply.data).Continue? {
      var next, rest := After(phase, reply.data).next, Drop(script, 1);
      AwaitConsumes(next, rest);
      var b := Await(next, rest);
      var n := |b.events| + 1;
      var a := Await(phase, script);
      assert a == Prepend([Transaction(phase)], b);
      assert |a.events| == n && a.rest == b.rest && a.result == b.result;
      DropDrop(script, 1, |b.events|);
      forall i | 1 <= i < n
        ensures ReplyAt(rest, i - 1) == ReplyAt(script, i)
      {
        ReplyAtDrop(script, 1, i - 1);
      }
      assert ReplyAt(script, n - 1) == ReplyAt(rest, |b.events| - 1);
    }
  }

  /** The order of a wait from the first poll: STATUS reads, every one
      but the last two answered busy, and at most one other transaction,
      last. A wait that ends at a STATUS read has failed there, every
      earlier answer having been busy. */
  lemma {:induction false} AwaitPolls(script: seq<Reply>)
    ensures var a := Await(Poll, script); var ev := a.events; var n := |ev|;
      && n >= 1
      && (forall i :: 0 <= i < n - 1 ==> ev[i] == Transaction(Poll))
      && (forall i :: 0 <= i < n - 2 ==> BusyReply(ReplyAt(script, i)))
      && (ev[n - 1] == Transaction(Poll) ==> a.result.Err? && (n >= 2 ==> BusyReply(ReplyAt(script, n - 2))))
    decreases |script|
  {
    var reply := ReplyAt(script, 0);
    var rest := Drop(script, 1);
    if BusyReply(reply) {
      AwaitPolls(rest);
      var b := Await(Poll, rest);
      var ev := [Transaction(Poll)] + b.events;
      assert Await(Poll, script).events == ev;
      forall i | 1 <= i < |ev| - 1
        ensures ev[i] == Transaction(Poll) && ReplyAt(script, i) == ReplyAt(rest, i - 1)
      {
        assert ev[i] == b.events[i - 1];
        ReplyAtDrop(script, 1, i - 1);
      }
    } else if reply.Answer? {
      assert Await(Poll, script).events == [Transaction(Poll)] + Await(ReadSample, rest).events;
    }
  }

  /** What ends a wait from the first poll: a failed STATUS read, or the
      sample read, after a STATUS answer that was not busy. */
  lemma {:induction false} AwaitLast(script: seq<Reply>)
    ensures var a := Await(Poll, script); var ev := a.events; var n := |ev|;
      && n >= 1
      && (ev[n - 1] == Transaction(Poll) || ev[n - 1] == Transaction(ReadSample))
      && (ev[n - 1] == Transaction(ReadSample) ==> n >= 2 && ReplyAt(script, n - 2).Answer? && !BusyReply(ReplyAt(script, n - 2)))
    decreases |script|
  {
    var reply := ReplyAt(script, 0);
    var rest := Drop(script, 1);
    if BusyReply(reply) {
      AwaitLast(rest);
      var b := Await(Poll, rest);
      assert Await(Poll, script) == Prepend([Transaction(Poll)], b);
      if |b.events| >= 2 {
        ReplyAtDrop(script, 1, |b.events| - 2);
      }
    } else if reply.Answer? {
      assert Await(Poll, script) == Prepend([Transaction(Poll)], Await(ReadSample, rest));
    }
  }

  /** A wait from the first poll that succeeds ends with the sample read, and
      its value is the decoding of the two bytes that read received. */
  lemma {:induction false} AwaitResult(script: seq<Reply>)
    ensures var a := Await(Poll, script); var n := |a.events|;
      a.result.Ok? ==>
        && n >= 1
        && a.events[n - 1] == Transaction(ReadSample)
        && ReplyAt(script, n - 1).Answer?
        && a.result.value == FromLeBytes(Received(2, ReplyAt(script, n - 1).data))
    decreases |script|
  {
    var reply := ReplyAt(script, 0);
    var rest := Drop(script, 1);
    if BusyReply(reply) {
      AwaitResult(rest);
      var b := Await(Poll, rest);
      assert Await(Poll, script) == Prepend([Transaction(Poll)], b);
      if b.result.Ok? {
        ReplyAtDrop(script, 1, |b.events| - 1);
      }
    } else if reply.Answer? {
      assert Await(Poll, script) == Prepend([Transaction(Poll)], Await(ReadSample, rest));
      ReplyAtDrop(script, 1, 0);
    }
  }

  /** The trigger's two transactions take the first two replies. */
  lemma TriggerRest(script: seq<Reply>)
    ensures TriggerRun(script).result.Ok? ==> TriggerRun(script).rest == Drop(script, 2)
  {
    DropDrop(script, 1, 1);
  }

  /** `temperature` takes one reply per transaction and stops at the first
      failed one: every reply before the last was an answer, the operation
      fails exactly when the last reply failed, and it returns that reply's
      error unchanged. */
  lemma TemperatureConsumes(script: seq<Reply>)
    ensures var t := TemperatureRun(script); var n := |t.events|;
      && n >= 1
      && t.rest == Drop(script, n)
      && (forall i :: 0 <= i < n - 1 ==> ReplyAt(script, i).Answer?)
      && (t.result.Err? <==> ReplyAt(script, n - 1).Failed?)
      && (t.result.Err? ==> t.result.error == ReplyAt(script, n - 1).error)
  {
    if TriggerRun(script).result.Err? {
      TriggerFails(script);
    } else {
      var t := TemperatureRun(script);
      var a := Await(Poll, Drop(script, 2));
      TemperatureSplits(script);
      AwaitConsumes(Poll, Drop(script, 2));
      DropDrop(script, 2, |a.events|);
      ReplyAtDrop(script, 1, 0);
      assert ReplyAt(script, |t.events| - 1) == ReplyAt(Drop(script, 2), |a.events| - 1);
    }
  }

  /** A failed trigger ends `temperature` at the failed read of CTRL, or at
      the write of CTRL with the byte read and ONE_SHOT set. */
  lemma TriggerFails(script: seq<Reply>)
    requires TriggerRun(script).result.Err?
    ensures var t := TemperatureRun(script); var n := |t.events|;
      && t.result.Err?
      && 1 <= n <= 2
      && t.events[0] == WriteRead(0x38, [0x04], 1)
      && (n == 2 ==> t.events[1] == Write(0x38, [0x04, Received(1, ReplyAt(script, 0).data)[0] | 0x01]))
      && t.rest == Drop(script, n)
      && (forall i :: 0 <= i < n - 1 ==> ReplyAt(script, i).Answer?)
      && ReplyAt(script, n - 1) == Failed(t.result.error)
  {
    if ReplyAt(script, 0).Answer? {
      ReplyAtDrop(script, 1, 0);
      DropDrop(script, 1, 1);
    }
  }

  /** A `temperature` whose trigger succeeded (in particular every successful
      one) first issued a one-byte read of CTRL and then a write of CTRL with
      the byte read and ONE_SHOT set. */
  lemma TemperatureTriggers(script: seq<Reply>)
    ensures var t := TemperatureRun(script); var ev := t.events;
      && (t.result.Ok? ==> TriggerRun(script).result.Ok?)
      && (TriggerRun(script).result.Ok? ==>
            && |ev| >= 3
            && ev[0] == WriteRead(0x38, [0x04], 1)
            && ReplyAt(script, 0).Answer?
            && ev[1] == Write(0x38, [0x04, Received(1, ReplyAt(script, 0).data)[0] | 0x01]))
  {
    AwaitConsumes(Poll, Drop(script, 2));
    TemperatureSplits(script);
  }

  /** The registers lie at seven distinct offsets, 0x01 to 0x07 in the
      order of the register map. */
  lemma RegOffsets()
    ensures WHOAMI.Offset() == 0x01 && TEMP_H_LIMIT.Offset() == 0x02 && TEMP_L_LIMIT.Offset() == 0x03
    ensures CTRL.Offset() == 0x04 && STATUS.Offset() == 0x05 && TEMP_L_OUT.Offset() == 0x06 && TEMP_H_OUT.Offset() == 0x07
    ensures forall r1: Reg, r2: Reg :: r1.Offset() == r2.Offset() ==> r1 == r2
  {
  }

  /** Once the trigger has succeeded, `temperature` is the trigger's two
      transactions followed by the wait on the replies after them. */
  lemma TemperatureSplits(script: seq<Reply>)
    ensures var t, tr, a := TemperatureRun(script), TriggerRun(script), Await(Poll, Drop(script, 2));
      && (t.result.Ok? ==> tr.result.Ok?)
      && (tr.result.Ok? ==>
            && |tr.events| == 2
            && t.events == tr.events + a.events
            && t.result == a.result && t.rest == a.rest
            && (forall i :: 2 <= i < |t.events| ==>
                  t.events[i] == a.events[i - 2] && ReplyAt(script, i) == ReplyAt(Drop(script, 2), i - 2)))
  {
    var t, tr := TemperatureRun(script), TriggerRun(script);
    if tr.result.Ok? {
      TriggerRest(script);
      forall i | 2 <= i < |t.events|
        ensures ReplyAt(script, i) == ReplyAt(Drop(script, 2), i - 2)
      {
        ReplyAtDrop(script, 2, i - 2);
      }
    }
  }

  /** After the trigger, a successful `temperature` issued one-byte reads of
      STATUS, every answer busy but the last. */
  lemma TemperaturePolls(script: seq<Reply>)
    ensures var t := TemperatureRun(script); var ev := t.events; var n := |ev|;
      t.result.Ok? ==>
        && n >= 4
        && (forall i :: 2 <= i < n - 1 ==> ev[i] == WriteRead(0x38, [0x05], 1))
        && (forall i :: 2 <= i < n - 2 ==> BusyReply(ReplyAt(script, i)))
        && ReplyAt(script, n - 2).Answer? && !BusyReply(ReplyAt(script, n - 2))
  {
    var t := TemperatureRun(script);
    if t.result.Ok? {
      var rest := Drop(script, 2);
      var a, n := Await(Poll, rest), |t.events|;
      TemperatureSplits(script);
      AwaitPolls(rest);
      AwaitLast(rest);
      AwaitResult(rest);
      assert Transaction(Poll) == WriteRead(0x38, [0x05], 1);
      forall i | 2 <= i < n - 1
        ensures t.events[i] == WriteRead(0x38, [0x05], 1)
      {
        assert t.events[i] == a.events[i - 2];
      }
      forall i | 2 <= i < n - 2
        ensures BusyReply(ReplyAt(script, i))
      {
        assert ReplyAt(script, i) == ReplyAt(rest, i - 2);
      }
      assert ReplyAt(script, n - 2) == ReplyAt(rest, |a.events| - 2);
    }
  }

  /** A successful `temperature` ended with one two-byte read from
      TEMP_L_OUT, and its result is the little-endian decoding of the two
      bytes received. */
  lemma TemperatureSample(script: seq<Reply>)
    ensures var t := TemperatureRun(script); var ev := t.events; var n := |ev|;
      t.result.Ok? ==>
        && n >= 1
        && ev[n - 1] == WriteRead(0x38, [0x06], 2)
        && ReplyAt(script, n - 1).Answer?
        && t.result.value == FromLeBytes(Received(2, ReplyAt(script, n - 1).data))
  {
    if TemperatureRun(script).result.Ok? {
      TemperatureLast(script);
      AwaitResult(Drop(script, 2));
      assert Transaction(ReadSample) == WriteRead(0x38, [0x06], 2);
    }
  }

  /** After a successful trigger, the last transaction of `temperature`
      and its reply are the last ones of the wait. */
  lemma TemperatureLast(script: seq<Reply>)
    ensures var t, a := TemperatureRun(script), Await(Poll, Drop(script, 2));
      TriggerRun(script).result.Ok? ==>
        && |t.events| == |a.events| + 2
        && t.events[|t.events| - 1] == a.events[|a.events| - 1]
        && ReplyAt(script, |t.events| - 1) == ReplyAt(Drop(script, 2), |a.events| - 1)
        && t.result == a.result
  {
    if TriggerRun(script).result.Ok? {
      TriggerRest(script);
      AwaitConsumes(Poll, Drop(script, 2));
      ReplyAtDrop(script, 2, |Await(Poll, Drop(script, 2)).events| - 1);
    }
  }

  /** One-byte answers, one per byte. */
  function Answers(bytes: seq<u8>): (r: seq<Reply>)
    ensures |r| == |bytes|
    ensures forall i :: 0 <= i < |bytes| ==> r[i] == Answer([bytes[i]])
  {
    seq(|bytes|, i requires 0 <= i < |bytes| => Answer([bytes[i]]))
  }

  /** `k` STATUS reads. */
  function Polls(k: nat): (r: seq<Event>)
    ensures |r| == k
    ensures forall i :: 0 <= i < k ==> r[i] == Transaction(Poll)
  {
    seq(k, _ => Transaction(Poll))
  }

  /** A one-byte answer is what a one-byte read receives. */
  lemma ReceivedOne(b: u8)
    ensures Received(1, [b]) == [b]
  {
  }

  /** Against STATUS answers that are busy and then one that is not,
      followed by the two bytes of any sample, the wait issues one STATUS
      read per answer and one sample read, and returns that sample. */
  lemma {:induction false} AwaitScripted(busy: seq<u8>, idle: u8, sample: i16, rest: seq<Reply>)
    requires forall i :: 0 <= i < |busy| ==> Status(busy[i]).Busy()
    requires !Status(idle).Busy()
    ensures Await(Poll, Answers(busy) + [Answer([idle]), Answer(ToLeBytes(sample))] + rest)
         == Run(Polls(|busy| + 1) + [Transaction(ReadSample)], Ok(sample), rest)
  {
    var script := Answers(busy) + [Answer([idle]), Answer(ToLeBytes(sample))] + rest;
    if busy == [] {
      assert script == [Answer([idle]), Answer(ToLeBytes(sample))] + rest;
      ReceivedOne(idle);
      assert Drop(script, 1) == [Answer(ToLeBytes(sample))] + rest;
      assert Drop(Drop(script, 1), 1) == rest;
      DecodeEncode(sample);
      assert Received(2, ToLeBytes(sample)) == ToLeBytes(sample);
      assert Polls(1) + [Transaction(ReadSample)] == [Transaction(Poll), Transaction(ReadSample)];
    } else {
      var tail := busy[1..];
      assert Drop(script, 1) == Answers(tail) + [Answer([idle]), Answer(ToLeBytes(sample))] + rest;
      ReceivedOne(busy[0]);
      assert script[0] == Answer([busy[0]]);
      AwaitScripted(tail, idle, sample, rest);
      assert Polls(|busy| + 1) + [Transaction(ReadSample)] == [Transaction(Poll)] + (Polls(|tail| + 1) + [Transaction(ReadSample)]);
    }
  }

  /** Against a CTRL byte, any answer to the write, STATUS answers that are
      busy and then one that is not, and the two bytes of any sample,
      `temperature` issues exactly the expected transactions and returns
      that sample. */
  lemma TemperatureScripted(ctrl: u8, ack: seq<u8>, busy: seq<u8>, idle: u8, sample: i16, rest: seq<Reply>)
    requires forall i :: 0 <= i < |busy| ==> Status(busy[i]).Busy()
    requires !Status(idle).Busy()
    ensures TemperatureRun([Answer([ctrl]), Answer(ack)] + Answers(busy) + [Answer([idle]), Answer(ToLeBytes(sample))] + rest)
         == Run([WriteRead(0x38, [0x04], 1), Write(0x38, [0x04, ctrl | 0x01])] + Polls(|busy| + 1) + [WriteRead(0x38, [0x06], 2)],
                Ok(sample), rest)
  {
    var tail := Answers(busy) + [Answer([idle]), Answer(ToLeBytes(sample))] + rest;
    var script := [Answer([ctrl]), Answer(ack)] + tail;
    var trigger := [WriteRead(0x38, [0x04], 1), Write(0x38, [0x04, ctrl | 0x01])];
    TriggerScripted(ctrl, ack, tail);
    AwaitScripted(busy, idle, sample, rest);
    assert Transaction(ReadSample) == WriteRead(0x38, [0x06], 2);
    assert trigger + (Polls(|busy| + 1) + [Transaction(ReadSample)]) == trigger + Polls(|busy| + 1) + [Transaction(ReadSample)];
    assert script == [Answer([ctrl]), Answer(ack)] + Answers(busy) + [Answer([idle]), Answer(ToLeBytes(sample))] + rest;
  }

  /** Against a one-byte CTRL answer and any answer to the write, the
      trigger reads CTRL, writes it back with ONE_SHOT set, and succeeds
      with the rest of the script untouched. */
  lemma TriggerScripted(ctrl: u8, ack: seq<u8>, tail: seq<Reply>)
    ensures TriggerRun([Answer([ctrl]), Answer(ack)] + tail)
         == Run([WriteRead(0x38, [0x04], 1), Write(0x38, [0x04, ctrl | 0x01])], Ok(()), tail)
  {
    var script := [Answer([ctrl]), Answer(ack)] + tail;
    ReceivedOne(ctrl);
    assert Drop(script, 1) == [Answer(ack)] + tail;
    assert Drop(Drop(script, 1), 1) == tail;
  }

  /** A complete reading: CTRL reads 0x08, STATUS is busy twice and then
      idle, and the sample bytes are 0x34 0x12. CTRL is written back as 0x09
      and the raw sample is 0x1234 = 4660 hundredths of a degree. */
  lemma TemperatureHappyPath(ack: seq<u8>, rest: seq<Reply>)
    ensures TemperatureRun([Answer([0x08]), Answer(ack), Answer([0x01]), Answer([0x01]), Answer([0x00]), Answer([0x34, 0x12])] + rest)
         == Run([WriteRead(0x38, [0x04], 1), Write(0x38, [0x04, 0x09]),
                 WriteRead(0x38, [0x05], 1), WriteRead(0x38, [0x05], 1), WriteRead(0x38, [0x05], 1),
                 WriteRead(0x38, [0x06], 2)],
                Ok(4660), rest)
  {
    var busy: seq<u8> := [0x01, 0x01];
    TemperatureScripted(0x08, ack, busy, 0x00, 4660, rest);
    assert ToLeBytes(4660) == [0x34, 0x12];
    assert Answers(busy) == [Answer([0x01]), Answer([0x01])];
    assert Polls(3) == [WriteRead(0x38, [0x05], 1), WriteRead(0x38, [0x05], 1), WriteRead(0x38, [0x05], 1)];
    assert [Answer([0x08]), Answer(ack)] + Answers(busy) + [Answer([0x00]), Answer(ToLeBytes(4660))] + rest
        == [Answer([0x08]), Answer(ack), Answer([0x01]), Answer([0x01]), Answer([0x00]), Answer([0x34, 0x12])] + rest;
  }

  /** `id` returns the byte the device answers, whatever it is. */
  lemma IdReturnsByte(b: u8, rest: seq<Reply>)
    ensures IdRun([Answer([b])] + rest) == Run([WriteRead(0x38, [0x01], 1)], Ok(b), rest)
  {
    ReceivedOne(b);
  }

  /** The CTRL byte written back has bit 0 (ONE_SHOT) set and every other
      bit as it was read. */
  lemma OneShotWriteBack(ctrl: u8)
    ensures (ctrl | Ctrl.ONE_SHOT) & 0x01 == 0x01
    ensures (ctrl | Ctrl.ONE_SHOT) & 0xFE == ctrl & 0xFE
  {
  }

  /** Each STATUS flag ignores every bit but its own. */
  lemma StatusFlagsIgnoreOtherBits(b: u8, m: u8)
    ensures m & Status.BUSY == 0 ==> (Status(b ^ m).Busy() <==> Status(b).Busy())
    ensures m & Status.OVER_THH == 0 ==> (Status(b ^ m).OverThh() <==> Status(b).OverThh())
    ensures m & Status.UNDER_THL == 0 ==> (Status(b ^ m).UnderThl() <==> Status(b).UnderThl())
  {
  }

  /** The formatted text lists the set flags in the order UNDER_THL,
      OVER_THH, BUSY, with " | " between neighbours, inside "Status(...)". */
  lemma RenderingText(st: Status)
    ensures var u, o, b := st.UnderThl(), st.OverThh(), st.Busy();
      Rendering(st) ==
        "Status("
        + (if u then "UNDER_THL" else "") + (if u && (o || b) then " | " else "")
        + (if o then "OVER_THH" else "") + (if o && b then " | " else "")
        + (if b then "BUSY" else "")
        + ")"
  {
    var u, o, b := st.UnderThl(), st.OverThh(), st.Busy();
    var a := if u then "UNDER_THL" else "";
    var s1 := if u && (o || b) then " | " else "";
    var c := if o then "OVER_THH" else "";
    var s2 := if o && b then " | " else "";
    var d := if b then "BUSY" else "";
    JoinFlags(u, o, b, "UNDER_THL", "OVER_THH", "BUSY", " | ");
    assert Join(Flags(st), " | ") == a + s1 + c + s2 + d;
    assert "Status(" + (a + s1 + c + s2 + d) + ")" == "Status(" + a + s1 + c + s2 + d + ")";
  }

  /** The text is "Status()" exactly when no flag is set. */
  lemma RenderingEmpty(st: Status)
    ensures Rendering(st) == "Status()" <==> !st.UnderThl() && !st.OverThh() && !st.Busy()
  {
    var flags := Flags(st);
    if flags != [] {
      assert |flags[0]| > 0;
      JoinStartsWith(flags, " | ");
      assert |Rendering(st)| > |"Status()"|;
    }
  }
}
