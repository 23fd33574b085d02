/** The STTS22H digital temperature sensor driver: its register map, the
    STATUS flags, and the four operations it performs over the I2C bus. */
module Stts22h {
  import opened Bytes
  import opened I2c
  import opened Defmt

  /** The register map: each register is one byte at a fixed offset. */
  datatype Reg = WHOAMI | TEMP_H_LIMIT | TEMP_L_LIMIT | CTRL | STATUS | TEMP_L_OUT | TEMP_H_OUT {
    /** `reg as u8`. */
    function Offset(): (off: u8)
      ensures 0x01 <= off <= 0x07
    {
      match this
      case WHOAMI => 0x01
      case TEMP_H_LIMIT => 0x02
      case TEMP_L_LIMIT => 0x03
      case CTRL => 0x04
      case STATUS => 0x05
      case TEMP_L_OUT => 0x06
      case TEMP_H_OUT => 0x07
    }
  }

  /** The bits of the CTRL register. */
  datatype Ctrl = Ctrl {
    /** 1 Hz output-data-rate mode. */
    static const LOW_ODR_START: u8 := 0x80
    /** Block data update. */
    static const BDU: u8 := 0x40
    /** Number of averages (in freerun mode also the data rate). */
    static const AVG: u8 := 0x30
    /** Address auto-increment on multi-byte transfers. */
    static const IF_ADD_INC: u8 := 0x08
    /** Freerun mode. */
    static const FREERUN: u8 := 0x04
    /** Disables the SMBus timeout. */
    static const TIME_OUT_DIS: u8 := 0x02
    /** Starts one acquisition. */
    static const ONE_SHOT: u8 := 0x01
  }

  /** A STATUS register value. */
  datatype Status = Status(bits: u8) {
    /** Low limit exceeded; cleared on the device by reading STATUS. */
    static const UNDER_THL: u8 := 0x04
    /** High limit exceeded; cleared on the device by reading STATUS. */
    static const OVER_THH: u8 := 0x02
    /** One-shot conversion in progress. */
    static const BUSY: u8 := 0x01

    /** `under_thl`: bit 2. */
    predicate UnderThl()
      ensures UnderThl() <==> (bits / 4) % 2 == 1
    {
      bits & UNDER_THL != 0
    }

    /** `over_thh`: bit 1. */
    predicate OverThh()
      ensures OverThh() <==> (bits / 2) % 2 == 1
    {
      bits & OVER_THH != 0
    }

    /** `busy`: bit 0. */
    predicate Busy()
      ensures Busy() <==> bits % 2 == 1
    {
      bits & BUSY != 0
    }
  }

  /** The names of the set flags, in the order the formatter lists them. */
  function Flags(st: Status): (flags: seq<string>)
    ensures |flags| <= 3
    ensures flags == [] <==> !st.UnderThl() && !st.OverThh() && !st.Busy()
  {
    (if st.UnderThl() then ["UNDER_THL"] else [])
    + (if st.OverThh() then ["OVER_THH"] else [])
    + (if st.Busy() then ["BUSY"] else [])
  }

  /** The text `Format` produces: the set flags joined by " | " inside "Status(...)". */
  function Rendering(st: Status): (text: string)
    ensures |text| >= 8 && text[..7] == "Status(" && text[|text| - 1] == ')'
  {
    "Status(" + Join(Flags(st), " | ") + ")"
  }

  /** `impl defmt::Format for Status`: writes the set flags step by step,
      remembering in `prev` whether a separator is due. */
  method Format(st: Status, fmt: Formatter)
    modifies fmt
    ensures fmt.text == old(fmt.text) + Rendering(st)
  {
    ghost var head := fmt.text + "Status(";
    ghost var listed: seq<string> := [];
    var prev := false;
    fmt.Write("Status(");

    if st.UnderThl() {
      fmt.Write("UNDER_THL");
      AppendFlag(head, listed, "UNDER_THL", fmt.text);
      listed := listed + ["UNDER_THL"];
      prev := true;
    }
    assert prev <==> listed != [];

    if st.OverThh() {
      if prev {
        fmt.Write(" | ");
      }
      fmt.Write("OVER_THH");
      AppendFlag(head, listed, "OVER_THH", fmt.text);
      listed := listed + ["OVER_THH"];
      prev := true;
    }
    assert prev <==> listed != [];

    if st.Busy() {
      if prev {
        fmt.Write(" | ");
      }
      fmt.Write("BUSY");
      AppendFlag(head, listed, "BUSY", fmt.text);
      listed := listed + ["BUSY"];
    }
    assert listed == Flags(st);

    fmt.Write(")");
    Regroup(old(fmt.text), "Status(", Join(listed, " | "), ")");
  }

  lemma Regroup(a: string, b: string, c: string, d: string)
    ensures a + b + c + d == a + (b + c + d)
  {
  }

  /** One step of `Format`: writing a separator (when something was listed
      before) and a flag name extends the listing by that flag. */
  lemma AppendFlag(head: string, listed: seq<string>, flag: string, text: string)
    requires text == head + Join(listed, " | ") + (if listed == [] then "" else " | ") + flag
    ensures text == head + Join(listed + [flag], " | ")
  {
    JoinSnoc(listed, flag, " | ");
  }

  /** What `init` does against a script of device replies. */
  function InitRun(script: seq<Reply>): (r: Run<()>)
    ensures r.events == [Write(0x38, [0x04, 0x08])]
    ensures r.rest == Drop(script, 1)
    ensures r.result.Ok? <==> ReplyAt(script, 0).Answer?
    ensures r.result.Err? ==> r.result.error == ReplyAt(script, 0).error
  {
    WriteRun(STTS22H.ADDRESS, [Reg.CTRL.Offset(), Ctrl.IF_ADD_INC], script)
  }

  /** What `id` does against a script of device replies. */
  function IdRun(script: seq<Reply>): (r: Run<u8>)
    ensures r.events == [WriteRead(0x38, [0x01], 1)]
    ensures r.rest == Drop(script, 1)
    ensures r.result.Ok? <==> ReplyAt(script, 0).Answer?
    ensures r.result.Ok? ==> r.result.value == Received(1, ReplyAt(script, 0).data)[0]
    ensures r.result.Err? ==> r.result.error == ReplyAt(script, 0).error
  {
    var r := WriteReadRun(STTS22H.ADDRESS, [Reg.WHOAMI.Offset()], 1, script);
    Run(r.events, if r.result.Ok? then Ok(r.result.value[0]) else r.result.PropagateFailure(), r.rest)
  }

  /** What `status` does against a script of device replies. */
  function StatusRun(script: seq<Reply>): (r: Run<Status>)
    ensures r.events == [WriteRead(0x38, [0x05], 1)]
    ensures r.rest == Drop(script, 1)
    ensures r.result.Ok? <==> ReplyAt(script, 0).Answer?
    ensures r.result.Ok? ==> r.result.value == Status(Received(1, ReplyAt(script, 0).data)[0])
    ensures r.result.Err? ==> r.result.error == ReplyAt(script, 0).error
  {
    var r := WriteReadRun(STTS22H.ADDRESS, [Reg.STATUS.Offset()], 1, script);
    Run(r.events, if r.result.Ok? then Ok(Status(r.result.value[0])) else r.result.PropagateFailure(), r.rest)
  }

  /** What `temperature` does first against a script of device replies:
      it reads CTRL and writes it back with ONE_SHOT set. */
  function TriggerRun(script: seq<Reply>): Run<()> {
    var c := WriteReadRun(STTS22H.ADDRESS, [Reg.CTRL.Offset()], 1, script);
    if c.result.Err? then Run(c.events, Err(c.result.error), c.rest)
    else Prepend(c.events, WriteRun(STTS22H.ADDRESS, [Reg.CTRL.Offset(), c.result.value[0] | Ctrl.ONE_SHOT], c.rest))
  }

  /** The steps of waiting for a conversion and reading it out. */
  datatype Phase =
    | Poll                   // read STATUS
    | ReadSample             // read TEMP_L_OUT and TEMP_H_OUT in one transaction

  /** The one bus transaction each step issues. */
  function Transaction(phase: Phase): Event {
    match phase
    case Poll => WriteRead(STTS22H.ADDRESS, [Reg.STATUS.Offset()], 1)
    case ReadSample => WriteRead(STTS22H.ADDRESS, [Reg.TEMP_L_OUT.Offset()], 2)
  }

  /** Where a step leads once its transaction succeeded with `data`. */
  datatype Outcome = Continue(next: Phase) | Done(sample: i16)

  function After(phase: Phase, data: seq<u8>): Outcome {
    match phase
    case Poll => if Status(Received(1, data)[0]).Busy() then Continue(Poll) else Continue(ReadSample)
    case ReadSample => Done(FromLeBytes(Received(2, data)))
  }

  /** What waiting for the conversion does from `phase` on against a script
      of device replies: each step issues its transaction and consumes one
      reply; a failed transaction ends the wait with its error. */
  function Await(phase: Phase, script: seq<Reply>): Run<i16>
    decreases |script|
  {
    var ev := Transaction(phase);
    match ReplyAt(script, 0)
    case Failed(e) => Run([ev], Err(e), Drop(script, 1))
    case Answer(data) =>
      match After(phase, data)
      case Done(v) => Run([ev], Ok(v), Drop(script, 1))
      case Continue(next) => Prepend([ev], Await(next, Drop(script, 1)))
  }

  /** What `temperature` does against a script of device replies: the
      trigger, then (unless it failed) the wait from the first poll on. The
      value is the raw sample in hundredths of a degree Celsius. */
  function TemperatureRun(script: seq<Reply>): Run<i16> {
    var t := TriggerRun(script);
    if t.result.Err? then Run(t.events, Err(t.result.error), t.rest)
    else Prepend(t.events, Await(Poll, t.rest))
  }

  lemma PrependPrepend<T>(a: seq<Event>, b: seq<Event>, r: Run<T>)
    ensures Prepend(a, Prepend(b, r)) == Prepend(a + b, r)
  {
    assert a + (b + r.events) == (a + b) + r.events;
  }

  /** One step of a wait with `done` already issued: its transaction is
      issued next, and the wait ends there or goes on from the next step. */
  lemma AwaitStep(done: seq<Event>, phase: Phase, script: seq<Reply>)
    ensures var ev, reply := Transaction(phase), ReplyAt(script, 0);
      Prepend(done, Await(phase, script)) ==
        if reply.Failed? then Run(done + [ev], Err(reply.error), Drop(script, 1))
        else if After(phase, reply.data).Done? then Run(done + [ev], Ok(After(phase, reply.data).sample), Drop(script, 1))
        else Prepend(done + [ev], Await(After(phase, reply.data).next, Drop(script, 1)))
  {
    var ev, reply := Transaction(phase), ReplyAt(script, 0);
    if reply.Answer? && After(phase, reply.data).Continue? {
      PrependPrepend(done, [ev], Await(After(phase, reply.data).next, Drop(script, 1)));
    }
  }

  /** An operation that started on a bus with `trace0` left it with `trace`
      and `script` and returned `r`: the bus saw exactly `run`'s
      transactions and consumed their replies, and `r` is `run`'s result. */
  ghost predicate Performed<T>(trace0: seq<Event>, trace: seq<Event>, script: seq<Reply>, run: Run<T>, r: Result<T>) {
    trace == trace0 + run.events && script == run.rest && r == run.result
  }

  /** A wait under way towards `whole`: `done` has been issued since it
      started, and the rest of it is `Await` from `phase`. */
  ghost predicate UnderWay(whole: Run<i16>, done: seq<Event>, phase: Phase, script: seq<Reply>) {
    whole == Prepend(done, Await(phase, script))
  }

  /** A step whose transaction fails ends the wait with that error. */
  ghost predicate FailsThere(trace0: seq<Event>, whole: Run<i16>, done: seq<Event>, phase: Phase, script: seq<Reply>) {
    ReplyAt(script, 0).Failed? ==>
      Performed(trace0, trace0 + done + [Transaction(phase)], Drop(script, 1), whole, Err(ReplyAt(script, 0).error))
  }

  /** The step `phase` of a wait under way either ends it or leaves it under
      way at `After`. */
  lemma Advance(trace0: seq<Event>, whole: Run<i16>, done: seq<Event>, phase: Phase, script: seq<Reply>)
    requires UnderWay(whole, done, phase, script)
    ensures FailsThere(trace0, whole, done, phase, script)
    ensures var ev, reply := Transaction(phase), ReplyAt(script, 0);
      && (reply.Answer? && After(phase, reply.data).Done? ==>
            Performed(trace0, trace0 + done + [ev], Drop(script, 1), whole, Ok(After(phase, reply.data).sample)))
      && (reply.Answer? && After(phase, reply.data).Continue? ==>
            UnderWay(whole, done + [ev], After(phase, reply.data).next, Drop(script, 1)))
  {
    AwaitStep(done, phase, script);
    assert trace0 + done + [Transaction(phase)] == trace0 + (done + [Transaction(phase)]);
  }

  /** A busy STATUS leads to polling again, any other to reading the sample. */
  lemma PollStep(trace0: seq<Event>, whole: Run<i16>, done: seq<Event>, script: seq<Reply>)
    requires UnderWay(whole, done, Poll, script)
    ensures FailsThere(trace0, whole, done, Poll, script)
    ensures ReplyAt(script, 0).Answer? ==>
      var st := Status(Received(1, ReplyAt(script, 0).data)[0]);
      UnderWay(whole, done + [Transaction(Poll)], if st.Busy() then Poll else ReadSample, Drop(script, 1))
  {
    Advance(trace0, whole, done, Poll, script);
  }

  /** Reading the sample ends the wait with the decoded bytes. */
  lemma ReadSampleStep(trace0: seq<Event>, whole: Run<i16>, done: seq<Event>, script: seq<Reply>)
    requires UnderWay(whole, done, ReadSample, script)
    ensures FailsThere(trace0, whole, done, ReadSample, script)
    ensures ReplyAt(script, 0).Answer? ==>
      Performed(trace0, trace0 + done + [Transaction(ReadSample)], Drop(script, 1), whole,
                Ok(FromLeBytes(Received(2, ReplyAt(script, 0).data))))
  {
    Advance(trace0, whole, done, ReadSample, script);
  }

  /** A successful trigger followed by the wait performs the whole of `temperature`. */
  lemma Finish(trace0: seq<Event>, script0: seq<Reply>, trace: seq<Event>, rest: seq<Reply>, r: Result<i16>)
    requires TriggerRun(script0).result.Ok?
    requires Performed(trace0 + TriggerRun(script0).events, trace, rest, Await(Poll, TriggerRun(script0).rest), r)
    ensures Performed(trace0, trace, rest, TemperatureRun(script0), r)
  {
    var t := TriggerRun(script0);
    assert trace0 + t.events + Await(Poll, t.rest).events == trace0 + (t.events + Await(Poll, t.rest).events);
  }

  /** The temperature sensor, owning its bus handle. */
  class STTS22H {
    /** The 7-bit bus address. */
    static const ADDRESS: u8 := 0x70 >> 1

    const i2c: Bus

    constructor (i2c: Bus)
      ensures this.i2c == i2c
    {
      this.i2c := i2c;
    }

    /** Enables address auto-increment. */
    method Init() returns (r: Result<()>)
      modifies i2c
      ensures Performed(old(i2c.trace), i2c.trace, i2c.script, InitRun(old(i2c.script)), r)
    {
      r := i2c.Write(ADDRESS, [Reg.CTRL.Offset(), Ctrl.IF_ADD_INC]);
    }

    /** Reads the WHOAMI register. */
    method Id() returns (r: Result<u8>)
      modifies i2c
      ensures Performed(old(i2c.trace), i2c.trace, i2c.script, IdRun(old(i2c.script)), r)
    {
      var res := new u8[1] [0];
      SmallZeros();
      assert res[..] == Zeros(1);
      ReceivedIntoZeros(1, ReplyAt(i2c.script, 0));
      var ok :- i2c.WriteRead(ADDRESS, [Reg.WHOAMI.Offset()], res);
      r := Ok(res[0]);
    }

    /** Reads the STATUS register. */
    method ReadStatus() returns (r: Result<Status>)
      modifies i2c
      ensures Performed(old(i2c.trace), i2c.trace, i2c.script, StatusRun(old(i2c.script)), r)
    {
      var res := new u8[1] [0];
      SmallZeros();
      assert res[..] == Zeros(1);
      ReceivedIntoZeros(1, ReplyAt(i2c.script, 0));
      var ok :- i2c.WriteRead(ADDRESS, [Reg.STATUS.Offset()], res);
      r := Ok(Status(res[0]));
    }

    /** Triggers a one-shot conversion, waits for it, and reads the raw sample. */
    method Temperature() returns (r: Result<i16>)
      modifies i2c
      ensures Performed(old(i2c.trace), i2c.trace, i2c.script, TemperatureRun(old(i2c.script)), r)
    {
      ghost var trace0, script0 := i2c.trace, i2c.script;
      var triggered :- Trigger();
      r := AwaitSample();
      Finish(trace0, script0, i2c.trace, i2c.script, r);
    }

    /** Reads CTRL and writes it back with ONE_SHOT set. */
    method Trigger() returns (r: Result<()>)
      modifies i2c
      ensures Performed(old(i2c.trace), i2c.trace, i2c.script, TriggerRun(old(i2c.script)), r)
    {
      ghost var trace0, script0 := i2c.trace, i2c.script;
      ghost var read := WriteReadRun(ADDRESS, [Reg.CTRL.Offset()], 1, script0);
      var reg := new u8[1] [0];
      SmallZeros();
      assert reg[..] == Zeros(1);
      ReceivedIntoZeros(1, ReplyAt(i2c.script, 0));
      var ok :- i2c.WriteRead(ADDRESS, [Reg.CTRL.Offset()], reg);
      assert reg[0] == read.result.value[0];

      var ctrl := reg[0] | Ctrl.ONE_SHOT;
      ghost var write := Write(ADDRESS, [Reg.CTRL.Offset(), ctrl]);
      r := i2c.Write(ADDRESS, [Reg.CTRL.Offset(), ctrl]);
      assert i2c.trace == trace0 + (read.events + [write]);
    }

    /** Polls STATUS until the conversion is no longer busy, then reads the
        two sample bytes. */
    method AwaitSample() returns (r: Result<i16>)
      modifies i2c
      ensures Performed(old(i2c.trace), i2c.trace, i2c.script, Await(Poll, old(i2c.script)), r)
    {
      ghost var trace0, whole := i2c.trace, Await(Poll, i2c.script);
      ghost var done: seq<Event> := [];

      PollStep(trace0, whole, done, i2c.script);
      var st :- ReadStatus();
      done := done + [Transaction(Poll)];
      while st.Busy()
        invariant i2c.trace == trace0 + done
        invariant UnderWay(whole, done, if st.Busy() then Poll else ReadSample, i2c.script)
        decreases |i2c.script|
      {
        PollStep(trace0, whole, done, i2c.script);
        st :- ReadStatus();
        done := done + [Transaction(Poll)];
      }

      var temp := new u8[2] [0, 0];
      SmallZeros();
      assert temp[..] == Zeros(2);
      ReceivedIntoZeros(2, ReplyAt(i2c.script, 0));
      ReadSampleStep(trace0, whole, done, i2c.script);
      assert Transaction(ReadSample) == WriteRead(ADDRESS, [Reg.TEMP_L_OUT.Offset()], temp.Length);
      var ok :- i2c.WriteRead(ADDRESS, [Reg.TEMP_L_OUT.Offset()], temp);
      r := Ok(FromLeBytes(temp[..]));
    }
  }
}
