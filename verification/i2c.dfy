/** The shared I2C bus the driver talks through, seen from the driver: a
    scripted device that answers each transaction in turn, and a trace of the
    transactions issued. */
module I2c {
  import opened Bytes

  /** What a failed transaction reports. The driver never looks inside it. */
  datatype BusError =
    | NoResponse            // the device stopped answering: the bus times out
    | Fault(code: nat)      // any other bus failure (NACK, arbitration loss, DMA error, ...)

  /** The outcome of an operation: Rust's `Result<T, I2cDeviceError<_>>`.
      Failure-compatible, so `:-` propagates an error as `?` does. */
  datatype Result<T> = Ok(value: T) | Err(error: BusError) {
    predicate IsFailure() { Err? }

    function PropagateFailure<U>(): Result<U>
      requires Err?
    {
      Err(error)
    }

    function Extract(): T
      requires Ok?
    {
      value
    }
  }

  /** One bus transaction as the device sees it. */
  datatype Event =
    | Write(addr: u8, bytes: seq<u8>)                  // `write(addr, bytes)`
    | WriteRead(addr: u8, out: seq<u8>, n: nat)        // `write_read(addr, out, &mut [_; n])`

  /** The device's answer to one transaction: the bytes it drives on the bus
      (ignored for a write), or a bus failure. */
  datatype Reply = Answer(data: seq<u8>) | Failed(error: BusError)

  /** The reply that the `i`-th transaction from now receives: a script that
      has run out leaves the bus without an answer. */
  function ReplyAt(script: seq<Reply>, i: nat): (r: Reply)
    ensures i >= |script| ==> r == Failed(NoResponse)
  {
    if i < |script| then script[i] else Failed(NoResponse)
  }

  /** The script after `k` transactions. */
  function Drop(script: seq<Reply>, k: nat): (rest: seq<Reply>)
    ensures |rest| == if k <= |script| then |script| - k else 0
  {
    if k <= |script| then script[k..] else []
  }

  /** After `k` transactions, the `i`-th reply ahead is the `(k + i)`-th of the original script. */
  lemma ReplyAtDrop(script: seq<Reply>, k: nat, i: nat)
    ensures ReplyAt(Drop(script, k), i) == ReplyAt(script, k + i)
  {
  }

  /** `k` transactions and then `m` more are `k + m` transactions. */
  lemma DropDrop(script: seq<Reply>, k: nat, m: nat)
    ensures Drop(Drop(script, k), m) == Drop(script, k + m)
  {
  }

  /** The bytes an n-byte read leaves in `buf` when the device drives `data`:
      the first bytes are overwritten by what was clocked in, the rest keep
      their previous contents. */
  function Overlay(buf: seq<u8>, data: seq<u8>): (r: seq<u8>)
    ensures |r| == |buf|
    ensures forall k :: 0 <= k < |r| ==> r[k] == if k < |data| then data[k] else buf[k]
  {
    if |data| < |buf| then data + buf[|data|..] else data[..|buf|]
  }

  /** `n` zero bytes (`[0; n]`). */
  function Zeros(n: nat): (z: seq<u8>)
    ensures |z| == n
  {
    if n == 0 then [] else Zeros(n - 1) + [0]
  }

  lemma SmallZeros()
    ensures Zeros(1) == [0] && Zeros(2) == [0, 0]
  {
  }

  /** A read into a fresh zero-filled buffer of `n` bytes (`let mut res = [0; n]`). */
  function Received(n: nat, data: seq<u8>): (r: seq<u8>)
    ensures |r| == n
  {
    if |data| < n then data + Zeros(n - |data|) else data[..n]
  }

  /** Reading into a zero-filled buffer leaves `Received` in it (when the
      reply is an answer at all). */
  lemma ReceivedIntoZeros(n: nat, reply: Reply)
    ensures reply.Answer? ==> Overlay(Zeros(n), reply.data) == Received(n, reply.data)
  {
  }

  /** The record of running an operation against a script: the transactions
      it issued, what it returned, and the part of the script left over. */
  datatype Run<T> = Run(events: seq<Event>, result: Result<T>, rest: seq<Reply>)

  /** `events` happened before `r`. */
  function Prepend<T>(events: seq<Event>, r: Run<T>): Run<T> {
    Run(events + r.events, r.result, r.rest)
  }

  /** What one `write` does against the script. */
  function WriteRun(addr: u8, bytes: seq<u8>, script: seq<Reply>): (r: Run<()>)
    ensures r.events == [Write(addr, bytes)] && r.rest == Drop(script, 1)
    ensures r.result.Ok? <==> ReplyAt(script, 0).Answer?
    ensures r.result.Err? ==> r.result.error == ReplyAt(script, 0).error
  {
    var result := match ReplyAt(script, 0)
      case Answer(_) => Ok(())
      case Failed(e) => Err(e);
    Run([Write(addr, bytes)], result, Drop(script, 1))
  }

  /** What one `write_read` into a fresh n-byte buffer returns against the script. */
  function WriteReadRun(addr: u8, out: seq<u8>, n: nat, script: seq<Reply>): (r: Run<seq<u8>>)
    ensures r.events == [WriteRead(addr, out, n)] && r.rest == Drop(script, 1)
    ensures r.result.Ok? <==> ReplyAt(script, 0).Answer?
    ensures r.result.Ok? ==> r.result.value == Received(n, ReplyAt(script, 0).data)
    ensures r.result.Err? ==> r.result.error == ReplyAt(script, 0).error
  {
    var result := match ReplyAt(script, 0)
      case Answer(data) => Ok(Received(n, data))
      case Failed(e) => Err(e);
    Run([WriteRead(addr, out, n)], result, Drop(script, 1))
  }

  /** The bus handle (`I2cDevice`). Each transaction takes the next reply
      off `script` and appends itself to `trace`. */
  class Bus {
    var trace: seq<Event>
    var script: seq<Reply>

    constructor (script: seq<Reply>)
      ensures this.trace == [] && this.script == script
    {
      this.trace := [];
      this.script := script;
    }

    /** `write(addr, bytes)`. */
    method Write(addr: u8, bytes: seq<u8>) returns (r: Result<()>)
      modifies this
      ensures trace == old(trace) + [Event.Write(addr, bytes)]
      ensures script == Drop(old(script), 1)
      ensures r == WriteRun(addr, bytes, old(script)).result
    {
      var reply := ReplyAt(script, 0);
      trace := trace + [Event.Write(addr, bytes)];
      script := Drop(script, 1);
      match reply {
        case Answer(_) => r := Ok(());
        case Failed(e) => r := Err(e);
      }
    }

    /** `write_read(addr, out, buf)`: on success the bytes the device drove
        are clocked into `buf` in place. */
    method WriteRead(addr: u8, out: seq<u8>, buf: array<u8>) returns (r: Result<()>)
      modifies this, buf
      ensures trace == old(trace) + [Event.WriteRead(addr, out, buf.Length)]
      ensures script == Drop(old(script), 1)
      ensures r.Ok? <==> ReplyAt(old(script), 0).Answer?
      ensures r.Err? ==> r.error == ReplyAt(old(script), 0).error
      ensures r.Ok? ==> buf[..] == Overlay(old(buf[..]), ReplyAt(old(script), 0).data)
    {
      var reply := ReplyAt(script, 0);
      trace := trace + [Event.WriteRead(addr, out, buf.Length)];
      script := Drop(script, 1);
      match reply {
        case Failed(e) =>
          r := Err(e);
        case Answer(data) =>
          var m := if |data| < buf.Length then |data| else buf.Length;
          for k := 0 to m
            modifies buf
            invariant forall j :: 0 <= j < buf.Length ==> buf[j] == if j < k then data[j] else old(buf[j])
          {
            buf[k] := data[k];
          }
          r := Ok(());
      }
    }
  }
}
