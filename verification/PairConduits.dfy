// One direction of a bufferevent pair on its two evbuffers: chains move from the one to the other.
module PairConduits {
  import opened Bytes
  import opened EvBuffers
  import opened EvBufferMoves
  import opened EvBufferSearch
  import opened RateLimits
  import P = PairPipes

  // evbuffer_unfreeze, at the front of `src` and at the end of `dst`
  method Unfreeze(src: EvBuffer, dst: EvBuffer)
    requires src.Valid() && dst.Valid() && Separate(dst, src)
    modifies src`freezeStart, dst`freezeEnd
    ensures src.Valid() && dst.Valid() && Separate(dst, src) && !src.freezeStart && !dst.freezeEnd
    ensures Frame(src) == old(Frame(src)) && Frame(dst) == old(Frame(dst))
  {
    src.freezeStart, dst.freezeEnd := false, false;
  }

  // evbuffer_freeze, in the same places
  method Freeze(src: EvBuffer, dst: EvBuffer)
    requires src.Valid() && dst.Valid() && Separate(dst, src)
    modifies src`freezeStart, dst`freezeEnd
    ensures src.Valid() && dst.Valid() && Separate(dst, src) && src.freezeStart && dst.freezeEnd
  {
    src.freezeStart, dst.freezeEnd := true, true;
  }

  // Moves up to `n` bytes; all of them by linking the chains, if there are no more than that.
  method HandOver(src: EvBuffer, dst: EvBuffer, n: nat)
    requires src.Valid() && dst.Valid() && Separate(dst, src) && !src.freezeStart && !dst.freezeEnd
    requires n == 0 || n >= src.totalLen || dst.totalLen + n <= SIZE_MAX
    modifies Frame(src), Frame(dst)
    ensures src.Valid() && dst.Valid() && src.SameFlags() && dst.SameFlags() && Separate(dst, src)
    ensures var k := Min(n, |old(src.Contents())|);
      src.Contents() == old(src.Contents())[k..] && dst.Contents() == old(dst.Contents()) + old(src.Contents())[..k]
  {
    if n == 0 {
      return;
    }
    if n >= src.totalLen {
      var _ := AddBuffer(dst, src);
    } else {
      var _ := RemoveBuffer(src, dst, n);
    }
  }

  // HandOver between evbuffer_unfreeze and evbuffer_freeze on both buffers.
  method Deliver(src: EvBuffer, dst: EvBuffer, n: nat)
    requires src.Valid() && dst.Valid() && Separate(dst, src)
    requires n == 0 || n >= src.totalLen || dst.totalLen + n <= SIZE_MAX
    modifies Frame(src), Frame(dst)
    ensures src.Valid() && dst.Valid() && Separate(dst, src)
    ensures src.freezeStart && dst.freezeEnd && src.freezeEnd == old(src.freezeEnd) && dst.freezeStart == old(dst.freezeStart)
    ensures var k := Min(n, |old(src.Contents())|);
      src.Contents() == old(src.Contents())[k..] && dst.Contents() == old(dst.Contents()) + old(src.Contents())[..k]
  {
    Unfreeze(src, dst);
    HandOver(src, dst, n);
    Freeze(src, dst);
  }

  // be_pair_transfer, up to the callbacks; `high` is the high-water mark for reading at `dst`.
  method TransferBytes(src: EvBuffer, dst: EvBuffer, high: nat, ignoreWatermark: bool) returns (n: nat)
    requires src.Valid() && dst.Valid() && Separate(dst, src) && high <= SIZE_MAX
    modifies Frame(src), Frame(dst)
    ensures src.Valid() && dst.Valid() && Separate(dst, src)
    ensures src.freezeStart && dst.freezeEnd && src.freezeEnd == old(src.freezeEnd) && dst.freezeStart == old(dst.freezeStart)
    ensures n <= |old(src.Contents())| && P.Admitted(n, |old(src.Contents())|, |old(dst.Contents())|, high, ignoreWatermark)
    ensures src.Contents() == old(src.Contents())[n..] && dst.Contents() == old(dst.Contents()) + old(src.Contents())[..n]
  {
    n := src.totalLen;
    if high != 0 {
      var size := dst.totalLen;
      if size < high {
        n := Min(n, high - size);
      } else if !ignoreWatermark {
        n := 0;
      }
    }
    Deliver(src, dst, n);
  }

  // evbuffer_add on `src` leaves a separate buffer alone.
  method AppendBeside(src: EvBuffer, dst: EvBuffer, data: seq<byte>) returns (r: int)
    requires src.Valid() && dst.Valid() && Separate(dst, src) && !src.freezeEnd
    modifies src, src.chains, src.Memory()
    ensures src.Valid() && dst.Valid() && Separate(dst, src) && src.SameFlags() && src.GainsFresh()
    ensures r == if |data| > SIZE_MAX - |old(src.Contents())| || |data| > CHAIN_MAX - CHAIN_HEADER then -1 else 0
    ensures src.Contents() == old(src.Contents()) + if r == 0 then data else []
  {
    ApartBack(dst.chains, src.chains);
    r := AddBeside(src, dst, data);
    ApartBack(src.chains, dst.chains);
  }

  // evbuffer_remove keeps the last chains.
  method RemoveSome(buf: EvBuffer, n: nat) returns (data: seq<byte>)
    requires buf.Valid() && !buf.freezeStart
    modifies buf, buf.chains
    ensures buf.Valid() && buf.SameFlags() && forall c | c in buf.chains :: c in old(buf.chains)
    ensures var k := Min(n, |old(buf.Contents())|); data == old(buf.Contents())[..k] && buf.Contents() == old(buf.Contents())[k..]
  {
    var r;
    r, data := Remove(buf, n);
  }

  // evbuffer_remove on `dst` leaves a separate buffer alone.
  method TakeBeside(dst: EvBuffer, src: EvBuffer, n: nat) returns (data: seq<byte>)
    requires src.Valid() && dst.Valid() && Separate(dst, src) && !dst.freezeStart
    modifies dst, dst.chains
    ensures src.Valid() && dst.Valid() && Separate(dst, src) && dst.SameFlags()
    ensures forall c | c in dst.chains :: c in old(dst.chains)
    ensures var k := Min(n, |old(dst.Contents())|); data == old(dst.Contents())[..k] && dst.Contents() == old(dst.Contents())[k..]
  {
    forall i | 0 <= i < |src.chains|
      ensures src.chains[i] !in dst.chains
    {
    }
    data := RemoveSome(dst, n);
    StillApart(old(dst.chains), dst.chains, src.chains);
  }

  class Conduit {
    const output: EvBuffer   // the output buffer of the source
    const input: EvBuffer    // the input buffer of the destination
    var writeOn: bool
    var writeSuspended: set<Reason>
    var readOn: bool
    var readSuspended: set<Reason>
    var high: nat
    ghost var written: seq<byte>
    ghost var taken: seq<byte>

    // bufferevent_pair_new, in one direction
    constructor ()
      ensures Valid() && View() == P.New
    {
      output := new EvBuffer();
      input := new EvBuffer();
      writeOn, writeSuspended, readOn, readSuspended, high := true, {}, false, {}, 0;
      written, taken := [], [];
      new;
      output.freezeStart := true;
      input.freezeEnd := true;
    }

    /** Both buffers are sound and apart; users can only append to the output and only take from the input. */
    ghost predicate Valid()
      reads *
    {
      && output.Valid() && input.Valid() && Separate(input, output) && high <= SIZE_MAX
      && output.freezeStart && !output.freezeEnd && !input.freezeStart && input.freezeEnd
    }

    ghost function View(): P.Pipe
      reads this, output, input
    {
      P.Pipe(output.Contents(), input.Contents(), writeOn, writeSuspended, readOn, readSuspended, high, written, taken)
    }

    // be_pair_transfer, up to the callbacks
    method MoveSome(ignoreWatermark: bool) returns (n: nat)
      requires Valid()
      modifies Frame(output), Frame(input)
      ensures Valid() && n <= |old(output.Contents())|
      ensures P.Admitted(n, |old(output.Contents())|, |old(input.Contents())|, high, ignoreWatermark)
      ensures output.Contents() == old(output.Contents())[n..]
      ensures input.Contents() == old(input.Contents()) + old(output.Contents())[..n]
    {
      n := TransferBytes(output, input, high, ignoreWatermark);
    }

    method MovePortion(ignoreWatermark: bool) returns (n: nat)
      requires Valid()
      modifies Frame(output), Frame(input)
      ensures Valid() && n == P.Portion(old(View()), ignoreWatermark) && View() == P.Move(old(View()), n)
    {
      P.OneAmount(View(), ignoreWatermark);
      n := MoveSome(ignoreWatermark);
    }

    // Assigns what is not in the buffers.
    method Set(wOn: bool, wSuspended: set<Reason>, rOn: bool, rSuspended: set<Reason>, mark: nat)
      requires Valid() && mark <= SIZE_MAX
      modifies this
      ensures Valid() && View() == old(View()).(
        writeOn := wOn, writeSuspended := wSuspended, readOn := rOn, readSuspended := rSuspended, high := mark)
    {
      Assign(wOn, wSuspended, rOn, rSuspended, mark);
    }

    method Assign(wOn: bool, wSuspended: set<Reason>, rOn: bool, rSuspended: set<Reason>, mark: nat)
      requires output.Valid()
      modifies this
      ensures output.Valid() && writeOn == wOn && writeSuspended == wSuspended && readOn == rOn && readSuspended == rSuspended
      ensures high == mark && written == old(written) && taken == old(taken)
    {
      writeOn, writeSuspended, readOn, readSuspended, high := wOn, wSuspended, rOn, rSuspended, mark;
    }

    // bufferevent_inbuf_wm_cb after a transfer. If it ends the suspension of reading there is nothing left to
    // transfer, so be_pair_enable does nothing.
    method OnTransferred()
      requires Valid() && (output.totalLen == 0 || (high != 0 && input.totalLen >= high))
      modifies this
      ensures Valid() && View() == P.InputChanged(old(View()))
    {
      if high != 0 {
        if input.totalLen >= high {
          Set(writeOn, writeSuspended, readOn, readSuspended + {Watermark}, high);
        } else {
          P.UnsuspendEmpty(View(), Watermark);
          Set(writeOn, writeSuspended, readOn, readSuspended - {Watermark}, high);
        }
      }
    }

    // be_pair_transfer
    method RunTransfer(ignoreWatermark: bool)
      requires Valid()
      modifies this, Frame(output), Frame(input)
      ensures Valid() && View() == P.Transfer(old(View()), ignoreWatermark)
    {
      var n := MovePortion(ignoreWatermark);
      if n > 0 {
        OnTransferred();
      }
    }

    // be_pair_enable
    method Enabled()
      requires Valid()
      modifies this, Frame(output), Frame(input)
      ensures Valid() && View() == P.Talk(old(View()))
    {
      if writeOn && readOn && readSuspended == {} && output.totalLen > 0 {
        RunTransfer(false);
      }
    }

    // bufferevent_inbuf_wm_cb
    method OnInput()
      requires Valid()
      modifies this, Frame(output), Frame(input)
      ensures Valid() && View() == P.InputChanged(old(View()))
    {
      if high != 0 {
        if input.totalLen >= high {
          Set(writeOn, writeSuspended, readOn, readSuspended + {Watermark}, high);
        } else {
          EndReadSuspension(Watermark);
        }
      }
    }

    // bufferevent_unsuspend_read_
    method EndReadSuspension(why: Reason)
      requires Valid()
      modifies this, Frame(output), Frame(input)
      ensures Valid() && View() == P.UnsuspendRead(old(View()), why)
    {
      Set(writeOn, writeSuspended, readOn, readSuspended - {why}, high);
      if readSuspended == {} && readOn {
        Enabled();
      }
    }

    // bufferevent_enable, for writing at the source
    method EnableWriting()
      requires Valid()
      modifies this, Frame(output), Frame(input)
      ensures Valid() && View() == P.Step(old(View()), P.EnableWrite)
    {
      Set(true, writeSuspended, readOn, readSuspended, high);
      if writeSuspended == {} {
        Enabled();
      }
    }

    // bufferevent_enable, for reading at the destination
    method EnableReading()
      requires Valid()
      modifies this, Frame(output), Frame(input)
      ensures Valid() && View() == P.Step(old(View()), P.EnableRead)
    {
      Set(writeOn, writeSuspended, true, readSuspended, high);
      if readSuspended == {} {
        Enabled();
      }
    }

    // bufferevent_setwatermark, for reading at the destination
    method SetWatermark(mark: nat)
      requires Valid() && mark <= SIZE_MAX
      modifies this, Frame(output), Frame(input)
      ensures Valid() && View() == P.Step(old(View()), P.SetHighWatermark(mark))
    {
      P.MarkStep(View(), mark);
      ChangeMark(mark);
    }

    method ChangeMark(mark: nat)
      requires Valid() && mark <= SIZE_MAX
      modifies this, Frame(output), Frame(input)
      ensures Valid() && View() == P.Marked(old(View()).(high := mark))
    {
      Set(writeOn, writeSuspended, readOn, readSuspended, mark);
      CheckMark();
    }

    // The end of bufferevent_setwatermark.
    method CheckMark()
      requires Valid()
      modifies this, Frame(output), Frame(input)
      ensures Valid() && View() == P.Marked(old(View()))
    {
      if high != 0 && input.totalLen >= high {
        Set(writeOn, writeSuspended, readOn, readSuspended + {Watermark}, high);
      } else {
        EndReadSuspension(Watermark);
      }
    }

    // evbuffer_add on the output
    method Append(data: seq<byte>) returns (r: int)
      requires Valid()
      modifies this`written, this`taken, output, output.chains, output.Memory()
      ensures Valid() && r == if |data| > SIZE_MAX - |old(output.Contents())| || |data| > CHAIN_MAX - CHAIN_HEADER then -1 else 0
      ensures output.GainsFresh()
      ensures var d := if r == 0 then data else [];
        View() == old(View()).(output := old(output.Contents()) + d, written := old(written) + d)
    {
      Record(written + if |data| > SIZE_MAX - output.totalLen || |data| > CHAIN_MAX - CHAIN_HEADER then [] else data, taken);
      r := AppendBeside(output, input, data);
    }

    ghost method Record(w: seq<byte>, t: seq<byte>)
      requires Valid()
      modifies this`written, this`taken
      ensures Valid() && written == w && taken == t
    {
      RecordAt(w, t);
    }

    ghost method RecordAt(w: seq<byte>, t: seq<byte>)
      requires output.Valid()
      modifies this`written, this`taken
      ensures output.Valid() && written == w && taken == t
    {
      written, taken := w, t;
    }

    // bufferevent_write, with be_pair_outbuf_cb
    method Write(data: seq<byte>) returns (r: int)
      requires Valid()
      modifies this, Frame(output), Frame(input)
      ensures Valid() && r == if |data| > SIZE_MAX - |old(output.Contents())| || |data| > CHAIN_MAX - CHAIN_HEADER then -1 else 0
      ensures View() == if r == 0 then P.Step(old(View()), P.Write(data)) else old(View())
    {
      r := Append(data);
      assert old(View()).output + [] == old(View()).output && old(View()).written + [] == old(View()).written;
      if r == 0 && data != [] {
        Enabled();
      }
    }

    // evbuffer_remove on the input
    method Detach(n: nat) returns (data: seq<byte>)
      requires Valid()
      modifies this`written, this`taken, input, input.chains
      ensures Valid() && forall c | c in input.chains :: c in old(input.chains)
      ensures data == old(input.Contents())[..Min(n, |old(input.Contents())|)]
      ensures View() == old(View()).(input := old(input.Contents())[|data|..], taken := old(taken) + data)
    {
      Record(written, taken + input.Contents()[..Min(n, |input.Contents()|)]);
      data := TakeBeside(input, output, n);
    }

    // bufferevent_read
    method Take(n: nat) returns (data: seq<byte>)
      requires Valid()
      modifies this, Frame(output), Frame(input)
      ensures Valid() && View() == P.Step(old(View()), P.Read(n))
      ensures data == old(input.Contents())[..Min(n, |old(input.Contents())|)]
    {
      data := Detach(n);
      if data != [] {
        OnInput();
      }
    }
  }
}
