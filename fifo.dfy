/** The inter-processor FIFO of the two emulated CPUs (processor 0 is the
    ARM9, processor 1 the ARM7). Each processor owns a 16-word send queue
    that its peer receives from, and a 16-bit control/status register (the
    halfword at offset 0x184 of its I/O bank) that mirrors the state of its
    own send queue and of the queue it receives from. Interrupt requests and
    scheduler wake-ups are recorded, in order, in an event log. */
module IpcFifo {

  /** A word travelling through the FIFO. */
  type Word = bv32
  /** The 16-bit control/status register. */
  type Reg = bv16
  /** Processor number: 0 (ARM9) or 1 (ARM7). */
  type Proc = p: int | 0 <= p < 2

  /** Bits of the control/status register. */
  const SendEmpty: Reg := 0x0001
  const SendFull: Reg := 0x0002
  const SendIrqEnable: Reg := 0x0004
  const SendClear: Reg := 0x0008
  const RecvEmpty: Reg := 0x0100
  const RecvFull: Reg := 0x0200
  const RecvIrqEnable: Reg := 0x0400
  const FifoError: Reg := 0x4000
  const FifoEnable: Reg := 0x8000
  /** The bits a write to the register sets as given: both interrupt enables
      and the FIFO enable. */
  const Writeable: Reg := 0x8404
  /** The value the register gets when the FIFO is initialised: both empty
      bits set, the FIFO itself not enabled. */
  const InitCnt: Reg := 0x0101

  /** Number of words a queue holds. */
  const Capacity: int := 16

  /** The other processor. */
  function Peer(p: Proc): (q: Proc)
    ensures q != p
  {
    1 - p
  }

  /** Bit b is set in c. */
  predicate Has(c: Reg, b: Reg)
  {
    c & b != 0
  }

  /** The two interrupt sources of the FIFO. */
  datatype IrqKind = SendEmptyIrq | RecvNonEmptyIrq

  /** What the FIFO asks of the rest of the emulator: an interrupt request to
      one processor, or a rescheduling of the CPUs. */
  datatype Event = Irq(target: Proc, kind: IrqKind) | Reschedule

  /** The send half of a register after a transfer: send-empty and send-full
      as given, the error bit cleared, every other bit kept. */
  function SetSendSide(c: Reg, empty: bool, full: bool): (r: Reg)
    ensures Has(r, SendEmpty) == empty && Has(r, SendFull) == full
    ensures !Has(r, FifoError)
    ensures r & 0xBFFC == c & 0xBFFC && r & 0x0300 == c & 0x0300
  {
    (c & 0xBFFC) | (if empty then SendEmpty else 0) | (if full then SendFull else 0)
  }

  /** The receive half of a register after a transfer: receive-empty and
      receive-full as given, the error bit cleared, every other bit kept. */
  function SetRecvSide(c: Reg, empty: bool, full: bool): (r: Reg)
    ensures Has(r, RecvEmpty) == empty && Has(r, RecvFull) == full
    ensures !Has(r, FifoError)
    ensures r & 0xBCFF == c & 0xBCFF && r & 0x0003 == c & 0x0003
  {
    (c & 0xBCFF) | (if empty then RecvEmpty else 0) | (if full then RecvFull else 0)
  }

  /** A register with the error bit set and every other bit kept. */
  function WithError(c: Reg): (r: Reg)
    ensures Has(r, FifoError)
    ensures r & 0xBFFF == c & 0xBFFF && r & 0x0303 == c & 0x0303
  {
    c | FifoError
  }

  /** The writer's own register after the control value v is written: a set
      error bit in v acknowledges the error, a set clear bit in v marks the
      send queue empty and not full, and the writeable bits are taken from v. */
  function CntLocal(c: Reg, v: Reg): (r: Reg)
    ensures Has(r, FifoError) == (Has(c, FifoError) && !Has(v, FifoError))
    ensures r & Writeable == v & Writeable
    ensures Has(v, SendClear) ==> Has(r, SendEmpty) && !Has(r, SendFull)
  {
    var c1 := if Has(v, FifoError) then c & !FifoError else c;
    var c2 := if Has(v, SendClear) then (c1 | SendEmpty) & !SendFull else c1;
    (c2 & !Writeable) | (v & Writeable)
  }

  /** A control write keeps every bit of the writer's register that is
      neither writeable, the error bit nor a send-status bit, and keeps the
      send-status bits too unless the queue is cleared. */
  lemma CntLocalKeeps(c: Reg, v: Reg)
    ensures CntLocal(c, v) & 0x3BF8 == c & 0x3BF8
    ensures CntLocal(c, v) & 0x0300 == c & 0x0300
    ensures !Has(v, SendClear) ==> CntLocal(c, v) & 0x0003 == c & 0x0003
  {
  }

  /** The peer's register after the control value v is written: a set clear
      bit marks the peer's receive side empty and not full; nothing else
      changes. */
  function CntRemote(c: Reg, v: Reg): (r: Reg)
    ensures Has(v, SendClear) ==> Has(r, RecvEmpty) && !Has(r, RecvFull)
    ensures !Has(v, SendClear) ==> r == c
  {
    if Has(v, SendClear) then (c | RecvEmpty) & !RecvFull else c
  }

  /** A control write keeps every bit of the peer's register except its two
      receive-status bits. */
  lemma CntRemoteKeeps(c: Reg, v: Reg)
    ensures CntRemote(c, v) & 0xFCFF == c & 0xFCFF
    ensures CntRemote(c, v) & 0x0003 == c & 0x0003
  {
  }

  /** The interrupts processor p requests of itself once its register holds
      c after a control write: send-empty when enabled and the send queue is
      empty, receive-not-empty when enabled and the receive side is not
      empty, in that order. */
  function CntIrqs(p: Proc, c: Reg): (evs: seq<Event>)
    ensures Irq(p, SendEmptyIrq) in evs <==> Has(c, SendIrqEnable) && Has(c, SendEmpty)
    ensures Irq(p, RecvNonEmptyIrq) in evs <==> Has(c, RecvIrqEnable) && !Has(c, RecvEmpty)
    ensures forall e :: e in evs ==> e.Irq? && e.target == p
    ensures |evs| <= 2
    ensures |evs| == 2 ==> evs == [Irq(p, SendEmptyIrq), Irq(p, RecvNonEmptyIrq)]
  {
    (if Has(c, SendIrqEnable) && Has(c, SendEmpty) then [Irq(p, SendEmptyIrq)] else [])
    + (if Has(c, RecvIrqEnable) && !Has(c, RecvEmpty) then [Irq(p, RecvNonEmptyIrq)] else [])
  }

  /** The status bits of a sender's register (local) and of its peer's
      register (remote) agree with the number of words in the sender's
      queue. */
  predicate Mirror(local: Reg, remote: Reg, size: int)
  {
    && Has(local, SendEmpty) == (size == 0)
    && Has(local, SendFull) == (size == Capacity)
    && Has(remote, RecvEmpty) == (size == 0)
    && Has(remote, RecvFull) == (size == Capacity)
  }

  /** Whether the bits mirror a queue depends only on the send bits of the
      sender's register and the receive bits of its peer's. */
  lemma MirrorKeeps(local: Reg, remote: Reg, local': Reg, remote': Reg, size: int)
    requires Mirror(local, remote, size)
    requires local' & 0x0003 == local & 0x0003 && remote' & 0x0300 == remote & 0x0300
    ensures Mirror(local', remote', size)
  {
  }

  /** A successful send leaves the bits mirroring the sender's grown queue,
      and the bits mirroring the queue the sender receives from (of size
      peers) as they were. */
  lemma SendMirrors(local: Reg, remote: Reg, size: int, peers: int)
    requires 0 <= size < Capacity
    requires Mirror(remote, local, peers)
    ensures var full := size + 1 == Capacity;
      && Mirror(SetSendSide(local, false, full), SetRecvSide(remote, false, full), size + 1)
      && Mirror(SetRecvSide(remote, false, full), SetSendSide(local, false, full), peers)
  {
    var full := size + 1 == Capacity;
    MirrorKeeps(remote, local, SetRecvSide(remote, false, full), SetSendSide(local, false, full), peers);
  }

  /** A successful receive leaves the bits mirroring the sender's shrunk
      queue, and the bits mirroring the receiver's own queue (of size own)
      as they were. */
  lemma RecvMirrors(receiver: Reg, sender: Reg, size: int, own: int)
    requires 0 < size <= Capacity
    requires Mirror(receiver, sender, own)
    ensures var empty := size - 1 == 0;
      && Mirror(SetSendSide(sender, empty, false), SetRecvSide(receiver, empty, false), size - 1)
      && Mirror(SetRecvSide(receiver, empty, false), SetSendSide(sender, empty, false), own)
  {
    var empty := size - 1 == 0;
    MirrorKeeps(receiver, sender, SetRecvSide(receiver, empty, false), SetSendSide(sender, empty, false), own);
  }

  /** A failed transfer sets only the error bit, which mirrors no queue. */
  lemma ErrorMirrors(c: Reg, other: Reg, own: int, peers: int)
    requires Mirror(c, other, own) && Mirror(other, c, peers)
    ensures Mirror(WithError(c), other, own) && Mirror(other, WithError(c), peers)
  {
    MirrorKeeps(c, other, WithError(c), other, own);
    MirrorKeeps(other, c, other, WithError(c), peers);
  }

  /** A control write that clears the queue mirrors the empty queue, one
      that does not clear it keeps the bits mirroring the same queue, and
      the bits mirroring the queue the writer receives from are kept
      either way. */
  lemma CntMirrors(local: Reg, remote: Reg, v: Reg, size: int, peers: int)
    requires Has(v, SendClear) || Mirror(local, remote, size)
    requires Mirror(remote, local, peers)
    ensures Mirror(CntLocal(local, v), CntRemote(remote, v), if Has(v, SendClear) then 0 else size)
    ensures Mirror(CntRemote(remote, v), CntLocal(local, v), peers)
  {
    CntLocalKeeps(local, v);
    CntRemoteKeeps(remote, v);
    if !Has(v, SendClear) {
      MirrorKeeps(local, remote, CntLocal(local, v), CntRemote(remote, v), size);
    }
    MirrorKeeps(remote, local, CntRemote(remote, v), CntLocal(local, v), peers);
  }

  /** Both FIFOs enabled, and the status bits of the two registers (local,
      remote) mirror a local send queue of n words and a remote one of m. */
  predicate Ready(local: Reg, remote: Reg, n: int, m: int)
  {
    && Has(local, FifoEnable) && Has(remote, FifoEnable)
    && Mirror(local, remote, n) && Mirror(remote, local, m)
  }

  /** A transfer leaves the enable bit of a register as it was. */
  lemma TransferKeepsEnable(c: Reg, empty: bool, full: bool)
    ensures Has(SetSendSide(c, empty, full), FifoEnable) == Has(c, FifoEnable)
    ensures Has(SetRecvSide(c, empty, full), FifoEnable) == Has(c, FifoEnable)
  {
  }

  /** A successful send keeps both FIFOs ready, with one more word queued. */
  lemma SendReady(local: Reg, remote: Reg, n: int, m: int)
    requires 0 <= n < Capacity && Ready(local, remote, n, m)
    ensures var full := n + 1 == Capacity;
      Ready(SetSendSide(local, false, full), SetRecvSide(remote, false, full), n + 1, m)
  {
    SendMirrors(local, remote, n, m);
  }

  /** A successful receive keeps both FIFOs ready, with one word fewer queued
      on the sender's side. */
  lemma RecvReady(receiver: Reg, sender: Reg, own: int, n: int)
    requires 0 < n <= Capacity && Ready(receiver, sender, own, n)
    ensures var empty := n - 1 == 0;
      Ready(SetRecvSide(receiver, empty, false), SetSendSide(sender, empty, false), own, n - 1)
  {
    RecvMirrors(receiver, sender, n, own);
  }

  /** Writing the same control value twice, when it does not clear the
      queue, leaves the register as the first write left it. */
  lemma CntIdempotent(c: Reg, v: Reg)
    requires !Has(v, SendClear)
    ensures CntLocal(CntLocal(c, v), v) == CntLocal(c, v)
  {
  }

  /** The ring position of index i < 2 * Capacity. */
  function Wrap(i: int): int
  {
    if i < Capacity then i else i - Capacity
  }

  /** One processor's send queue: a ring of 16 words with a head (next word
      to receive), a tail (next free slot) and a size. */
  class Queue {
    const buf: array<Word>
    var head: int
    var tail: int
    var size: int
    /** The words waiting, oldest first. */
    ghost var contents: seq<Word>

    ghost predicate Valid()
      reads this, buf
    {
      && buf.Length == Capacity
      && 0 <= head < Capacity && 0 <= tail < Capacity && 0 <= size <= Capacity
      && tail == Wrap(head + size)
      && |contents| == size
      && forall k :: 0 <= k < size ==> contents[k] == buf[Wrap(head + k)]
    }

    /** A queue in the zeroed state the emulator starts from. */
    constructor ()
      ensures Valid() && fresh(buf)
      ensures contents == [] && head == 0 && tail == 0 && size == 0
      ensures forall k :: 0 <= k < Capacity ==> buf[k] == 0
    {
      buf := new Word[Capacity](_ => 0);
      head, tail, size := 0, 0, 0;
      contents := [];
    }

    /** Zeroes the whole queue, slots included. */
    method Zero()
      requires Valid()
      modifies this, buf
      ensures Valid()
      ensures contents == [] && head == 0 && tail == 0 && size == 0
      ensures forall k :: 0 <= k < Capacity ==> buf[k] == 0
    {
      var k := 0;
      while k < Capacity
        invariant 0 <= k <= Capacity
        invariant forall i :: 0 <= i < k ==> buf[i] == 0
      {
        buf[k] := 0;
        k := k + 1;
      }
      head, tail, size := 0, 0, 0;
      contents := [];
    }

    /** Empties the queue by resetting its indices; the slots keep their
        words. */
    method Clear()
      requires Valid()
      modifies this
      ensures Valid()
      ensures contents == [] && head == 0 && tail == 0 && size == 0
    {
      head, tail, size := 0, 0, 0;
      contents := [];
    }

    /** Stores v in the tail slot and advances the tail, wrapping after slot
        15. */
    method Push(v: Word)
      requires Valid() && size < Capacity
      modifies this, buf
      ensures Valid() && head == old(head)
      ensures contents == old(contents) + [v]
    {
      buf[tail] := v;
      tail := tail + 1;
      size := size + 1;
      if tail > 15 {
        tail := 0;
      }
      contents := contents + [v];
    }

    /** Takes the word in the head slot and advances the head, wrapping after
        slot 15. */
    method Pop() returns (v: Word)
      requires Valid() && size > 0
      modifies this
      ensures Valid() && tail == old(tail)
      ensures v == old(contents[0])
      ensures contents == old(contents[1..])
    {
      v := buf[head];
      head := head + 1;
      size := size - 1;
      if head > 15 {
        head := 0;
      }
      contents := contents[1..];
    }
  }

  /** Both queues, both control/status registers and the log of interrupt
      requests and reschedules. */
  class Fifo {
    /** The ARM9's send queue (ipc_fifo[0]). */
    const arm9: Queue
    /** The ARM7's send queue (ipc_fifo[1]). */
    const arm7: Queue
    /** The control/status register of each processor. */
    const cnt: array<Reg>
    /** Every interrupt request and reschedule, oldest first. */
    var events: seq<Event>

    /** The send queue of processor p. */
    function Q(p: Proc): Queue
    {
      if p == 0 then arm9 else arm7
    }

    ghost predicate Valid()
      reads this, cnt, arm9, arm7, arm9.buf, arm7.buf
    {
      && cnt.Length == 2
      && arm9 != arm7 && arm9.buf != arm7.buf
      && arm9.Valid() && arm7.Valid()
    }

    /** The status bits of both registers agree with both queues. */
    ghost predicate Mirrored()
      reads this, cnt, arm9, arm7
    {
      && cnt.Length == 2
      && Mirror(cnt[0], cnt[1], |Q(0).contents|)
      && Mirror(cnt[1], cnt[0], |Q(1).contents|)
    }

    /** The zeroed state the emulator starts from. */
    constructor ()
      ensures Valid() && fresh(cnt) && fresh(arm9) && fresh(arm7) && fresh(arm9.buf) && fresh(arm7.buf)
      ensures arm9.contents == [] && arm7.contents == []
      ensures cnt[0] == 0 && cnt[1] == 0 && events == []
    {
      arm9 := new Queue();
      arm7 := new Queue();
      cnt := new Reg[2](_ => 0);
      events := [];
    }

    /** Resets processor p's send queue and sets its register to InitCnt;
        the FIFO stays disabled until a control write enables it. Once both
        processors are initialised the status bits mirror the queues. */
    method Init(p: Proc)
      requires Valid()
      modifies Q(p), Q(p).buf, cnt
      ensures Valid()
      ensures Q(p).contents == [] && Q(p).head == 0 && Q(p).tail == 0
      ensures forall k :: 0 <= k < Capacity ==> Q(p).buf[k] == 0
      ensures cnt[p] == InitCnt && !Has(cnt[p], FifoEnable)
      ensures cnt[Peer(p)] == old(cnt[Peer(p)])
      ensures events == old(events)
      ensures old(Q(Peer(p)).contents) == [] && old(cnt[Peer(p)]) == InitCnt ==> Mirrored()
    {
      Q(p).Zero();
      cnt[p] := InitCnt;
    }

    /** Processor p sends v. Nothing happens while p's FIFO is disabled. On
        a full queue v is dropped and only p's error bit is set. Otherwise v
        is queued, both registers are updated, the peer gets a
        receive-not-empty interrupt if it enabled one, and the CPUs are
        rescheduled. */
    method Send(p: Proc, v: Word)
      requires Valid()
      modifies Q(p), Q(p).buf, cnt, this`events
      ensures Valid()
      ensures !Has(old(cnt[p]), FifoEnable) ==>
        && Q(p).contents == old(Q(p).contents)
        && cnt[p] == old(cnt[p]) && cnt[Peer(p)] == old(cnt[Peer(p)])
        && events == old(events)
      ensures Has(old(cnt[p]), FifoEnable) && |old(Q(p).contents)| == Capacity ==>
        && Q(p).contents == old(Q(p).contents)
        && cnt[p] == WithError(old(cnt[p])) && cnt[Peer(p)] == old(cnt[Peer(p)])
        && events == old(events)
      ensures Has(old(cnt[p]), FifoEnable) && |old(Q(p).contents)| < Capacity ==>
        var full := |Q(p).contents| == Capacity;
        && Q(p).contents == old(Q(p).contents) + [v]
        && cnt[p] == SetSendSide(old(cnt[p]), false, full)
        && cnt[Peer(p)] == SetRecvSide(old(cnt[Peer(p)]), false, full)
        && events == old(events)
                     + (if Has(cnt[Peer(p)], RecvIrqEnable) then [Irq(Peer(p), RecvNonEmptyIrq)] else [])
                     + [Reschedule]
      ensures !Has(old(cnt[p]), FifoEnable) || |old(Q(p).contents)| == Capacity ==>
        unchanged(Q(p), Q(p).buf)
      ensures Q(p).head == old(Q(p).head)
    {
      if !Has(cnt[p], FifoEnable) {
        return;
      }
      var q := Q(p);
      if q.size > 15 {
        RaiseError(p);
        return;
      }
      q.Push(v);
      SendRegisters(p, q.size);
      events := events + [Reschedule];
    }

    /** Processor p takes the oldest word its peer sent. Nothing happens, and
        0 is returned, while p's FIFO is disabled. On an empty queue only p's
        error bit is set and 0 is returned. Otherwise the word is dequeued,
        both registers are updated, the peer gets a send-empty interrupt if
        its queue ran empty and it enabled one, and the CPUs are
        rescheduled. */
    method Recv(p: Proc) returns (v: Word)
      requires Valid()
      modifies Q(Peer(p)), cnt, this`events
      ensures Valid()
      ensures !Has(old(cnt[p]), FifoEnable) ==>
        && v == 0
        && Q(Peer(p)).contents == old(Q(Peer(p)).contents)
        && cnt[p] == old(cnt[p]) && cnt[Peer(p)] == old(cnt[Peer(p)])
        && events == old(events)
      ensures Has(old(cnt[p]), FifoEnable) && old(Q(Peer(p)).contents) == [] ==>
        && v == 0
        && Q(Peer(p)).contents == []
        && cnt[p] == WithError(old(cnt[p])) && cnt[Peer(p)] == old(cnt[Peer(p)])
        && events == old(events)
      ensures Has(old(cnt[p]), FifoEnable) && old(Q(Peer(p)).contents) != [] ==>
        var empty := Q(Peer(p)).contents == [];
        && v == old(Q(Peer(p)).contents[0])
        && Q(Peer(p)).contents == old(Q(Peer(p)).contents[1..])
        && cnt[p] == SetRecvSide(old(cnt[p]), empty, false)
        && cnt[Peer(p)] == SetSendSide(old(cnt[Peer(p)]), empty, false)
        && events == old(events)
                     + (if empty && Has(cnt[Peer(p)], SendIrqEnable) then [Irq(Peer(p), SendEmptyIrq)] else [])
                     + [Reschedule]
      ensures !Has(old(cnt[p]), FifoEnable) || old(Q(Peer(p)).contents) == [] ==> unchanged(Q(Peer(p)))
      ensures Q(Peer(p)).tail == old(Q(Peer(p)).tail)
    {
      if !Has(cnt[p], FifoEnable) {
        return 0;
      }
      var q := Q(Peer(p));
      if q.size == 0 {
        RaiseError(p);
        return 0;
      }
      v := q.Pop();
      RecvRegisters(p, q.size);
      events := events + [Reschedule];
    }

    /** Processor p writes v to its control register. This works whether or
        not the FIFO is enabled: the error bit is acknowledged, the send
        queue is emptied on request, the writeable bits are stored, p gets
        the interrupts its new register calls for, and the CPUs are
        rescheduled. */
    method Cnt(p: Proc, v: Reg)
      requires Valid()
      modifies Q(p), cnt, this`events
      ensures Valid()
      ensures Q(p).contents == if Has(v, SendClear) then [] else old(Q(p).contents)
      ensures cnt[p] == CntLocal(old(cnt[p]), v)
      ensures cnt[Peer(p)] == CntRemote(old(cnt[Peer(p)]), v)
      ensures events == old(events) + CntIrqs(p, cnt[p]) + [Reschedule]
      ensures Has(v, SendClear) ==> Q(p).head == 0 && Q(p).tail == 0
      ensures !Has(v, SendClear) ==> unchanged(Q(p))
    {
      if Has(v, SendClear) {
        Q(p).Clear();
      }
      CntRegisters(p, v);
      events := events + [Reschedule];
    }

    /** Sets p's error bit after a failed transfer. */
    method RaiseError(p: Proc)
      requires cnt.Length == 2
      modifies cnt
      ensures cnt[p] == WithError(old(cnt[p])) && cnt[Peer(p)] == old(cnt[Peer(p)])
    {
      cnt[p] := WithError(cnt[p]);
    }

    /** The register writes after p's send queue grew to size words, and the
        peer's receive-not-empty interrupt if it enabled one. */
    method SendRegisters(p: Proc, size: int)
      requires cnt.Length == 2 && 0 < size <= Capacity
      modifies cnt, this`events
      ensures cnt[p] == SetSendSide(old(cnt[p]), false, size == Capacity)
      ensures cnt[Peer(p)] == SetRecvSide(old(cnt[Peer(p)]), false, size == Capacity)
      ensures events == old(events)
        + (if Has(cnt[Peer(p)], RecvIrqEnable) then [Irq(Peer(p), RecvNonEmptyIrq)] else [])
    {
      var r := Peer(p);
      var full := size > 15;
      cnt[p] := SetSendSide(cnt[p], false, full);
      cnt[r] := SetRecvSide(cnt[r], false, full);
      if Has(cnt[r], RecvIrqEnable) {
        events := events + [Irq(r, RecvNonEmptyIrq)];
      }
    }

    /** The register writes after the queue p receives from shrank to size
        words, and the peer's send-empty interrupt if that queue ran empty
        and the peer enabled one. */
    method RecvRegisters(p: Proc, size: int)
      requires cnt.Length == 2 && 0 <= size < Capacity
      modifies cnt, this`events
      ensures cnt[p] == SetRecvSide(old(cnt[p]), size == 0, false)
      ensures cnt[Peer(p)] == SetSendSide(old(cnt[Peer(p)]), size == 0, false)
      ensures events == old(events)
        + (if size == 0 && Has(cnt[Peer(p)], SendIrqEnable) then [Irq(Peer(p), SendEmptyIrq)] else [])
    {
      var r := Peer(p);
      var empty := size == 0;
      cnt[p] := SetRecvSide(cnt[p], empty, false);
      cnt[r] := SetSendSide(cnt[r], empty, false);
      if empty && Has(cnt[r], SendIrqEnable) {
        events := events + [Irq(r, SendEmptyIrq)];
      }
    }

    /** The register writes of p's control write v, and the interrupts p's
        new register calls for. */
    method CntRegisters(p: Proc, v: Reg)
      requires cnt.Length == 2
      modifies cnt, this`events
      ensures cnt[p] == CntLocal(old(cnt[p]), v)
      ensures cnt[Peer(p)] == CntRemote(old(cnt[Peer(p)]), v)
      ensures events == old(events) + CntIrqs(p, cnt[p])
    {
      var r := Peer(p);
      var cl := CntLocal(cnt[p], v);
      cnt[r] := CntRemote(cnt[r], v);
      cnt[p] := cl;
      events := events + CntIrqs(p, cl);
    }
  }

  /** Readiness seen from either processor is mirroring plus both enable bits. */
  lemma ReadyIsMirrored(f: Fifo, p: Proc)
    requires f.cnt.Length == 2
    ensures Ready(f.cnt[p], f.cnt[Peer(p)], |f.Q(p).contents|, |f.Q(Peer(p)).contents|)
        <==> f.Mirrored() && Has(f.cnt[0], FifoEnable) && Has(f.cnt[1], FifoEnable)
  {
  }

  /** A FIFO as the emulator brings it up: built zeroed, then both
      processors initialised. Both FIFOs are still disabled and the status
      bits mirror the two empty queues. */
  method Start() returns (f: Fifo)
    ensures fresh(f) && fresh(f.cnt) && fresh(f.arm9) && fresh(f.arm7)
    ensures fresh(f.arm9.buf) && fresh(f.arm7.buf)
    ensures f.Valid() && f.Mirrored()
    ensures f.arm9.contents == [] && f.arm7.contents == []
    ensures f.cnt[0] == InitCnt && f.cnt[1] == InitCnt && f.events == []
  {
    f := new Fifo();
    f.Init(0);
    f.Init(1);
  }

  /** The whole life of a transfer from power-on: bring the FIFO up, enable
      it on both processors with a control write, let the ARM9 send the
      words and the ARM7 drain them. The ARM7 receives exactly the words
      sent, in order, and the status bits end up mirroring two empty queues. */
  method BringUpRoundTrip(words: seq<Word>) returns (f: Fifo, got: seq<Word>)
    requires |words| <= Capacity
    ensures fresh(f) && f.Valid() && f.Mirrored()
    ensures got == words
    ensures f.arm9.contents == [] && f.arm7.contents == []
    ensures Has(f.cnt[0], FifoEnable) && Has(f.cnt[1], FifoEnable)
    ensures Has(f.cnt[0], SendEmpty) && Has(f.cnt[1], RecvEmpty)
  {
    f := Start();
    f.Cnt(0, FifoEnable);
    f.Cnt(1, FifoEnable);
    got := SendThenDrain(f, 0, words);
  }

  /** Processor p sends the words one by one, then its peer receives as many.
      With both FIFOs enabled and p's queue empty, the peer gets the words
      back in the order they were sent and p's queue is empty again. The
      last receive sets p's send-empty and the peer's receive-empty bits;
      status bits that mirrored the queues before still mirror them. */
  method SendThenDrain(f: Fifo, p: Proc, words: seq<Word>) returns (got: seq<Word>)
    requires f.Valid()
    requires Has(f.cnt[p], FifoEnable) && Has(f.cnt[Peer(p)], FifoEnable)
    requires f.Q(p).contents == [] && |words| <= Capacity
    modifies f.Q(p), f.Q(p).buf, f.cnt, f`events
    ensures got == words
    ensures f.Valid() && f.Q(p).contents == []
    ensures Has(f.cnt[p], FifoEnable) && Has(f.cnt[Peer(p)], FifoEnable)
    ensures |words| > 0 || old(f.Mirrored()) ==> Has(f.cnt[p], SendEmpty) && Has(f.cnt[Peer(p)], RecvEmpty)
    ensures old(f.Mirrored()) ==> f.Mirrored()
  {
    ReadyIsMirrored(f, p);
    SendAll(f, p, words);
    got := ReceiveAll(f, p, |words|);
    ReadyIsMirrored(f, p);
  }

  /** p sends each word in turn into its queue, which has room for them all. */
  method SendAll(f: Fifo, p: Proc, words: seq<Word>)
    requires f.Valid() && |f.Q(p).contents| + |words| <= Capacity
    requires Has(f.cnt[p], FifoEnable) && Has(f.cnt[Peer(p)], FifoEnable)
    modifies f.Q(p), f.Q(p).buf, f.cnt, f`events
    ensures f.Valid() && f.Q(p).contents == old(f.Q(p).contents) + words
    ensures Has(f.cnt[p], FifoEnable) && Has(f.cnt[Peer(p)], FifoEnable)
    ensures old(Ready(f.cnt[p], f.cnt[Peer(p)], |f.Q(p).contents|, |f.Q(Peer(p)).contents|)) ==>
      Ready(f.cnt[p], f.cnt[Peer(p)], |f.Q(p).contents|, |f.Q(Peer(p)).contents|)
  {
    ghost var before := f.Q(p).contents;
    ghost var ready := Ready(f.cnt[p], f.cnt[Peer(p)], |f.Q(p).contents|, |f.Q(Peer(p)).contents|);
    var i := 0;
    while i < |words|
      invariant 0 <= i <= |words|
      invariant f.Valid() && f.Q(p).contents == before + words[..i]
      invariant Has(f.cnt[p], FifoEnable) && Has(f.cnt[Peer(p)], FifoEnable)
      invariant ready ==> Ready(f.cnt[p], f.cnt[Peer(p)], |f.Q(p).contents|, |f.Q(Peer(p)).contents|)
    {
      SendOne(f, p, words[i]);
      assert words[..i + 1] == words[..i] + [words[i]];
      i := i + 1;
    }
    assert words[..i] == words;
  }

  /** p's peer receives n words from p's queue, which holds at least n; they
      come out oldest first. Emptying the queue sets p's send-empty and the
      peer's receive-empty bits. */
  method ReceiveAll(f: Fifo, p: Proc, n: nat) returns (got: seq<Word>)
    requires f.Valid() && n <= |f.Q(p).contents|
    requires Has(f.cnt[p], FifoEnable) && Has(f.cnt[Peer(p)], FifoEnable)
    modifies f.Q(p), f.cnt, f`events
    ensures f.Valid()
    ensures got == old(f.Q(p).contents[..n]) && f.Q(p).contents == old(f.Q(p).contents[n..])
    ensures Has(f.cnt[p], FifoEnable) && Has(f.cnt[Peer(p)], FifoEnable)
    ensures 0 < n == old(|f.Q(p).contents|) ==> Has(f.cnt[p], SendEmpty) && Has(f.cnt[Peer(p)], RecvEmpty)
    ensures old(Ready(f.cnt[p], f.cnt[Peer(p)], |f.Q(p).contents|, |f.Q(Peer(p)).contents|)) ==>
      Ready(f.cnt[p], f.cnt[Peer(p)], |f.Q(p).contents|, |f.Q(Peer(p)).contents|)
  {
    ghost var before := f.Q(p).contents;
    ghost var ready := Ready(f.cnt[p], f.cnt[Peer(p)], |f.Q(p).contents|, |f.Q(Peer(p)).contents|);
    got := [];
    var i := 0;
    while i < n
      invariant 0 <= i <= n
      invariant f.Valid() && f.Q(p).contents == before[i..] && got == before[..i]
      invariant Has(f.cnt[p], FifoEnable) && Has(f.cnt[Peer(p)], FifoEnable)
      invariant 0 < i && f.Q(p).contents == [] ==> Has(f.cnt[p], SendEmpty) && Has(f.cnt[Peer(p)], RecvEmpty)
      invariant ready ==> Ready(f.cnt[p], f.cnt[Peer(p)], |f.Q(p).contents|, |f.Q(Peer(p)).contents|)
    {
      var v := ReceiveOne(f, p);
      assert before[..i + 1] == before[..i] + [v];
      got := got + [v];
      i := i + 1;
    }
  }

  /** One send by p into a queue with room appends the word, keeps both
      FIFOs enabled, and keeps them ready if they were. */
  method SendOne(f: Fifo, p: Proc, v: Word)
    requires f.Valid() && |f.Q(p).contents| < Capacity
    requires Has(f.cnt[p], FifoEnable) && Has(f.cnt[Peer(p)], FifoEnable)
    modifies f.Q(p), f.Q(p).buf, f.cnt, f`events
    ensures f.Valid() && f.Q(p).contents == old(f.Q(p).contents) + [v]
    ensures Has(f.cnt[p], FifoEnable) && Has(f.cnt[Peer(p)], FifoEnable)
    ensures old(Ready(f.cnt[p], f.cnt[Peer(p)], |f.Q(p).contents|, |f.Q(Peer(p)).contents|)) ==>
      Ready(f.cnt[p], f.cnt[Peer(p)], |f.Q(p).contents|, |f.Q(Peer(p)).contents|)
  {
    ghost var local, remote := f.cnt[p], f.cnt[Peer(p)];
    ghost var n, m := |f.Q(p).contents|, |f.Q(Peer(p)).contents|;
    if Ready(local, remote, n, m) {
      SendReady(local, remote, n, m);
    }
    TransferKeepsEnable(local, false, n + 1 == Capacity);
    TransferKeepsEnable(remote, false, n + 1 == Capacity);
    f.Send(p, v);
  }

  /** One receive by p's peer from p's non-empty queue yields the oldest
      word and keeps both FIFOs enabled, and ready if they were. Taking the
      last word sets p's send-empty and the peer's receive-empty bits. */
  method ReceiveOne(f: Fifo, p: Proc) returns (v: Word)
    requires f.Valid() && f.Q(p).contents != []
    requires Has(f.cnt[p], FifoEnable) && Has(f.cnt[Peer(p)], FifoEnable)
    modifies f.Q(p), f.cnt, f`events
    ensures f.Valid()
    ensures v == old(f.Q(p).contents[0]) && f.Q(p).contents == old(f.Q(p).contents[1..])
    ensures Has(f.cnt[p], FifoEnable) && Has(f.cnt[Peer(p)], FifoEnable)
    ensures f.Q(p).contents == [] ==> Has(f.cnt[p], SendEmpty) && Has(f.cnt[Peer(p)], RecvEmpty)
    ensures old(Ready(f.cnt[p], f.cnt[Peer(p)], |f.Q(p).contents|, |f.Q(Peer(p)).contents|)) ==>
      Ready(f.cnt[p], f.cnt[Peer(p)], |f.Q(p).contents|, |f.Q(Peer(p)).contents|)
  {
    ghost var local, remote := f.cnt[p], f.cnt[Peer(p)];
    ghost var n, m := |f.Q(p).contents|, |f.Q(Peer(p)).contents|;
    v := ReceiveFrom(f, p);
    RecvStep(remote, local, m, n);
  }

  /** A successful receive keeps both enable bits, keeps the FIFOs ready if
      they were, and sets both empty bits when it takes the last word. */
  lemma RecvStep(receiver: Reg, sender: Reg, own: int, n: int)
    requires 0 < n <= Capacity
    requires Has(receiver, FifoEnable) && Has(sender, FifoEnable)
    ensures var empty := n - 1 == 0;
      && Has(SetRecvSide(receiver, empty, false), FifoEnable)
      && Has(SetSendSide(sender, empty, false), FifoEnable)
      && (empty ==> Has(SetRecvSide(receiver, empty, false), RecvEmpty)
                    && Has(SetSendSide(sender, empty, false), SendEmpty))
      && (Ready(receiver, sender, own, n) ==>
            Ready(SetRecvSide(receiver, empty, false), SetSendSide(sender, empty, false), own, n - 1))
  {
    var empty := n - 1 == 0;
    TransferKeepsEnable(receiver, empty, false);
    TransferKeepsEnable(sender, empty, false);
    if Ready(receiver, sender, own, n) {
      RecvReady(receiver, sender, own, n);
    }
  }

  /** The successful path of Recv by p's peer, seen from p: the word at the
      head of p's queue comes out and both registers get their transfer
      update, with empty exactly when the queue ran dry. */
  method ReceiveFrom(f: Fifo, p: Proc) returns (v: Word)
    requires f.Valid() && f.Q(p).contents != [] && Has(f.cnt[Peer(p)], FifoEnable)
    modifies f.Q(p), f.cnt, f`events
    ensures f.Valid()
    ensures v == old(f.Q(p).contents[0]) && f.Q(p).contents == old(f.Q(p).contents[1..])
    ensures f.Q(Peer(p)).contents == old(f.Q(Peer(p)).contents)
    ensures var empty := f.Q(p).contents == [];
      && f.cnt[Peer(p)] == SetRecvSide(old(f.cnt[Peer(p)]), empty, false)
      && f.cnt[p] == SetSendSide(old(f.cnt[p]), empty, false)
  {
    var q: Proc := Peer(p);
    assert Peer(q) == p;
    v := f.Recv(q);
  }
}
