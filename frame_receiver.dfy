/**
 * The transient communication state of the ZIV driver (FrameReceiver) and
 * the per-tick engine communicate(), which paces the outbound queue, drains
 * the UART into a growable buffer, looks for the HDLC flag and hands the
 * buffer to the DLMS codec.
 */
module Receiver {
  import opened Wire
  import opened Handlers

  /** What dlms_getData2 reports: return code, reply completion, new read cursor. */
  datatype Assembly = Assembly(ret: int, complete: bool, position: nat)

  /** The codec's incremental frame assembly, as a function of buffer and cursor. */
  type Assembler = (seq<byte>, nat) -> Assembly

  /** The codec never moves its read cursor past the bytes it was given. */
  ghost predicate KeepsCursorInside(assemble: Assembler)
  {
    forall s: seq<byte>, p: nat :: p <= |s| ==> assemble(s, p).position <= |s|
  }

  /**
   * Everything from outside that one call of communicate() sees: millis(),
   * the successive chunks available() reports (the drain stops at the first
   * empty one), the codec's assembly, and the code and decoded integer that
   * the handler's parser returns for a complete reply.
   */
  datatype Tick = Tick(now: nat, arriving: seq<Message>, assemble: Assembler, parseCode: int, decoded: int)

  // ---------------------------------------------------------------------
  // Specification of the send phase

  /** Send cursor: message index mindex_ and byte offset mdatapos_. */
  datatype SendCursor = SendCursor(mindex: nat, mdatapos: nat)

  /** Bytes one send tick writes from message `msg` at offset `pos`. */
  function ChunkLength(msg: Message, pos: nat): (n: nat)
    ensures n <= MAX_SEND
    ensures n == 0 <==> |msg| <= pos
    ensures n > 0 ==> pos + n <= |msg|
  {
    if |msg| > pos then Min(MAX_SEND, |msg| - pos) else 0
  }

  /** The bytes written by one send tick. */
  function SendChunk(msgs: seq<Message>, c: SendCursor): seq<byte>
    requires c.mindex < |msgs|
  {
    var msg := msgs[c.mindex];
    if |msg| > c.mdatapos then msg[c.mdatapos .. c.mdatapos + ChunkLength(msg, c.mdatapos)] else []
  }

  /** The cursor after one send tick; the offset is not reset between messages. */
  function NextCursor(msgs: seq<Message>, c: SendCursor): SendCursor
    requires c.mindex < |msgs|
  {
    var pos := c.mdatapos + ChunkLength(msgs[c.mindex], c.mdatapos);
    SendCursor(if pos >= |msgs[c.mindex]| then c.mindex + 1 else c.mindex, pos)
  }

  /** The writes one send tick records on the line (none when nothing is left). */
  function WritesOf(msgs: seq<Message>, c: SendCursor): seq<Message>
    requires c.mindex < |msgs|
  {
    if SendChunk(msgs, c) == [] then [] else [SendChunk(msgs, c)]
  }

  /**
   * The cursor and the bytes written after up to k consecutive ticks of the
   * send phase (it stops as soon as the whole queue has been passed).
   */
  function SendRun(msgs: seq<Message>, c: SendCursor, k: nat): (SendCursor, seq<byte>)
    decreases k
  {
    if k == 0 || c.mindex >= |msgs| then (c, [])
    else
      var rest := SendRun(msgs, NextCursor(msgs, c), k - 1);
      (rest.0, SendChunk(msgs, c) + rest.1)
  }

  /** ceil(T / MAX_SEND) ticks, but at least one: an empty message also takes a tick. */
  function TicksToSend(t: nat): nat
  {
    if t == 0 then 1 else (t + MAX_SEND - 1) / MAX_SEND
  }

  // ---------------------------------------------------------------------
  // Specification of the receive phase

  /** What available() reports on its j-th call. */
  function Available(arriving: seq<Message>, j: nat): nat
  {
    if j < |arriving| then |arriving[j]| else 0
  }

  /** How many reads the drain loop performs: up to the first empty chunk. */
  function ReadCount(arriving: seq<Message>): (n: nat)
    ensures n <= |arriving|
    ensures forall t :: 0 <= t < n ==> arriving[t] != []
    ensures n < |arriving| ==> arriving[n] == []
  {
    if arriving == [] || arriving[0] == [] then 0 else 1 + ReadCount(arriving[1..])
  }

  /** The bytes one drain appends to the receive buffer. */
  function Arrived(arriving: seq<Message>): seq<byte>
  {
    Concat(arriving[..ReadCount(arriving)])
  }

  /**
   * The lowest index the backward scan `for (i = size-1; i != from; --i)`
   * can look at: just above the codec cursor, or, with the cursor at the end
   * of the bytes, the start of the buffer (the scan then runs until it meets
   * a flag, which FlagHeld guarantees is there).
   */
  function ScanFloor(from: nat, n: nat): nat
  {
    if from < n then from + 1 else 0
  }

  /** The outcome of the backward scan over `d` down to (not including) `from`. */
  predicate FlagAfter(d: seq<byte>, from: nat)
  {
    |d| > MIN_FRAME && exists i :: ScanFloor(from, |d|) <= i < |d| && d[i] == FLAG
  }

  /** The receive-side state: buffer contents, codec cursor, eop_found_, reply_.complete. */
  datatype RxState = RxState(data: seq<byte>, position: nat, eopFound: bool, replyComplete: bool)

  /**
   * The codec cursor moves, and a reply completes, only after a scan has
   * seen a flag, and bytes are only ever appended until resetcomm(): so a
   * flag is held whenever the cursor has moved or a frame is pending.
   */
  predicate FlagHeld(rx: RxState)
  {
    rx.position > 0 || rx.eopFound || rx.replyComplete ==> FLAG in rx.data
  }

  /** What the receive phase asks of the handler. */
  datatype Handoff = Wait | ForceError | ParseReply

  /** The receive phase of one communicate() once the deadline has not passed. */
  function ReceiveStep(rx: RxState, arriving: seq<Message>, assemble: Assembler): (RxState, Handoff)
  {
    if rx.replyComplete then (rx, ParseReply)
    else
      var scanned :=
        if rx.eopFound then rx
        else
          var d := rx.data + Arrived(arriving);
          rx.(data := d, eopFound := FlagAfter(d, rx.position));
      if !scanned.eopFound then (scanned, Wait)
      else
        var a := assemble(scanned.data, scanned.position);
        var assembled := scanned.(position := a.position, replyComplete := a.complete);
        if a.ret != 0 then (assembled, ForceError)
        else (assembled.(eopFound := false), if a.complete then ParseReply else Wait)
  }

  // ---------------------------------------------------------------------
  // Specification of one communicate() tick

  /** What communicate() reads and changes: queue, send cursor, deadline, line log, receive side. */
  datatype CommState = CommState(messages: seq<Message>, cursor: SendCursor, timeout: int,
                                 written: seq<Message>, rx: RxState)

  /**
   * One communicate() tick: a send tick while the queue is not passed (arming
   * the deadline on the tick that passes it), a forced failure once the
   * deadline has passed, otherwise the receive phase.
   */
  function CommStep(s: CommState, tick: Tick): (CommState, Handoff)
  {
    if s.cursor.mindex < |s.messages| then
      var c := NextCursor(s.messages, s.cursor);
      var t := if c.mindex >= |s.messages| then tick.now + REPLY_TIMEOUT_MS else s.timeout;
      (s.(cursor := c, timeout := t, written := s.written + WritesOf(s.messages, s.cursor)), Wait)
    else if tick.now > s.timeout then (s, ForceError)
    else
      var r := ReceiveStep(s.rx, tick.arriving, tick.assemble);
      (s.(rx := r.0), r.1)
  }

  /** The handler's result once communicate() has handed it `h` (error() or parse()). */
  function Handed(h: Handoff, before: Outcome, parseCode: int): Outcome
  {
    match h
    case Wait => before
    case ForceError => Done(ERROR_CODE)
    case ParseReply => Done(parseCode)
  }

  /** The integer a COSEM handler holds once communicate() has handed it `h`. */
  function Stored(h: Handoff, before: int, tick: Tick): int
  {
    if h == ParseReply && tick.parseCode == 0 then tick.decoded else before
  }

  /** The new capacity after increase_rbuffer(more). */
  function GrownCapacity(size: nat, more: nat, capacity: nat): (r: nat)
    ensures r >= size + more && r >= capacity
    ensures r == capacity || r == size + more + SLACK
    ensures r == capacity <==> size + more <= capacity
  {
    if size + more > capacity then SLACK + size + more else capacity
  }

  // ---------------------------------------------------------------------
  // Lemmas about the specification

  lemma {:induction false} ConcatAppend(cs: seq<Message>, c: Message)
    ensures Concat(cs + [c]) == Concat(cs) + c
  {
    assert (cs + [c])[..|cs + [c]| - 1] == cs;
  }

  /** The drain loop stops exactly after ReadCount(arriving) reads. */
  lemma DrainStops(arriving: seq<Message>, j: nat)
    requires j <= ReadCount(arriving)
    ensures Available(arriving, j) > 0 <==> j < ReadCount(arriving)
  {
  }

  /**
   * Sending the message at index i from offset p, as long as it is not
   * finished before the k-th tick: the offset advances by MAX_SEND per tick,
   * capped at the message length, and exactly the bytes in between are written.
   */
  lemma {:induction false} SendWithin(msgs: seq<Message>, i: nat, p: nat, k: nat)
    requires i < |msgs| && p <= |msgs[i]|
    requires k <= 1 || p + MAX_SEND * (k - 1) < |msgs[i]|
    decreases k
    ensures var end := Min(p + MAX_SEND * k, |msgs[i]|);
            SendRun(msgs, SendCursor(i, p), k)
            == (SendCursor(if k >= 1 && p + MAX_SEND * k >= |msgs[i]| then i + 1 else i, end),
                msgs[i][p .. end])
  {
    if k > 0 {
      var m := msgs[i];
      var c' := NextCursor(msgs, SendCursor(i, p));
      if p + MAX_SEND >= |m| {
        assert c' == SendCursor(i + 1, |m|);
        assert k == 1;
        assert SendRun(msgs, c', 0) == (c', []);
        assert SendChunk(msgs, SendCursor(i, p)) == m[p .. |m|];
        assert SendRun(msgs, SendCursor(i, p), 1) == (c', m[p .. |m|] + []);
        assert m[p .. |m|] + [] == m[p .. |m|];
      } else {
        assert c' == SendCursor(i, p + MAX_SEND);
        SendWithin(msgs, i, p + MAX_SEND, k - 1);
        var end := Min(p + MAX_SEND * k, |m|);
        assert SendChunk(msgs, SendCursor(i, p)) == m[p .. p + MAX_SEND];
        assert m[p .. p + MAX_SEND] + m[p + MAX_SEND .. end] == m[p .. end];
      }
    } else {
      assert msgs[i][p .. p] == [];
    }
  }

  lemma TicksToSendIsCeiling(t: nat, k: nat)
    ensures k >= TicksToSend(t) <==> k >= 1 && MAX_SEND * k >= t
  {
  }

  /**
   * A single message of T bytes: after k send ticks the offset is
   * min(10k, T), the message index reaches 1 on tick ceil(T/10) (one tick for
   * an empty message), and the line has carried exactly the first bytes.
   */
  lemma SingleMessageSend(m: Message, k: nat)
    ensures var r := SendRun([m], SendCursor(0, 0), k);
            r.0.mdatapos == Min(MAX_SEND * k, |m|)
            && (r.0.mindex == 1 <==> k >= TicksToSend(|m|))
            && r.0.mindex <= 1
            && r.1 == m[..Min(MAX_SEND * k, |m|)]
  {
    TicksToSendIsCeiling(|m|, k);
    var n := TicksToSend(|m|);
    TicksToSendIsCeiling(|m|, n);
    if k <= n {
      if k > 0 {
        TicksToSendIsCeiling(|m|, k - 1);
      }
      SendWithin([m], 0, 0, k);
    } else {
      TicksToSendIsCeiling(|m|, n - 1);
      SendWithin([m], 0, 0, n);
      SendRunStopsWhenSent([m], SendCursor(1, |m|), k - n);
      SendRunSplit([m], SendCursor(0, 0), n, k - n);
    }
  }

  lemma SendRunStopsWhenSent(msgs: seq<Message>, c: SendCursor, k: nat)
    requires c.mindex >= |msgs|
    ensures SendRun(msgs, c, k) == (c, [])
  {
  }

  /** k1 + k2 send ticks are k1 ticks followed by k2 ticks. */
  lemma {:induction false} SendRunSplit(msgs: seq<Message>, c: SendCursor, k1: nat, k2: nat)
    ensures SendRun(msgs, c, k1 + k2).0 == SendRun(msgs, SendRun(msgs, c, k1).0, k2).0
    ensures SendRun(msgs, c, k1 + k2).1 == SendRun(msgs, c, k1).1 + SendRun(msgs, SendRun(msgs, c, k1).0, k2).1
    decreases k1
  {
    if k1 > 0 && c.mindex < |msgs| {
      SendRunSplit(msgs, NextCursor(msgs, c), k1 - 1, k2);
      SendRunSplitStep(msgs, c, k1, k2);
    } else {
      SendRunSplitBase(msgs, c, k1, k2);
    }
  }

  /** The inductive step of SendRunSplit: the split holds one tick later, so it holds now. */
  lemma SendRunSplitStep(msgs: seq<Message>, c: SendCursor, k1: nat, k2: nat)
    requires k1 > 0 && c.mindex < |msgs|
    requires var c' := NextCursor(msgs, c);
             SendRun(msgs, c', k1 - 1 + k2).0 == SendRun(msgs, SendRun(msgs, c', k1 - 1).0, k2).0
             && SendRun(msgs, c', k1 - 1 + k2).1
                == SendRun(msgs, c', k1 - 1).1 + SendRun(msgs, SendRun(msgs, c', k1 - 1).0, k2).1
    ensures SendRun(msgs, c, k1 + k2).0 == SendRun(msgs, SendRun(msgs, c, k1).0, k2).0
    ensures SendRun(msgs, c, k1 + k2).1 == SendRun(msgs, c, k1).1 + SendRun(msgs, SendRun(msgs, c, k1).0, k2).1
  {
    var ch := SendChunk(msgs, c);
    var mid := SendRun(msgs, NextCursor(msgs, c), k1 - 1);
    var rest := SendRun(msgs, mid.0, k2);
    SendRunUnfold(msgs, c, k1, k1 - 1);
    SendRunUnfold(msgs, c, k1 + k2, k1 - 1 + k2);
    assert ch + (mid.1 + rest.1) == (ch + mid.1) + rest.1;
  }

  /** One send tick followed by the remaining k - 1. */
  lemma SendRunUnfold(msgs: seq<Message>, c: SendCursor, k: nat, k': nat)
    requires k == k' + 1 && c.mindex < |msgs|
    ensures SendRun(msgs, c, k).0 == SendRun(msgs, NextCursor(msgs, c), k').0
    ensures SendRun(msgs, c, k).1 == SendChunk(msgs, c) + SendRun(msgs, NextCursor(msgs, c), k').1
  {
  }

  lemma SendRunSplitBase(msgs: seq<Message>, c: SendCursor, k1: nat, k2: nat)
    requires k1 == 0 || c.mindex >= |msgs|
    ensures SendRun(msgs, c, k1 + k2).0 == SendRun(msgs, SendRun(msgs, c, k1).0, k2).0
    ensures SendRun(msgs, c, k1 + k2).1 == SendRun(msgs, c, k1).1 + SendRun(msgs, SendRun(msgs, c, k1).0, k2).1
  {
    if k1 == 0 {
      assert [] + SendRun(msgs, c, k2).1 == SendRun(msgs, c, k2).1;
    } else {
      SendRunStopsWhenSent(msgs, c, k1);
      SendRunStopsWhenSent(msgs, c, k2);
      SendRunStopsWhenSent(msgs, c, k1 + k2);
    }
  }

  /** The first of two queued messages goes out whole in TicksToSend(|m1|) ticks. */
  lemma FirstMessageSent(m1: Message, m2: Message)
    ensures SendRun([m1, m2], SendCursor(0, 0), TicksToSend(|m1|)) == (SendCursor(1, |m1|), m1)
  {
    var k1 := TicksToSend(|m1|);
    TicksToSendIsCeiling(|m1|, k1);
    TicksToSendIsCeiling(|m1|, k1 - 1);
    SendWithin([m1, m2], 0, 0, k1);
    assert m1[0 .. |m1|] == m1;
  }

  /** The second message starts at the offset the first one ended at. */
  lemma SecondMessageFromCarriedOffset(m1: Message, m2: Message)
    ensures var k2 := if |m2| > |m1| then TicksToSend(|m2| - |m1|) else 1;
            SendRun([m1, m2], SendCursor(1, |m1|), k2)
            == (SendCursor(2, if |m2| > |m1| then |m2| else |m1|), if |m2| > |m1| then m2[|m1|..] else [])
  {
    var msgs := [m1, m2];
    if |m2| > |m1| {
      var k2 := TicksToSend(|m2| - |m1|);
      TicksToSendIsCeiling(|m2| - |m1|, k2);
      TicksToSendIsCeiling(|m2| - |m1|, k2 - 1);
      SendWithin(msgs, 1, |m1|, k2);
      assert msgs[1] == m2 && |m1| + MAX_SEND * k2 >= |m2|;
      assert m2[|m1| .. |m2|] == m2[|m1|..];
    } else {
      var c := SendCursor(1, |m1|);
      assert msgs[1] == m2 && ChunkLength(m2, |m1|) == 0;
      assert NextCursor(msgs, c) == SendCursor(2, |m1|);
      assert SendChunk(msgs, c) == [];
      assert SendRun(msgs, NextCursor(msgs, c), 0) == (SendCursor(2, |m1|), []);
      assert SendRun(msgs, c, 1) == (SendRun(msgs, NextCursor(msgs, c), 0).0, [] + []);
      assert SendRun(msgs, c, 1).0 == SendCursor(2, |m1|);
      assert SendRun(msgs, c, 1).1 == [];
      assert SendRun([m1, m2], SendCursor(1, |m1|), 1) == (SendCursor(2, |m1|), []);
    }
  }

  /**
   * mdatapos_ is not reset when mindex_ advances: with a two-message queue
   * the second message is sent from the offset where the first one ended, so
   * its first |m1| bytes never reach the line.
   */
  lemma CarryOverSkipsPrefix(m1: Message, m2: Message)
    ensures var k1 := TicksToSend(|m1|);
            var k2 := if |m2| > |m1| then TicksToSend(|m2| - |m1|) else 1;
            var r := SendRun([m1, m2], SendCursor(0, 0), k1 + k2);
            r.0.mindex == 2
            && r.1 == m1 + (if |m2| > |m1| then m2[|m1|..] else [])
  {
    FirstMessageSent(m1, m2);
    SecondMessageFromCarriedOffset(m1, m2);
    SendRunSplit([m1, m2], SendCursor(0, 0), TicksToSend(|m1|),
                 if |m2| > |m1| then TicksToSend(|m2| - |m1|) else 1);
  }

  /** The receive phase never drops or rewrites a byte already held. */
  lemma ReceiveKeepsBytes(rx: RxState, arriving: seq<Message>, assemble: Assembler)
    ensures var r := ReceiveStep(rx, arriving, assemble).0;
            r.data == rx.data + (if !rx.replyComplete && !rx.eopFound then Arrived(arriving) else [])
  {
  }

  /** With at most MIN_FRAME bytes no scan happens and the codec is not called. */
  lemma ShortBufferWaits(rx: RxState, arriving: seq<Message>, assemble: Assembler)
    requires !rx.replyComplete && !rx.eopFound
    requires |rx.data + Arrived(arriving)| <= MIN_FRAME
    ensures ReceiveStep(rx, arriving, assemble) == (rx.(data := rx.data + Arrived(arriving)), Wait)
  {
  }

  /**
   * A codec error on the frame this tick's scan found forces the step to
   * fail and leaves the frame flag set.
   */
  lemma CodecErrorFails(rx: RxState, arriving: seq<Message>, assemble: Assembler)
    requires !rx.replyComplete && !rx.eopFound
    requires var d := rx.data + Arrived(arriving);
             FlagAfter(d, rx.position) && assemble(d, rx.position).ret != 0
    ensures ReceiveStep(rx, arriving, assemble).1 == ForceError
    ensures ReceiveStep(rx, arriving, assemble).0.eopFound
  {
  }

  /** The same for a frame flag already held when the tick starts: no drain, no scan. */
  lemma HeldFrameCodecErrorFails(rx: RxState, arriving: seq<Message>, assemble: Assembler)
    requires !rx.replyComplete && rx.eopFound
    requires assemble(rx.data, rx.position).ret != 0
    ensures ReceiveStep(rx, arriving, assemble).1 == ForceError
    ensures ReceiveStep(rx, arriving, assemble).0.eopFound
  {
  }

  /** The writes of one send tick carry exactly the chunk SendRun accounts for. */
  lemma WritesCarryChunk(msgs: seq<Message>, c: SendCursor)
    requires c.mindex < |msgs|
    ensures Concat(WritesOf(msgs, c)) == SendChunk(msgs, c)
  {
    if SendChunk(msgs, c) != [] {
      ConcatAppend([], SendChunk(msgs, c));
      assert [] + [SendChunk(msgs, c)] == [SendChunk(msgs, c)];
    }
  }

  /**
   * A send tick never touches the receive side and never fails the handler;
   * it appends to the line exactly the next chunk of the queue.
   */
  lemma SendTickWrites(s: CommState, tick: Tick)
    requires s.cursor.mindex < |s.messages|
    ensures var r := CommStep(s, tick);
            r.1 == Wait && r.0.rx == s.rx && r.0.messages == s.messages
            && |s.written| <= |r.0.written| && r.0.written[..|s.written|] == s.written
            && Concat(r.0.written[|s.written|..]) == SendChunk(s.messages, s.cursor)
  {
    var r := CommStep(s, tick);
    assert r.0.written[|s.written|..] == WritesOf(s.messages, s.cursor);
    WritesCarryChunk(s.messages, s.cursor);
  }

  /** Once the queue is passed the cursor, the deadline and the line stay as they are. */
  lemma DeadlineArmedOnce(s: CommState, tick: Tick)
    requires s.cursor.mindex >= |s.messages|
    ensures var r := CommStep(s, tick).0;
            r.messages == s.messages && r.cursor == s.cursor && r.timeout == s.timeout
            && r.written == s.written
  {
  }

  /** Past the deadline the tick fails the handler and reads nothing. */
  lemma LateReplyFails(s: CommState, tick: Tick)
    requires s.cursor.mindex >= |s.messages| && tick.now > s.timeout
    ensures CommStep(s, tick) == (s, ForceError)
  {
  }

  /** The receive phase keeps a flag held once the codec has been reached. */
  lemma ReceiveKeepsFlagHeld(rx: RxState, arriving: seq<Message>, assemble: Assembler)
    requires FlagHeld(rx)
    ensures FlagHeld(ReceiveStep(rx, arriving, assemble).0)
  {
    if !rx.replyComplete && !rx.eopFound {
      var d := rx.data + Arrived(arriving);
      if FlagAfter(d, rx.position) {
        var i :| ScanFloor(rx.position, |d|) <= i < |d| && d[i] == FLAG;
        assert d[i] in d;
      } else if rx.position > 0 {
        var i :| 0 <= i < |rx.data| && rx.data[i] == FLAG;
        assert d[i] == FLAG;
      }
    }
  }

  /**
   * With the codec cursor at or past the end of the held bytes, the backward
   * scan still stops inside the buffer: it meets the flag the codec consumed.
   */
  lemma ScanFromEndFindsFlag(rx: RxState, arriving: seq<Message>)
    requires FlagHeld(rx) && !rx.replyComplete && !rx.eopFound
    requires var d := rx.data + Arrived(arriving); |d| > MIN_FRAME && rx.position >= |d|
    ensures FlagAfter(rx.data + Arrived(arriving), rx.position)
  {
    var d := rx.data + Arrived(arriving);
    var i :| 0 <= i < |rx.data| && rx.data[i] == FLAG;
    assert d[i] == FLAG;
  }

  /** A tick keeps the flag invariant of the receive side. */
  lemma CommStepKeepsFlagHeld(s: CommState, tick: Tick)
    requires FlagHeld(s.rx)
    ensures FlagHeld(CommStep(s, tick).0.rx)
  {
    if s.cursor.mindex >= |s.messages| && tick.now <= s.timeout {
      ReceiveKeepsFlagHeld(s.rx, tick.arriving, tick.assemble);
    }
  }

  // ---------------------------------------------------------------------
  // The mutable state

  class FrameReceiver {
    /** rbuffer_: data, with capacity rbuf.Length */
    var rbuf: array<byte>
    var size: nat
    /** Codec read cursor inside the buffer. */
    var position: nat
    /** messages_: the outbound queue of the current step. */
    var messages: seq<Message>
    /** reply_.complete */
    var replyComplete: bool
    var mindex: nat
    var mdatapos: nat
    var eopFound: bool
    var timeout: int
    /** Every write_array call, in order. */
    ghost var written: seq<Message>
    /** Where a held flag lies, whenever FlagHeld asks for one. */
    ghost var flagAt: nat

    ghost predicate Valid()
      reads this, rbuf
    {
      position <= size <= rbuf.Length
      && (position > 0 || eopFound || replyComplete ==> flagAt < size && rbuf[flagAt] == FLAG)
    }

    /** The bytes held by the receive buffer. */
    ghost function Received(): seq<byte>
      reads this, rbuf
      requires Valid()
    {
      rbuf[..size]
    }

    ghost function Rx(): RxState
      reads this, rbuf
      requires Valid()
    {
      RxState(rbuf[..size], position, eopFound, replyComplete)
    }

    /** A valid receiver holds a flag whenever the codec has been reached. */
    lemma ValidHoldsFlag()
      requires Valid()
      ensures FlagHeld(Rx())
    {
      if position > 0 || eopFound || replyComplete {
        assert Rx().data[flagAt] == FLAG;
      }
    }

    /** What one communicate() tick reads and changes. */
    ghost function Comm(): CommState
      reads this, rbuf
      requires Valid()
    {
      CommState(messages, Cursor(), timeout, written, Rx())
    }

    ghost function Cursor(): SendCursor
      reads this
    {
      SendCursor(mindex, mdatapos)
    }

    /** What resetcomm() leaves, apart from the queue it empties. */
    ghost predicate IsReset()
      reads this
    {
      mindex == 0 && mdatapos == 0 && !eopFound && size == 0 && position == 0 && !replyComplete
    }

    /** The constructor; timeout_ is left uninitialised in the source. */
    constructor (indeterminateTimeout: int)
      ensures Valid() && fresh(rbuf)
      ensures rbuf.Length == INITIAL_CAPACITY && IsReset() && messages == []
      ensures timeout == indeterminateTimeout && written == []
    {
      rbuf := new byte[INITIAL_CAPACITY];
      size, position := 0, 0;
      messages := [];
      replyComplete := false;
      mindex, mdatapos := 0, 0;
      eopFound := false;
      timeout := indeterminateTimeout;
      written := [];
      flagAt := 0;
    }

    /** increase_rbuffer(): reallocates, keeping every byte, only when `more` would not fit. */
    method IncreaseRBuffer(more: nat)
      requires Valid()
      modifies this`rbuf
      ensures Valid()
      ensures rbuf.Length == GrownCapacity(size, more, old(rbuf.Length))
      ensures if size + more > old(rbuf.Length) then fresh(rbuf) else rbuf == old(rbuf)
      ensures rbuf[..old(rbuf.Length)] == old(rbuf[..])
    {
      if size + more > rbuf.Length {
        var grown := new byte[SLACK + size + more];
        forall i | 0 <= i < rbuf.Length {
          grown[i] := rbuf[i];
        }
        rbuf := grown;
      }
    }

    /** resetcomm(): a fresh step attempt; capacity and timeout_ stay. */
    method ResetComm()
      requires Valid()
      modifies this`messages, this`replyComplete, this`mindex, this`mdatapos, this`eopFound,
               this`size, this`position
      ensures Valid() && IsReset() && messages == []
      ensures rbuf == old(rbuf) && timeout == old(timeout)
    {
      messages := [];
      replyComplete := false;
      mindex, mdatapos := 0, 0;
      eopFound := false;
      size, position := 0, 0;
    }

    /** The send branch of communicate(). */
    method SendStep(now: nat)
      requires mindex < |messages|
      modifies this`mindex, this`mdatapos, this`timeout, this`written
      ensures Cursor() == NextCursor(messages, old(Cursor()))
      ensures written == old(written) + WritesOf(messages, old(Cursor()))
      ensures timeout == if mindex >= |messages| then now + REPLY_TIMEOUT_MS else old(timeout)
    {
      var buffer := messages[mindex];
      var maxsend := |buffer| - mdatapos;
      if maxsend > 0 {
        if maxsend > MAX_SEND {
          maxsend := MAX_SEND;
        }
        written := written + [buffer[mdatapos .. mdatapos + maxsend]];
        mdatapos := mdatapos + maxsend;
      }
      if mdatapos >= |buffer| {
        mindex := mindex + 1;
      }
      if mindex >= |messages| {
        timeout := now + REPLY_TIMEOUT_MS;
      }
    }

    /** One read of the drain: make room, then append the chunk at the end of the buffer. */
    method ReadChunk(chunk: Message)
      requires Valid()
      modifies this`rbuf, this`size, rbuf
      ensures Valid()
      ensures rbuf == old(rbuf) || fresh(rbuf)
      ensures rbuf.Length >= old(rbuf.Length)
      ensures Received() == old(Received()) + chunk
    {
      ghost var before := Received();
      IncreaseRBuffer(|chunk|);
      assert rbuf[..size] == before;
      forall i | 0 <= i < |chunk| {
        rbuf[size + i] := chunk[i];
      }
      size := size + |chunk|;
    }

    /** The do/while loop of communicate() that reads everything available. */
    method Drain(arriving: seq<Message>)
      requires Valid()
      modifies this`rbuf, this`size, rbuf
      ensures Valid()
      ensures rbuf == old(rbuf) || fresh(rbuf)
      ensures rbuf.Length >= old(rbuf.Length)
      ensures Received() == old(Received()) + Arrived(arriving)
    {
      ghost var start := Received();
      var j := 0;
      while Available(arriving, j) > 0
        invariant j <= ReadCount(arriving)
        invariant Valid()
        invariant rbuf == old(rbuf) || fresh(rbuf)
        invariant rbuf.Length >= old(rbuf.Length)
        invariant Received() == start + Concat(arriving[..j])
        decreases |arriving| - j
      {
        DrainStops(arriving, j);
        ghost var prefix := arriving[..j];
        ReadChunk(arriving[j]);
        ConcatAppend(prefix, arriving[j]);
        assert arriving[..j + 1] == prefix + [arriving[j]];
        j := j + 1;
      }
      DrainStops(arriving, j);
    }

    /**
     * The backward scan for the HDLC flag, from size-1 down to lastReadPos+1.
     * With lastReadPos at the end of the bytes the loop test never fails, and
     * the scan stays in the buffer only because a flag is held there.
     */
    method FindFlag(lastReadPos: nat) returns (found: bool, ghost at: nat)
      requires Valid() && 0 < size && lastReadPos <= size
      requires lastReadPos == size ==> exists t :: 0 <= t < size && rbuf[t] == FLAG
      ensures found <==> exists i :: ScanFloor(lastReadPos, size) <= i < size && rbuf[i] == FLAG
      ensures found ==> at < size && rbuf[at] == FLAG
    {
      var i := size - 1;
      at := 0;
      while i != lastReadPos
        invariant 0 <= i < size
        invariant lastReadPos < size ==> lastReadPos <= i
        invariant lastReadPos == size ==> exists t :: 0 <= t <= i && rbuf[t] == FLAG
        invariant forall t :: i < t < size ==> rbuf[t] != FLAG
        decreases i
      {
        if rbuf[i] == FLAG {
          return true, i;
        }
        i := i - 1;
      }
      return false, 0;
    }

    /**
     * The drain and the backward scan of communicate(), run when no reply is
     * complete and no frame end is pending.
     */
    method DrainAndScan(arriving: seq<Message>)
      requires Valid() && !replyComplete && !eopFound
      modifies this`rbuf, this`size, this`eopFound, this`flagAt, rbuf
      ensures Valid()
      ensures rbuf == old(rbuf) || fresh(rbuf)
      ensures rbuf.Length >= old(rbuf.Length)
      ensures var d := old(Received()) + Arrived(arriving);
              Rx() == old(Rx()).(data := d, eopFound := FlagAfter(d, old(position)))
    {
      var lastReadPos := position;
      Drain(arriving);
      if size > MIN_FRAME {
        if lastReadPos == size {
          assert Received()[flagAt] == old(Received())[flagAt];
        }
        var found, at := FindFlag(lastReadPos);
        assert found == FlagAfter(Received(), lastReadPos) by {
          if found {
            var i :| ScanFloor(lastReadPos, size) <= i < size && rbuf[i] == FLAG;
            assert Received()[i] == FLAG;
          }
        }
        eopFound := found;
        if found {
          flagAt := at;
        }
      }
    }

    /**
     * dlms_getData2 on a pending frame: the codec's cursor and completion
     * are stored before its return code is looked at; a non-zero code is
     * error(), zero clears eop_found_.
     */
    method Assemble(rr: RequestResponse, assemble: Assembler) returns (failed: bool)
      requires Valid() && KeepsCursorInside(assemble) && eopFound
      modifies this`position, this`replyComplete, this`eopFound, rr`result
      ensures Valid()
      ensures var a := assemble(Received(), old(position));
              failed == (a.ret != 0) && position == a.position && replyComplete == a.complete
              && eopFound == failed && rr.result == (if failed then Done(ERROR_CODE) else old(rr.result))
    {
      var a := assemble(rbuf[..size], position);
      position, replyComplete := a.position, a.complete;
      if a.ret != 0 {
        rr.Error();
        return true;
      }
      eopFound := false;
      return false;
    }

    /** The receive branch of communicate(), once the deadline is checked. */
    method Receive(rr: RequestResponse, tick: Tick)
      requires Valid()
      requires KeepsCursorInside(tick.assemble)
      modifies this`rbuf, this`size, this`position, this`eopFound, this`replyComplete, this`flagAt, rbuf,
               rr`result, rr`value
      ensures Valid()
      ensures rbuf == old(rbuf) || fresh(rbuf)
      ensures rbuf.Length >= old(rbuf.Length)
      ensures var step := ReceiveStep(old(Rx()), tick.arriving, tick.assemble);
              Rx() == step.0
              && rr.result == Handed(step.1, old(rr.result), tick.parseCode)
              && rr.value == (if rr.kind == Cosem then Stored(step.1, old(rr.value), tick) else old(rr.value))
    {
      if !replyComplete {
        if !eopFound {
          DrainAndScan(tick.arriving);
        }
        if eopFound {
          var failed := Assemble(rr, tick.assemble);
          if failed {
            return;
          }
        }
      }
      if replyComplete {
        rr.Parse(tick.parseCode, tick.decoded);
      }
    }

    /**
     * communicate(): one tick. While the queue is not passed, send at most
     * MAX_SEND bytes and arm the deadline on the tick the queue is passed;
     * afterwards enforce the deadline, drain, scan, assemble, and parse a
     * complete reply.
     */
    method Communicate(rr: RequestResponse, tick: Tick)
      requires Valid()
      requires KeepsCursorInside(tick.assemble)
      modifies this, rbuf, rr`result, rr`value
      ensures Valid()
      ensures rbuf == old(rbuf) || fresh(rbuf)
      ensures rbuf.Length >= old(rbuf.Length)
      ensures Comm() == CommStep(old(Comm()), tick).0
      ensures rr.result == Handed(CommStep(old(Comm()), tick).1, old(rr.result), tick.parseCode)
      ensures rr.value == (if rr.kind == Cosem then Stored(CommStep(old(Comm()), tick).1, old(rr.value), tick)
                           else old(rr.value))
    {
      if mindex < |messages| {
        SendStep(tick.now);
        return;
      }
      if tick.now > timeout {
        rr.Error();
        return;
      }
      Receive(rr, tick);
    }
  }
}
