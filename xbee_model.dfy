/** The XBee client's protocol state as values: frame-id allocation, the
    single pending-request slot that correlates a request with its TX Status
    or AT Command Response, the inbound datagram queue fed by RX frames, the
    frames the client builds, and the pin shadow register. The class in
    module XBeeClient is proved to follow these functions step by step. */
module XBeeModel {
  import opened Common

  type byte = bv8

  /** The frame id that asks the module not to acknowledge a frame. */
  const FRAME_ID_NO_ACK: byte := 0

  /** AT command parameters of the digital-output pin modes. */
  const PIN_MODE_OUTPUT_LOW: byte := 4
  const PIN_MODE_OUTPUT_HIGH: byte := 5

  // Frame type codes of the XBee API (the driver header is not part of
  // this model; only their distinctness matters here).
  const TX_REQUEST_64_BIT_ADDRESS: byte := 0x00
  const TX_REQUEST_16_BIT_ADDRESS: byte := 0x01
  const AT_COMMAND: byte := 0x08
  const RX_PACKET_64_BIT_ADDRESS: byte := 0x80
  const RX_PACKET_16_BIT_ADDRESS: byte := 0x81
  const AT_COMMAND_RESPONSE: byte := 0x88
  const TX_STATUS: byte := 0x89

  /** An API frame: its type and its data bytes (`data.size` is `|data|`). */
  datatype Frame = Frame(kind: byte, data: seq<byte>)

  /** A remote node's address: 2 bytes (Short) or 8 bytes (Long). */
  datatype Address = Invalid | Short(short: seq<byte>) | Long(long: seq<byte>)

  /** One record of the inbound datagram queue; its length is `|payload|`. */
  datatype Datagram = Datagram(address: Address, payload: seq<byte>)

  /** The pending-request slot `rpc.rx`: the frame id of the outstanding
      request (None while `frame_p` is NULL), the contents of the caller's
      response buffer `buf_p`, the caller's size variable `*size_p`, and the
      result code `res`. */
  datatype Slot = Slot(pending: Option<byte>, buf: seq<byte>, size: nat, res: int)

  datatype Client = Client(frameId: byte, rx: Slot, chin: seq<Datagram>, pins: set<int>)

  /** While a request is pending, its size variable holds the capacity of
      its response buffer. */
  predicate SlotOk(rx: Slot)
  {
    rx.pending.Some? ==> rx.size <= |rx.buf|
  }

  /** xbee_client_init: the counter starts at the sentinel, no request is
      pending and the queue is empty. The pin register is not initialised
      by the source; its initial value is a parameter. */
  function Init(pins: set<int>): (c: Client)
    ensures c.frameId == FRAME_ID_NO_ACK && c.pins == pins
    ensures c.rx.pending.None? && c.chin == [] && SlotOk(c.rx)
    ensures NextFrameId(c.frameId) == 1
  {
    Client(FRAME_ID_NO_ACK, Slot(None, [], 0, 0), [], pins)
  }

  // ---------------------------------------------------------------------
  // Frame ids

  /** next_frame_id: the 8-bit counter plus one, skipping the sentinel. */
  function NextFrameId(id: byte): (r: byte)
    ensures r != FRAME_ID_NO_ACK
    ensures r as int == if id as int == 255 then 1 else id as int + 1
  {
    var n := id + 1;
    if n == FRAME_ID_NO_ACK then n + 1 else n
  }

  /** The frame id after `k` allocations from the initial counter. */
  function IdAfter(k: nat): byte
  {
    if k == 0 then FRAME_ID_NO_ACK else NextFrameId(IdAfter(k - 1))
  }

  /** The k-th allocation after init returns k for k in 1..255, and the
      256th wraps around to 1. */
  lemma {:induction false} IdAfterValue(k: nat)
    requires 1 <= k <= 256
    ensures IdAfter(k) as int == if k == 256 then 1 else k
  {
    if k > 1 {
      IdAfterValue(k - 1);
    }
  }

  /** 255 consecutive allocations after init return every byte but the
      sentinel, each exactly once. */
  lemma FrameIdsCoverOnce(b: byte)
    requires b != FRAME_ID_NO_ACK
    ensures IdAfter(b as int) == b
    ensures forall k :: 1 <= k <= 255 && IdAfter(k) == b ==> k == b as int
  {
    IdAfterValue(b as int);
    forall k | 1 <= k <= 255 && IdAfter(k) == b
      ensures k == b as int
    {
      IdAfterValue(k);
    }
  }

  // ---------------------------------------------------------------------
  // Inbound frames: one iteration of the dispatch loop

  /** The result of a handler: the new client state and its return value. */
  datatype Handled = Handled(client: Client, res: int)

  /** handle_rx_packet_16_bit_address: address at offset 0, RSSI and
      options at 2 and 3, payload from offset 4. */
  function HandleRxPacket16(c: Client, f: Frame): (r: Handled)
    ensures r.res == 0 || r.res == -EPROTO
    ensures r.res == -EPROTO <==> |f.data| < 4
    ensures r.res == -EPROTO ==> r.client == c
    ensures r.res == 0 ==> r.client == c.(chin := c.chin + [Datagram(Short(f.data[..2]), f.data[4..])])
  {
    if |f.data| < 4 then Handled(c, -EPROTO)
    else Handled(c.(chin := c.chin + [Datagram(Short(f.data[..2]), f.data[4..])]), 0)
  }

  /** handle_rx_packet_64_bit_address: address at offset 0, RSSI and
      options at 8 and 9, payload from offset 10. */
  function HandleRxPacket64(c: Client, f: Frame): (r: Handled)
    ensures r.res == 0 || r.res == -EPROTO
    ensures r.res == -EPROTO <==> |f.data| < 10
    ensures r.res == -EPROTO ==> r.client == c
    ensures r.res == 0 ==> r.client == c.(chin := c.chin + [Datagram(Long(f.data[..8]), f.data[10..])])
  {
    if |f.data| < 10 then Handled(c, -EPROTO)
    else Handled(c.(chin := c.chin + [Datagram(Long(f.data[..8]), f.data[10..])]), 0)
  }

  /** The frame answers the request with frame id `id`: a TX Status of
      exactly 2 bytes or an AT Command Response of at least 4, carrying `id`. */
  predicate Answers(f: Frame, id: byte)
  {
    ((f.kind == TX_STATUS && |f.data| == 2) || (f.kind == AT_COMMAND_RESPONSE && |f.data| >= 4))
    && f.data[0] == id
  }

  /** `src` copied over the start of `buf` (memcpy). */
  function CopyInto(buf: seq<byte>, src: seq<byte>): (r: seq<byte>)
    requires |src| <= |buf|
    ensures |r| == |buf| && r[..|src|] == src && r[|src|..] == buf[|src|..]
  {
    src + buf[|src|..]
  }

  /** The slot once the response `f` to its request has been delivered. */
  function Completed(rx: Slot, f: Frame): (r: Slot)
    requires SlotOk(rx) && rx.pending.Some? && Answers(f, rx.pending.value)
    ensures r.pending.None?
  {
    if f.kind == TX_STATUS then
      rx.(pending := None, res := if f.data[1] != 0 then -EPROTO else 0)
    else if f.data[3] == 0 then
      var n := Min(|f.data| - 4, rx.size);
      rx.(pending := None, buf := CopyInto(rx.buf, f.data[4..4 + n]), size := n, res := 0)
    else
      rx.(pending := None, size := |f.data|, res := -EPROTO)
  }

  /** handle_tx_status. */
  function HandleTxStatus(c: Client, f: Frame): (r: Handled)
    requires f.kind == TX_STATUS && SlotOk(c.rx)
    ensures r.res == if |f.data| == 2 then 0 else -EPROTO
    ensures r.client == c.(rx := r.client.rx)
    ensures c.rx.pending.Some? && Answers(f, c.rx.pending.value) ==> r.client.rx == Completed(c.rx, f)
    ensures !(c.rx.pending.Some? && Answers(f, c.rx.pending.value)) ==> r.client.rx == c.rx
  {
    if |f.data| != 2 then Handled(c, -EPROTO)
    else
      var frameId := f.data[0];
      var status := f.data[1];
      if c.rx.pending.Some? && c.rx.pending.value == frameId then
        Handled(c.(rx := c.rx.(pending := None, res := if status != 0 then -EPROTO else 0)), 0)
      else Handled(c, 0)
  }

  /** handle_at_command_response. */
  function HandleAtCommandResponse(c: Client, f: Frame): (r: Handled)
    requires f.kind == AT_COMMAND_RESPONSE && SlotOk(c.rx)
    ensures r.res == if |f.data| >= 4 then 0 else -EPROTO
    ensures r.client == c.(rx := r.client.rx)
    ensures c.rx.pending.Some? && Answers(f, c.rx.pending.value) ==> r.client.rx == Completed(c.rx, f)
    ensures !(c.rx.pending.Some? && Answers(f, c.rx.pending.value)) ==> r.client.rx == c.rx
  {
    if |f.data| < 4 then Handled(c, -EPROTO)
    else
      var frameId := f.data[0];
      var status := f.data[3];
      if c.rx.pending.Some? && c.rx.pending.value == frameId then
        if status == 0 then
          var size := Min(|f.data| - 4, c.rx.size);
          Handled(c.(rx := c.rx.(pending := None, buf := f.data[4..4 + size] + c.rx.buf[size..], size := size, res := 0)), 0)
        else
          Handled(c.(rx := c.rx.(pending := None, size := |f.data|, res := -EPROTO)), 0)
      else Handled(c, 0)
  }

  /** One iteration of xbee_client_main's switch on the frame type; the
      handler's return value is dropped, other frame types are ignored. */
  function Dispatch(c: Client, f: Frame): (r: Client)
    requires SlotOk(c.rx)
    ensures SlotOk(r.rx) && r.frameId == c.frameId && r.pins == c.pins
    ensures r.chin == c.chin + RecordOf(f)
    ensures f.kind != TX_STATUS && f.kind != AT_COMMAND_RESPONSE ==> r.rx == c.rx
    ensures c.rx.pending.Some? && Answers(f, c.rx.pending.value) ==> r.rx == Completed(c.rx, f)
    ensures !(c.rx.pending.Some? && Answers(f, c.rx.pending.value)) ==> r.rx == c.rx
  {
    if f.kind == RX_PACKET_16_BIT_ADDRESS then HandleRxPacket16(c, f).client
    else if f.kind == RX_PACKET_64_BIT_ADDRESS then HandleRxPacket64(c, f).client
    else if f.kind == TX_STATUS then HandleTxStatus(c, f).client
    else if f.kind == AT_COMMAND_RESPONSE then HandleAtCommandResponse(c, f).client
    else c
  }

  /** The dispatch loop applied to `fs`, in order. */
  function DispatchAll(c: Client, fs: seq<Frame>): (r: Client)
    requires SlotOk(c.rx)
    ensures SlotOk(r.rx)
    ensures r.frameId == c.frameId && r.pins == c.pins
  {
    if fs == [] then c
    else
      var p := DispatchAll(c, fs[..|fs| - 1]);
      Dispatch(p, fs[|fs| - 1])
  }

  /** The queue record an inbound frame produces, if any. */
  function RecordOf(f: Frame): seq<Datagram>
  {
    if f.kind == RX_PACKET_16_BIT_ADDRESS && |f.data| >= 4 then [Datagram(Short(f.data[..2]), f.data[4..])]
    else if f.kind == RX_PACKET_64_BIT_ADDRESS && |f.data| >= 10 then [Datagram(Long(f.data[..8]), f.data[10..])]
    else []
  }

  /** The records of all well-formed RX frames of `fs`, in arrival order. */
  function Records(fs: seq<Frame>): seq<Datagram>
  {
    if fs == [] then [] else Records(fs[..|fs| - 1]) + RecordOf(fs[|fs| - 1])
  }

  /** Index of the first frame of `fs` that answers request `id`. */
  function FirstAnswer(fs: seq<Frame>, id: byte): (r: Option<nat>)
    ensures r.None? ==> forall i :: 0 <= i < |fs| ==> !Answers(fs[i], id)
    ensures r.Some? ==> r.value < |fs| && Answers(fs[r.value], id)
    ensures r.Some? ==> forall i :: 0 <= i < r.value ==> !Answers(fs[i], id)
  {
    if fs == [] then None
    else if Answers(fs[0], id) then Some(0)
    else match FirstAnswer(fs[1..], id)
      case None => None
      case Some(i) => Some(i + 1)
  }

  lemma {:induction false} FirstAnswerAppend(fs: seq<Frame>, f: Frame, id: byte)
    ensures FirstAnswer(fs + [f], id) ==
      if FirstAnswer(fs, id).Some? then FirstAnswer(fs, id)
      else if Answers(f, id) then Some(|fs|) else None
  {
    if fs != [] {
      assert (fs + [f])[0] == fs[0];
      assert (fs + [f])[1..] == fs[1..] + [f];
      FirstAnswerAppend(fs[1..], f, id);
    }
  }

  /** Every well-formed RX frame the dispatch loop handles appends exactly
      one record to the queue, in arrival order; nothing else touches it. */
  lemma {:induction false} DispatchQueuesRecords(c: Client, fs: seq<Frame>)
    requires SlotOk(c.rx)
    ensures DispatchAll(c, fs).chin == c.chin + Records(fs)
  {
    if fs != [] {
      DispatchQueuesRecords(c, fs[..|fs| - 1]);
    }
  }

  /** With no request pending, the dispatch loop never changes the slot:
      a response arriving after its request timed out is ignored. */
  lemma {:induction false} IdleSlotUnchanged(c: Client, fs: seq<Frame>)
    requires c.rx.pending.None?
    ensures DispatchAll(c, fs).rx == c.rx
  {
    if fs != [] {
      IdleSlotUnchanged(c, fs[..|fs| - 1]);
    }
  }

  /** The slot of a pending request is completed by the first answering
      frame alone; when no frame answers, the slot is untouched. */
  lemma {:induction false} FirstAnswerCompletes(c: Client, fs: seq<Frame>)
    requires SlotOk(c.rx) && c.rx.pending.Some?
    ensures var d := DispatchAll(c, fs);
      match FirstAnswer(fs, c.rx.pending.value)
      case None => d.rx == c.rx
      case Some(i) => d.rx == Completed(c.rx, fs[i])
  {
    if fs != [] {
      var init := fs[..|fs| - 1];
      var f := fs[|fs| - 1];
      assert fs == init + [f];
      FirstAnswerCompletes(c, init);
      FirstAnswerAppend(init, f, c.rx.pending.value);
      var q := FirstAnswer(init, c.rx.pending.value);
      if q.Some? {
        assert init[q.value] == fs[q.value];
        IdleSlotUnchanged(DispatchAll(c, init), [f]);
      }
    }
  }

  // ---------------------------------------------------------------------
  // Correlated requests

  /** How `communicate` is called: with NULL `response_size_p` (no
      acknowledgement wanted) or with a response buffer and its capacity. */
  datatype Request = NoAck | Correlated(buf: seq<byte>, size: nat)

  /** `sent` is the single frame `f`, with its frame id filled in. */
  predicate SentAs(sent: seq<Frame>, f: Frame)
  {
    |sent| == 1 && sent[0].kind == f.kind && |sent[0].data| == |f.data| >= 1 && sent[0].data[1..] == f.data[1..]
  }

  /** The outcome of a call: new state, return value, and the frames handed
      to the transport (`xbee_write`). */
  datatype Exchange = Exchange(client: Client, res: int, sent: seq<Frame>)

  /** communicate. `writeRes` is what the transport write returns;
      `arrivals` are the frames the dispatch loop handles while the caller
      waits. A request still pending once they are handled has timed out. */
  function Communicate(c: Client, frame: Frame, req: Request, writeRes: int, arrivals: seq<Frame>): (r: Exchange)
    requires |frame.data| >= 1 && SlotOk(c.rx)
    requires req.Correlated? ==> req.size <= |req.buf|
    ensures SlotOk(r.client.rx) && r.client.pins == c.pins
    ensures SentAs(r.sent, frame)
    ensures req.NoAck? ==> r == Exchange(c, writeRes, r.sent) && r.sent[0].data[0] == FRAME_ID_NO_ACK
    ensures req.Correlated? ==>
      r.client.frameId == r.sent[0].data[0] == NextFrameId(c.frameId) &&
      |r.client.rx.buf| == |req.buf| &&
      (writeRes != 0 ==> r.res == writeRes && r.client.rx.pending == Some(r.client.frameId)) &&
      (writeRes == 0 ==> r.client.rx.pending.None?)
  {
    match req
    case NoAck =>
      Exchange(c, writeRes, [frame.(data := frame.data[0 := FRAME_ID_NO_ACK])])
    case Correlated(buf, size) =>
      var id := NextFrameId(c.frameId);
      var published := c.(frameId := id, rx := c.rx.(pending := Some(id), buf := buf, size := size));
      var sent := [frame.(data := frame.data[0 := id])];
      if writeRes != 0 then Exchange(published, writeRes, sent)
      else
        var d := DispatchAll(published, arrivals);
        PendingBufferKept(published, arrivals);
        var res := if d.rx.pending.Some? then -ETIMEDOUT else d.rx.res;
        Exchange(d.(rx := d.rx.(pending := None)), res, sent)
  }

  /** The dispatch loop keeps the length of the published response buffer. */
  lemma {:induction false} PendingBufferKept(c: Client, fs: seq<Frame>)
    requires SlotOk(c.rx)
    ensures |DispatchAll(c, fs).rx.buf| == |c.rx.buf|
  {
    if fs != [] {
      PendingBufferKept(c, fs[..|fs| - 1]);
    }
  }

  /** The result code a frame answering a request reports: 0, or -EPROTO
      for a non-zero status byte. */
  function AnswerResult(f: Frame): (r: int)
    requires |f.data| >= 1 && Answers(f, f.data[0])
    ensures r == 0 <==> (f.kind == TX_STATUS && f.data[1] == 0) || (f.kind == AT_COMMAND_RESPONSE && f.data[3] == 0)
    ensures r == 0 || r == -EPROTO
  {
    if f.kind == TX_STATUS then (if f.data[1] != 0 then -EPROTO else 0)
    else if f.data[3] == 0 then 0 else -EPROTO
  }

  /** A correlated request whose frame was written returns the result of
      the first frame answering its freshly allocated id, or -ETIMEDOUT if
      none does; either way the slot is empty again, and every RX frame
      that arrived meanwhile is queued. */
  lemma CommunicateOutcome(c: Client, frame: Frame, buf: seq<byte>, size: nat, arrivals: seq<Frame>)
    requires |frame.data| >= 1 && SlotOk(c.rx) && size <= |buf|
    ensures var r := Communicate(c, frame, Correlated(buf, size), 0, arrivals);
      var id := NextFrameId(c.frameId);
      r.client.rx.pending.None? && r.client.chin == c.chin + Records(arrivals) &&
      (FirstAnswer(arrivals, id).None? ==>
        r.res == -ETIMEDOUT && r.client.rx.buf == buf && r.client.rx.size == size) &&
      (FirstAnswer(arrivals, id).Some? ==>
        var i := FirstAnswer(arrivals, id).value;
        r.res == AnswerResult(arrivals[i]) &&
        r.client.rx == Completed(Slot(Some(id), buf, size, c.rx.res), arrivals[i]))
  {
    var id := NextFrameId(c.frameId);
    var published := c.(frameId := id, rx := c.rx.(pending := Some(id), buf := buf, size := size));
    FirstAnswerCompletes(published, arrivals);
    DispatchQueuesRecords(published, arrivals);
  }

  // ---------------------------------------------------------------------
  // Datagrams

  /** The outcome of reading one queue record. */
  datatype Received = Received(client: Client, size: nat, address: Address, bytes: seq<byte>)

  /** xbee_client_read_from: takes the oldest record, copies at most
      `capacity` bytes of it and discards the rest of it. */
  function ReadFrom(c: Client, capacity: nat): (r: Received)
    requires |c.chin| > 0
    ensures r.client == c.(chin := c.chin[1..])
    ensures r.size == Min(capacity, |c.chin[0].payload|)
    ensures r.address == c.chin[0].address && r.bytes == c.chin[0].payload[..r.size]
  {
    var d := c.chin[0];
    var size := Min(capacity, |d.payload|);
    Received(c.(chin := c.chin[1..]), size, d.address, d.payload[..size])
  }

  /** The TX Request frame for `payload` to `address` (frame id still 0). */
  function TxRequestFrame(address: Address, payload: seq<byte>): (f: Frame)
    requires address.Short? ==> |address.short| == 2
    requires address.Long? ==> |address.long| == 8
    requires !address.Invalid?
    ensures var pos := if address.Short? then 4 else 10;
      |f.data| == pos + |payload| &&
      f.data[1..pos - 1] == (if address.Short? then address.short else address.long) &&
      f.data[pos - 1] == 0 && f.data[pos..] == payload &&
      f.kind == if address.Short? then TX_REQUEST_16_BIT_ADDRESS else TX_REQUEST_64_BIT_ADDRESS
  {
    match address
    case Short(a) => Frame(TX_REQUEST_16_BIT_ADDRESS, [0] + a + [0] + payload)
    case Long(a) => Frame(TX_REQUEST_64_BIT_ADDRESS, [0] + a + [0] + payload)
  }

  /** xbee_client_write_to; `noAck` is the XBEE_CLIENT_NO_ACK flag. */
  function WriteTo(c: Client, payload: seq<byte>, noAck: bool, address: Address, writeRes: int, arrivals: seq<Frame>): (r: Exchange)
    requires address.Short? ==> |address.short| == 2
    requires address.Long? ==> |address.long| == 8
    requires SlotOk(c.rx)
    ensures address.Invalid? ==> r == Exchange(c, -EINVAL, [])
    ensures !address.Invalid? ==> SentAs(r.sent, TxRequestFrame(address, payload))
    ensures writeRes <= 0 && r.res >= 0 ==> r.res == |payload|
  {
    if address.Invalid? then Exchange(c, -EINVAL, [])
    else
      var frame := TxRequestFrame(address, payload);
      AnswerResultOfCommunicate(c, frame, [], 0, writeRes, arrivals);
      var e := Communicate(c, frame, if noAck then NoAck else Correlated([], 0), writeRes, arrivals);
      if e.res != 0 then e else e.(res := |payload|)
  }

  /** The outcome of xbee_client_write_to to a valid address: a failed
      transport write is returned as is; without acknowledgement a written
      frame returns the payload size and changes nothing; otherwise the
      call returns the payload size when the first frame answering the
      freshly allocated id reports success, -EPROTO when it reports
      anything else and -ETIMEDOUT when no frame answers, with the slot
      empty again and every RX frame that arrived meanwhile queued. */
  lemma WriteToOutcome(c: Client, payload: seq<byte>, noAck: bool, address: Address, writeRes: int, arrivals: seq<Frame>)
    requires address.Short? ==> |address.short| == 2
    requires address.Long? ==> |address.long| == 8
    requires !address.Invalid? && SlotOk(c.rx)
    ensures var r := WriteTo(c, payload, noAck, address, writeRes, arrivals);
      (writeRes != 0 ==> r.res == writeRes) &&
      (noAck ==> r.client == c && (writeRes == 0 ==> r.res == |payload|))
    ensures var r := WriteTo(c, payload, false, address, 0, arrivals);
      var id := NextFrameId(c.frameId);
      r.client.frameId == id && r.client.rx.pending.None? && r.client.chin == c.chin + Records(arrivals) &&
      (FirstAnswer(arrivals, id).None? ==> r.res == -ETIMEDOUT) &&
      (FirstAnswer(arrivals, id).Some? ==>
        r.res == (if AnswerResult(arrivals[FirstAnswer(arrivals, id).value]) == 0 then |payload| else -EPROTO))
  {
    var frame := TxRequestFrame(address, payload);
    CommunicateOutcome(c, frame, [], 0, arrivals);
  }

  /** A datagram received in a well-formed RX frame is read back with its
      address and payload, truncated to the reader's capacity. */
  lemma ReceivedDatagramReadBack(c: Client, addr: seq<byte>, rssi: byte, options: byte, payload: seq<byte>, capacity: nat)
    requires |addr| == 2 && c.chin == [] && SlotOk(c.rx)
    ensures var f := Frame(RX_PACKET_16_BIT_ADDRESS, addr + [rssi, options] + payload);
      var r := ReadFrom(Dispatch(c, f), capacity);
      r.address == Short(addr) && r.bytes == payload[..Min(capacity, |payload|)] && r.client.chin == []
  {
    var f := Frame(RX_PACKET_16_BIT_ADDRESS, addr + [rssi, options] + payload);
    assert f.data[..2] == addr && f.data[4..] == payload;
  }

  /** Reading removes exactly one record: the next read sees the next
      record, whatever the first read's capacity. */
  lemma ReadFromIsFifo(c: Client, capacity: nat, capacity2: nat)
    requires |c.chin| >= 2
    ensures var r := ReadFrom(c, capacity);
      |r.client.chin| == |c.chin| - 1 &&
      ReadFrom(r.client, capacity2).address == c.chin[1].address &&
      ReadFrom(r.client, capacity2).bytes == c.chin[1].payload[..Min(capacity2, |c.chin[1].payload|)]
  {
  }

  /** The end-to-end datagram scenario: "hi" sent to 0x1234 with an
      acknowledgement returns 2 when the TX Status for its frame id reports
      status 0, -EPROTO for status 1, and -ETIMEDOUT when none arrives. */
  lemma SendDatagramScenario(c: Client)
    requires SlotOk(c.rx)
    ensures var id := NextFrameId(c.frameId);
      var addr := Short([0x12, 0x34]);
      var hi: seq<byte> := [0x68, 0x69];
      WriteTo(c, hi, false, addr, 0, [Frame(TX_STATUS, [id, 0])]).res == 2 &&
      WriteTo(c, hi, false, addr, 0, [Frame(TX_STATUS, [id, 1])]).res == -EPROTO &&
      WriteTo(c, hi, false, addr, 0, []).res == -ETIMEDOUT &&
      WriteTo(c, hi, false, addr, 0, []).sent[0] ==
        Frame(TX_REQUEST_16_BIT_ADDRESS, [id, 0x12, 0x34, 0, 0x68, 0x69])
  {
    var id := NextFrameId(c.frameId);
    var hi: seq<byte> := [0x68, 0x69];
    var frame := TxRequestFrame(Short([0x12, 0x34]), hi);
    CommunicateOutcome(c, frame, [], 0, [Frame(TX_STATUS, [id, 0])]);
    CommunicateOutcome(c, frame, [], 0, [Frame(TX_STATUS, [id, 1])]);
    CommunicateOutcome(c, frame, [], 0, []);
  }

  // ---------------------------------------------------------------------
  // AT commands

  /** The AT Command frame for the 2-character command and its parameters
      (frame id still 0). */
  function AtCommandFrame(command: string, parameter: seq<byte>): (f: Frame)
    requires |command| == 2
    ensures f.kind == AT_COMMAND && |f.data| == |parameter| + 3
    ensures f.data[1] == Low8(command[0]) && f.data[2] == Low8(command[1]) && f.data[3..] == parameter
  {
    Frame(AT_COMMAND, [0, Low8(command[0]), Low8(command[1])] + parameter)
  }

  /** execute_at_command: always a correlated request; a caller without a
      response buffer passes an empty one of capacity 0. */
  function ExecuteAtCommand(c: Client, command: string, parameter: seq<byte>, buf: seq<byte>, size: nat,
                            writeRes: int, arrivals: seq<Frame>): (r: Exchange)
    requires |command| == 2 && SlotOk(c.rx) && size <= |buf|
    ensures SlotOk(r.client.rx) && r.client.pins == c.pins
    ensures |r.client.rx.buf| == |buf|
    ensures SentAs(r.sent, AtCommandFrame(command, parameter))
    ensures r.res == 0 || r.res == writeRes || r.res == -EPROTO || r.res == -ETIMEDOUT
    ensures r.res == 0 ==> r.client.rx.size <= size
  {
    AnswerResultOfCommunicate(c, AtCommandFrame(command, parameter), buf, size, writeRes, arrivals);
    Communicate(c, AtCommandFrame(command, parameter), Correlated(buf, size), writeRes, arrivals)
  }

  /** xbee_client_at_command_read: the size the slot recorded (the number
      of response bytes copied into `buf`, or its capacity unchanged when a
      TX Status answers), or the error. */
  function AtCommandRead(c: Client, command: string, buf: seq<byte>, writeRes: int, arrivals: seq<Frame>): (r: Exchange)
    requires |command| == 2 && SlotOk(c.rx)
    ensures SlotOk(r.client.rx) && r.client.pins == c.pins
    ensures |r.client.rx.buf| == |buf|
    ensures SentAs(r.sent, AtCommandFrame(command, []))
    ensures writeRes <= 0 && r.res >= 0 ==> r.res == r.client.rx.size && r.res <= |buf|
    ensures r.res == writeRes || r.res == -EPROTO || r.res == -ETIMEDOUT || 0 <= r.res <= |buf|
  {
    var e := ExecuteAtCommand(c, command, [], buf, |buf|, writeRes, arrivals);
    if e.res != 0 then e else e.(res := e.client.rx.size)
  }

  /** xbee_client_at_command_write. */
  function AtCommandWrite(c: Client, command: string, parameter: seq<byte>, writeRes: int, arrivals: seq<Frame>): (r: Exchange)
    requires |command| == 2 && SlotOk(c.rx)
    ensures SlotOk(r.client.rx) && r.client.pins == c.pins
    ensures SentAs(r.sent, AtCommandFrame(command, parameter))
    ensures r.res == 0 || r.res == writeRes || r.res == -EPROTO || r.res == -ETIMEDOUT
  {
    ExecuteAtCommand(c, command, parameter, [], 0, writeRes, arrivals)
  }

  /** A correlated call reports the write error, a timeout, or what the
      answering frame reported. */
  lemma AnswerResultOfCommunicate(c: Client, frame: Frame, buf: seq<byte>, size: nat, writeRes: int, arrivals: seq<Frame>)
    requires |frame.data| >= 1 && SlotOk(c.rx) && size <= |buf|
    ensures var r := Communicate(c, frame, Correlated(buf, size), writeRes, arrivals);
      (r.res == 0 || r.res == writeRes || r.res == -EPROTO || r.res == -ETIMEDOUT) &&
      (r.res == 0 ==> r.client.rx.size <= size)
  {
    if writeRes == 0 {
      CommunicateOutcome(c, frame, buf, size, arrivals);
    }
  }

  // Big-endian packing of AT command parameters.

  function Pack16(v: bv16): (b: seq<byte>)
    ensures |b| == 2
  {
    [(v >> 8) as byte, (v & 0xFF) as byte]
  }

  function Unpack16(b: seq<byte>): bv16
    requires |b| == 2
  {
    (b[0] as bv16 << 8) | b[1] as bv16
  }

  function Pack32(v: bv32): (b: seq<byte>)
    ensures |b| == 4
  {
    [(v >> 24) as byte, ((v >> 16) & 0xFF) as byte, ((v >> 8) & 0xFF) as byte, (v & 0xFF) as byte]
  }

  function Unpack32(b: seq<byte>): bv32
    requires |b| == 4
  {
    (b[0] as bv32 << 24) | (b[1] as bv32 << 16) | (b[2] as bv32 << 8) | b[3] as bv32
  }

  /** The readers undo the writers' byte order, in both directions. */
  lemma PackRoundTrip(v16: bv16, v32: bv32, b2: seq<byte>, b4: seq<byte>)
    requires |b2| == 2 && |b4| == 4
    ensures Unpack16(Pack16(v16)) == v16 && Pack16(Unpack16(b2)) == b2
    ensures Unpack32(Pack32(v32)) == v32 && Pack32(Unpack32(b4)) == b4
  {
  }

  /** The result of a scalar read: the exchange and the value left in the
      caller's variable. */
  datatype Reading<T> = Reading(exchange: Exchange, value: T)

  /** The scalar helpers' return value: 0 when the count equals the width,
      otherwise the count or error unchanged. */
  function ScalarResult(res: int, width: nat): (r: int)
    ensures r == 0 <==> res == width as int || res == 0
    ensures r != 0 ==> r == res
  {
    if res == width as int then 0 else res
  }

  /** xbee_client_at_command_read_u8; `stale` is the caller's variable
      before the call. */
  function AtCommandReadU8(c: Client, command: string, stale: byte, writeRes: int, arrivals: seq<Frame>): (r: Reading<byte>)
    requires |command| == 2 && SlotOk(c.rx)
    ensures SlotOk(r.exchange.client.rx) && r.exchange.client.pins == c.pins
    ensures SentAs(r.exchange.sent, AtCommandFrame(command, []))
    ensures var res := r.exchange.res; res == 0 || res == writeRes || res == -EPROTO || res == -ETIMEDOUT
  {
    var e := AtCommandRead(c, command, [stale], writeRes, arrivals);
    Reading(e.(res := ScalarResult(e.res, 1)), e.client.rx.buf[0])
  }

  /** xbee_client_at_command_read_u16; `stale` is the local buffer's
      uninitialised contents. */
  function AtCommandReadU16(c: Client, command: string, stale: seq<byte>, writeRes: int, arrivals: seq<Frame>): (r: Reading<bv16>)
    requires |command| == 2 && |stale| == 2 && SlotOk(c.rx)
    ensures SlotOk(r.exchange.client.rx) && r.exchange.client.pins == c.pins
    ensures SentAs(r.exchange.sent, AtCommandFrame(command, []))
    ensures var res := r.exchange.res; res == 0 || res == 1 || res == writeRes || res == -EPROTO || res == -ETIMEDOUT
  {
    var e := AtCommandRead(c, command, stale, writeRes, arrivals);
    Reading(e.(res := ScalarResult(e.res, 2)), Unpack16(e.client.rx.buf))
  }

  /** xbee_client_at_command_read_u32. */
  function AtCommandReadU32(c: Client, command: string, stale: seq<byte>, writeRes: int, arrivals: seq<Frame>): (r: Reading<bv32>)
    requires |command| == 2 && |stale| == 4 && SlotOk(c.rx)
    ensures SlotOk(r.exchange.client.rx) && r.exchange.client.pins == c.pins
    ensures SentAs(r.exchange.sent, AtCommandFrame(command, []))
    ensures var res := r.exchange.res; res == 0 || 1 <= res <= 3 || res == writeRes || res == -EPROTO || res == -ETIMEDOUT
  {
    var e := AtCommandRead(c, command, stale, writeRes, arrivals);
    Reading(e.(res := ScalarResult(e.res, 4)), Unpack32(e.client.rx.buf))
  }

  function AtCommandWriteU8(c: Client, command: string, v: byte, writeRes: int, arrivals: seq<Frame>): (r: Exchange)
    requires |command| == 2 && SlotOk(c.rx)
    ensures SlotOk(r.client.rx) && r.client.pins == c.pins
    ensures SentAs(r.sent, AtCommandFrame(command, [v]))
  {
    var e := AtCommandWrite(c, command, [v], writeRes, arrivals);
    e.(res := ScalarResult(e.res, 1))
  }

  function AtCommandWriteU16(c: Client, command: string, v: bv16, writeRes: int, arrivals: seq<Frame>): (r: Exchange)
    requires |command| == 2 && SlotOk(c.rx)
    ensures SlotOk(r.client.rx) && r.client.pins == c.pins
    ensures SentAs(r.sent, AtCommandFrame(command, Pack16(v)))
  {
    var e := AtCommandWrite(c, command, Pack16(v), writeRes, arrivals);
    e.(res := ScalarResult(e.res, 2))
  }

  function AtCommandWriteU32(c: Client, command: string, v: bv32, writeRes: int, arrivals: seq<Frame>): (r: Exchange)
    requires |command| == 2 && SlotOk(c.rx)
    ensures SlotOk(r.client.rx) && r.client.pins == c.pins
    ensures SentAs(r.sent, AtCommandFrame(command, Pack32(v)))
  {
    var e := AtCommandWrite(c, command, Pack32(v), writeRes, arrivals);
    e.(res := ScalarResult(e.res, 4))
  }

  /** The AT Command Response a module echoing the parameters of `f` sends
      to request `id`. */
  function Echo(f: Frame, id: byte): Frame
    requires |f.data| >= 3
  {
    Frame(AT_COMMAND_RESPONSE, [id, f.data[1], f.data[2], 0] + f.data[3..])
  }

  /** A u32 written with write_u32 and read back with read_u32 from a
      module that echoes the written parameter comes back unchanged, and
      the wire carries its most significant byte first. */
  lemma ScalarRoundTrip(c: Client, command: string, v: bv32, stale: seq<byte>)
    requires |command| == 2 && |stale| == 4 && SlotOk(c.rx)
    ensures var w := AtCommandWriteU32(c, command, v, 0, [Frame(AT_COMMAND_RESPONSE, [NextFrameId(c.frameId)] + CommandBytes(command) + [0])]);
      var id := NextFrameId(w.client.frameId);
      var r := AtCommandReadU32(w.client, command, stale, 0, [Echo(w.sent[0], id)]);
      w.res == 0 && w.sent[0].data[3..] == Pack32(v) &&
      r.exchange.res == 0 && r.value == v
  {
    WriteU32Acknowledged(c, command, v);
    var w := AtCommandWriteU32(c, command, v, 0, [Frame(AT_COMMAND_RESPONSE, [NextFrameId(c.frameId)] + CommandBytes(command) + [0])]);
    var id := NextFrameId(w.client.frameId);
    assert Echo(w.sent[0], id) == Frame(AT_COMMAND_RESPONSE, [id] + CommandBytes(command) + [0] + Pack32(v));
    ScalarReadResult(w.client, command, stale, Pack32(v));
    assert Pack32(v)[..4] == Pack32(v);
    PackRoundTrip(0, v, [0, 0], Pack32(v));
  }

  /** A u32 write acknowledged with status 0 returns 0 and sends the value
      most significant byte first. */
  lemma WriteU32Acknowledged(c: Client, command: string, v: bv32)
    requires |command| == 2 && SlotOk(c.rx)
    ensures var w := AtCommandWriteU32(c, command, v, 0, [Frame(AT_COMMAND_RESPONSE, [NextFrameId(c.frameId)] + CommandBytes(command) + [0])]);
      w.res == 0 && w.sent[0].data[3..] == Pack32(v)
  {
    var ack := Frame(AT_COMMAND_RESPONSE, [NextFrameId(c.frameId)] + CommandBytes(command) + [0]);
    CommunicateOutcome(c, AtCommandFrame(command, Pack32(v)), [], 0, [ack]);
  }

  function CommandBytes(command: string): seq<byte>
    requires |command| == 2
  {
    [Low8(command[0]), Low8(command[1])]
  }

  /** As written, a read whose response carries no parameter bytes also
      returns 0, leaving the caller's variable as it was. */
  lemma EmptyResponseReadsAsSuccess(c: Client, command: string, stale: byte)
    requires |command| == 2 && SlotOk(c.rx)
    ensures var id := NextFrameId(c.frameId);
      var r := AtCommandReadU8(c, command, stale, 0, [Frame(AT_COMMAND_RESPONSE, [id] + CommandBytes(command) + [0])]);
      r.exchange.res == 0 && r.value == stale
  {
    var id := NextFrameId(c.frameId);
    assert [id] + CommandBytes(command) + [0] + [] == [id] + CommandBytes(command) + [0];
    ScalarReadResultU8(c, command, stale, []);
  }

  /** An AT read answered by a response with status 0 returns the number
      of parameter bytes copied, the response length capped by the buffer,
      and the buffer then holds those bytes over its old contents. */
  lemma AtCommandReadResponse(c: Client, command: string, buf: seq<byte>, response: seq<byte>)
    requires |command| == 2 && SlotOk(c.rx)
    ensures var id := NextFrameId(c.frameId);
      var e := AtCommandRead(c, command, buf, 0, [Frame(AT_COMMAND_RESPONSE, [id] + CommandBytes(command) + [0] + response)]);
      e.res == Min(|response|, |buf|) && e.client.rx.buf == CopyInto(buf, response[..Min(|response|, |buf|)])
  {
    var id := NextFrameId(c.frameId);
    var f := Frame(AT_COMMAND_RESPONSE, [id] + CommandBytes(command) + [0] + response);
    assert f.data[4..] == response;
    assert f.data[4..4 + Min(|response|, |buf|)] == response[..Min(|response|, |buf|)];
    CommunicateOutcome(c, AtCommandFrame(command, []), buf, |buf|, [f]);
  }

  /** An AT read answered by a TX Status with status 0 copies nothing and
      returns the buffer's capacity, the size the slot was published with. */
  lemma AtCommandReadTxStatus(c: Client, command: string, buf: seq<byte>)
    requires |command| == 2 && SlotOk(c.rx)
    ensures var id := NextFrameId(c.frameId);
      var e := AtCommandRead(c, command, buf, 0, [Frame(TX_STATUS, [id, 0])]);
      e.res == |buf| && e.client.rx.buf == buf
  {
    var id := NextFrameId(c.frameId);
    CommunicateOutcome(c, AtCommandFrame(command, []), buf, |buf|, [Frame(TX_STATUS, [id, 0])]);
  }

  /** A u8 read always returns 0: the value is the first response byte, or
      the caller's variable unchanged when the response is empty. */
  lemma ScalarReadResultU8(c: Client, command: string, stale: byte, response: seq<byte>)
    requires |command| == 2 && SlotOk(c.rx)
    ensures var id := NextFrameId(c.frameId);
      var r := AtCommandReadU8(c, command, stale, 0, [Frame(AT_COMMAND_RESPONSE, [id] + CommandBytes(command) + [0] + response)]);
      r.exchange.res == 0 &&
      r.value == (if |response| == 0 then stale else response[0])
  {
    AtCommandReadResponse(c, command, [stale], response);
  }

  /** A u16 read returns 0 when the response is empty or carries at least 2
      bytes, and 1 for a single byte; the value is the first bytes of the
      response copied over the caller's buffer, most significant first. */
  lemma ScalarReadResultU16(c: Client, command: string, stale: seq<byte>, response: seq<byte>)
    requires |command| == 2 && |stale| == 2 && SlotOk(c.rx)
    ensures var id := NextFrameId(c.frameId);
      var r := AtCommandReadU16(c, command, stale, 0, [Frame(AT_COMMAND_RESPONSE, [id] + CommandBytes(command) + [0] + response)]);
      (r.exchange.res == 0 <==> |response| == 0 || |response| >= 2) &&
      (0 < |response| < 2 ==> r.exchange.res == |response|) &&
      r.value == Unpack16(CopyInto(stale, response[..Min(|response|, 2)]))
  {
    AtCommandReadResponse(c, command, stale, response);
  }

  /** A u32 read returns 0 when the response is empty or carries at least 4
      bytes, and the byte count for 1 to 3 bytes; the value is the first
      bytes of the response copied over the caller's buffer, most
      significant first. */
  lemma ScalarReadResult(c: Client, command: string, stale: seq<byte>, response: seq<byte>)
    requires |command| == 2 && |stale| == 4 && SlotOk(c.rx)
    ensures var id := NextFrameId(c.frameId);
      var r := AtCommandReadU32(c, command, stale, 0, [Frame(AT_COMMAND_RESPONSE, [id] + CommandBytes(command) + [0] + response)]);
      (r.exchange.res == 0 <==> |response| == 0 || |response| >= 4) &&
      (|response| >= 4 ==> r.value == Unpack32(response[..4])) &&
      (0 < |response| < 4 ==> r.exchange.res == |response|) &&
      r.value == Unpack32(CopyInto(stale, response[..Min(|response|, 4)]))
  {
    AtCommandReadResponse(c, command, stale, response);
    if |response| >= 4 {
      assert CopyInto(stale, response[..4]) == response[..4];
    }
  }

  // ---------------------------------------------------------------------
  // Pins
  //
  // The shadow register `pins.value` is only ever touched one bit at a time
  // (`&= ~(1 << pin)`, `|= (1 << pin)`, `^= (1 << pin)`, `(v >> pin) & 1`),
  // so the model holds it as the set of positions of its 1 bits.

  /** `pin` names a bit of the 32-bit register. */
  predicate IsPin(pin: int)
  {
    0 <= pin < 32
  }

  /** The AT command "D<pin>": the digit '0' advanced by `pin`. */
  function PinCommand(pin: int): (cmd: string)
    requires IsPin(pin)
    ensures |cmd| == 2 && cmd[0] == 'D' && cmd[1] as int == '0' as int + pin
  {
    ['D', ('0' as int + pin) as char]
  }

  /** The register after writing `value` to bit `pin`. */
  function WritePinBit(pins: set<int>, pin: int, value: int): set<int>
  {
    if value == 0 then pins - {pin} else pins + {pin}
  }

  /** The parameter pin_write sends for `value`. */
  function OutputMode(value: int): (mode: byte)
    ensures mode == PIN_MODE_OUTPUT_LOW || mode == PIN_MODE_OUTPUT_HIGH
    ensures mode == PIN_MODE_OUTPUT_HIGH <==> value != 0
  {
    if value == 0 then PIN_MODE_OUTPUT_LOW else PIN_MODE_OUTPUT_HIGH
  }

  /** xbee_client_pin_write: updates the shadow bit and sends D<pin> with
      OUTPUT_HIGH or OUTPUT_LOW. */
  function PinWrite(c: Client, pin: int, value: int, writeRes: int, arrivals: seq<Frame>): (r: Exchange)
    requires IsPin(pin) && SlotOk(c.rx)
    ensures SlotOk(r.client.rx)
    ensures pin in r.client.pins <==> value != 0
    ensures forall k :: k != pin ==> (k in r.client.pins <==> k in c.pins)
    ensures SentAs(r.sent, AtCommandFrame(PinCommand(pin), [OutputMode(value)]))
  {
    AtCommandWriteU8(c.(pins := WritePinBit(c.pins, pin, value)), PinCommand(pin), OutputMode(value), writeRes, arrivals)
  }

  /** Writing the value a pin already holds leaves the register as it was. */
  lemma {:induction false} PinWriteSameValue(c: Client, pin: int, writeRes: int, arrivals: seq<Frame>)
    requires IsPin(pin) && SlotOk(c.rx)
    ensures PinWrite(c, pin, if pin in c.pins then 1 else 0, writeRes, arrivals).client.pins == c.pins
  {
    var p := PinWrite(c, pin, if pin in c.pins then 1 else 0, writeRes, arrivals).client.pins;
    assert forall k :: k in p <==> k in c.pins;
  }

  /** xbee_client_pin_toggle: flips the shadow bit, then writes the new bit
      back, so OUTPUT_HIGH goes out exactly when the bit was clear. */
  function PinToggle(c: Client, pin: int, writeRes: int, arrivals: seq<Frame>): (r: Exchange)
    requires IsPin(pin) && SlotOk(c.rx)
    ensures SlotOk(r.client.rx)
    ensures pin in r.client.pins <==> pin !in c.pins
    ensures forall k :: k != pin ==> (k in r.client.pins <==> k in c.pins)
    ensures SentAs(r.sent, AtCommandFrame(PinCommand(pin), [OutputMode(if pin in c.pins then 0 else 1)]))
  {
    var pins := if pin in c.pins then c.pins - {pin} else c.pins + {pin};
    var value := if pin in pins then 1 else 0;
    PinWrite(c.(pins := pins), pin, value, writeRes, arrivals)
  }

  /** Toggling a pin twice restores the shadow register. */
  lemma {:induction false} PinToggleTwice(c: Client, pin: int, writeRes: int, arrivals: seq<Frame>)
    requires IsPin(pin) && SlotOk(c.rx)
    ensures PinToggle(PinToggle(c, pin, writeRes, arrivals).client, pin, writeRes, arrivals).client.pins == c.pins
  {
    var p := PinToggle(PinToggle(c, pin, writeRes, arrivals).client, pin, writeRes, arrivals).client.pins;
    assert forall k :: k in p <==> k in c.pins;
  }

  /** xbee_client_pin_set_mode: the mode is ignored; the pin is written low. */
  function PinSetMode(c: Client, pin: int, mode: int, writeRes: int, arrivals: seq<Frame>): (r: Exchange)
    requires IsPin(pin) && SlotOk(c.rx)
    ensures SlotOk(r.client.rx)
    ensures pin !in r.client.pins
    ensures forall k :: k != pin ==> (k in r.client.pins <==> k in c.pins)
    ensures SentAs(r.sent, AtCommandFrame(PinCommand(pin), [PIN_MODE_OUTPUT_LOW]))
  {
    PinWrite(c, pin, 0, writeRes, arrivals)
  }

  /** xbee_client_pin_convert: the "IS" (force sample) command, whatever the pin. */
  function PinConvert(c: Client, pin: int, writeRes: int, arrivals: seq<Frame>): (r: Exchange)
    requires SlotOk(c.rx)
    ensures SlotOk(r.client.rx) && r.client.pins == c.pins
    ensures SentAs(r.sent, AtCommandFrame("IS", []))
  {
    AtCommandWrite(c, "IS", [], writeRes, arrivals)
  }
}
