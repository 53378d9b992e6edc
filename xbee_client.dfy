/** The XBee client object: the C struct's fields as class fields, each
    operation as a method that updates them in place. Every method is
    proved to move the object exactly as the corresponding function of
    module XBeeModel moves its abstract state `Model()`, so the properties
    proved there hold of the object. */
module XBeeClient {
  import opened Common
  import opened XBeeModel

  /** memcpy(&dst[pos], src, |src|). */
  method Memcpy(dst: array<byte>, pos: nat, src: seq<byte>)
    requires pos + |src| <= dst.Length
    modifies dst
    ensures dst[..] == old(dst[..])[..pos] + src + old(dst[..])[pos + |src|..]
  {
    var i := 0;
    while i < |src|
      invariant 0 <= i <= |src|
      invariant forall k :: 0 <= k < dst.Length ==> dst[k] == if pos <= k < pos + i then src[k - pos] else old(dst[k])
    {
      dst[pos + i] := src[i];
      i := i + 1;
    }
    assert forall k :: 0 <= k < dst.Length ==>
      dst[k] == (old(dst[..])[..pos] + src + old(dst[..])[pos + |src|..])[k];
  }

  class XBeeClient {
    /** `frame_id`: the last frame id handed out. */
    var frameId: byte
    /** `rpc.rx.frame_p`: the frame id of the outstanding request, None
        while the pointer is NULL. */
    var pending: Option<byte>
    /** `rpc.rx.buf_p`: the caller's response buffer. */
    var rxBuf: array<byte>
    /** `*rpc.rx.size_p`: the caller's size variable. */
    var rxSize: nat
    /** `rpc.rx.res`. */
    var rxRes: int
    /** `chin`: the inbound datagram queue, oldest record first. */
    var chin: seq<Datagram>
    /** `pins.value`, as the set of positions of its 1 bits. */
    var pins: set<int>

    /** While a request is pending, the size variable holds the capacity of
        its response buffer. */
    predicate Valid()
      reads this
    {
      pending.Some? ==> rxSize <= rxBuf.Length
    }

    /** The abstract state the methods are specified against. */
    ghost function Model(): Client
      reads this, rxBuf
    {
      Client(frameId, Slot(pending, rxBuf[..], rxSize, rxRes), chin, pins)
    }

    /** xbee_client_init; the initial pin register is a parameter. */
    constructor(initialPins: set<int>)
      ensures Valid() && Model() == Init(initialPins)
    {
      frameId := FRAME_ID_NO_ACK;
      pending := None;
      rxBuf := new byte[0];
      rxSize := 0;
      rxRes := 0;
      chin := [];
      pins := initialPins;
    }

    /** next_frame_id. */
    method NextFrameId() returns (id: byte)
      modifies this
      ensures id == frameId == XBeeModel.NextFrameId(old(frameId))
      ensures pending == old(pending) && rxBuf == old(rxBuf) && rxSize == old(rxSize)
      ensures rxRes == old(rxRes) && chin == old(chin) && pins == old(pins)
    {
      frameId := frameId + 1;
      if frameId == FRAME_ID_NO_ACK {
        frameId := frameId + 1;
      }
      id := frameId;
    }

    /** handle_rx_packet_16_bit_address. */
    method HandleRxPacket16(f: Frame) returns (res: int)
      modifies this
      ensures rxBuf == old(rxBuf)
      ensures var h := XBeeModel.HandleRxPacket16(old(Model()), f);
        Model() == h.client && res == h.res
    {
      if |f.data| < 4 {
        return -EPROTO;
      }
      chin := chin + [Datagram(Short(f.data[..2]), f.data[4..])];
      res := 0;
    }

    /** handle_rx_packet_64_bit_address. */
    method HandleRxPacket64(f: Frame) returns (res: int)
      modifies this
      ensures rxBuf == old(rxBuf)
      ensures var h := XBeeModel.HandleRxPacket64(old(Model()), f);
        Model() == h.client && res == h.res
    {
      if |f.data| < 10 {
        return -EPROTO;
      }
      chin := chin + [Datagram(Long(f.data[..8]), f.data[10..])];
      res := 0;
    }

    /** handle_tx_status. */
    method HandleTxStatus(f: Frame) returns (res: int)
      requires f.kind == TX_STATUS && Valid()
      modifies this
      ensures Valid() && rxBuf == old(rxBuf)
      ensures var h := XBeeModel.HandleTxStatus(old(Model()), f);
        Model() == h.client && res == h.res
    {
      if |f.data| != 2 {
        return -EPROTO;
      }
      var id := f.data[0];
      var status := f.data[1];
      if pending.Some? && pending.value == id {
        pending := None;
        rxRes := if status != 0 then -EPROTO else 0;
      }
      res := 0;
    }

    /** handle_at_command_response. */
    method HandleAtCommandResponse(f: Frame) returns (res: int)
      requires f.kind == AT_COMMAND_RESPONSE && Valid()
      modifies this, rxBuf
      ensures Valid() && rxBuf == old(rxBuf)
      ensures var h := XBeeModel.HandleAtCommandResponse(old(Model()), f);
        Model() == h.client && res == h.res
    {
      if |f.data| < 4 {
        return -EPROTO;
      }
      var id := f.data[0];
      if pending.Some? && pending.value == id {
        DeliverAtCommandResponse(f);
      }
      res := 0;
    }

    /** The matching branch of handle_at_command_response: with status 0
        the payload after the status byte is copied into the caller's
        buffer, at most as many bytes as its size variable allows. */
    method DeliverAtCommandResponse(f: Frame)
      requires f.kind == AT_COMMAND_RESPONSE && |f.data| >= 4 && Valid()
      requires pending.Some? && pending.value == f.data[0]
      modifies this, rxBuf
      ensures Valid() && rxBuf == old(rxBuf)
      ensures Model() == old(Model()).(rx := Completed(old(Model()).rx, f))
    {
      var status := f.data[3];
      var size: nat := |f.data|;
      if status == 0 {
        size := Min(|f.data| - 4, rxSize);
        Memcpy(rxBuf, 0, f.data[4..4 + size]);
        rxRes := 0;
      } else {
        rxRes := -EPROTO;
      }
      pending := None;
      rxSize := size;
    }

    /** One iteration of xbee_client_main's switch on the frame type. */
    method Dispatch(f: Frame)
      requires Valid()
      modifies this, rxBuf
      ensures Valid() && rxBuf == old(rxBuf)
      ensures Model() == XBeeModel.Dispatch(old(Model()), f)
    {
      var res;
      if f.kind == RX_PACKET_16_BIT_ADDRESS {
        res := HandleRxPacket16(f);
      } else if f.kind == RX_PACKET_64_BIT_ADDRESS {
        res := HandleRxPacket64(f);
      } else if f.kind == TX_STATUS {
        res := HandleTxStatus(f);
      } else if f.kind == AT_COMMAND_RESPONSE {
        res := HandleAtCommandResponse(f);
      }
    }

    /** communicate. Without `correlated` (NULL `response_size_p`) the frame
        goes out with the sentinel id. Otherwise a fresh id is allocated, the
        slot is published with `buf` and its capacity `size`, and after a
        successful write the dispatcher handles `arrivals` while the caller
        waits; a request still pending after them has timed out. */
    method Communicate(frame: Frame, correlated: bool, buf: array<byte>, size: nat,
                       writeRes: int, arrivals: seq<Frame>) returns (res: int, sent: seq<Frame>)
      requires |frame.data| >= 1 && Valid() && size <= buf.Length
      modifies this, buf
      ensures Valid()
      ensures correlated ==> rxBuf == buf
      ensures !correlated ==> rxBuf == old(rxBuf) && buf[..] == old(buf[..])
      ensures var e := XBeeModel.Communicate(old(Model()), frame,
          if correlated then Correlated(old(buf[..]), size) else NoAck, writeRes, arrivals);
        Model() == e.client && res == e.res && sent == e.sent
    {
      if !correlated {
        sent := [frame.(data := frame.data[0 := FRAME_ID_NO_ACK])];
        res := writeRes;
        return;
      }
      var id := NextFrameId();
      sent := [frame.(data := frame.data[0 := id])];
      pending := Some(id);
      rxBuf := buf;
      rxSize := size;
      res := writeRes;
      if res == 0 {
        ghost var published := Model();
        var i := 0;
        while i < |arrivals|
          invariant 0 <= i <= |arrivals|
          invariant Valid() && rxBuf == buf && SlotOk(published.rx)
          invariant Model() == DispatchAll(published, arrivals[..i])
        {
          Dispatch(arrivals[i]);
          assert arrivals[..i + 1][..i] == arrivals[..i];
          i := i + 1;
        }
        assert arrivals[..i] == arrivals;
        res := if pending.Some? then -ETIMEDOUT else rxRes;
        pending := None;
      }
    }

    /** Builds the frame `kind` whose data is `pieces` laid out from offset 1
        (offset 0 is the frame id, filled in by Communicate). */
    static method BuildFrame(kind: byte, pieces: seq<byte>) returns (f: Frame)
      ensures f == Frame(kind, [0] + pieces)
    {
      var data := new byte[1 + |pieces|](_ => 0);
      Memcpy(data, 1, pieces);
      assert data[..] == [0] + pieces;
      f := Frame(kind, data[..]);
    }

    /** execute_at_command. */
    method ExecuteAtCommand(command: string, parameter: seq<byte>, buf: array<byte>, size: nat,
                            writeRes: int, arrivals: seq<Frame>) returns (res: int, sent: seq<Frame>)
      requires |command| == 2 && Valid() && size <= buf.Length
      modifies this, buf
      ensures Valid() && rxBuf == buf
      ensures var e := XBeeModel.ExecuteAtCommand(old(Model()), command, parameter, old(buf[..]), size, writeRes, arrivals);
        Model() == e.client && res == e.res && sent == e.sent
    {
      var frame := BuildFrame(AT_COMMAND, [Low8(command[0]), Low8(command[1])] + parameter);
      assert frame == AtCommandFrame(command, parameter);
      res, sent := Communicate(frame, true, buf, size, writeRes, arrivals);
    }

    /** xbee_client_at_command_read: `parameter` is the caller's buffer and
        its length the size passed in. */
    method AtCommandRead(command: string, parameter: array<byte>, writeRes: int, arrivals: seq<Frame>)
      returns (res: int, sent: seq<Frame>)
      requires |command| == 2 && Valid()
      modifies this, parameter
      ensures Valid() && rxBuf == parameter
      ensures var e := XBeeModel.AtCommandRead(old(Model()), command, old(parameter[..]), writeRes, arrivals);
        Model() == e.client && res == e.res && sent == e.sent
    {
      res, sent := ExecuteAtCommand(command, [], parameter, parameter.Length, writeRes, arrivals);
      if res != 0 {
        return;
      }
      res := rxSize;
    }

    /** xbee_client_at_command_write: no response buffer, capacity 0. */
    method AtCommandWrite(command: string, parameter: seq<byte>, writeRes: int, arrivals: seq<Frame>)
      returns (res: int, sent: seq<Frame>)
      requires |command| == 2 && Valid()
      modifies this
      ensures Valid()
      ensures var e := XBeeModel.AtCommandWrite(old(Model()), command, parameter, writeRes, arrivals);
        Model() == e.client && res == e.res && sent == e.sent
    {
      var none := new byte[0];
      res, sent := ExecuteAtCommand(command, parameter, none, 0, writeRes, arrivals);
    }

    /** xbee_client_at_command_read_u8: the caller's one-byte variable is
        the response buffer. */
    method AtCommandReadU8(command: string, parameter: array<byte>, writeRes: int, arrivals: seq<Frame>)
      returns (res: int, sent: seq<Frame>)
      requires |command| == 2 && parameter.Length == 1 && Valid()
      modifies this, parameter
      ensures Valid()
      ensures var r := XBeeModel.AtCommandReadU8(old(Model()), command, old(parameter[0]), writeRes, arrivals);
        Model() == r.exchange.client && res == r.exchange.res && sent == r.exchange.sent && parameter[0] == r.value
    {
      assert old(parameter[..]) == [old(parameter[0])];
      res, sent := AtCommandRead(command, parameter, writeRes, arrivals);
      res := ScalarResult(res, 1);
    }

    /** xbee_client_at_command_read_u16; `stale` is what the uninitialised
        local buffer holds. */
    method AtCommandReadU16(command: string, stale: seq<byte>, writeRes: int, arrivals: seq<Frame>)
      returns (res: int, sent: seq<Frame>, value: bv16)
      requires |command| == 2 && |stale| == 2 && Valid()
      modifies this
      ensures Valid()
      ensures var r := XBeeModel.AtCommandReadU16(old(Model()), command, stale, writeRes, arrivals);
        Model() == r.exchange.client && res == r.exchange.res && sent == r.exchange.sent && value == r.value
    {
      var buf := new byte[2](i requires 0 <= i < 2 => stale[i]);
      assert buf[..] == stale;
      res, sent := AtCommandRead(command, buf, writeRes, arrivals);
      value := Unpack16(buf[..]);
      res := ScalarResult(res, 2);
    }

    /** xbee_client_at_command_read_u32; `stale` as for the u16 reader. */
    method AtCommandReadU32(command: string, stale: seq<byte>, writeRes: int, arrivals: seq<Frame>)
      returns (res: int, sent: seq<Frame>, value: bv32)
      requires |command| == 2 && |stale| == 4 && Valid()
      modifies this
      ensures Valid()
      ensures var r := XBeeModel.AtCommandReadU32(old(Model()), command, stale, writeRes, arrivals);
        Model() == r.exchange.client && res == r.exchange.res && sent == r.exchange.sent && value == r.value
    {
      var buf := new byte[4](i requires 0 <= i < 4 => stale[i]);
      assert buf[..] == stale;
      res, sent := AtCommandRead(command, buf, writeRes, arrivals);
      value := Unpack32(buf[..]);
      res := ScalarResult(res, 4);
    }

    /** xbee_client_at_command_write_u8. */
    method AtCommandWriteU8(command: string, parameter: byte, writeRes: int, arrivals: seq<Frame>)
      returns (res: int, sent: seq<Frame>)
      requires |command| == 2 && Valid()
      modifies this
      ensures Valid()
      ensures var e := XBeeModel.AtCommandWriteU8(old(Model()), command, parameter, writeRes, arrivals);
        Model() == e.client && res == e.res && sent == e.sent
    {
      res, sent := AtCommandWrite(command, [parameter], writeRes, arrivals);
      res := ScalarResult(res, 1);
    }

    /** xbee_client_at_command_write_u16: most significant byte first. */
    method AtCommandWriteU16(command: string, parameter: bv16, writeRes: int, arrivals: seq<Frame>)
      returns (res: int, sent: seq<Frame>)
      requires |command| == 2 && Valid()
      modifies this
      ensures Valid()
      ensures var e := XBeeModel.AtCommandWriteU16(old(Model()), command, parameter, writeRes, arrivals);
        Model() == e.client && res == e.res && sent == e.sent
    {
      res, sent := AtCommandWrite(command, Pack16(parameter), writeRes, arrivals);
      res := ScalarResult(res, 2);
    }

    /** xbee_client_at_command_write_u32: most significant byte first. */
    method AtCommandWriteU32(command: string, parameter: bv32, writeRes: int, arrivals: seq<Frame>)
      returns (res: int, sent: seq<Frame>)
      requires |command| == 2 && Valid()
      modifies this
      ensures Valid()
      ensures var e := XBeeModel.AtCommandWriteU32(old(Model()), command, parameter, writeRes, arrivals);
        Model() == e.client && res == e.res && sent == e.sent
    {
      res, sent := AtCommandWrite(command, Pack32(parameter), writeRes, arrivals);
      res := ScalarResult(res, 4);
    }

    /** xbee_client_read_from: `buf` is the caller's buffer, its length the
        capacity. Unless `buf` is the response buffer of an earlier AT read,
        the object moves exactly as the model says; either way only `chin`
        and `buf` change. */
    method ReadFrom(buf: array<byte>) returns (size: nat, address: Address)
      requires |chin| > 0
      modifies this, buf
      ensures var r := XBeeModel.ReadFrom(old(Model()), buf.Length);
        chin == r.client.chin && size == r.size && address == r.address &&
        buf[..size] == r.bytes && buf[size..] == old(buf[..])[size..] &&
        (buf != rxBuf ==> Model() == r.client)
      ensures frameId == old(frameId) && pending == old(pending) && rxBuf == old(rxBuf)
      ensures rxSize == old(rxSize) && rxRes == old(rxRes) && pins == old(pins)
    {
      var record := chin[0];
      chin := chin[1..];
      size := Min(buf.Length, |record.payload|);
      address := record.address;
      Memcpy(buf, 0, record.payload[..size]);
    }

    /** xbee_client_write_to; `noAck` is the XBEE_CLIENT_NO_ACK flag. */
    method WriteTo(payload: seq<byte>, noAck: bool, address: Address, writeRes: int, arrivals: seq<Frame>)
      returns (res: int, sent: seq<Frame>)
      requires address.Short? ==> |address.short| == 2
      requires address.Long? ==> |address.long| == 8
      requires Valid()
      modifies this
      ensures Valid()
      ensures var e := XBeeModel.WriteTo(old(Model()), payload, noAck, address, writeRes, arrivals);
        Model() == e.client && res == e.res && sent == e.sent
    {
      var frame;
      match address {
        case Invalid =>
          return -EINVAL, [];
        case Short(a) =>
          frame := BuildFrame(TX_REQUEST_16_BIT_ADDRESS, a + [0] + payload);
        case Long(a) =>
          frame := BuildFrame(TX_REQUEST_64_BIT_ADDRESS, a + [0] + payload);
      }
      assert frame == TxRequestFrame(address, payload);
      var none := new byte[0];
      res, sent := Communicate(frame, !noAck, none, 0, writeRes, arrivals);
      if res != 0 {
        return;
      }
      res := |payload|;
    }

    /** xbee_client_pin_write. */
    method PinWrite(pin: int, value: int, writeRes: int, arrivals: seq<Frame>)
      returns (res: int, sent: seq<Frame>)
      requires IsPin(pin) && Valid()
      modifies this
      ensures Valid()
      ensures var e := XBeeModel.PinWrite(old(Model()), pin, value, writeRes, arrivals);
        Model() == e.client && res == e.res && sent == e.sent
    {
      var command := ['D', ('0' as int + pin) as char];
      var mode;
      if value == 0 {
        pins := pins - {pin};
        mode := PIN_MODE_OUTPUT_LOW;
      } else {
        pins := pins + {pin};
        mode := PIN_MODE_OUTPUT_HIGH;
      }
      res, sent := AtCommandWriteU8(command, mode, writeRes, arrivals);
    }

    /** xbee_client_pin_toggle. */
    method PinToggle(pin: int, writeRes: int, arrivals: seq<Frame>)
      returns (res: int, sent: seq<Frame>)
      requires IsPin(pin) && Valid()
      modifies this
      ensures Valid()
      ensures var e := XBeeModel.PinToggle(old(Model()), pin, writeRes, arrivals);
        Model() == e.client && res == e.res && sent == e.sent
    {
      pins := if pin in pins then pins - {pin} else pins + {pin};
      var value := if pin in pins then 1 else 0;
      res, sent := PinWrite(pin, value, writeRes, arrivals);
    }

    /** xbee_client_pin_set_mode: `mode` is ignored. */
    method PinSetMode(pin: int, mode: int, writeRes: int, arrivals: seq<Frame>)
      returns (res: int, sent: seq<Frame>)
      requires IsPin(pin) && Valid()
      modifies this
      ensures Valid()
      ensures var e := XBeeModel.PinSetMode(old(Model()), pin, mode, writeRes, arrivals);
        Model() == e.client && res == e.res && sent == e.sent
    {
      res, sent := PinWrite(pin, 0, writeRes, arrivals);
    }

    /** xbee_client_pin_convert: `pin` is ignored. */
    method PinConvert(pin: int, writeRes: int, arrivals: seq<Frame>)
      returns (res: int, sent: seq<Frame>)
      requires Valid()
      modifies this
      ensures Valid()
      ensures var e := XBeeModel.PinConvert(old(Model()), pin, writeRes, arrivals);
        Model() == e.client && res == e.res && sent == e.sent
    {
      res, sent := AtCommandWrite("IS", [], writeRes, arrivals);
    }
  }
}
