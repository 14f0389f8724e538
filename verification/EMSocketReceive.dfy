/** The receiving half of CEMSocket: a framer fed by partial reads under a download limit. */
module EMSocketReceive {
  import opened Words
  import opened Framing
  import opened Encoding

  datatype ConnectionState = NotConnected | Connected | Disconnected

  class EMSocketReceiver {
    var byConnected: ConnectionState

    // download (pseudo) rate control
    var downloadLimit: uint32
    var downloadLimitEnable: bool
    var pendingOnReceive: bool

    // the header and the body being received; only the first `...Size` bytes of each are filled
    const pendingHeader: array<uint8>
    var pendingHeaderSize: nat
    var pendingPacket: array?<uint8>
    var pendingPacketSize: nat

    // what the network still has for this socket
    var incoming: Bytes

    // what has happened: calls of the socket's Read, bytes read, packets delivered, whether the
    // peer broke the protocol, the limits set and lifted, and the bytes read since the last of them
    ghost var asked: nat
    ghost var bytesRead: Bytes
    ghost var delivered: seq<Frame>
    ghost var failed: bool
    ghost var limits: seq<Option<uint32>>
    ghost var readUnderLimit: nat
    /** The last call of Read found no bytes and would have had to wait. */
    ghost var blocked: bool

    ghost function HeaderBytes(): Bytes
      requires pendingHeaderSize <= pendingHeader.Length
      reads `pendingHeaderSize, pendingHeader
    {
      pendingHeader[..pendingHeaderSize]
    }

    ghost function BodyBytes(): Bytes
      requires pendingPacket != null ==> pendingPacketSize <= pendingPacket.Length
      reads `pendingPacket, `pendingPacketSize, pendingPacket
    {
      if pendingPacket == null then [] else pendingPacket[..pendingPacketSize]
    }

    /** The buffers are well formed. */
    ghost predicate BuffersOk()
      reads `pendingHeaderSize, `pendingPacket, `pendingPacketSize, pendingHeader, pendingPacket
    {
      && pendingHeader.Length == PACKET_HEADER_SIZE
      && pendingHeaderSize <= PACKET_HEADER_SIZE
      && (pendingPacket != null ==>
            && pendingHeaderSize == PACKET_HEADER_SIZE
            && pendingPacketSize <= BodySize(pendingHeader[..]) < pendingPacket.Length
            && pendingPacket != pendingHeader)
    }

    /** What was read is some packets and then what is pending; once the connection is closed the pending part is gone. */
    ghost predicate AccountedFor(frames: seq<Frame>)
      reads `byConnected, `bytesRead, `failed,
            `pendingHeaderSize, `pendingPacket, `pendingPacketSize, pendingHeader, pendingPacket
    {
      && BuffersOk()
      && (byConnected == Disconnected ==> pendingHeaderSize == 0)
      && AllWellFormed(frames)
      && (!failed ==> FrameBytes(frames) <= bytesRead)
      && (!failed && byConnected != Disconnected ==> bytesRead == Stream(frames, HeaderBytes(), BodyBytes()))
    }

    /** The packets are those that the handler was given. */
    ghost predicate Accounted()
      reads `byConnected, `delivered, `bytesRead, `failed,
            `pendingHeaderSize, `pendingPacket, `pendingPacketSize, pendingHeader, pendingPacket
    {
      AccountedFor(delivered)
    }

    ghost function LimitInForce(): Option<uint32>
      reads `limits
    {
      if limits == [] then None else limits[|limits| - 1]
    }

    /** The limit is what was set last, if it was not lifted, less what was read since. */
    ghost predicate LimitOk()
      reads `downloadLimitEnable, `downloadLimit, `readUnderLimit, `limits
    {
      && (downloadLimitEnable <==> LimitInForce().Some?)
      && (downloadLimitEnable ==> readUnderLimit + downloadLimit == LimitInForce().value)
    }

    ghost predicate Valid()
      reads this, pendingHeader, pendingPacket
    {
      && Accounted()
      && LimitOk()
      && (pendingPacket != null ==> BodySize(pendingHeader[..]) > pendingPacketSize)
    }

    /** Bytes not yet delivered in a packet. */
    ghost function Undelivered(): nat
      reads `incoming, `pendingHeaderSize, `pendingPacket, `pendingPacketSize
    {
      |incoming| + pendingHeaderSize + if pendingPacket == null then 0 else pendingPacketSize
    }

    /** Later states of the same connection. */
    twostate predicate Progress()
      reads this
    {
      && old(delivered) <= delivered
      && old(bytesRead) + old(incoming) == bytesRead + incoming
      && (old(failed) ==> failed)
      && Undelivered() <= old(Undelivered())
      && (pendingPacket == null || pendingPacket == old(pendingPacket) || fresh(pendingPacket))
      && (old(byConnected) == Disconnected ==> byConnected == Disconnected)
      && (old(byConnected) == Connected ==> byConnected != NotConnected)
      && old(limits) <= limits && old(asked) <= asked
    }

    /** While a limit stays in force, every byte read is counted against it. */
    twostate predicate Spent()
      reads `limits, `readUnderLimit, `bytesRead
    {
      limits == old(limits) && LimitInForce().Some? ==>
        readUnderLimit + |old(bytesRead)| == old(readUnderLimit) + |bytesRead|
    }

    /** The socket was asked for bytes, a packet was delivered, or the peer was found at fault. */
    twostate predicate Worked()
      reads `asked, `delivered, `failed
    {
      old(asked) < asked || |old(delivered)| < |delivered| || failed
    }

    ghost predicate LimitUsedUp()
      reads `downloadLimitEnable, `downloadLimit
    {
      downloadLimitEnable && downloadLimit == 0
    }

    constructor (incoming: Bytes)
      ensures Valid() && this.incoming == incoming && bytesRead == [] && delivered == [] && !failed
      ensures byConnected == NotConnected && fresh(pendingHeader) && limits == [] && !pendingOnReceive
      ensures downloadLimit == 0 && !downloadLimitEnable
      ensures pendingHeaderSize == asked == readUnderLimit == 0 && pendingPacket == null
    {
      byConnected := NotConnected;
      downloadLimit, downloadLimitEnable, pendingOnReceive := 0, false, false;
      pendingHeader := new uint8[PACKET_HEADER_SIZE];
      pendingHeaderSize := 0;
      pendingPacket, pendingPacketSize := null, 0;
      this.incoming := incoming;
      bytesRead, delivered, failed := [], [], false;
      asked, limits, readUnderLimit, blocked := 0, [], 0, false;
    }

    /** The operating system hands over at most `n` bytes, or none. */
    method Read(buf: array<uint8>, offset: nat, n: nat) returns (ret: nat, wouldBlock: bool)
      requires 0 < n && offset + n <= buf.Length
      modifies `incoming, `asked, `blocked, buf
      ensures asked == old(asked) + 1 && blocked == (ret == 0 && wouldBlock)
      ensures ret <= n && ret <= |old(incoming)|
      ensures incoming == old(incoming)[ret..]
      ensures buf[..offset] == old(buf[..offset])
      ensures buf[offset..offset + ret] == old(incoming)[..ret]
    {
      asked := asked + 1;
      if * {
        ret, wouldBlock := 0, *;
      } else {
        ret :| 0 <= ret <= n && ret <= |incoming|;
        wouldBlock := *;
        for i := 0 to ret
          invariant incoming == old(incoming) && asked == old(asked) + 1
          invariant buf[..offset] == old(buf[..offset])
          invariant buf[offset..offset + i] == incoming[..i]
        {
          buf[offset + i] := incoming[i];
        }
        incoming := incoming[ret..];
      }
      blocked := ret == 0 && wouldBlock;
    }

    /** Where the next bytes go and how many are wanted there: the rest of the header, or the rest
        of the body, for which a buffer is made first. A body over the limit is an error. */
    method PrepareRead() returns (readMax: nat, tooBig: bool)
      requires Valid()
      modifies `pendingHeaderSize, `pendingPacket, `pendingPacketSize, `failed
      ensures Accounted() && Progress()
      ensures tooBig <==> old(pendingHeaderSize) == PACKET_HEADER_SIZE && old(pendingPacket) == null
                          && BodySize(pendingHeader[..]) > MAX_PACKET_SIZE
      ensures tooBig <==> old(pendingHeaderSize) == 6 && old(pendingPacket) == null
                          && 2_000_001 < Number(pendingHeader[1..5]) < 0x7fff_fff0
      ensures tooBig ==> Valid() && failed && pendingHeaderSize == 0
      ensures !tooBig ==> failed == old(failed) && pendingHeaderSize == old(pendingHeaderSize) <= PACKET_HEADER_SIZE
      ensures !tooBig && pendingHeaderSize < PACKET_HEADER_SIZE ==>
                pendingPacket == null && readMax == PACKET_HEADER_SIZE - pendingHeaderSize
      ensures !tooBig && pendingHeaderSize == PACKET_HEADER_SIZE ==>
                && pendingPacket != null && readMax == BodySize(pendingHeader[..]) - pendingPacketSize
                && BodyBytes() == old(BodyBytes())
                && var n := Number(pendingHeader[1..5]);
                   readMax + pendingPacketSize == if 1 <= n < 0x7fff_fff0 then n - 1 else 0
    {
      BodySizeTells(pendingHeader[..]);
      assert pendingHeader[..][1..5] == pendingHeader[1..5];
      hide Number, BodySize, FrameBytes, LimitOk;
      tooBig := false;
      if pendingHeaderSize < PACKET_HEADER_SIZE {
        pendingPacket := null;
        readMax := PACKET_HEADER_SIZE - pendingHeaderSize;
      } else if pendingPacket == null {
        pendingPacketSize := 0;
        readMax := BodySize(pendingHeader[..]);
        if readMax > MAX_PACKET_SIZE {
          pendingHeaderSize := 0;
          failed := true;
          tooBig := true;
          return;
        }
        pendingPacket := new uint8[readMax + 1];
      } else {
        readMax := BodySize(pendingHeader[..]) - pendingPacketSize;
      }
    }

    /** Reads into the header. The bytes count as read, and as pending, at once. */
    method ReadHeader(readMax: nat) returns (ret: nat, wouldBlock: bool)
      requires Accounted() && byConnected != Disconnected
      requires pendingPacket == null && 0 < readMax <= PACKET_HEADER_SIZE - pendingHeaderSize
      modifies `incoming, `asked, `blocked, `pendingHeaderSize, `bytesRead, pendingHeader
      ensures Accounted() && Progress() && asked == old(asked) + 1
      ensures ret <= readMax && |incoming| == |old(incoming)| - ret
      ensures ret == 0 ==> incoming == old(incoming) && blocked == wouldBlock
      ensures pendingHeaderSize == old(pendingHeaderSize) + ret
    {
      ghost var h := HeaderBytes();
      ret, wouldBlock := Read(pendingHeader, pendingHeaderSize, readMax);
      ghost var chunk := old(incoming)[..ret];
      bytesRead := bytesRead + chunk;
      pendingHeaderSize := pendingHeaderSize + ret;
      assert HeaderBytes() == h + chunk;
      StreamGrows(delivered, h, [], chunk);
    }

    /** Reads into the body. */
    method ReadBody(readMax: nat) returns (ret: nat, wouldBlock: bool)
      requires Accounted() && byConnected != Disconnected
      requires pendingPacket != null && 0 < readMax <= BodySize(pendingHeader[..]) - pendingPacketSize
      modifies `incoming, `asked, `blocked, `pendingPacketSize, `bytesRead, pendingPacket
      ensures Accounted() && Progress() && asked == old(asked) + 1
      ensures ret <= readMax && |incoming| == |old(incoming)| - ret
      ensures ret == 0 ==> incoming == old(incoming) && blocked == wouldBlock
      ensures pendingPacketSize == old(pendingPacketSize) + ret && pendingHeader[..] == old(pendingHeader[..])
    {
      ghost var h, b := HeaderBytes(), BodyBytes();
      ret, wouldBlock := Read(pendingPacket, pendingPacketSize, readMax);
      ghost var chunk := old(incoming)[..ret];
      bytesRead := bytesRead + chunk;
      pendingPacketSize := pendingPacketSize + ret;
      assert BodyBytes() == b + chunk;
      StreamGrows(delivered, h, b, chunk);
    }

    /** Reads into the header or into the body. */
    method ReadPending(readMax: nat, inBody: bool) returns (ret: nat, wouldBlock: bool)
      requires Accounted() && byConnected != Disconnected && 0 < readMax
      requires if inBody then pendingPacket != null && readMax <= BodySize(pendingHeader[..]) - pendingPacketSize
               else pendingPacket == null && readMax <= PACKET_HEADER_SIZE - pendingHeaderSize
      modifies `pendingHeaderSize, `pendingPacketSize, `incoming, `asked, `blocked, `bytesRead, pendingHeader, pendingPacket
      ensures Accounted() && Progress() && asked == old(asked) + 1
      ensures ret <= readMax && |incoming| == |old(incoming)| - ret
      ensures ret == 0 ==> incoming == old(incoming) && blocked == wouldBlock
      ensures if inBody then pendingPacketSize == old(pendingPacketSize) + ret && pendingHeader[..] == old(pendingHeader[..])
              else pendingHeaderSize == old(pendingHeaderSize) + ret && pendingPacketSize == old(pendingPacketSize)
    {
      hide Accounted, AccountedFor, BodyBytes, HeaderBytes, BodySize;
      if inBody {
        ret, wouldBlock := ReadBody(readMax);
      } else {
        ret, wouldBlock := ReadHeader(readMax);
      }
    }

    /** Makes the completed packet, unless its protocol byte is unknown. */
    method TakePacket() returns (packet: Option<Frame>)
      requires Accounted() && byConnected != Disconnected
      requires pendingHeaderSize == PACKET_HEADER_SIZE && pendingPacket != null
      requires pendingPacketSize == BodySize(pendingHeader[..])
      modifies `pendingHeaderSize, `pendingPacket, `pendingPacketSize, `failed
      ensures Progress() && pendingPacket == null && pendingHeaderSize == pendingPacketSize == 0
      ensures Undelivered() < old(Undelivered())
      ensures var whole := NewFrame(pendingHeader[..], old(BodyBytes()));
              packet == if KnownProtocol(whole.header) then Some(whole) else None
      ensures packet.Some? <==> pendingHeader[0] in {0x02, 0x03, 0x04, 0xF4, 0xF5}
      ensures if packet.Some? then AccountedFor(delivered + [packet.value]) && failed == old(failed) else Accounted() && failed
    {
      ghost var h, b := HeaderBytes(), BodyBytes();
      var frame := NewFrame(pendingHeader[..], pendingPacket[..pendingPacketSize]);
      pendingPacket := null;
      pendingPacketSize := 0;
      pendingHeaderSize := 0;
      if KnownProtocol(frame.header) {
        StreamDelivers(delivered, h, b);
        assert h == frame.header && b == frame.body;
        packet := Some(frame);
      } else {
        failed := true;
        packet := None;
      }
    }

    /** Reads at most what the limit allows into the place that PrepareRead chose. */
    method ReadUnderLimit(wanted: nat, inBody: bool) returns (goOn: bool, ret: nat)
      requires Accounted() && LimitOk() && byConnected != Disconnected
      requires downloadLimitEnable ==> downloadLimit > 0
      requires if inBody
               then pendingPacket != null && wanted == BodySize(pendingHeader[..]) - pendingPacketSize
               else pendingPacket == null && 0 < wanted == PACKET_HEADER_SIZE - pendingHeaderSize
      modifies `pendingHeaderSize, `pendingPacketSize, `incoming, `asked, `blocked, `bytesRead,
               `downloadLimit, `pendingOnReceive, `readUnderLimit, pendingHeader, pendingPacket
      ensures Accounted() && LimitOk() && Progress() && Spent()
      ensures !goOn ==> Valid() && ret == 0 && incoming == old(incoming) && pendingOnReceive == (old(pendingOnReceive) || blocked)
      ensures goOn ==> |incoming| == |old(incoming)| - ret && (ret == 0 ==> inBody)
      ensures var readMax := if downloadLimitEnable && wanted > old(downloadLimit) then old(downloadLimit) else wanted;
              ret <= readMax && (goOn ==> pendingOnReceive == (ret == readMax))
      ensures if wanted > 0 then asked == old(asked) + 1
              else goOn && ret == 0 && pendingPacketSize == old(pendingPacketSize) && pendingHeader[..] == old(pendingHeader[..])
    {
      hide Accounted, AccountedFor, BodyBytes, HeaderBytes, BodySize;
      var readMax := wanted;
      if downloadLimitEnable && readMax > downloadLimit {
        readMax := downloadLimit;
      }
      ret := 0;
      if readMax > 0 {
        var wouldBlock;
        ret, wouldBlock := ReadPending(readMax, inBody);
        if ret == 0 {
          if wouldBlock {
            pendingOnReceive := true;
          }
          return false, 0;
        }
      }
      SpendLimit(ret);
      pendingOnReceive := ret == readMax;
      goOn := true;
    }

    /** One read. The call goes on unless the limit is used up, the header is bad, or nothing could
        be read; then `inBody` tells whether the bytes went to the body. */
    method ReadOnce() returns (goOn: bool, inBody: bool, ret: nat)
      requires Valid() && byConnected != Disconnected
      modifies `pendingHeaderSize, `pendingPacket, `pendingPacketSize, `failed, `incoming, `asked, `blocked, `bytesRead,
               `downloadLimit, `pendingOnReceive, `readUnderLimit, pendingHeader, pendingPacket
      ensures Accounted() && LimitOk() && Progress() && Spent()
      ensures old(LimitUsedUp()) ==> !goOn && pendingOnReceive && bytesRead == old(bytesRead)
      ensures !old(LimitUsedUp()) && !failed && asked == old(asked) ==>
                goOn && inBody && pendingPacketSize == BodySize(pendingHeader[..])
      ensures !goOn ==> Valid() && ret == 0 && incoming == old(incoming)
      ensures !goOn && !old(LimitUsedUp()) && !failed ==> pendingOnReceive == (old(pendingOnReceive) || blocked)
      ensures goOn ==> |incoming| == |old(incoming)| - ret
      ensures goOn && !inBody ==> pendingPacket == null && ret > 0
      ensures goOn && inBody ==> pendingHeaderSize == PACKET_HEADER_SIZE && pendingPacket != null
    {
      hide BodyBytes, HeaderBytes, BodySize;
      if downloadLimitEnable && downloadLimit == 0 {
        pendingOnReceive := true;
        return false, false, 0;
      }
      var wanted, tooBig := PrepareRead();
      if tooBig {
        return false, false, 0;
      }
      inBody := pendingHeaderSize == PACKET_HEADER_SIZE;
      goOn, ret := ReadUnderLimit(wanted, inBody);
    }

    method SpendLimit(ret: nat)
      requires LimitOk() && (downloadLimitEnable ==> ret <= downloadLimit)
      modifies `readUnderLimit, `downloadLimit
      ensures LimitOk() && (downloadLimitEnable ==> downloadLimit == old(downloadLimit) - ret)
      ensures readUnderLimit == old(readUnderLimit) + if downloadLimitEnable then ret else 0
    {
      if downloadLimitEnable {
        readUnderLimit := readUnderLimit + ret;
        downloadLimit := if ret >= downloadLimit then 0 else downloadLimit - ret;
      }
    }

    /** One turn of the loop: a read and, when it completes a packet, its delivery. */
    method ReceiveOnce() returns (goOn: bool)
      requires Valid() && byConnected != Disconnected
      modifies this, pendingHeader, pendingPacket
      ensures Valid() && Progress() && Spent()
      ensures goOn ==> byConnected != Disconnected && |incoming| < |old(incoming)|
      // without a packet completed, the loop goes on exactly if bytes came and the header is whole
      ensures delivered == old(delivered) && !failed ==>
                (goOn <==> |incoming| < |old(incoming)| && pendingHeaderSize == PACKET_HEADER_SIZE)
      ensures if old(LimitUsedUp()) then !goOn && pendingOnReceive && bytesRead == old(bytesRead) && delivered == old(delivered)
              else Worked()
      decreases Undelivered(), 0
    {
      hide LimitOk;
      var inBody, ret;
      goOn, inBody, ret := ReadOnce();
      if !goOn {
        return;
      }
      if inBody && pendingPacketSize >= BodySize(pendingHeader[..]) {
        var packet := TakePacket();
        if packet.None? {
          return false;
        }
        PacketReceived(packet.value);
      }
      goOn := ret > 0 && pendingHeaderSize >= PACKET_HEADER_SIZE;
    }

    /** Reads and cuts until nothing more can be read now. */
    method OnReceive()
      requires Valid()
      modifies this, pendingHeader, pendingPacket
      ensures Valid() && Progress() && Spent()
      ensures old(byConnected) != Disconnected ==> byConnected != NotConnected
      ensures old(byConnected) == Disconnected ==> bytesRead == old(bytesRead) && delivered == old(delivered)
      ensures old(byConnected) != Disconnected ==>
                if old(LimitUsedUp()) then pendingOnReceive && bytesRead == old(bytesRead) && delivered == old(delivered)
                else old(asked) < asked || |old(delivered)| < |delivered| || failed
      decreases Undelivered(), 1
    {
      if byConnected == Disconnected {
        return;
      }
      byConnected := Connected;
      hide Accounted, AccountedFor, LimitOk, BodySize;
      var goOn := true;
      while goOn
        invariant Valid() && Progress() && Spent() && byConnected != NotConnected
        invariant goOn ==> byConnected != Disconnected
        invariant old(LimitUsedUp()) ==> bytesRead == old(bytesRead) && delivered == old(delivered)
                                         && if goOn then LimitUsedUp() else pendingOnReceive
        invariant !old(LimitUsedUp()) ==> Worked() || (goOn && !LimitUsedUp() && unchanged(`asked))
        decreases goOn, |incoming|
      {
        goOn := ReceiveOnce();
      }
    }

    /** The handler of a packet may do anything a client does to its socket: change the limit, lift
        it, or close the connection, any number of times. */
    method PacketReceived(packet: Frame)
      requires LimitOk() && pendingPacket == null && AccountedFor(delivered + [packet])
      modifies this, pendingHeader, pendingPacket
      ensures Valid() && Progress() && Spent() && old(delivered) + [packet] <= delivered
      decreases Undelivered(), 3
    {
      hide AccountedFor, LimitOk, BodySize;
      delivered := delivered + [packet];
      var actions: nat :| true;
      while actions > 0
        invariant Valid() && Progress() && Spent() && old(delivered) + [packet] <= delivered
      {
        if * {
          var limit: uint32 :| true;
          SetDownloadLimit(limit);
        } else if * {
          DisableDownloadLimit();
        } else {
          OnClose();
        }
        actions := actions - 1;
      }
    }

    method SetDownloadLimit(limit: uint32)
      requires Valid()
      modifies this, pendingHeader, pendingPacket
      ensures Valid() && Progress()
      ensures old(limits) + [Some(limit)] <= limits
      ensures limits == old(limits) + [Some(limit)] ==> |bytesRead| == |old(bytesRead)| + readUnderLimit && readUnderLimit <= limit
      ensures limit > 0 && old(pendingOnReceive) && old(byConnected) != Disconnected ==> Worked()
      ensures limit == 0 || !old(pendingOnReceive) ==>
                limits == old(limits) + [Some(limit)] && pendingOnReceive == old(pendingOnReceive)
                && asked == old(asked) && bytesRead == old(bytesRead) && byConnected == old(byConnected)
      decreases Undelivered(), 2
    {
      downloadLimit := limit;
      downloadLimitEnable := true;
      limits, readUnderLimit := limits + [Some(limit)], 0;
      if limit > 0 && pendingOnReceive {
        OnReceive();
      }
    }

    method DisableDownloadLimit()
      requires Valid()
      modifies this, pendingHeader, pendingPacket
      ensures Valid() && Progress()
      ensures old(limits) + [None] <= limits
      ensures old(pendingOnReceive) && old(byConnected) != Disconnected ==> Worked()
      ensures !old(pendingOnReceive) ==>
                limits == old(limits) + [None] && !pendingOnReceive
                && asked == old(asked) && bytesRead == old(bytesRead) && byConnected == old(byConnected)
      decreases Undelivered(), 2
    {
      downloadLimitEnable := false;
      limits := limits + [None];
      if pendingOnReceive {
        OnReceive();
      }
    }

    method OnClose()
      requires Valid()
      modifies `byConnected, `downloadLimit, `downloadLimitEnable, `pendingOnReceive, `limits,
               `pendingHeaderSize, `pendingPacket, `pendingPacketSize
      ensures Valid() && Progress() && byConnected == Disconnected && limits == old(limits) + [None]
      ensures downloadLimit == 0 && !downloadLimitEnable && !pendingOnReceive
    {
      hide Stream, FrameBytes, AllWellFormed, BodySize;
      byConnected := Disconnected;
      downloadLimit, downloadLimitEnable, pendingOnReceive := 0, false, false;
      limits := limits + [None];
      pendingHeaderSize := 0;
      pendingPacket, pendingPacketSize := null, 0;
    }
  }

  /** Two connections that read the same stream, whatever the splitting, the limits and the calls
      from inside packet handlers, deliver the same packets as far as both have come. */
  lemma SameStreamSamePackets(a: EMSocketReceiver, b: EMSocketReceiver)
    requires a.Valid() && b.Valid()
    requires !a.failed && !b.failed && a.byConnected != Disconnected && b.byConnected != Disconnected
    requires a.bytesRead <= b.bytesRead
    ensures a.delivered <= b.delivered || b.delivered <= a.delivered
  {
    DeliveryIsDetermined(a.delivered, a.HeaderBytes(), a.BodyBytes(), b.delivered, b.HeaderBytes(), b.BodyBytes());
  }

  /** An object reads under the limit that was set last, unless it was lifted, and what was read since leaves the rest of it. */
  lemma LimitTells(a: EMSocketReceiver)
    requires a.Valid()
    ensures a.limits == [] || a.limits[|a.limits| - 1].None? ==> !a.downloadLimitEnable
    ensures a.limits != [] && a.limits[|a.limits| - 1].Some? ==>
              a.downloadLimitEnable && a.readUnderLimit + a.downloadLimit == a.limits[|a.limits| - 1].value
  {
  }

  /** Every packet that an object has delivered is one of the stream's format. */
  lemma DeliveredTell(a: EMSocketReceiver, i: nat)
    requires a.Valid() && i < |a.delivered|
    ensures var f := a.delivered[i];
            && |f.header| == 6 && f.header[0] in {0x02, 0x03, 0x04, 0xF4, 0xF5}
            && if 1 <= Number(f.header[1..5]) < 0x7fff_fff0
               then f.header[1..5] == LittleEndian(|f.body| + 1, 4) && f.size == |f.body|
               else f.body == [] && f.size == (Number(f.header[1..5]) - 1) % TWO32
  {
    assert WellFormed(a.delivered[i]);
    FrameTells(a.delivered[i]);
    hide LittleEndian, Number, Length;
  }

  /** No whole packet with a body is ever held back. */
  lemma WholePacketsAreDelivered(a: EMSocketReceiver, b: EMSocketReceiver)
    requires a.Valid() && b.Valid()
    requires !a.failed && !b.failed && a.byConnected != Disconnected && b.byConnected != Disconnected
    requires a.bytesRead <= b.bytesRead
    requires b.pendingHeaderSize == PACKET_HEADER_SIZE ==> BodySize(b.pendingHeader[..]) > 0
    ensures a.delivered <= b.delivered
  {
    NothingHeldBack(a.delivered, a.HeaderBytes(), a.BodyBytes(), b.delivered, b.HeaderBytes(), b.BodyBytes());
  }

  /** The sizes that the delivered packets tell, and what is pending, add up to the bytes read if and only if every
      length field was proper; then the handlers were given exactly the bytes read. */
  lemma DeliveredIsRead(a: EMSocketReceiver)
    requires a.Valid() && !a.failed && a.byConnected != Disconnected
    ensures DeclaredBytes(a.delivered) + |a.HeaderBytes()| + |a.BodyBytes()| == |a.bytesRead| <==> AllProper(a.delivered)
    ensures AllProper(a.delivered) ==>
              && (forall i :: 0 <= i < |a.delivered| ==> a.delivered[i].size <= |a.delivered[i].body|)
              && a.bytesRead == Contents(a.delivered) + (a.HeaderBytes() + a.BodyBytes())
  {
    ToldIsRead(a.delivered);
    hide AllProper, AllWellFormed, Contents, FrameBytes;
  }

  /** A peer that sends six bytes: whatever is delivered on an object that has failed nothing is one packet that tells
      2^32 - 1 bytes. */
  method ReceiveSixBytes(opcode: uint8) returns (socket: EMSocketReceiver)
    ensures socket.bytesRead + socket.incoming == [0x02, 0, 0, 0, 0, opcode] && (socket.asked > 0 || socket.delivered != [] || socket.failed)
    ensures socket.delivered != [] && !socket.failed ==>
              |socket.delivered| == 1 && socket.delivered[0].body == [] && socket.delivered[0].size == 0xFFFF_FFFF
  {
    var header := [OP_EDONKEYPROT, 0, 0, 0, 0, opcode];
    socket := new EMSocketReceiver(header);
    socket.OnReceive();
    if socket.delivered != [] && !socket.failed {
      assert socket.bytesRead + socket.incoming == [] + header == header;
      assert FrameBytes(socket.delivered) <= socket.bytesRead <= socket.bytesRead + socket.incoming;
      SixBytesOverstate(socket.delivered, opcode);
    }
  }
}
