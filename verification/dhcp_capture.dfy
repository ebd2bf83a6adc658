/** The frame parser of `src-tauri/src/dhcp_capture.rs`: a captured Ethernet
    frame becomes a `DhcpPacket` carrying the DHCP message type, the
    requested address and the IPv4 source and destination. Printing, the
    capture thread and the clock are not modelled; the timestamp is a
    parameter holding its RFC 3339 text. */
module DhcpCapture {
  import opened Wrappers
  import opened Seqs
  import opened Numerals

  datatype MessageType = Discover | Offer | Request | Ack | Nack | Decline | Release | Inform | Unknown

  /** `std::net::Ipv4Addr`, as its four octets in network order. */
  datatype Ipv4Addr = Ipv4Addr(a: byte, b: byte, c: byte, d: byte)

  /** `Ipv4Addr`'s `Display`: the four octets in decimal, joined by dots. */
  function Dotted(addr: Ipv4Addr): string {
    NatToDecimal(addr.a) + "." + NatToDecimal(addr.b) + "." + NatToDecimal(addr.c) + "." + NatToDecimal(addr.d)
  }

  datatype DhcpPacket = DhcpPacket(
    timestamp: string,
    messageType: MessageType,
    sourceIp: Ipv4Addr,
    destinationIp: Ipv4Addr,
    option50: Option<Ipv4Addr>,
    rawData: seq<byte>)

  /** Frames shorter than this are rejected. */
  const MinFrameLength: nat := 240

  /** Where both option walks and both fallback scans start: the magic
      cookie, after Ethernet (14), IPv4 without options (20), UDP (8) and
      the fixed BOOTP fields (236). */
  const OptionsStart: nat := 278

  /** The DHCP magic cookie of section 3 of RFC 2131. */
  const MagicCookie: seq<byte> := [99, 130, 83, 99]

  /** The code this module's table gives each known type. */
  function MessageTypeCode(t: MessageType): byte
    requires t != Unknown
  {
    match t
    case Discover => 1
    case Offer => 2
    case Request => 3
    case Ack => 5
    case Nack => 6
    case Decline => 7
    case Release => 8
    case Inform => 9
  }

  /** `impl From<u8> for DHCPMessageType`. */
  function MessageTypeFromByte(b: byte): (t: MessageType)
    ensures t != Unknown <==> b in {1, 2, 3, 5, 6, 7, 8, 9}
    ensures t != Unknown ==> MessageTypeCode(t) == b
  {
    match b
    case 1 => Discover
    case 2 => Offer
    case 3 => Request
    case 5 => Ack
    case 6 => Nack
    case 7 => Decline
    case 8 => Release
    case 9 => Inform
    case _ => Unknown
  }

  /** Every known type is recovered from its code. */
  lemma MessageTypeRoundTrip(t: MessageType)
    requires t != Unknown
    ensures MessageTypeFromByte(MessageTypeCode(t)) == t
  {
  }

  /** The message types of section 9.6 of RFC 2132 (1 DISCOVER, 2 OFFER,
      3 REQUEST, 4 DECLINE, 5 ACK, 6 NAK, 7 RELEASE, 8 INFORM); this is also
      the order of the diagnostic print at lines 286-296. */
  function Rfc2132MessageType(b: byte): MessageType {
    match b
    case 1 => Discover
    case 2 => Offer
    case 3 => Request
    case 4 => Decline
    case 5 => Ack
    case 6 => Nack
    case 7 => Release
    case 8 => Inform
    case _ => Unknown
  }

  /** The conversion agrees with RFC 2132 except on codes 4, 7, 8 and 9:
      it drops DECLINE from 4 and shifts DECLINE, RELEASE and INFORM one
      code up. */
  lemma MessageTypeDeviatesFromRfc2132(b: byte)
    ensures MessageTypeFromByte(b) == Rfc2132MessageType(b) <==> b !in {4, 7, 8, 9}
    ensures b == 4 ==> MessageTypeFromByte(b) == Unknown && Rfc2132MessageType(b) == Decline
    ensures b == 7 ==> MessageTypeFromByte(b) == Decline && Rfc2132MessageType(b) == Release
  {
  }

  // ---------------------------------------------------------------------
  // The option walks of lines 240-266 and 320-379
  // ---------------------------------------------------------------------

  /** The cursors at which a walk started at `i` meets an option that is
      neither pad (0) nor end (255), in the order met. Both walks move the
      same way: stop when fewer than two bytes remain or at code 255, step 1
      over code 0, otherwise step over code, length and payload. */
  function OptionCursors(frame: seq<byte>, i: nat): (cs: seq<nat>)
    ensures forall k :: 0 <= k < |cs| ==> i <= cs[k] && cs[k] + 1 < |frame|
    decreases |frame| - i
  {
    if i + 1 >= |frame| || frame[i] == 255 then []
    else if frame[i] == 0 then OptionCursors(frame, i + 1)
    else [i] + OptionCursors(frame, i + 2 + frame[i + 1])
  }

  /** At an option (neither pad nor end, with its length byte present) the
      walk meets it, then continues after its payload. */
  lemma CursorsAtOption(frame: seq<byte>, i: nat)
    requires i + 1 < |frame| && frame[i] != 0 && frame[i] != 255
    ensures OptionCursors(frame, i) == [i] + OptionCursors(frame, i + 2 + frame[i + 1])
  {
  }

  /** At a pad byte the walk moves on by one. */
  lemma CursorsAtPad(frame: seq<byte>, i: nat)
    requires i + 1 < |frame| && frame[i] == 0
    ensures OptionCursors(frame, i) == OptionCursors(frame, i + 1)
  {
  }

  /** Stepping over the option at `i` when no option met satisfies `p`:
      neither it nor any option after it does. */
  lemma NoneStepOver(frame: seq<byte>, i: nat, p: (seq<byte>, nat) -> bool)
    requires i + 1 < |frame| && frame[i] != 0 && frame[i] != 255
    requires NoneSatisfy(frame, OptionCursors(frame, i), p)
    ensures !p(frame, i) && NoneSatisfy(frame, OptionCursors(frame, i + 2 + frame[i + 1]), p)
  {
    CursorsAtOption(frame, i);
    NoneSatisfyCons(frame, i, OptionCursors(frame, i + 2 + frame[i + 1]), p);
  }

  /** Where the first option satisfying `p` lies once the walk has stepped
      over the option at `i`: at `i` itself, or one place earlier among the
      options that follow, `i` failing `p`. */
  lemma FirstStepOver(frame: seq<byte>, i: nat, k: int, p: (seq<byte>, nat) -> bool)
    requires i + 1 < |frame| && frame[i] != 0 && frame[i] != 255
    requires FirstSatisfying(frame, OptionCursors(frame, i), k, p)
    ensures k == 0 ==> OptionCursors(frame, i)[k] == i && p(frame, i)
    ensures k > 0 ==> !p(frame, i) && FirstSatisfying(frame, OptionCursors(frame, i + 2 + frame[i + 1]), k - 1, p)
    ensures k > 0 ==> OptionCursors(frame, i)[k] == OptionCursors(frame, i + 2 + frame[i + 1])[k - 1]
  {
    var rest := OptionCursors(frame, i + 2 + frame[i + 1]);
    CursorsAtOption(frame, i);
    if k == 0 {
      FirstSatisfyingHead(frame, i, rest, p);
    } else {
      FirstSatisfyingTail(frame, i, rest, k - 1, p);
    }
  }

  /** The last option a walk from `i` meets, once it has stepped over the
      option at `i`: `i` itself when nothing follows, else the last of the
      rest. */
  lemma LastStepOver(frame: seq<byte>, i: nat, k: int)
    requires i + 1 < |frame| && frame[i] != 0 && frame[i] != 255
    requires 0 <= k && k + 1 == |OptionCursors(frame, i)|
    ensures k == 0 ==> OptionCursors(frame, i)[k] == i && OptionCursors(frame, i + 2 + frame[i + 1]) == []
    ensures k > 0 ==> k == |OptionCursors(frame, i + 2 + frame[i + 1])|
    ensures k > 0 ==> OptionCursors(frame, i)[k] == OptionCursors(frame, i + 2 + frame[i + 1])[k - 1]
  {
    CursorsAtOption(frame, i);
  }

  /** Where the last option satisfying `p` lies once the walk has stepped
      over the option at `i`: at `i` itself, with none after it, or one
      place earlier among the options that follow. */
  lemma CursorsStepOver(frame: seq<byte>, i: nat, k: int, p: (seq<byte>, nat) -> bool)
    requires i + 1 < |frame| && frame[i] != 0 && frame[i] != 255
    requires LastSatisfying(frame, OptionCursors(frame, i), k, p)
    ensures k == 0 ==> OptionCursors(frame, i)[k] == i && p(frame, i)
    ensures k == 0 ==> NoneSatisfy(frame, OptionCursors(frame, i + 2 + frame[i + 1]), p)
    ensures k > 0 ==> LastSatisfying(frame, OptionCursors(frame, i + 2 + frame[i + 1]), k - 1, p)
    ensures k > 0 ==> OptionCursors(frame, i)[k] == OptionCursors(frame, i + 2 + frame[i + 1])[k - 1]
  {
    var rest := OptionCursors(frame, i + 2 + frame[i + 1]);
    CursorsAtOption(frame, i);
    if k == 0 {
      LastSatisfyingHead(frame, i, rest, p);
    } else {
      LastSatisfyingTail(frame, i, rest, k - 1, p);
    }
  }

  /** Bytes `lo` to `hi - 1` are all pad. */
  predicate AllPad(frame: seq<byte>, lo: nat, hi: nat) {
    forall j :: lo <= j < hi && j < |frame| ==> frame[j] == 0
  }

  /** From the option at `p` the walk reaches `q` by stepping over the
      option's code, length and payload and then over pad bytes only. */
  predicate StepsTo(frame: seq<byte>, p: nat, q: nat)
    requires p + 1 < |frame|
  {
    p + 2 + frame[p + 1] <= q && AllPad(frame, p + 2 + frame[p + 1], q)
  }

  /** A walk started at `i` that meets no option ends at some `e`: only pad
      bytes lie between `i` and `e`, and `e` holds code 255 or is the last
      byte or beyond. */
  lemma {:induction false} NoCursorsMeansEnd(frame: seq<byte>, i: nat) returns (e: nat)
    requires OptionCursors(frame, i) == []
    ensures i <= e && AllPad(frame, i, e) && (e + 1 >= |frame| || frame[e] == 255)
    decreases |frame| - i
  {
    if i + 1 >= |frame| || frame[i] == 255 {
      e := i;
    } else {
      assert frame[i] == 0 && OptionCursors(frame, i + 1) == [];
      e := NoCursorsMeansEnd(frame, i + 1);
    }
  }

  /** The first option a walk started at `i` meets comes after pad bytes
      only. */
  lemma {:induction false} FirstCursorAfterPad(frame: seq<byte>, i: nat)
    requires OptionCursors(frame, i) != []
    ensures AllPad(frame, i, OptionCursors(frame, i)[0])
    decreases |frame| - i
  {
    if frame[i] == 0 {
      FirstCursorAfterPad(frame, i + 1);
    } else {
      assert OptionCursors(frame, i)[0] == i;
    }
  }

  /** Consecutive options met by a walk are one option step and some pad
      bytes apart. */
  lemma {:induction false} CursorsStep(frame: seq<byte>, i: nat, k: int)
    requires 0 < k < |OptionCursors(frame, i)|
    ensures StepsTo(frame, OptionCursors(frame, i)[k - 1], OptionCursors(frame, i)[k])
    decreases |frame| - i
  {
    if frame[i] == 0 {
      CursorsStep(frame, i + 1, k);
    } else {
      var next := i + 2 + frame[i + 1];
      var rest := OptionCursors(frame, next);
      CursorsAtOption(frame, i);
      if k == 1 {
        FirstCursorAfterPad(frame, next);
      } else {
        CursorsStep(frame, next, k - 1);
      }
    }
  }

  /** The walk meets no option after stepping over the one at `c`. */
  predicate EndsAfter(frame: seq<byte>, c: nat)
    requires c + 1 < |frame|
  {
    OptionCursors(frame, c + 2 + frame[c + 1]) == []
  }

  /** After the last option a walk meets, it meets no other. */
  lemma {:induction false} LastCursorEnds(frame: seq<byte>, i: nat, k: int)
    requires 0 <= k && k + 1 == |OptionCursors(frame, i)|
    ensures EndsAfter(frame, OptionCursors(frame, i)[k])
    decreases |frame| - i
  {
    if frame[i] == 0 {
      CursorsAtPad(frame, i);
      LastCursorEnds(frame, i + 1, k);
    } else {
      LastStepOver(frame, i, k);
      if k > 0 {
        LastCursorEnds(frame, i + 2 + frame[i + 1], k - 1);
      }
    }
  }

  /** An (53, 1, type) option at `i`, as line 259 tests it. */
  predicate IsTypeOption(frame: seq<byte>, i: nat) {
    i + 2 < |frame| && frame[i] == 53 && frame[i + 1] == 1
  }

  /** A (50, 4, address) option at `i` (line 339). */
  predicate IsRequestedIpOption(frame: seq<byte>, i: nat) {
    i + 5 < |frame| && frame[i] == 50 && frame[i + 1] == 4
  }

  /** A (32, 4, address) option at `i` (line 366). Code 32 is the Router
      Solicitation Address of section 5.7 of RFC 2132, which the code uses as
      a substitute for the requested address. */
  predicate IsOption32(frame: seq<byte>, i: nat) {
    i + 5 < |frame| && frame[i] == 32 && frame[i + 1] == 4
  }

  function AddressAt(frame: seq<byte>, i: nat): Ipv4Addr
    requires i + 5 < |frame|
  {
    Ipv4Addr(frame[i + 2], frame[i + 3], frame[i + 4], frame[i + 5])
  }

  /** The first walk (lines 240-266): `found` is `message_type_byte`, which
      every (53, 1, x) option met overwrites. */
  function WalkMessageType(frame: seq<byte>, i: nat, found: byte): byte
    decreases |frame| - i
  {
    if i + 1 >= |frame| || frame[i] == 255 then found
    else if frame[i] == 0 then WalkMessageType(frame, i + 1, found)
    else WalkMessageType(frame, i + 2 + frame[i + 1], TypeAfter(frame, i, found))
  }

  /** `message_type_byte` after the option at `i`. */
  function TypeAfter(frame: seq<byte>, i: nat, found: byte): byte {
    if IsTypeOption(frame, i) then frame[i + 2] else found
  }

  /** When the first walk meets no (53, 1, x) option it keeps the value
      held on entry. */
  lemma {:induction false} WalkMessageTypeKeeps(frame: seq<byte>, i: nat, found: byte)
    requires NoneSatisfy(frame, OptionCursors(frame, i), IsTypeOption)
    ensures WalkMessageType(frame, i, found) == found
    decreases |frame| - i
  {
    if i + 1 >= |frame| || frame[i] == 255 {
    } else if frame[i] == 0 {
      WalkMessageTypeKeeps(frame, i + 1, found);
    } else {
      CursorsAtOption(frame, i);
      WalkMessageTypeKeeps(frame, i + 2 + frame[i + 1], found);
    }
  }

  /** The first walk yields the type byte of the last (53, 1, x) option it
      meets. */
  lemma {:induction false} WalkMessageTypeIsLastTypeOption(frame: seq<byte>, i: nat, found: byte, k: int)
    requires LastSatisfying(frame, OptionCursors(frame, i), k, IsTypeOption)
    ensures WalkMessageType(frame, i, found) == frame[OptionCursors(frame, i)[k] + 2]
    decreases |frame| - i
  {
    if frame[i] == 0 {
      CursorsAtPad(frame, i);
      WalkMessageTypeIsLastTypeOption(frame, i + 1, found, k);
    } else {
      var next := i + 2 + frame[i + 1];
      CursorsStepOver(frame, i, k, IsTypeOption);
      if k == 0 {
        WalkMessageTypeKeeps(frame, next, TypeAfter(frame, i, found));
      } else {
        WalkMessageTypeIsLastTypeOption(frame, next, TypeAfter(frame, i, found), k - 1);
      }
    }
  }

  /** The second walk (lines 320-379): a (50, 4) option always overwrites
      `found` (`option_50`); a (32, 4) option is taken only while `found` is
      still empty. */
  function WalkRequestedIp(frame: seq<byte>, i: nat, found: Option<Ipv4Addr>): Option<Ipv4Addr>
    decreases |frame| - i
  {
    if i + 1 >= |frame| || frame[i] == 255 then found
    else if frame[i] == 0 then WalkRequestedIp(frame, i + 1, found)
    else WalkRequestedIp(frame, i + 2 + frame[i + 1], AddressAfter(frame, i, found))
  }

  /** `option_50` after the option at `i`: a (50, 4) option replaces it, then
      a (32, 4) option fills it if it is still empty. */
  function AddressAfter(frame: seq<byte>, i: nat, found: Option<Ipv4Addr>): (r: Option<Ipv4Addr>)
    ensures IsRequestedIpOption(frame, i) ==> r == Some(AddressAt(frame, i))
    ensures !IsRequestedIpOption(frame, i) && found.Some? ==> r == found
    ensures !IsRequestedIpOption(frame, i) && !IsOption32(frame, i) ==> r == found
    ensures !IsRequestedIpOption(frame, i) && IsOption32(frame, i) && found.None? ==> r == Some(AddressAt(frame, i))
  {
    var afterFifty := if IsRequestedIpOption(frame, i) then Some(AddressAt(frame, i)) else found;
    if IsOption32(frame, i) && afterFifty.None? then Some(AddressAt(frame, i)) else afterFifty
  }

  /** Without a (50, 4) option, the second walk keeps a value held on
      entry, and keeps nothing when it meets no (32, 4) option either. */
  lemma {:induction false} WalkRequestedIpKeeps(frame: seq<byte>, i: nat, found: Option<Ipv4Addr>)
    requires NoneSatisfy(frame, OptionCursors(frame, i), IsRequestedIpOption)
    requires found.Some? || NoneSatisfy(frame, OptionCursors(frame, i), IsOption32)
    ensures WalkRequestedIp(frame, i, found) == found
    decreases |frame| - i
  {
    if i + 1 >= |frame| || frame[i] == 255 {
    } else if frame[i] == 0 {
      CursorsAtPad(frame, i);
      WalkRequestedIpKeeps(frame, i + 1, found);
    } else {
      var next := i + 2 + frame[i + 1];
      NoneStepOver(frame, i, IsRequestedIpOption);
      if found.None? {
        NoneStepOver(frame, i, IsOption32);
      }
      WalkRequestedIpKeeps(frame, next, found);
    }
  }

  /** The second walk yields the address of the last (50, 4) option it
      meets, whatever it held on entry. */
  lemma {:induction false} WalkRequestedIpIsLastOption50(frame: seq<byte>, i: nat, found: Option<Ipv4Addr>, k: int)
    requires LastSatisfying(frame, OptionCursors(frame, i), k, IsRequestedIpOption)
    ensures WalkRequestedIp(frame, i, found) == Some(AddressAt(frame, OptionCursors(frame, i)[k]))
    decreases |frame| - i
  {
    if frame[i] == 0 {
      CursorsAtPad(frame, i);
      WalkRequestedIpIsLastOption50(frame, i + 1, found, k);
    } else {
      var next := i + 2 + frame[i + 1];
      CursorsStepOver(frame, i, k, IsRequestedIpOption);
      if k == 0 {
        WalkRequestedIpKeeps(frame, next, AddressAfter(frame, i, found));
      } else {
        WalkRequestedIpIsLastOption50(frame, next, AddressAfter(frame, i, found), k - 1);
      }
    }
  }

  /** Entered with nothing and meeting no (50, 4) option, the second walk
      yields the address of the first (32, 4) option it meets. */
  lemma {:induction false} WalkRequestedIpIsFirstOption32(frame: seq<byte>, i: nat, k: int)
    requires NoneSatisfy(frame, OptionCursors(frame, i), IsRequestedIpOption)
    requires FirstSatisfying(frame, OptionCursors(frame, i), k, IsOption32)
    ensures WalkRequestedIp(frame, i, None) == Some(AddressAt(frame, OptionCursors(frame, i)[k]))
    decreases |frame| - i
  {
    if frame[i] == 0 {
      CursorsAtPad(frame, i);
      WalkRequestedIpIsFirstOption32(frame, i + 1, k);
    } else {
      var next := i + 2 + frame[i + 1];
      NoneStepOver(frame, i, IsRequestedIpOption);
      FirstStepOver(frame, i, k, IsOption32);
      if k == 0 {
        WalkRequestedIpKeeps(frame, next, Some(AddressAt(frame, i)));
      } else {
        WalkRequestedIpIsFirstOption32(frame, next, k - 1);
      }
    }
  }

  // ---------------------------------------------------------------------
  // The fallback byte scans of lines 269-280 and 382-405
  // ---------------------------------------------------------------------

  /** Lines 271-279: the type byte of the first (53, 1, x) triple at an index
      of at least `j`, whatever the option structure around it. */
  function ScanMessageType(frame: seq<byte>, j: nat): (r: Option<byte>)
    ensures r.None? <==> forall k :: j <= k ==> !IsTypeOption(frame, k)
    ensures r.Some? ==> exists k :: (j <= k && IsTypeOption(frame, k) && r.value == frame[k + 2]
      && forall k' :: j <= k' < k ==> !IsTypeOption(frame, k'))
    decreases |frame| - j
  {
    if j + 2 >= |frame| then None
    else if IsTypeOption(frame, j) then Some(frame[j + 2])
    else ScanMessageType(frame, j + 1)
  }

  /** Lines 384-404: the address after the first (50, 4) or (32, 4) pair at
      an index of at least `j`. */
  function ScanRequestedIp(frame: seq<byte>, j: nat): (r: Option<Ipv4Addr>)
    ensures r.None? <==> forall k :: j <= k ==> !IsRequestedIpOption(frame, k) && !IsOption32(frame, k)
    ensures r.Some? ==> exists k :: (j <= k && (IsRequestedIpOption(frame, k) || IsOption32(frame, k))
      && r.value == AddressAt(frame, k)
      && forall k' :: j <= k' < k ==> !IsRequestedIpOption(frame, k') && !IsOption32(frame, k'))
    decreases |frame| - j
  {
    if j + 5 >= |frame| then None
    else if IsRequestedIpOption(frame, j) || IsOption32(frame, j) then Some(AddressAt(frame, j))
    else ScanRequestedIp(frame, j + 1)
  }

  /** `message_type_byte` after line 280: the walk's byte, or, when that is
      0, the byte of the first triple the fallback scan finds, or 0. */
  function TypeByte(frame: seq<byte>): (b: byte)
    ensures WalkMessageType(frame, OptionsStart, 0) != 0 ==> b == WalkMessageType(frame, OptionsStart, 0)
    ensures WalkMessageType(frame, OptionsStart, 0) == 0 && ScanMessageType(frame, OptionsStart).None? ==> b == 0
    ensures WalkMessageType(frame, OptionsStart, 0) == 0 && ScanMessageType(frame, OptionsStart).Some? ==>
      b == ScanMessageType(frame, OptionsStart).value
  {
    var walked := WalkMessageType(frame, OptionsStart, 0);
    if walked != 0 then walked else ScanMessageType(frame, OptionsStart).GetOr(0)
  }

  /** `option_50` after line 405: the walk's result, or the fallback scan's. */
  function RequestedIp(frame: seq<byte>): (r: Option<Ipv4Addr>)
    ensures WalkRequestedIp(frame, OptionsStart, None).Some? ==> r == WalkRequestedIp(frame, OptionsStart, None)
    ensures WalkRequestedIp(frame, OptionsStart, None).None? ==> r == ScanRequestedIp(frame, OptionsStart)
  {
    var walked := WalkRequestedIp(frame, OptionsStart, None);
    if walked.Some? then walked else ScanRequestedIp(frame, OptionsStart)
  }

  /** `DHCPCapture::parse_dhcp_packet` (lines 222-422), with the capture time
      passed in as `now`. */
  function ParseDhcpPacket(frame: seq<byte>, now: string): (r: Option<DhcpPacket>)
    ensures r.None? <==> |frame| < MinFrameLength
    ensures r.Some? ==> r.value.rawData == frame && r.value.timestamp == now
    ensures r.Some? ==> r.value.sourceIp == Ipv4Addr(frame[26], frame[27], frame[28], frame[29])
    ensures r.Some? ==> r.value.destinationIp == Ipv4Addr(frame[30], frame[31], frame[32], frame[33])
    ensures r.Some? ==> r.value.messageType == MessageTypeFromByte(TypeByte(frame))
    ensures r.Some? ==> r.value.option50 == RequestedIp(frame)
  {
    if |frame| < MinFrameLength then None
    else
      // Lines 299-309: the `len() >= 26` and `len() >= 30` guards always
      // hold here, so the 0.0.0.0 and 255.255.255.255 defaults are unused.
      Some(DhcpPacket(
        now,
        MessageTypeFromByte(TypeByte(frame)),
        Ipv4Addr(frame[26], frame[27], frame[28], frame[29]),
        Ipv4Addr(frame[30], frame[31], frame[32], frame[33]),
        RequestedIp(frame),
        frame))
  }

  /** The packet's type comes from the last (53, 1, x) option the walk
      meets, when x is not 0. */
  lemma ParsedMessageTypeFromWalk(frame: seq<byte>, now: string, k: int)
    requires |frame| >= MinFrameLength
    requires LastSatisfying(frame, OptionCursors(frame, OptionsStart), k, IsTypeOption)
    requires frame[OptionCursors(frame, OptionsStart)[k] + 2] != 0
    ensures ParseDhcpPacket(frame, now).value.messageType
      == MessageTypeFromByte(frame[OptionCursors(frame, OptionsStart)[k] + 2])
  {
    WalkMessageTypeIsLastTypeOption(frame, OptionsStart, 0, k);
  }

  /** When the walk meets no (53, 1, x) option, the packet's type comes from
      the first (53, 1, x) triple at or after offset 278, and is Unknown
      when there is none. */
  lemma ParsedMessageTypeFromScan(frame: seq<byte>, now: string)
    requires |frame| >= MinFrameLength
    requires NoneSatisfy(frame, OptionCursors(frame, OptionsStart), IsTypeOption)
    ensures ScanMessageType(frame, OptionsStart).Some? ==>
      ParseDhcpPacket(frame, now).value.messageType == MessageTypeFromByte(ScanMessageType(frame, OptionsStart).value)
    ensures ScanMessageType(frame, OptionsStart).None? ==> ParseDhcpPacket(frame, now).value.messageType == Unknown
  {
    WalkMessageTypeKeeps(frame, OptionsStart, 0);
  }

  /** The packet's requested address is that of the last (50, 4) option the
      walk meets. */
  lemma ParsedOption50FromWalk(frame: seq<byte>, now: string, k: int)
    requires |frame| >= MinFrameLength
    requires LastSatisfying(frame, OptionCursors(frame, OptionsStart), k, IsRequestedIpOption)
    ensures ParseDhcpPacket(frame, now).value.option50 == Some(AddressAt(frame, OptionCursors(frame, OptionsStart)[k]))
  {
    WalkRequestedIpIsLastOption50(frame, OptionsStart, None, k);
  }

  /** Without a (50, 4) option on the walk, the address is that of the first
      (32, 4) option the walk meets. */
  lemma ParsedOption50FromOption32(frame: seq<byte>, now: string, k: int)
    requires |frame| >= MinFrameLength
    requires NoneSatisfy(frame, OptionCursors(frame, OptionsStart), IsRequestedIpOption)
    requires FirstSatisfying(frame, OptionCursors(frame, OptionsStart), k, IsOption32)
    ensures ParseDhcpPacket(frame, now).value.option50 == Some(AddressAt(frame, OptionCursors(frame, OptionsStart)[k]))
  {
    WalkRequestedIpIsFirstOption32(frame, OptionsStart, k);
  }

  /** With neither on the walk, the address is what the fallback scan finds
      at or after offset 278, if anything. */
  lemma ParsedOption50FromScan(frame: seq<byte>, now: string)
    requires |frame| >= MinFrameLength
    requires NoneSatisfy(frame, OptionCursors(frame, OptionsStart), IsRequestedIpOption)
    requires NoneSatisfy(frame, OptionCursors(frame, OptionsStart), IsOption32)
    ensures ParseDhcpPacket(frame, now).value.option50 == ScanRequestedIp(frame, OptionsStart)
  {
    WalkRequestedIpKeeps(frame, OptionsStart, None);
  }

  /** With the cookie at offset 278, the first step of either walk reads
      code 99 with length 130 and jumps to offset 410: options between the
      cookie and offset 410 are never met by the walks. */
  lemma CookieIsReadAsAnOption(frame: seq<byte>)
    requires |frame| >= OptionsStart + 4 && frame[OptionsStart..OptionsStart + 4] == MagicCookie
    ensures OptionCursors(frame, OptionsStart) == [OptionsStart] + OptionCursors(frame, 410)
    ensures forall k :: 0 <= k < |OptionCursors(frame, OptionsStart)| ==>
      OptionCursors(frame, OptionsStart)[k] == OptionsStart || OptionCursors(frame, OptionsStart)[k] >= 410
  {
    assert frame[OptionsStart] == 99 && frame[OptionsStart + 1] == 130;
  }

  /** In a frame of at most 411 bytes with the cookie at offset 278, the
      cookie is the only option the walks meet. */
  lemma CookieIsTheOnlyCursor(frame: seq<byte>)
    requires OptionsStart + 4 <= |frame| <= 411 && frame[OptionsStart..OptionsStart + 4] == MagicCookie
    ensures OptionCursors(frame, OptionsStart) == [OptionsStart]
    ensures NoneSatisfy(frame, OptionCursors(frame, OptionsStart), IsTypeOption)
    ensures NoneSatisfy(frame, OptionCursors(frame, OptionsStart), IsRequestedIpOption)
    ensures NoneSatisfy(frame, OptionCursors(frame, OptionsStart), IsOption32)
  {
    CookieIsReadAsAnOption(frame);
    assert OptionCursors(frame, 410) == [];
    assert frame[OptionsStart] == MagicCookie[0];
  }

  /** The fallback type scan steps over the four cookie bytes and finds a
      (53, 1, t) triple placed right after them. */
  lemma ScanFindsTypeAfterCookie(frame: seq<byte>, t: byte)
    requires 285 <= |frame| && frame[OptionsStart..OptionsStart + 4] == MagicCookie
    requires frame[282] == 53 && frame[283] == 1 && frame[284] == t
    ensures ScanMessageType(frame, OptionsStart) == Some(t)
  {
    assert frame[278] == MagicCookie[0] && frame[279] == MagicCookie[1];
    assert frame[280] == MagicCookie[2] && frame[281] == MagicCookie[3];
    assert ScanMessageType(frame, 282) == Some(t);
    assert ScanMessageType(frame, 281) == Some(t);
    assert ScanMessageType(frame, 280) == Some(t);
    assert ScanMessageType(frame, 279) == Some(t);
  }

  /** The fallback address scan steps over the cookie and a (53, 1, t)
      triple and finds a (50, 4, a.b.c.d) option placed right after them. */
  lemma ScanFindsAddressAfterType(frame: seq<byte>, t: byte, addr: Ipv4Addr)
    requires 291 <= |frame| && frame[OptionsStart..OptionsStart + 4] == MagicCookie
    requires frame[282] == 53 && frame[283] == 1 && frame[284] == t
    requires frame[285] == 50 && frame[286] == 4 && AddressAt(frame, 285) == addr
    ensures ScanRequestedIp(frame, OptionsStart) == Some(addr)
  {
    ScanPassesTypeTriple(frame, t, addr);
    ScanRequestedIpPassesCookie(frame);
  }

  /** The fallback address scan passes over the cookie bytes. */
  lemma ScanRequestedIpPassesCookie(frame: seq<byte>)
    requires 288 <= |frame| && frame[OptionsStart..OptionsStart + 4] == MagicCookie
    ensures ScanRequestedIp(frame, OptionsStart) == ScanRequestedIp(frame, 282)
  {
    assert frame[278] == MagicCookie[0] && frame[279] == MagicCookie[1];
    assert frame[280] == MagicCookie[2] && frame[281] == MagicCookie[3];
    assert ScanRequestedIp(frame, 281) == ScanRequestedIp(frame, 282);
    assert ScanRequestedIp(frame, 280) == ScanRequestedIp(frame, 282);
    assert ScanRequestedIp(frame, 279) == ScanRequestedIp(frame, 282);
  }

  /** The fallback address scan passes over a (53, 1, t) triple followed by
      a (50, 4) option. */
  lemma ScanPassesTypeTriple(frame: seq<byte>, t: byte, addr: Ipv4Addr)
    requires 291 <= |frame|
    requires frame[282] == 53 && frame[283] == 1 && frame[284] == t
    requires frame[285] == 50 && frame[286] == 4 && AddressAt(frame, 285) == addr
    ensures ScanRequestedIp(frame, 282) == Some(addr)
  {
    assert ScanRequestedIp(frame, 285) == Some(addr);
    assert ScanRequestedIp(frame, 284) == Some(addr);
    assert ScanRequestedIp(frame, 283) == Some(addr);
  }

  /** A standard DHCP frame of at most 411 bytes with message type t and
      requested address a.b.c.d right after the cookie: the walks see only
      the cookie, and it is the fallback scans that find both options. */
  lemma StandardFrameDecodedByFallbackScans(frame: seq<byte>, now: string, t: byte, addr: Ipv4Addr)
    requires 291 <= |frame| <= 411 && frame[OptionsStart..OptionsStart + 4] == MagicCookie
    requires frame[282] == 53 && frame[283] == 1 && frame[284] == t
    requires frame[285] == 50 && frame[286] == 4 && AddressAt(frame, 285) == addr
    ensures WalkMessageType(frame, OptionsStart, 0) == 0
    ensures WalkRequestedIp(frame, OptionsStart, None) == None
    ensures ParseDhcpPacket(frame, now).value.messageType == MessageTypeFromByte(t)
    ensures ParseDhcpPacket(frame, now).value.option50 == Some(addr)
  {
    CookieIsTheOnlyCursor(frame);
    WalkMessageTypeKeeps(frame, OptionsStart, 0);
    WalkRequestedIpKeeps(frame, OptionsStart, None);
    ScanFindsTypeAfterCookie(frame, t);
    ScanFindsAddressAfterType(frame, t, addr);
  }
}
