/** The backend of `src-tauri/src/main.rs`: a captured `DhcpPacket` becomes a
    `DHCPLog` of strings, and the logs live in a store that the capture
    callback appends to, `get_logs` reads and `clear_logs` empties. Locking
    is not modelled: the store is a value and every command a function on
    it. */
module Backend {
  import opened Wrappers
  import opened Seqs
  import opened Text
  import opened Numerals
  import opened DhcpCapture

  /** `DHCPLog` (lines 30-39): the packet as the front end receives it. */
  datatype DhcpLog = DhcpLog(
    timestamp: string,
    packetType: string,
    sourceIp: string,
    destinationIp: string,
    option50: Option<string>,
    iface: string,
    rawData: string)

  // ---------------------------------------------------------------------
  // Rendering
  // ---------------------------------------------------------------------

  /** `format!("{:?}", message_type)`: the derived `Debug` writes the
      variant's name. */
  function VariantName(t: MessageType): string {
    match t
    case Discover => "Discover"
    case Offer => "Offer"
    case Request => "Request"
    case Ack => "Ack"
    case Nack => "Nack"
    case Decline => "Decline"
    case Release => "Release"
    case Inform => "Inform"
    case Unknown => "Unknown"
  }

  /** The nine names the log's `packet_type` can hold. */
  const VariantNames: seq<string> :=
    ["Discover", "Offer", "Request", "Ack", "Nack", "Decline", "Release", "Inform", "Unknown"]

  /** The type name read back from a log. */
  function ParseVariantName(s: string): (r: Option<MessageType>)
    ensures r.Some? <==> s in VariantNames
  {
    if s == "Discover" then Some(Discover)
    else if s == "Offer" then Some(Offer)
    else if s == "Request" then Some(Request)
    else if s == "Ack" then Some(Ack)
    else if s == "Nack" then Some(Nack)
    else if s == "Decline" then Some(Decline)
    else if s == "Release" then Some(Release)
    else if s == "Inform" then Some(Inform)
    else if s == "Unknown" then Some(Unknown)
    else None
  }

  /** Every type is written as one of the nine names, and the name gives
      the type back: different types get different names. */
  lemma VariantNameRoundTrip(t: MessageType)
    ensures VariantName(t) in VariantNames
    ensures ParseVariantName(VariantName(t)) == Some(t)
  {
  }

  function ByteDecimal(b: byte): string {
    NatToDecimal(b)
  }

  /** `format!("{:?}", raw_data)` on a `Vec<u8>`: the bytes in decimal,
      separated by ", ", inside square brackets. */
  function DebugBytes(bs: seq<byte>): string {
    "[" + Join(Map(bs, ByteDecimal), ", ") + "]"
  }

  predicate IsComma(c: char) {
    c == ','
  }

  predicate IsDot(c: char) {
    c == '.'
  }

  /** A decimal numeral of a byte value, with no sign and no blanks. */
  function ParseDecimalByte(t: string): Option<byte> {
    if IsDecimalNumeral(t) && DecimalValue(t) < 256 then Some(DecimalValue(t) as byte) else None
  }

  /** The items after the first of a `Debug` list: each is a space and a
      byte. */
  function ParseListTail(ps: seq<string>): Option<seq<byte>>
    decreases |ps|
  {
    if |ps| == 0 then Some([])
    else if |ps[0]| == 0 || ps[0][0] != ' ' then None
    else
      match (ParseDecimalByte(ps[0][1..]), ParseListTail(ps[1..]))
      case (Some(b), Some(bs)) => Some([b] + bs)
      case _ => None
  }

  /** Reads a `Debug` rendering of bytes back: "[]", or a bracketed list of
      decimal bytes separated by ", ". */
  function ParseDebugBytes(s: string): Option<seq<byte>> {
    if |s| < 2 || s[0] != '[' || s[|s| - 1] != ']' then None
    else
      var inner := s[1..|s| - 1];
      if inner == "" then Some([])
      else
        var ps := SplitOn(inner, IsComma);
        match (ParseDecimalByte(ps[0]), ParseListTail(ps[1..]))
        case (Some(b), Some(bs)) => Some([b] + bs)
        case _ => None
  }

  lemma ParseDecimalByteOfByte(b: byte)
    ensures ParseDecimalByte(ByteDecimal(b)) == Some(b)
  {
    StringToNatOfNatToString(b, 10);
  }

  lemma {:induction false} ParseListTailOfBytes(bs: seq<byte>)
    ensures ParseListTail(PrefixEach(Map(bs, ByteDecimal), " ")) == Some(bs)
    decreases |bs|
  {
    if |bs| > 0 {
      var ps := PrefixEach(Map(bs, ByteDecimal), " ");
      assert ps[0][1..] == ByteDecimal(bs[0]);
      ParseDecimalByteOfByte(bs[0]);
      assert ps[1..] == PrefixEach(Map(bs[1..], ByteDecimal), " ");
      ParseListTailOfBytes(bs[1..]);
      assert [bs[0]] + bs[1..] == bs;
    }
  }

  /** The `raw_data` text loses nothing: reading it back gives the bytes. */
  lemma DebugBytesRoundTrip(bs: seq<byte>)
    ensures ParseDebugBytes(DebugBytes(bs)) == Some(bs)
  {
    var s := DebugBytes(bs);
    var inner := Join(Map(bs, ByteDecimal), ", ");
    assert s[1..|s| - 1] == inner;
    if |bs| > 0 {
      DebugListPieces(bs);
      ParseDecimalByteOfByte(bs[0]);
      ParseListTailOfBytes(bs[1..]);
      assert [bs[0]] + bs[1..] == bs;
    }
  }

  /** The pieces of a non-empty `Debug` list split at its commas. */
  lemma DebugListPieces(bs: seq<byte>)
    requires |bs| > 0
    ensures var inner := Join(Map(bs, ByteDecimal), ", ");
      && inner != ""
      && SplitOn(inner, IsComma) == [ByteDecimal(bs[0])] + PrefixEach(Map(bs[1..], ByteDecimal), " ")
  {
    var ds := Map(bs, ByteDecimal);
    JoinEnds(ds, ", ");
    assert [','] + " " == ", ";
    SplitJoinPrefixed(ds, ',', " ", IsComma);
    assert ds[1..] == Map(bs[1..], ByteDecimal);
  }

  /** Reads a dotted quad back: four decimal bytes separated by dots. */
  function ParseDotted(s: string): Option<Ipv4Addr> {
    var ps := SplitOn(s, IsDot);
    if |ps| != 4 then None
    else
      match (ParseDecimalByte(ps[0]), ParseDecimalByte(ps[1]), ParseDecimalByte(ps[2]), ParseDecimalByte(ps[3]))
      case (Some(a), Some(b), Some(c), Some(d)) => Some(Ipv4Addr(a, b, c, d))
      case _ => None
  }

  /** An address's `Display` text gives the address back. */
  lemma DottedRoundTrip(addr: Ipv4Addr)
    ensures ParseDotted(Dotted(addr)) == Some(addr)
  {
    var ds := [ByteDecimal(addr.a), ByteDecimal(addr.b), ByteDecimal(addr.c), ByteDecimal(addr.d)];
    JoinFour(ds[0], ds[1], ds[2], ds[3], ".");
    assert Join(ds, ".") == Dotted(addr);
    SplitJoin(ds, '.', IsDot);
    ParseDecimalByteOfByte(addr.a);
    ParseDecimalByteOfByte(addr.b);
    ParseDecimalByteOfByte(addr.c);
    ParseDecimalByteOfByte(addr.d);
  }

  /** The conversion in the capture callback (lines 188-196): the RFC 3339
      timestamp text, the type's variant name, both addresses and the
      requested address in dotted decimal, the capture's interface name and
      the `Debug` text of the frame. */
  function ToLog(p: DhcpPacket, iface: string): DhcpLog {
    DhcpLog(
      p.timestamp,
      VariantName(p.messageType),
      Dotted(p.sourceIp),
      Dotted(p.destinationIp),
      if p.option50.Some? then Some(Dotted(p.option50.value)) else None,
      iface,
      DebugBytes(p.rawData))
  }

  /** Reading a log's fields back gives the packet: the conversion is
      lossless, with `option_50` absent exactly when the packet had none. */
  lemma ToLogRoundTrip(p: DhcpPacket, iface: string)
    ensures var log := ToLog(p, iface);
      && log.timestamp == p.timestamp
      && log.iface == iface
      && ParseVariantName(log.packetType) == Some(p.messageType)
      && ParseDotted(log.sourceIp) == Some(p.sourceIp)
      && ParseDotted(log.destinationIp) == Some(p.destinationIp)
      && (log.option50.None? <==> p.option50.None?)
      && (log.option50.Some? ==> ParseDotted(log.option50.value) == p.option50)
      && ParseDebugBytes(log.rawData) == Some(p.rawData)
  {
    VariantNameRoundTrip(p.messageType);
    DottedRoundTrip(p.sourceIp);
    DottedRoundTrip(p.destinationIp);
    if p.option50.Some? {
      DottedRoundTrip(p.option50.value);
    }
    DebugBytesRoundTrip(p.rawData);
  }

  // ---------------------------------------------------------------------
  // The log store
  // ---------------------------------------------------------------------

  /** `AppState.logs`: the logs in the order they were captured. */
  datatype LogStore = LogStore(logs: seq<DhcpLog>)

  const EmptyStore := LogStore([])

  /** `logs.push(log)` in the capture callback (lines 199-201). */
  function Append(s: LogStore, log: DhcpLog): (r: LogStore)
    ensures |r.logs| == |s.logs| + 1
    ensures r.logs[..|s.logs|] == s.logs && r.logs[|s.logs|] == log
  {
    LogStore(s.logs + [log])
  }

  /** `get_logs` (lines 231-235): a copy of every log, in order. */
  function GetLogs(s: LogStore): seq<DhcpLog> {
    s.logs
  }

  /** `clear_logs` (lines 237-242). */
  function ClearLogs(s: LogStore): (r: LogStore)
    ensures GetLogs(r) == []
  {
    LogStore([])
  }

  /** What happens to the store: a packet captured on an interface, a
      `get_logs` call or a `clear_logs` call. */
  datatype Event = Captured(packet: DhcpPacket, iface: string) | Read | Cleared

  function Apply(s: LogStore, e: Event): LogStore {
    match e
    case Captured(p, iface) => Append(s, ToLog(p, iface))
    case Read => s
    case Cleared => ClearLogs(s)
  }

  /** The store after a run of events, in order. */
  function Run(s: LogStore, es: seq<Event>): LogStore
    decreases |es|
  {
    if |es| == 0 then s else Run(Apply(s, es[0]), es[1..])
  }

  predicate IsClear(e: Event) {
    e.Cleared?
  }

  /** The logs of the captures among `es`, in order. */
  function CapturedLogs(es: seq<Event>): (r: seq<DhcpLog>)
    ensures |r| <= |es|
    decreases |es|
  {
    if |es| == 0 then [] else LogOf(es[0]) + CapturedLogs(es[1..])
  }

  /** The log an event adds: one for a capture, none otherwise. */
  function LogOf(e: Event): (r: seq<DhcpLog>)
    ensures |r| <= 1
  {
    if e.Captured? then [ToLog(e.packet, e.iface)] else []
  }

  /** An event other than a clear appends its own log, if any. */
  lemma ApplyAppends(s: LogStore, e: Event)
    requires !IsClear(e)
    ensures GetLogs(Apply(s, e)) == GetLogs(s) + LogOf(e)
  {
    if e.Read? {
      assert s.logs + [] == s.logs;
    }
  }

  /** Without a clear, the store keeps what it held and gains one log per
      captured packet, in capture order; reads change nothing. */
  lemma {:induction false} RunWithoutClear(s: LogStore, es: seq<Event>)
    requires forall k :: 0 <= k < |es| ==> !IsClear(es[k])
    ensures GetLogs(Run(s, es)) == GetLogs(s) + CapturedLogs(es)
    decreases |es|
  {
    if |es| > 0 {
      ApplyAppends(s, es[0]);
      RunWithoutClear(Apply(s, es[0]), es[1..]);
    }
  }

  /** Running two stretches of events one after the other. */
  lemma {:induction false} RunConcat(s: LogStore, es: seq<Event>, fs: seq<Event>)
    ensures Run(s, es + fs) == Run(Run(s, es), fs)
    decreases |es|
  {
    if |es| == 0 {
      assert es + fs == fs;
    } else {
      assert (es + fs)[1..] == es[1..] + fs;
      RunConcat(Apply(s, es[0]), es[1..], fs);
    }
  }

  /** After a clear, `get_logs` returns exactly the logs of the packets
      captured since, whatever came before. */
  lemma ClearForgetsTheHistory(s: LogStore, before: seq<Event>, after: seq<Event>)
    requires forall k :: 0 <= k < |after| ==> !IsClear(after[k])
    ensures GetLogs(Run(s, before + [Cleared] + after)) == CapturedLogs(after)
  {
    RunConcat(s, before + [Cleared], after);
    RunConcat(s, before, [Cleared]);
    RunWithoutClear(EmptyStore, after);
  }
}
