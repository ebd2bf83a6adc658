/** What the packet panel makes of the `raw_data` text the backend writes.
    The backend renders the frame with Rust's `Debug` ("[1, 2, 3]", decimal,
    ", " between bytes, `src-tauri/src/main.rs` line 195); the panel's
    `parseRawData` turns every comma into a space, so each ", " becomes two
    spaces and the split at single spaces yields an empty piece that is
    padded to "00" (`src/components/PacketDetails.tsx` lines 70-74); then
    every token is read as hexadecimal (line 84). The two sides do not
    round-trip: the panel sees every byte written in decimal but read in
    hex, with a zero between every two of them. */
module RawDataRoundTrip {
  import opened Wrappers
  import opened Seqs
  import opened Text
  import opened Numerals
  import opened PacketDetails
  import opened Backend

  /** A byte's decimal digits read as hexadecimal, as the panel reads the
      backend's rendering of it. */
  function DecimalReadAsHex(b: byte): JsNumber {
    DecimalIsHex(NatToDecimal(b));
    Num(HexValue(NatToDecimal(b)))
  }

  /** The values the panel's option scan sees for a frame the backend
      logged: each byte's decimal read as hex, with a 0 between every two;
      for an empty frame the single value 0. */
  lemma DecodeOfDebugBytes(bs: seq<byte>)
    ensures |bs| == 0 ==> TokenValues(ParseRawData(DebugBytes(bs))) == [Num(0)]
    ensures |bs| > 0 ==> TokenValues(ParseRawData(DebugBytes(bs))) == Spread(Map(bs, DecimalReadAsHex), Num(0))
  {
    if |bs| == 0 {
      EmptyFrameDecodes();
    } else {
      var pieces := Spread(Map(Map(bs, ByteDecimal), PadTwo), "00");
      ParsedDebugList(bs);
      PiecesSplitBack(bs);
      PiecesReadAsHex(bs);
    }
  }

  /** `[]` becomes "00" and reads as one 0. */
  lemma EmptyFrameDecodes()
    ensures TokenValues(ParseRawData(DebugBytes([]))) == [Num(0)]
  {
    EmptyDebugList();
    EmptyListBecomesZero();
    ZeroTokenValues("00");
  }

  lemma EmptyDebugList()
    ensures DebugBytes([]) == "[]"
  {
    var none: seq<byte> := [];
    assert Map(none, ByteDecimal) == [];
  }

  /** A token of zeros splits to itself and reads as one 0. */
  lemma ZeroTokenValues(z: string)
    requires |z| > 0 && forall j :: 0 <= j < |z| ==> z[j] == '0'
    ensures TokenValues(z) == [Num(0)]
  {
    SplitOnPiece(z, IsSpace);
    ZerosParseAsZero(z);
    var v := TokenValues(z);
    assert |v| == 1 && v[0] == ParseIntHex(z);
  }

  /** `parseInt` reads a run of zeros, such as the padding "00", as 0. */
  lemma ZerosParseAsZero(z: string)
    requires |z| > 0 && forall j :: 0 <= j < |z| ==> z[j] == '0'
    ensures ParseIntHex(z) == Num(0)
  {
    ZerosReadZero(z, 16);
    ParseIntHexReadsNumeral(z);
  }

  /** `parseRawData` on a non-empty `Debug` list: the decimals, padded,
      with "00" between every two, joined by single spaces. */
  lemma ParsedDebugList(bs: seq<byte>)
    requires |bs| > 0
    ensures ParseRawData(DebugBytes(bs)) == Join(Spread(Map(Map(bs, ByteDecimal), PadTwo), "00"), " ")
  {
    DebugListRepadded(bs);
    SpacedListSplits(bs);
    PaddedSpread(Map(bs, ByteDecimal));
  }

  lemma DebugListRepadded(bs: seq<byte>)
    requires |bs| > 0
    ensures ParseRawData(DebugBytes(bs)) == Join(Map(SplitOn(SpacedList(bs), IsSpace), PadTwo), " ")
  {
    ParseBracketed(Join(Map(bs, ByteDecimal), ", "));
  }

  /** Splitting the spaced decimals at single spaces leaves an empty piece
      between every two. */
  lemma SpacedListSplits(bs: seq<byte>)
    requires |bs| > 0
    ensures SplitOn(SpacedList(bs), IsSpace) == Spread(Map(bs, ByteDecimal), "")
  {
    SplitJoinDoubled(Map(bs, ByteDecimal), ' ', IsSpace);
  }

  /** Padding turns the empty pieces into "00". */
  lemma PaddedSpread(ds: seq<string>)
    ensures Map(Spread(ds, ""), PadTwo) == Spread(Map(ds, PadTwo), "00")
  {
    MapSpread(ds, "", PadTwo);
    assert PadTwo("") == "00";
  }

  /** After `replace(/,/g, ' ')` and `trim()`, the inside of a non-empty
      `Debug` list is the decimals joined by two spaces. */
  function SpacedList(bs: seq<byte>): (r: string)
    requires |bs| > 0
    ensures var inner := Join(Map(bs, ByteDecimal), ", ");
      r == TrimJs(ReplaceChar(inner, ',', ' ')) && r == Join(Map(bs, ByteDecimal), [' ', ' '])
  {
    var ds := Map(bs, ByteDecimal);
    ReplaceCharJoin(ds, ", ", ',', ' ');
    assert ReplaceChar(", ", ',', ' ') == [' ', ' '];
    var spaced := Join(ds, [' ', ' ']);
    JoinEnds(ds, [' ', ' ']);
    assert spaced[0] == ds[0][0];
    assert spaced[|spaced| - 1] == ds[|ds| - 1][|ds[|ds| - 1]| - 1];
    TrimJsNoop(spaced);
    spaced
  }

  /** The padded pieces hold no space, so the split at spaces gives them
      back. */
  lemma PiecesSplitBack(bs: seq<byte>)
    requires |bs| > 0
    ensures var pieces := Spread(Map(Map(bs, ByteDecimal), PadTwo), "00");
      SplitOn(Join(pieces, " "), IsSpace) == pieces
  {
    var padded := Map(Map(bs, ByteDecimal), PadTwo);
    var pieces := Spread(padded, "00");
    forall i, j | 0 <= i < |pieces| && 0 <= j < |pieces[i]|
      ensures !IsSpace(pieces[i][j])
    {
      SpreadAt(padded, "00", i);
    }
    SplitJoin(pieces, ' ', IsSpace);
  }

  /** Read as hex, the pieces give each byte's decimal read as hex, and 0
      between. */
  lemma PiecesReadAsHex(bs: seq<byte>)
    requires |bs| > 0
    ensures var pieces := Spread(Map(Map(bs, ByteDecimal), PadTwo), "00");
      Map(pieces, ParseIntHex) == Spread(Map(bs, DecimalReadAsHex), Num(0))
  {
    var padded := Map(Map(bs, ByteDecimal), PadTwo);
    PaddedReadAsHex(bs);
    ZerosParseAsZero("00");
    MapSpread(padded, "00", ParseIntHex);
  }

  /** Each padded decimal, read as hex, gives its byte's decimal read as
      hex. */
  lemma PaddedReadAsHex(bs: seq<byte>)
    ensures Map(Map(Map(bs, ByteDecimal), PadTwo), ParseIntHex) == Map(bs, DecimalReadAsHex)
  {
    var padded := Map(Map(bs, ByteDecimal), PadTwo);
    forall k | 0 <= k < |bs|
      ensures Map(padded, ParseIntHex)[k] == Map(bs, DecimalReadAsHex)[k]
    {
      PaddedDecimalReadsAsHex(bs[k]);
    }
  }

  /** A padded decimal is still a hex numeral of the same value. */
  lemma PaddedDecimalReadsAsHex(b: byte)
    ensures ParseIntHex(PadTwo(ByteDecimal(b))) == DecimalReadAsHex(b)
  {
    var d := ByteDecimal(b);
    DecimalIsHex(d);
    if |d| < 2 {
      StringToNatLeadingZero(d, 16);
      assert PadTwo(d) == "0" + d;
    }
    ParseIntHexReadsNumeral(PadTwo(d));
  }

  /** A byte survives the trip only below 10; from 10 on it comes back
      larger than it was. */
  lemma DecimalReadAsHexGrows(b: byte)
    ensures b < 10 ==> DecimalReadAsHex(b) == Num(b)
    ensures b >= 10 ==> DecimalReadAsHex(b).n > b
  {
    var d := NatToDecimal(b);
    StringToNatOfNatToString(b, 10);
    HexAtLeastDecimal(d);
    if b >= 10 {
      HexExceedsDecimal(d);
    } else {
      assert d == [DigitChar(b)];
      assert d[..0] == "";
    }
  }

  /** Reading decimal digits as hex never gives less. */
  lemma {:induction false} HexAtLeastDecimal(s: string)
    requires IsNumeral(s, 10)
    ensures StringToNat(s, 16) >= StringToNat(s, 10)
    decreases |s|
  {
    if |s| > 0 {
      var front := s[..|s| - 1];
      assert IsNumeral(front, 10) by {
        assert forall i :: 0 <= i < |front| ==> front[i] == s[i];
      }
      HexAtLeastDecimal(front);
    }
  }

  /** With two or more digits and no leading zero it gives more. */
  lemma HexExceedsDecimal(s: string)
    requires IsNumeral(s, 10) && |s| >= 2 && s[0] != '0'
    ensures StringToNat(s, 16) > StringToNat(s, 10)
  {
    var front := s[..|s| - 1];
    assert IsNumeral(front, 10) by {
      assert forall i :: 0 <= i < |front| ==> front[i] == s[i];
    }
    HexAtLeastDecimal(front);
    LeadingDigitPositive(front);
  }

  /** A numeral whose first digit is not 0 denotes at least 1. */
  lemma {:induction false} LeadingDigitPositive(s: string)
    requires IsNumeral(s, 10) && |s| >= 1 && s[0] != '0'
    ensures StringToNat(s, 10) >= 1
    decreases |s|
  {
    var front := s[..|s| - 1];
    if |s| == 1 {
      assert front == "";
    } else {
      assert IsNumeral(front, 10) && front[0] == s[0] by {
        assert forall i :: 0 <= i < |front| ==> front[i] == s[i];
      }
      LeadingDigitPositive(front);
    }
  }

  /** The panel reads back exactly the logged bytes only for a frame of a
      single byte below 10: an empty frame gives one 0, a longer one gains
      a 0 between every two bytes, and a byte from 10 on changes value. */
  lemma DebugBytesRoundTripsOnlyForOneDigit(bs: seq<byte>)
    ensures TokenValues(ParseRawData(DebugBytes(bs))) == Numbers(bs) <==> |bs| == 1 && bs[0] < 10
  {
    DecodeOfDebugBytes(bs);
    if |bs| > 0 {
      SpreadIsNumbers(Map(bs, DecimalReadAsHex), bs);
      DecimalReadAsHexGrows(bs[0]);
    }
  }

  lemma SpreadIsNumbers(xs: seq<JsNumber>, bs: seq<byte>)
    requires |xs| == |bs| > 0
    ensures Spread(xs, Num(0)) == Numbers(bs) <==> |bs| == 1 && xs[0] == Num(bs[0])
  {
    var s := Spread(xs, Num(0));
    if |bs| == 1 {
      SpreadAt(xs, Num(0), 0);
      assert s == [xs[0]];
      assert Numbers(bs) == [Num(bs[0])];
    } else {
      assert |s| != |Numbers(bs)|;
    }
  }

  // ---------------------------------------------------------------------
  // The option scan over a logged frame
  // ---------------------------------------------------------------------

  /** Every odd position holds 0. */
  predicate ZeroAtOdd(values: seq<JsNumber>) {
    forall k :: 0 <= k < |values| && k % 2 == 1 ==> values[k] == Num(0)
  }

  /** From an even index over values with 0 at every odd index, each step
      reads a length of 0: the scan ends within half the remaining values
      and every option it records has no data. */
  lemma {:induction false} ScanOverZeroLengths(values: seq<JsNumber>, i: nat, acc: Options, fuel: nat, render: seq<JsNumber> -> string)
    requires i % 2 == 0 && ZeroAtOdd(values)
    requires |values| <= i + 1 + 2 * fuel
    requires forall c :: c in acc ==> acc[c] == render([])
    ensures ScanOptions(values, i, acc, fuel, render).Some?
    ensures forall c :: c in ScanOptions(values, i, acc, fuel, render).value ==>
      ScanOptions(values, i, acc, fuel, render).value[c] == render([])
    decreases fuel
  {
    if i + 1 < |values| {
      var code := values[i];
      if code != Num(0) && code != Num(255) {
        assert values[i + 1] == Num(0);
        assert Slice(values, i + 2, i + 2) == [];
        var acc' := acc[Code(code) := render([])];
        ScanOverZeroLengths(values, i + 2, acc', fuel - 1, render);
      }
    }
  }

  /** The panel's option list for a frame the backend logged always ends,
      and every option on it is shown with an empty value: the lengths it
      reads are the zeros `parseRawData` put between the bytes. */
  lemma LoggedFramesShowEmptyOptions(bs: seq<byte>)
    ensures ExtractDhcpOptions(DebugBytes(bs)).Some?
    ensures forall c :: c in ExtractDhcpOptions(DebugBytes(bs)).value ==>
      ExtractDhcpOptions(DebugBytes(bs)).value[c] == ""
  {
    var values := TokenValues(ParseRawData(DebugBytes(bs)));
    DecodedZeroAtOdd(bs);
    assert HexDump([]) == "";
    ScanOverZeroLengths(values, 240, map[], |values|, HexDump);
  }

  lemma DecodedZeroAtOdd(bs: seq<byte>)
    ensures ZeroAtOdd(TokenValues(ParseRawData(DebugBytes(bs))))
  {
    DecodeOfDebugBytes(bs);
    DecodedShapeZeroAtOdd(TokenValues(ParseRawData(DebugBytes(bs))), Map(bs, DecimalReadAsHex));
  }

  /** Both shapes of decoded values, one 0 or a spread, hold 0 at every odd
      position. */
  lemma DecodedShapeZeroAtOdd(values: seq<JsNumber>, xs: seq<JsNumber>)
    requires values == [Num(0)] || values == Spread(xs, Num(0))
    ensures ZeroAtOdd(values)
  {
    if values != [Num(0)] {
      SpreadZeroAtOdd(xs);
    }
  }

  lemma SpreadZeroAtOdd(xs: seq<JsNumber>)
    ensures ZeroAtOdd(Spread(xs, Num(0)))
  {
    var s := Spread(xs, Num(0));
    forall k | 0 <= k < |s| && k % 2 == 1
      ensures s[k] == Num(0)
    {
      SpreadAt(xs, Num(0), k);
    }
  }
}
