/** The packet detail panel of `src/components/PacketDetails.tsx`: the
    re-formatting of a log's `raw_data` text as a hex dump, the scan for DHCP
    options over it, and the rendering of option names and values. */
module PacketDetails {
  import opened Wrappers
  import opened Seqs
  import opened Text
  import opened Numerals
  import DhcpCapture

  /** A JavaScript number as the panel meets it: `parseInt` yields NaN or an
      integer, and -0 behaves as 0 in every use made of it here. */
  datatype JsNumber = NaN | Num(n: int)

  predicate IsSpace(c: char) {
    c == ' '
  }

  // ---------------------------------------------------------------------
  // Numbers as text
  // ---------------------------------------------------------------------

  /** The longest prefix of hex digits. */
  function HexPrefix(s: string): (r: string)
    ensures |r| <= |s| && r == s[..|r|]
    ensures IsNumeral(r, 16)
    ensures |r| < |s| ==> !IsHexDigit(s[|r|])
    decreases |s|
  {
    if |s| > 0 && IsHexDigit(s[0]) then [s[0]] + HexPrefix(s[1..]) else ""
  }

  /** One leading sign, if any, dropped. */
  function SkipSign(s: string): (r: string)
    ensures r == s || (|s| >= 1 && r == s[1..])
  {
    if |s| > 0 && (s[0] == '-' || s[0] == '+') then s[1..] else s
  }

  /** A leading `0x` or `0X`, if any, dropped. */
  function SkipHexPrefix(u: string): (r: string)
    ensures r == u || (|u| >= 2 && r == u[2..])
  {
    if |u| >= 2 && u[0] == '0' && (u[1] == 'x' || u[1] == 'X') then u[2..] else u
  }

  /** `parseInt(t, 16)`: leading whitespace, one sign and a `0x` or `0X`
      prefix are skipped, then the longest run of hex digits is read; NaN
      when that run is empty. */
  function ParseIntHex(t: string): JsNumber {
    var s := TrimStart(t, IsJsWhitespace);
    var digits := HexPrefix(SkipHexPrefix(SkipSign(s)));
    if |digits| == 0 then NaN
    else if |s| > 0 && s[0] == '-' then Num(-(StringToNat(digits, 16) as int))
    else Num(StringToNat(digits, 16))
  }

  /** `parseInt(t, 16)` reads a token of hex digits as the number they
      denote. */
  lemma ParseIntHexReadsNumeral(t: string)
    requires IsHexNumeral(t)
    ensures ParseIntHex(t) == Num(HexValue(t))
  {
    assert IsHexDigit(t[0]);
    assert TrimStart(t, IsJsWhitespace) == t;
    assert SkipSign(t) == t;
    assert SkipHexPrefix(t) == t by {
      if |t| >= 2 { assert IsHexDigit(t[1]); }
    }
    HexPrefixOfNumeral(t);
  }

  /** A run of hex digits is its own longest hex prefix. */
  lemma {:induction false} HexPrefixOfNumeral(t: string)
    requires IsNumeral(t, 16)
    ensures HexPrefix(t) == t
    decreases |t|
  {
    if |t| > 0 {
      assert IsHexDigit(t[0]);
      assert IsNumeral(t[1..], 16) by {
        assert forall i :: 0 <= i < |t| - 1 ==> t[1..][i] == t[i + 1];
      }
      HexPrefixOfNumeral(t[1..]);
      assert [t[0]] + t[1..] == t;
    }
  }

  /** `parseInt(t, 16)` gives NaN for a token without any hex digit. */
  lemma ParseIntHexNaN(t: string)
    requires forall j :: 0 <= j < |t| ==> !IsHexDigit(t[j])
    ensures ParseIntHex(t) == NaN
  {
    var s := TrimStart(t, IsJsWhitespace);
    assert forall j :: 0 <= j < |s| ==> s[j] == t[|t| - |s| + j];
    var unsigned := SkipSign(s);
    assert forall j :: 0 <= j < |unsigned| ==> !IsHexDigit(unsigned[j]);
    assert |unsigned| > 0 ==> unsigned[0] != '0';
    assert SkipHexPrefix(unsigned) == unsigned;
    assert |unsigned| > 0 ==> HexPrefix(unsigned) == "";
  }

  /** `Number.prototype.toString(16)`. */
  function JsHex(v: JsNumber): string {
    match v
    case NaN => "NaN"
    case Num(x) => if x < 0 then "-" + NatToHex(-x) else NatToHex(x)
  }

  /** `String(v)`, as `join` and template literals write a number. */
  function JsDecimal(v: JsNumber): (r: string)
    ensures |r| > 0
  {
    match v
    case NaN => "NaN"
    case Num(x) => if x < 0 then "-" + NatToDecimal(-x) else NatToDecimal(x)
  }

  /** Reading a decimal rendering back gives the number: `parseInt(code)` on
      the keys of the option object (line 104) recovers the option codes. */
  lemma JsDecimalInjective(a: JsNumber, b: JsNumber)
    requires JsDecimal(a) == JsDecimal(b)
    ensures a == b
  {
    if a.Num? && b.Num? {
      var x, y := a.n, b.n;
      var da := if x < 0 then -x else x;
      var db := if y < 0 then -y else y;
      assert (x < 0) == (y < 0) by {
        assert NatToDecimal(da)[0] != '-' && NatToDecimal(db)[0] != '-';
      }
      if x < 0 {
        assert JsDecimal(a)[1..] == NatToDecimal(da);
        assert JsDecimal(b)[1..] == NatToDecimal(db);
      }
      NatToStringInjective(da, db, 10);
    } else if a.Num? {
      NumberIsNotNaNText(a.n);
    } else if b.Num? {
      NumberIsNotNaNText(b.n);
    }
  }

  lemma NumberIsNotNaNText(x: int)
    ensures JsDecimal(Num(x)) != "NaN"
  {
    if x >= 0 {
      var d := NatToDecimal(x);
      assert JsDecimal(Num(x)) == d;
      assert IsHexDigit(d[0]);
      assert "NaN"[0] == 'N';
      assert d != "NaN" by { assert d[0] != 'N'; }
    } else {
      assert JsDecimal(Num(x))[0] == '-';
    }
  }

  /** One value of the dump: `b.toString(16).padStart(2, '0')`. */
  function HexToken(v: JsNumber): string {
    PadTwo(JsHex(v))
  }

  /** A byte as the dump writes it: two lower-case hex digits. */
  function HexByte(b: byte): (r: string)
    ensures |r| == 2 && IsHexNumeral(r) && HexValue(r) == b
    ensures forall j :: 0 <= j < |r| ==> r[j] != ' ' && r[j] != ',' && !IsJsWhitespace(r[j])
  {
    var h := NatToHex(b);
    StringToNatOfNatToString(b, 16);
    if |h| >= 2 then
      assert |h| == 2 by {
        if |h| > 2 {
          assert StringToNat(h, 16) >= 256 by { HexLowerBound(h); }
        }
      }
      h
    else
      StringToNatLeadingZero(h, 16);
      assert PadTwo(h) == "0" + h;
      "0" + h
  }

  /** A hex numeral of three or more digits without a leading zero is at
      least 256. */
  lemma {:induction false} HexLowerBound(h: string)
    requires |h| >= 3 && IsNumeral(h, 16) && h[0] != '0'
    ensures StringToNat(h, 16) >= 256
    decreases |h|
  {
    var front := h[..|h| - 1];
    if |h| == 3 {
      assert front[..1] == h[..1];
      assert StringToNat(front[..1], 16) == DigitValue(h[0]) by {
        assert front[..1][..0] == "";
      }
      assert DigitValue(h[0]) >= 1;
    } else {
      assert front[0] == h[0];
      HexLowerBound(front);
    }
  }

  /** `parseInt(_, 16)` reads a dumped byte back. */
  lemma ParseHexByte(b: byte)
    ensures ParseIntHex(HexByte(b)) == Num(b)
  {
    ParseIntHexReadsNumeral(HexByte(b));
  }

  /** The dump of a byte agrees with the dump of the number it is. */
  lemma HexTokenOfByte(b: byte)
    ensures HexToken(Num(b)) == HexByte(b)
  {
  }

  /** `values.map(v => v.toString(16).padStart(2, '0')).join(' ')` */
  function HexDump(values: seq<JsNumber>): string {
    Join(Map(values, HexToken), " ")
  }

  /** Bytes as JavaScript numbers. */
  function Numbers(bs: seq<byte>): (r: seq<JsNumber>)
    ensures |r| == |bs| && forall k :: 0 <= k < |bs| ==> r[k] == Num(bs[k])
  {
    seq(|bs|, k requires 0 <= k < |bs| => Num(bs[k]))
  }

  /** The dump of some bytes, one `HexByte` per byte. */
  function ByteDump(bs: seq<byte>): (r: seq<string>)
    ensures |r| == |bs| && forall k :: 0 <= k < |bs| ==> r[k] == HexByte(bs[k])
  {
    seq(|bs|, k requires 0 <= k < |bs| => HexByte(bs[k]))
  }

  lemma HexDumpOfBytes(bs: seq<byte>)
    ensures HexDump(Numbers(bs)) == Join(ByteDump(bs), " ")
  {
    forall k | 0 <= k < |bs|
      ensures HexToken(Num(bs[k])) == HexByte(bs[k])
    {
      HexTokenOfByte(bs[k]);
    }
    assert Map(Numbers(bs), HexToken) == ByteDump(bs);
  }

  /** The tokens of a dump of bytes are those bytes' dumps, and `parseInt`
      reads them back. */
  lemma TokensOfByteDump(bs: seq<byte>)
    requires |bs| >= 1
    ensures SplitOn(Join(ByteDump(bs), " "), IsSpace) == ByteDump(bs)
    ensures TokenValues(Join(ByteDump(bs), " ")) == Numbers(bs)
  {
    var hs := ByteDump(bs);
    SplitJoin(hs, ' ', IsSpace);
    forall k | 0 <= k < |bs|
      ensures ParseIntHex(hs[k]) == Num(bs[k])
    {
      ParseHexByte(bs[k]);
    }
  }

  /** Reading a dump back: its space-separated tokens, through
      `parseInt(t, 16)`, are the numbers dumped. */
  lemma DumpTokensRoundTrip(bs: seq<byte>)
    requires |bs| >= 1
    ensures TokenValues(HexDump(Numbers(bs))) == Numbers(bs)
  {
    HexDumpOfBytes(bs);
    TokensOfByteDump(bs);
  }

  // ---------------------------------------------------------------------
  // parseRawData (lines 67-78)
  // ---------------------------------------------------------------------

  /** `rawData.startsWith('[') && rawData.endsWith(']')` */
  predicate IsBracketed(raw: string) {
    |raw| > 0 && raw[0] == '[' && raw[|raw| - 1] == ']'
  }

  /** `parseRawData`: a bracketed list loses its brackets and the inside is
      re-padded; anything else is shown as it is. */
  function ParseRawData(raw: string): (r: string)
    ensures !IsBracketed(raw) ==> r == raw
  {
    if IsBracketed(raw) then Repad(raw[1..|raw| - 1]) else raw
  }

  /** The inside of a bracketed list: its commas become spaces, the result
      is trimmed, split at every single space, and every piece is padded to
      two characters with '0'. */
  function Repad(inner: string): string {
    Join(Map(SplitOn(TrimJs(ReplaceChar(inner, ',', ' ')), IsSpace), PadTwo), " ")
  }

  /** Any text inside brackets is re-padded. */
  lemma ParseBracketed(inner: string)
    ensures IsBracketed("[" + inner + "]")
    ensures ParseRawData("[" + inner + "]") == Repad(inner)
  {
    var raw := "[" + inner + "]";
    assert raw[1..|raw| - 1] == inner;
  }

  /** `hexData.split(' ').map(byte => parseInt(byte, 16))` (line 84). */
  function TokenValues(dump: string): (r: seq<JsNumber>)
    ensures |r| >= 1
  {
    Map(SplitOn(dump, IsSpace), ParseIntHex)
  }

  /** `[xx,yy,...]` with two-digit hex bytes and bare commas: the list
      format `parseRawData` turns into a plain hex dump. */
  function BracketedHex(bs: seq<byte>): string {
    "[" + Join(ByteDump(bs), ",") + "]"
  }

  /** `parseRawData` turns a bracketed, comma-separated hex list into the
      space-separated dump of the same bytes, and the scan's tokenisation
      reads those bytes back. */
  lemma ParseRawDataOfBracketedHex(bs: seq<byte>)
    requires |bs| >= 1
    ensures ParseRawData(BracketedHex(bs)) == Join(ByteDump(bs), " ")
    ensures TokenValues(ParseRawData(BracketedHex(bs))) == Numbers(bs)
  {
    var hs := ByteDump(bs);
    ParseBracketed(Join(hs, ","));
    CommasBecomeSpaces(bs);
    BytesDumpIsTrimmed(bs);
    TokensOfByteDump(bs);
    assert Map(hs, PadTwo) == hs;
  }

  lemma CommasBecomeSpaces(bs: seq<byte>)
    ensures ReplaceChar(Join(ByteDump(bs), ","), ',', ' ') == Join(ByteDump(bs), " ")
  {
    ReplaceCharJoin(ByteDump(bs), ",", ',', ' ');
    assert ReplaceChar(",", ',', ' ') == " ";
  }

  lemma BytesDumpIsTrimmed(bs: seq<byte>)
    requires |bs| >= 1
    ensures TrimJs(Join(ByteDump(bs), " ")) == Join(ByteDump(bs), " ")
  {
    var hs := ByteDump(bs);
    var spaced := Join(hs, " ");
    JoinEnds(hs, " ");
    assert spaced[0] == hs[0][0];
    assert spaced[|spaced| - 1] == hs[|hs| - 1][1];
    TrimJsNoop(spaced);
  }

  /** An empty bracketed list becomes a single "00". */
  lemma EmptyListBecomesZero()
    ensures ParseRawData("[]") == "00"
  {
    ParseBracketed("");
    assert "[" + "" + "]" == "[]";
    assert SplitOn("", IsSpace) == [""];
  }

  // ---------------------------------------------------------------------
  // extractDHCPOptions (lines 80-105)
  // ---------------------------------------------------------------------

  /** `values.slice(start, end)` for a start inside the sequence and an end
      not past it; a negative end counts from the back. */
  function Slice<T>(xs: seq<T>, start: nat, end: int): (r: seq<T>)
    requires start <= |xs| && end <= |xs|
    ensures 0 <= end ==> r == if start <= end then xs[start..end] else []
  {
    var stop := if end >= 0 then end else if |xs| + end >= 0 then |xs| + end else 0;
    if start <= stop then xs[start..stop] else []
  }

  /** A key of the options object. Object keys are strings: a code is
      written with `String`, which keeps different numbers apart
      (`JsDecimalInjective`), and the code read at index -1 is `undefined`,
      written "undefined". */
  datatype OptionKey = Code(value: JsNumber) | UndefinedCode

  /** The options recorded so far. */
  type Options = map<OptionKey, string>

  /** The option loop of lines 87-100, from index `i`, with `acc` the
      options recorded so far and `render` what turns an option's data into
      its text (`HexDump` in the panel). The loop runs while
      `i < bytes.length - 1`, which a negative `i` satisfies, and stops at
      code 0 or 255. An option is recorded only when it fits; a later one
      with the same code replaces it. A NaN length makes `i` NaN, which ends
      the loop. At `i == -1` the code is `undefined` and the length is the
      first value; below -1 the length is `undefined` too, so `i` becomes
      NaN without anything being recorded. A negative length moves `i`
      backwards, so the source loop need not end: `fuel` bounds the
      iterations that move on, and `None` means the loop was still running
      when it ran out. */
  function ScanOptions(values: seq<JsNumber>, i: int, acc: Options, fuel: nat, render: seq<JsNumber> -> string): (r: Option<Options>)
    decreases fuel
  {
    if i + 1 >= |values| || i < -1 then Some(acc)
    else
      var code := if i == -1 then UndefinedCode else Code(values[i]);
      var length := values[i + 1];
      if code == Code(Num(0)) || code == Code(Num(255)) || length.NaN? then Some(acc)
      else if fuel == 0 then None
      else
        var next := i + 2 + length.n;
        var acc' := if next <= |values| then acc[code := render(Slice(values, i + 2, next))] else acc;
        ScanOptions(values, next, acc', fuel - 1, render)
  }

  /** From index -1 the scan records the values after the first one under
      the key "undefined", their number taken from the first value, and
      goes on from there: [2, 7, 7, 1, 0] gives "undefined" with the data
      7, 7 and then code 1 with no data. */
  lemma MinusOneRecordsUndefined(render: seq<JsNumber> -> string)
    ensures ScanOptions([Num(2), Num(7), Num(7), Num(1), Num(0)], -1, map[], 5, render)
      == Some(map[UndefinedCode := render([Num(7), Num(7)]), Code(Num(1)) := render([])])
  {
    var values := [Num(2), Num(7), Num(7), Num(1), Num(0)];
    assert Slice(values, 1, 3) == [Num(7), Num(7)];
    assert Slice(values, 5, 5) == [];
    var acc := map[UndefinedCode := render([Num(7), Num(7)])];
    assert ScanOptions(values, 3, acc, 4, render) == ScanOptions(values, 5, acc[Code(Num(1)) := render([])], 3, render);
  }

  /** `extractDHCPOptions(rawData)`: the scan from offset 240 over the
      tokens of `parseRawData(rawData)`, with as many iterations as there
      are tokens. */
  function ExtractDhcpOptions(raw: string): (r: Option<Options>)
  {
    var values := TokenValues(ParseRawData(raw));
    ScanOptions(values, 240, map[], |values|, HexDump)
  }

  /** The scan only adds options: the ones recorded before stay, and it
      never records code 0 or 255. */
  lemma {:induction false} ScanOptionsKeys(values: seq<JsNumber>, i: int, acc: Options, fuel: nat, render: seq<JsNumber> -> string)
    requires ScanOptions(values, i, acc, fuel, render).Some?
    ensures acc.Keys <= ScanOptions(values, i, acc, fuel, render).value.Keys
    ensures forall c :: c in ScanOptions(values, i, acc, fuel, render).value ==> c in acc || (c != Code(Num(0)) && c != Code(Num(255)))
    decreases fuel
  {
    if i + 1 >= |values| || i < -1 {
    } else {
      var code := if i == -1 then UndefinedCode else Code(values[i]);
      var length := values[i + 1];
      if code == Code(Num(0)) || code == Code(Num(255)) || length.NaN? {
      } else {
        var next := i + 2 + length.n;
        var acc' := if next <= |values| then acc[code := render(Slice(values, i + 2, next))] else acc;
        ScanOptionsKeys(values, next, acc', fuel - 1, render);
      }
    }
  }

  /** Before the 242nd token there are no options, and the panel never
      shows a pad or end option. */
  lemma ExtractDhcpOptionsKeys(raw: string)
    requires ExtractDhcpOptions(raw).Some?
    ensures |TokenValues(ParseRawData(raw))| <= 241 ==> ExtractDhcpOptions(raw) == Some(map[])
    ensures Code(Num(0)) !in ExtractDhcpOptions(raw).value && Code(Num(255)) !in ExtractDhcpOptions(raw).value
  {
    var values := TokenValues(ParseRawData(raw));
    ScanOptionsKeys(values, 240, map[], |values|, HexDump);
  }

  /** Without negative values every iteration moves `i` forward by at least
      two, so the loop ends within the fuel given. */
  lemma {:induction false} ScanOptionsEnds(values: seq<JsNumber>, i: int, acc: Options, fuel: nat, render: seq<JsNumber> -> string)
    requires forall k :: 0 <= k < |values| ==> values[k].NaN? || values[k].n >= 0
    requires |values| <= i + 1 + fuel
    ensures ScanOptions(values, i, acc, fuel, render).Some?
    decreases fuel
  {
    if i + 1 >= |values| || i < -1 {
    } else {
      var code := if i == -1 then UndefinedCode else Code(values[i]);
      var length := values[i + 1];
      if code == Code(Num(0)) || code == Code(Num(255)) || length.NaN? {
      } else {
        var next := i + 2 + length.n;
        var acc' := if next <= |values| then acc[code := render(Slice(values, i + 2, next))] else acc;
        ScanOptionsEnds(values, next, acc', fuel - 1, render);
      }
    }
  }

  /** So the panel always finishes on numbers read from hex text. */
  lemma ExtractDhcpOptionsEnds(raw: string)
    requires forall k :: 0 <= k < |TokenValues(ParseRawData(raw))| ==>
      TokenValues(ParseRawData(raw))[k].NaN? || TokenValues(ParseRawData(raw))[k].n >= 0
    ensures ExtractDhcpOptions(raw).Some?
  {
    var values := TokenValues(ParseRawData(raw));
    ScanOptionsEnds(values, 240, map[], |values|, HexDump);
  }

  /** An option of length -2 sends `i` back to the same index: the loop
      never ends, whatever the fuel. */
  lemma {:induction false} LengthMinusTwoNeverEnds(values: seq<JsNumber>, i: nat, acc: Options, fuel: nat, render: seq<JsNumber> -> string)
    requires i + 1 < |values|
    requires values[i] != Num(0) && values[i] != Num(255) && values[i + 1] == Num(-2)
    ensures ScanOptions(values, i, acc, fuel, render).None?
    decreases fuel
  {
    if fuel > 0 {
      var acc' := acc[Code(values[i]) := render(Slice(values, i + 2, i))];
      LengthMinusTwoNeverEnds(values, i, acc', fuel - 1, render);
    }
  }

  /** Option data: its length fits in the length byte. */
  type OptionData = d: seq<byte> | |d| < 256

  /** An option as it sits in a frame: code, then data whose length is the
      length byte. */
  datatype RawOption = RawOption(code: byte, data: OptionData)

  /** None of the codes that stop the scan. */
  predicate NoStopCodes(os: seq<RawOption>) {
    forall k :: 0 <= k < |os| ==> os[k].code != 0 && os[k].code != 255
  }

  /** One option laid out as code, length, data. */
  function EncodeOption(o: RawOption): (r: seq<byte>)
    ensures |r| == 2 + |o.data|
  {
    [o.code, |o.data|] + o.data
  }

  /** Options laid out one after the other. */
  function EncodeOptions(os: seq<RawOption>): (r: seq<byte>)
    ensures |r| >= 2 * |os|
    decreases |os|
  {
    if |os| == 0 then [] else EncodeOption(os[0]) + EncodeOptions(os[1..])
  }

  /** What the scan should record: each option's data, rendered, under its
      code, a later option replacing an earlier one with the same code. */
  function RecordOptions(acc: Options, os: seq<RawOption>, render: seq<JsNumber> -> string): Options
    decreases |os|
  {
    if |os| == 0 then acc
    else RecordOptions(acc[Code(Num(os[0].code)) := render(Numbers(os[0].data))], os[1..], render)
  }

  /** A code none of the options carries keeps what was recorded for it,
      or stays absent. */
  lemma {:induction false} RecordOptionsKeepsOthers(acc: Options, os: seq<RawOption>, render: seq<JsNumber> -> string, c: OptionKey)
    requires forall j :: 0 <= j < |os| ==> Code(Num(os[j].code)) != c
    ensures c in acc ==> c in RecordOptions(acc, os, render) && RecordOptions(acc, os, render)[c] == acc[c]
    ensures c !in acc ==> c !in RecordOptions(acc, os, render)
    decreases |os|
  {
    if |os| > 0 {
      RecordOptionsKeepsOthers(acc[Code(Num(os[0].code)) := render(Numbers(os[0].data))], os[1..], render, c);
    }
  }

  /** A code seen several times keeps the data of its last occurrence. */
  lemma {:induction false} RecordOptionsLastWins(acc: Options, os: seq<RawOption>, render: seq<JsNumber> -> string, k: int)
    requires 0 <= k < |os|
    requires forall j :: k < j < |os| ==> os[j].code != os[k].code
    ensures Code(Num(os[k].code)) in RecordOptions(acc, os, render)
    ensures RecordOptions(acc, os, render)[Code(Num(os[k].code))] == render(Numbers(os[k].data))
    decreases |os|
  {
    var acc' := acc[Code(Num(os[0].code)) := render(Numbers(os[0].data))];
    if k == 0 {
      RecordOptionsKeepsOthers(acc', os[1..], render, Code(Num(os[0].code)));
    } else {
      RecordOptionsLastWins(acc', os[1..], render, k - 1);
    }
  }

  /** The values from `p` on hold the options `os` one after the other,
      and what follows them stops the scan. */
  predicate EncodedAt(values: seq<JsNumber>, p: nat, os: seq<RawOption>)
    decreases |os|
  {
    if |os| == 0 then p + 1 >= |values| || values[p] == Num(0) || values[p] == Num(255)
    else
      var next := p + 2 + |os[0].data|;
      && next <= |values|
      && values[p] == Num(os[0].code) && values[p + 1] == Num(|os[0].data|)
      && Slice(values, p + 2, next) == Numbers(os[0].data)
      && EncodedAt(values, next, os[1..])
  }

  /** The loop stops on a code 0 or 255 and at the end of the values. */
  lemma ScanStops(values: seq<JsNumber>, i: nat, acc: Options, fuel: nat, render: seq<JsNumber> -> string)
    requires i + 1 >= |values| || values[i] == Num(0) || values[i] == Num(255)
    ensures ScanOptions(values, i, acc, fuel, render) == Some(acc)
  {
  }

  /** One iteration of the loop on an option whose code is neither 0 nor
      255 and whose data fits. */
  lemma ScanStep(values: seq<JsNumber>, i: nat, acc: Options, fuel: nat, render: seq<JsNumber> -> string, code: byte, data: seq<byte>)
    requires fuel > 0 && code != 0 && code != 255
    requires i + 2 + |data| <= |values|
    requires values[i] == Num(code) && values[i + 1] == Num(|data|)
    requires Slice(values, i + 2, i + 2 + |data|) == Numbers(data)
    ensures ScanOptions(values, i, acc, fuel, render)
      == ScanOptions(values, i + 2 + |data|, acc[Code(Num(code)) := render(Numbers(data))], fuel - 1, render)
  {
  }

  /** The scan records exactly the options laid out where it starts. */
  lemma {:induction false} ScanRecordsEncoded(values: seq<JsNumber>, p: nat, os: seq<RawOption>, acc: Options, fuel: nat, render: seq<JsNumber> -> string)
    requires NoStopCodes(os) && EncodedAt(values, p, os)
    requires fuel >= |os|
    ensures ScanOptions(values, p, acc, fuel, render) == Some(RecordOptions(acc, os, render))
    decreases |os|
  {
    if |os| == 0 {
      ScanStops(values, p, acc, fuel, render);
    } else {
      var o := os[0];
      var acc' := acc[Code(Num(o.code)) := render(Numbers(o.data))];
      ScanStep(values, p, acc, fuel, render, o.code, o.data);
      NoStopCodesTail(os);
      ScanRecordsEncoded(values, p + 2 + |o.data|, os[1..], acc', fuel - 1, render);
    }
  }

  lemma NoStopCodesTail(os: seq<RawOption>)
    requires |os| > 0 && NoStopCodes(os)
    ensures NoStopCodes(os[1..])
  {
    assert forall k :: 0 <= k < |os| - 1 ==> os[1..][k] == os[k + 1];
  }

  /** The scan stops at `q`: the values end there or hold a code 0 or 255. */
  predicate StopsAt(bs: seq<byte>, q: nat) {
    q + 1 >= |bs| || bs[q] == 0 || bs[q] == 255
  }

  /** The options `os` are laid out in `bs` from `at`, and what follows them
      stops the scan. */
  predicate Placed(bs: seq<byte>, at: nat, os: seq<RawOption>) {
    && at + |EncodeOptions(os)| <= |bs|
    && bs[at..at + |EncodeOptions(os)|] == EncodeOptions(os)
    && StopsAt(bs, at + |EncodeOptions(os)|)
  }

  /** Options placed in the bytes are where `EncodedAt` expects them among
      the values. */
  lemma {:induction false} PlacedIsEncodedAt(bs: seq<byte>, at: nat, os: seq<RawOption>)
    requires Placed(bs, at, os)
    ensures EncodedAt(Numbers(bs), at, os)
    decreases |os|
  {
    if |os| == 0 {
      assert EncodeOptions(os) == [];
    } else {
      PlacedFirst(bs, at, os);
      PlacedIsEncodedAt(bs, at + 2 + |os[0].data|, os[1..]);
      EncodedStep(bs, at, os);
    }
  }

  lemma EncodedStep(bs: seq<byte>, at: nat, os: seq<RawOption>)
    requires |os| > 0
    requires at + |EncodeOption(os[0])| <= |bs|
    requires bs[at..at + |EncodeOption(os[0])|] == EncodeOption(os[0])
    requires EncodedAt(Numbers(bs), at + 2 + |os[0].data|, os[1..])
    ensures EncodedAt(Numbers(bs), at, os)
  {
    FirstOptionWindow(bs, at, os[0]);
    EncodedAtCons(Numbers(bs), at, os);
  }

  /** Placed options are the first one's encoding, then the rest placed. */
  lemma PlacedFirst(bs: seq<byte>, at: nat, os: seq<RawOption>)
    requires |os| > 0 && Placed(bs, at, os)
    ensures at + |EncodeOption(os[0])| <= |bs|
    ensures bs[at..at + |EncodeOption(os[0])|] == EncodeOption(os[0])
    ensures Placed(bs, at + 2 + |os[0].data|, os[1..])
  {
    var h := EncodeOption(os[0]);
    var e := EncodeOptions(os[1..]);
    assert EncodeOptions(os) == h + e;
    SliceSplit(bs, at, h, e);
  }

  /** A slice holding two parts holds each of them. */
  lemma SliceSplit<T>(bs: seq<T>, at: nat, h: seq<T>, e: seq<T>)
    requires at + |h| + |e| <= |bs|
    requires bs[at..at + |h + e|] == h + e
    ensures bs[at..at + |h|] == h
    ensures bs[at + |h|..at + |h| + |e|] == e
  {
    assert bs[at..at + |h|] == (h + e)[..|h|];
    assert bs[at + |h|..at + |h| + |e|] == (h + e)[|h|..];
  }

  /** The values read where an option's encoding sits. */
  lemma FirstOptionWindow(bs: seq<byte>, at: nat, o: RawOption)
    requires at + |EncodeOption(o)| <= |bs|
    requires bs[at..at + |EncodeOption(o)|] == EncodeOption(o)
    ensures var values := Numbers(bs);
      && at + 2 + |o.data| <= |values|
      && values[at] == Num(o.code) && values[at + 1] == Num(|o.data|)
      && Slice(values, at + 2, at + 2 + |o.data|) == Numbers(o.data)
  {
    var h := EncodeOption(o);
    var window := bs[at..at + |h|];
    assert bs[at] == window[0] == o.code;
    assert bs[at + 1] == window[1] == |o.data|;
    assert bs[at + 2..at + |h|] == window[2..] == o.data;
    NumbersSlice(bs, at + 2, at + |h|);
  }

  lemma NumbersSlice(bs: seq<byte>, a: nat, b: nat)
    requires a <= b <= |bs|
    ensures Numbers(bs)[a..b] == Numbers(bs[a..b])
  {
  }

  /** Encoded options followed by a stopping tail are laid out as
      `EncodedAt` describes. */
  lemma EncodingIsEncodedAt(pre: seq<byte>, os: seq<RawOption>, tail: seq<byte>)
    requires |tail| <= 1 || tail[0] == 0 || tail[0] == 255
    ensures EncodedAt(Numbers(pre + EncodeOptions(os) + tail), |pre|, os)
  {
    var enc := EncodeOptions(os);
    var bs := pre + enc + tail;
    assert bs[|pre|..|pre| + |enc|] == enc;
    if |tail| >= 1 {
      assert bs[|pre| + |enc|] == tail[0];
    }
    assert StopsAt(bs, |pre| + |enc|);
    PlacedIsEncodedAt(bs, |pre|, os);
  }

  /** The first option in place and the rest laid out after it. */
  lemma EncodedAtCons(values: seq<JsNumber>, p: nat, os: seq<RawOption>)
    requires |os| > 0
    requires var next := p + 2 + |os[0].data|;
      && next <= |values|
      && values[p] == Num(os[0].code) && values[p + 1] == Num(|os[0].data|)
      && Slice(values, p + 2, next) == Numbers(os[0].data)
      && EncodedAt(values, next, os[1..])
    ensures EncodedAt(values, p, os)
  {
  }

  /** The scan decodes encoded options: started where they begin and
      stopped by the end of the values, by a lone last value or by a code 0
      or 255, it records exactly them. */
  lemma ScanDecodesOptions(pre: seq<byte>, os: seq<RawOption>, tail: seq<byte>, acc: Options, fuel: nat, render: seq<JsNumber> -> string)
    requires NoStopCodes(os)
    requires |tail| <= 1 || tail[0] == 0 || tail[0] == 255
    requires fuel >= |os|
    ensures ScanOptions(Numbers(pre + EncodeOptions(os) + tail), |pre|, acc, fuel, render) == Some(RecordOptions(acc, os, render))
  {
    EncodingIsEncodedAt(pre, os, tail);
    ScanRecordsEncoded(Numbers(pre + EncodeOptions(os) + tail), |pre|, os, acc, fuel, render);
  }

  /** End to end: a bracketed hex list of a frame whose options start at
      offset 240 yields exactly those options, each shown as its hex dump. */
  lemma ExtractDecodesBracketedFrame(pre: seq<byte>, os: seq<RawOption>, tail: seq<byte>)
    requires |pre| == 240 && NoStopCodes(os)
    requires |tail| <= 1 || tail[0] == 0 || tail[0] == 255
    ensures ExtractDhcpOptions(BracketedHex(pre + EncodeOptions(os) + tail)) == Some(RecordOptions(map[], os, HexDump))
  {
    var bs := pre + EncodeOptions(os) + tail;
    ParseRawDataOfBracketedHex(bs);
    ScanDecodesOptions(pre, os, tail, map[], |bs|, HexDump);
  }

  // ---------------------------------------------------------------------
  // getOptionName and formatOptionValue (lines 107-151)
  // ---------------------------------------------------------------------

  /** The table of option names at lines 108-127. */
  function KnownOptionName(code: int): Option<string> {
    match code
    case 1 => Some("Subnet Mask")
    case 2 => Some("Time Offset")
    case 3 => Some("Router")
    case 6 => Some("DNS Server")
    case 12 => Some("Hostname")
    case 15 => Some("Domain Name")
    case 28 => Some("Broadcast Address")
    case 50 => Some("Requested IP Address")
    case 51 => Some("IP Address Lease Time")
    case 53 => Some("DHCP Message Type")
    case 54 => Some("Server Identifier")
    case 55 => Some("Parameter Request List")
    case 60 => Some("Vendor Class Identifier")
    case 61 => Some("Client Identifier")
    case 66 => Some("TFTP Server Name")
    case 67 => Some("Bootfile Name")
    case 82 => Some("Agent Information")
    case 255 => Some("End")
    case _ => None
  }

  /** `getOptionName(code)`: the table's name, or "Option " and the code. */
  function OptionName(code: JsNumber): (r: string)
    ensures code.Num? && KnownOptionName(code.n).Some? ==> r == KnownOptionName(code.n).value
    ensures (code.NaN? || KnownOptionName(code.n).None?) ==> r == "Option " + JsDecimal(code)
  {
    if code.Num? && KnownOptionName(code.n).Some? then KnownOptionName(code.n).value
    else "Option " + JsDecimal(code)
  }

  /** No table name starts the way the fallback name does. */
  lemma KnownNamesAreNotFallbacks(code: int)
    requires KnownOptionName(code).Some?
    ensures |KnownOptionName(code).value| > 0 && KnownOptionName(code).value[0] != 'O'
  {
  }

  /** Different codes get different names, so the panel's labels identify
      the options. */
  lemma OptionNameInjective(a: JsNumber, b: JsNumber)
    requires OptionName(a) == OptionName(b)
    ensures a == b
  {
    var known := (c: JsNumber) => c.Num? && KnownOptionName(c.n).Some?;
    if known(a) && known(b) {
      KnownOptionNameInjective(a.n, b.n);
    } else if known(a) {
      KnownNamesAreNotFallbacks(a.n);
    } else if known(b) {
      KnownNamesAreNotFallbacks(b.n);
    } else {
      assert OptionName(a)[7..] == JsDecimal(a);
      assert OptionName(b)[7..] == JsDecimal(b);
      JsDecimalInjective(a, b);
    }
  }

  /** `parseInt(code)` on a key of the options object (lines 258 and 265):
      a written number reads back as itself, "undefined" reads as NaN. */
  function KeyCode(k: OptionKey): JsNumber {
    match k
    case Code(v) => v
    case UndefinedCode => NaN
  }

  /** Two options are listed under the same name only when one is the
      "undefined" key and the other the NaN key: both read as NaN and are
      shown as "Option NaN". */
  lemma KeyNamesDistinct(a: OptionKey, b: OptionKey)
    requires OptionName(KeyCode(a)) == OptionName(KeyCode(b))
    ensures a == b || (a in {UndefinedCode, Code(NaN)} && b in {UndefinedCode, Code(NaN)})
    ensures OptionName(KeyCode(UndefinedCode)) == OptionName(KeyCode(Code(NaN)))
  {
    OptionNameInjective(KeyCode(a), KeyCode(b));
  }

  lemma KnownOptionNameInjective(a: int, b: int)
    requires KnownOptionName(a).Some? && KnownOptionName(a) == KnownOptionName(b)
    ensures a == b
  {
  }

  /** The message-type labels of lines 133-142. */
  function MessageTypeLabel(value: string): Option<string> {
    if value == "01" then Some("DISCOVER")
    else if value == "02" then Some("OFFER")
    else if value == "03" then Some("REQUEST")
    else if value == "05" then Some("ACK")
    else if value == "06" then Some("NAK")
    else if value == "07" then Some("DECLINE")
    else if value == "08" then Some("RELEASE")
    else if value == "09" then Some("INFORM")
    else None
  }

  /** `formatOptionValue(code, value)`: option 53 through the label table,
      options 50 and 54 as a dotted quad of decimal numbers when the value
      has exactly four space-separated parts, anything else unchanged. */
  function FormatOptionValue(code: JsNumber, value: string): (r: string)
    ensures code != Num(53) && code != Num(50) && code != Num(54) ==> r == value
    ensures code == Num(53) && MessageTypeLabel(value).None? ==> r == value
    ensures (code == Num(50) || code == Num(54)) && |SplitOn(value, IsSpace)| != 4 ==> r == value
  {
    if code == Num(53) then MessageTypeLabel(value).GetOr(value)
    else if code == Num(50) || code == Num(54) then
      var parts := Map(SplitOn(value, IsSpace), ParseIntHex);
      if |parts| == 4 then Join(Map(parts, JsDecimal), ".") else value
    else value
  }

  /** The name the capture side gives a message type, in the label
      table's spelling. */
  function CaptureLabel(t: DhcpCapture.MessageType): string
    requires t != DhcpCapture.Unknown
  {
    match t
    case Discover => "DISCOVER"
    case Offer => "OFFER"
    case Request => "REQUEST"
    case Ack => "ACK"
    case Nack => "NAK"
    case Decline => "DECLINE"
    case Release => "RELEASE"
    case Inform => "INFORM"
  }

  /** The panel labels a message-type byte exactly as the capture side
      classifies it: the same name for the eight codes it knows (including
      the shifted 7, 8 and 9) and the bare dump for every other code. */
  lemma LabelsAgreeWithCapture(b: byte)
    ensures DhcpCapture.MessageTypeFromByte(b) != DhcpCapture.Unknown ==>
      FormatOptionValue(Num(53), HexByte(b)) == CaptureLabel(DhcpCapture.MessageTypeFromByte(b))
    ensures DhcpCapture.MessageTypeFromByte(b) == DhcpCapture.Unknown ==>
      FormatOptionValue(Num(53), HexByte(b)) == HexByte(b)
  {
    if b in {1, 2, 3, 5, 6, 7, 8, 9} {
      HexByteOfSmall(b);
      TypeDigitLabel(b);
    } else {
      OnlyTypeBytesHaveLabels(b);
    }
  }

  /** The label table names "0" and a type digit as the capture side names
      that type. */
  lemma TypeDigitLabel(b: byte)
    requires b in {1, 2, 3, 5, 6, 7, 8, 9}
    ensures MessageTypeLabel(['0', DigitChar(b)]) == Some(CaptureLabel(DhcpCapture.MessageTypeFromByte(b)))
  {
    var c := DigitChar(b);
    assert c == ('0' as int + b) as char;
    if b == 1 { assert c == '1'; }
    else if b == 2 { assert c == '2'; }
    else if b == 3 { assert c == '3'; }
    else if b == 5 { assert c == '5'; }
    else if b == 6 { assert c == '6'; }
    else if b == 7 { assert c == '7'; }
    else if b == 8 { assert c == '8'; }
    else { assert c == '9'; }
  }

  /** A byte below 16 is dumped as "0" and its digit. */
  lemma HexByteOfSmall(b: byte)
    requires b < 16
    ensures HexByte(b) == ['0', DigitChar(b)]
  {
    assert NatToHex(b) == [DigitChar(b)];
  }

  /** Only the dumps of the bytes 1-3 and 5-9 are in the label table. */
  lemma OnlyTypeBytesHaveLabels(b: byte)
    ensures MessageTypeLabel(HexByte(b)).Some? ==> b in {1, 2, 3, 5, 6, 7, 8, 9}
  {
    LabelledValue(HexByte(b));
  }

  /** A labelled value is "0" and a decimal digit, read as that digit. */
  lemma LabelledValue(h: string)
    requires |h| == 2 && IsHexNumeral(h)
    ensures MessageTypeLabel(h).Some? ==> HexValue(h) in {1, 2, 3, 5, 6, 7, 8, 9}
  {
    if MessageTypeLabel(h).Some? {
      assert h[0] == '0' && IsDecimalDigit(h[1]);
      assert HexValue(h) == DigitValue(h[1]) by {
        assert h[..1][..0] == "";
        assert StringToNat(h[..1], 16) == DigitValue(h[0]) == 0;
        assert StringToNat(h, 16) == StringToNat(h[..1], 16) * 16 + DigitValue(h[1]);
      }
    }
  }

  /** An address option's four bytes are shown as the dotted quad the
      capture side prints for them. */
  lemma FormatsAddress(code: JsNumber, addr: DhcpCapture.Ipv4Addr)
    requires code == Num(50) || code == Num(54)
    ensures FormatOptionValue(code, HexDump(Numbers([addr.a, addr.b, addr.c, addr.d]))) == DhcpCapture.Dotted(addr)
  {
    var bs := [addr.a, addr.b, addr.c, addr.d];
    var dump := HexDump(Numbers(bs));
    DumpTokensRoundTrip(bs);
    var parts := Map(SplitOn(dump, IsSpace), ParseIntHex);
    assert parts == Numbers(bs) && |parts| == 4;
    DecimalsJoinToDotted(addr);
  }

  lemma DecimalsJoinToDotted(addr: DhcpCapture.Ipv4Addr)
    ensures Join(Map(Numbers([addr.a, addr.b, addr.c, addr.d]), JsDecimal), ".") == DhcpCapture.Dotted(addr)
  {
    var ds := Map(Numbers([addr.a, addr.b, addr.c, addr.d]), JsDecimal);
    assert ds == [NatToDecimal(addr.a), NatToDecimal(addr.b), NatToDecimal(addr.c), NatToDecimal(addr.d)];
    JoinFour(ds[0], ds[1], ds[2], ds[3], ".");
  }
}
