# DHCPMonitor core, modelled in Dafny

DHCPMonitor is a desktop tool with a Rust backend and a React front end. It
watches a network interface for DHCP traffic and lists the packets it sees.
It has a separate panel for packets that carry option 50 (Requested IP
Address).

This project models the logic behind the backend and the panels:

- **DhcpCapture** (`dhcp_capture.dfy`). The backend's decoder for one
  captured frame. It rejects frames shorter than 240 bytes. It takes the
  source and destination addresses from bytes 26-33. It walks the options
  from byte 278 twice:
  - the first walk finds the last (53, 1, t) option;
  - the second walk finds the last (50, 4, address) option, or else the
    first (32, 4, address) option.

  When a walk finds nothing, a byte-by-byte fallback scan from byte 278
  takes the first match. The message-type byte is then converted by the
  program's own table, which is not the table of RFC 2132.
- **Backend** (`backend.dfy`). How a decoded packet becomes the log record
  the page receives: the `Debug` name of the type, dotted addresses, and the
  raw frame rendered as a decimal list. Also the shared log store, with
  `get_logs` and `clear_logs`.
- **PacketDetails** (`packet_details.dfy`). The packet panel's
  `parseRawData`, its option scan `extractDHCPOptions`, and the option
  names and value labels it shows. JavaScript's `parseInt` is modelled with
  `NaN`, and the scan's first step from index -1, which reads the code
  `undefined`, is modelled too.
- **RawDataRoundTrip** (`raw_data_round_trip.dfy`). What the panel makes of
  the text the backend writes. The backend writes bytes in decimal; the
  panel reads every token as hexadecimal and sees a zero between any two
  bytes. A logged frame therefore comes back unchanged only when it is a
  single byte below 10, and the option list of a logged frame only ever
  holds empty values.
- **LogsView** (`logs_view.dfy`). The search box of the log table and the
  "clear" button.
- **Option50View** (`option50_view.dfy`). The option 50 statistics and the
  percentage shown. The percentage is computed in exact integers, rounding
  halves up.
- **NetworkInterfaces** (`network_interfaces.dfy`). How the backend flags
  and names capture devices. It numbers the "Interface Microsoft" devices
  with a counter and extracts meaningful words from other descriptions. The
  page receives the result through `get_interfaces`.
- **NetworkView** (`network_view.dfy`). The interface panel: the ordinary
  and loopback sections, the counts, the icon kind and the status text.

Supporting modules:

- `wrappers.dfy`: `Option`.
- `seqs.dfy`: filter, map, join and spread on sequences.
- `text.dfy`: substring search, ASCII lower-casing and splitting.
- `numerals.dfy`: decimal and hexadecimal numerals.

Where the model has to stand in for something outside the program:

- The clock is a `now` string.
- The device list of the capture library is an `Option` parameter. `None`
  stands for a listing that fails.
- Whether the page runs inside the desktop shell, and whether a backend call
  throws, are parameters.

Points where the code departs from RFC 2132, proved about the code as
written:

- The byte-to-type table drops DECLINE from code 4 and shifts DECLINE,
  RELEASE and INFORM one code up (`DhcpCapture.MessageTypeDeviatesFromRfc2132`).
- The option walk reads the magic cookie 99, 130, 83, 99 at byte 278 as an
  option of code 99 with length 130. On a typical frame this makes both
  walks jump past the real options, so the fallback scans do the decoding
  (`DhcpCapture.StandardFrameDecodedByFallbackScans`).
- The second walk and the fallback scan also accept option 32 as a
  requested address. RFC 2132 defines code 32 as the Router Solicitation
  Address (section 5.7).

## Model

| member | source | states |
|---|---|---|
| DhcpCapture.MessageTypeFromByte | src-tauri/src/dhcp_capture.rs:38-52 | a byte gives a known type exactly for 1, 2, 3, 5, 6, 7, 8, 9, and the type's code gives back that byte |
| DhcpCapture.MessageTypeRoundTrip | src-tauri/src/dhcp_capture.rs:38-52 | every known type is recovered from its code |
| DhcpCapture.MessageTypeDeviatesFromRfc2132 | src-tauri/src/dhcp_capture.rs:38-52 | the conversion agrees with RFC 2132 on every byte except 4, 7, 8 and 9; 4 is Unknown instead of Decline, and 7 is Decline instead of Release |
| DhcpCapture.OptionCursors | src-tauri/src/dhcp_capture.rs:240-266 | every option the walk meets has its code and length byte inside the frame, at or after the start |
| DhcpCapture.NoCursorsMeansEnd | src-tauri/src/dhcp_capture.rs:240-256 | a walk that meets no option crosses only pad bytes, up to an end byte 255 or the last byte of the frame |
| DhcpCapture.FirstCursorAfterPad | src-tauri/src/dhcp_capture.rs:252-256 | before the first option the walk crosses only pad bytes |
| DhcpCapture.CursorsStep | src-tauri/src/dhcp_capture.rs:252-265 | each option after the first lies one code+length+payload step, and then only pads, after its predecessor |
| DhcpCapture.LastCursorEnds | src-tauri/src/dhcp_capture.rs:240-266 | after the last option met, the walk crosses only pads before an end byte 255 or the end of the frame |
| DhcpCapture.AddressAfter | src-tauri/src/dhcp_capture.rs:338-376 | one step of the second walk: an option 50 replaces the address held; an option 32 is taken only when none is held; anything else keeps it |
| DhcpCapture.WalkMessageType | src-tauri/src/dhcp_capture.rs:240-266 | the first option walk: skips pads, stops at 255 or the last byte, jumps code+length+payload; its result is stated by the two lemmas below |
| DhcpCapture.WalkMessageTypeKeeps | src-tauri/src/dhcp_capture.rs:258-263 | a walk that meets no (53, 1, t) option leaves the type byte as it was |
| DhcpCapture.WalkMessageTypeIsLastTypeOption | src-tauri/src/dhcp_capture.rs:258-263 | the first walk yields the type byte of the last (53, 1, t) option it meets |
| DhcpCapture.WalkRequestedIp | src-tauri/src/dhcp_capture.rs:320-379 | the second option walk, with the same cursor moves as the first; its result is stated by the three lemmas below |
| DhcpCapture.WalkRequestedIpKeeps | src-tauri/src/dhcp_capture.rs:338-376 | without an option 50, and without an option 32 when nothing is held, the second walk keeps what it held |
| DhcpCapture.WalkRequestedIpIsLastOption50 | src-tauri/src/dhcp_capture.rs:338-344 | the second walk yields the address of the last option 50 it meets, whatever option 32s came before |
| DhcpCapture.WalkRequestedIpIsFirstOption32 | src-tauri/src/dhcp_capture.rs:365-376 | with no option 50 on the walk, the address is that of the first option 32 |
| DhcpCapture.ScanMessageType | src-tauri/src/dhcp_capture.rs:269-280 | the fallback finds nothing exactly when no (53, 1, t) triple starts at or after the start, and otherwise finds the byte of the first one |
| DhcpCapture.ScanRequestedIp | src-tauri/src/dhcp_capture.rs:382-405 | the fallback finds nothing exactly when no (50, 4) or (32, 4) pair starts at or after the start, and otherwise finds the address after the first one |
| DhcpCapture.TypeByte | src-tauri/src/dhcp_capture.rs:268-282 | the fallback scan is consulted only when the walk yields 0, and 0 stays when the scan finds nothing |
| DhcpCapture.RequestedIp | src-tauri/src/dhcp_capture.rs:381-405 | the address scan is consulted only when the walk found no address |
| DhcpCapture.ParseDhcpPacket | src-tauri/src/dhcp_capture.rs:222-422 | a frame is rejected exactly when shorter than 240 bytes; otherwise the packet holds the frame, the time, the addresses at bytes 26-33, the converted type and the requested address |
| DhcpCapture.ParsedMessageTypeFromWalk | src-tauri/src/dhcp_capture.rs:258-282 | when the last type option on the walk holds a nonzero byte, the packet's type is that byte converted |
| DhcpCapture.ParsedMessageTypeFromScan | src-tauri/src/dhcp_capture.rs:268-282 | when the walk meets no type option, the type comes from the first triple the scan finds, or is Unknown |
| DhcpCapture.ParsedOption50FromWalk | src-tauri/src/dhcp_capture.rs:338-344 | the packet's requested address is that of the last option 50 on the walk |
| DhcpCapture.ParsedOption50FromOption32 | src-tauri/src/dhcp_capture.rs:365-376 | with no option 50 on the walk, the first option 32 supplies the requested address |
| DhcpCapture.ParsedOption50FromScan | src-tauri/src/dhcp_capture.rs:381-405 | with neither option on the walk, the requested address is whatever the byte scan finds |
| DhcpCapture.CookieIsReadAsAnOption | src-tauri/src/dhcp_capture.rs:240-266 | with the magic cookie at 278 the walk takes it for an option and jumps to byte 410 |
| DhcpCapture.CookieIsTheOnlyCursor | src-tauri/src/dhcp_capture.rs:240-266 | on frames of at most 411 bytes the cookie is the only option the walk meets, so neither walk finds anything |
| DhcpCapture.ScanFindsTypeAfterCookie | src-tauri/src/dhcp_capture.rs:271-279 | a type option right after the cookie is what the fallback scan finds |
| DhcpCapture.ScanFindsAddressAfterType | src-tauri/src/dhcp_capture.rs:384-404 | an option 50 right after that type option is what the address scan finds |
| DhcpCapture.StandardFrameDecodedByFallbackScans | src-tauri/src/dhcp_capture.rs:229-405 | on a frame of cookie, type option and option 50 the walks find nothing, and the packet still gets its type and address from the fallback scans |
| Backend.ParseVariantName | src-tauri/src/main.rs:190 | the reading of a packet-type string succeeds exactly on the nine `Debug` names |
| Backend.VariantNameRoundTrip | src-tauri/src/main.rs:190 | each type's `Debug` name reads back as that type |
| Backend.DebugBytes | src-tauri/src/main.rs:195 | the `Debug` form of the frame: decimals, comma and space between, in brackets; read back by `DebugBytesRoundTrip` |
| Backend.DebugBytesRoundTrip | src-tauri/src/main.rs:195 | the `Debug` rendering of the raw frame reads back as the same bytes |
| Backend.DottedRoundTrip | src-tauri/src/main.rs:191-193 | the dotted rendering of an address reads back as the same address |
| Backend.ToLog | src-tauri/src/main.rs:188-196 | the log record of a packet; that it loses nothing is `ToLogRoundTrip` |
| Backend.ToLogRoundTrip | src-tauri/src/main.rs:188-196 | the log record loses nothing: type, addresses, requested address (present or absent) and raw frame all read back, and the time and interface are copied |
| Backend.Append | src-tauri/src/main.rs:199-201 | a captured log goes at the end and the earlier logs stay as they were |
| Backend.GetLogs | src-tauri/src/main.rs:231-235 | `get_logs` hands out the stored logs; what they are after appends and clears is stated by the lemmas below |
| Backend.ClearLogs | src-tauri/src/main.rs:237-242 | after `clear_logs` the store is empty |
| Backend.ApplyAppends | src-tauri/src/main.rs:186-201 | every event other than a clear appends what it captured and keeps the rest |
| Backend.RunWithoutClear | src-tauri/src/main.rs:231-235 | without a clear, `get_logs` returns the earlier logs followed by every captured log in order |
| Backend.RunConcat | src-tauri/src/main.rs:199-201 | running two stretches of events equals running them one after the other |
| Backend.ClearForgetsTheHistory | src-tauri/src/main.rs:237-242 | after a clear, `get_logs` returns exactly the logs captured since, whatever came before |
| PacketDetails.ParseIntHex | src/components/PacketDetails.tsx:84 | `parseInt(t, 16)`: leading whitespace, sign and `0x` skipped, then the hex prefix, or NaN; stated by the three lemmas below |
| PacketDetails.HexPrefix | src/components/PacketDetails.tsx:84 | `parseInt` reads the longest run of hex digits at the front, and stops at the first other character |
| PacketDetails.ParseIntHexReadsNumeral | src/components/PacketDetails.tsx:84 | a non-empty run of hex digits reads as the number it denotes |
| PacketDetails.ParseIntHexNaN | src/components/PacketDetails.tsx:84 | a token with no hex digit reads as NaN |
| PacketDetails.JsDecimalInjective | src/components/PacketDetails.tsx:128 | different numbers, NaN included, are shown as different text |
| PacketDetails.HexByte | src/components/PacketDetails.tsx:96 | a byte renders as two hex digits denoting it, with no space or comma |
| PacketDetails.ParseHexByte | src/components/PacketDetails.tsx:84 | two rendered hex digits read back as the byte |
| PacketDetails.DumpTokensRoundTrip | src/components/PacketDetails.tsx:84-96 | a space-separated hex dump of bytes tokenises back to those bytes |
| PacketDetails.ParseRawData | src/components/PacketDetails.tsx:67-78 | text not enclosed in brackets comes back unchanged |
| PacketDetails.ParseRawDataOfBracketedHex | src/components/PacketDetails.tsx:67-84 | a bracketed, comma-separated hex dump comes back as the space-separated dump and reads as the bytes |
| PacketDetails.EmptyListBecomesZero | src/components/PacketDetails.tsx:70-72 | "[]" becomes "00" |
| PacketDetails.TokenValues | src/components/PacketDetails.tsx:84 | splitting at spaces always yields at least one value |
| PacketDetails.ScanOptions | src/components/PacketDetails.tsx:87-100 | the option loop: stops at code 0 or 255, a NaN length, the last value or an index below -1; records complete options and skips truncated ones; reads the code at -1 as `undefined` |
| PacketDetails.MinusOneRecordsUndefined | src/components/PacketDetails.tsx:87-99 | from index -1 the first value is taken as a length and the data after it is recorded under the key "undefined" |
| PacketDetails.ExtractDhcpOptions | src/components/PacketDetails.tsx:80-105 | the panel's options: the raw text parsed, split and read as hex, scanned from index 240; stated by the lemmas below |
| PacketDetails.ExtractDhcpOptionsKeys | src/components/PacketDetails.tsx:80-105 | codes 0 and 255 are never recorded, and a dump of at most 241 values gives no options |
| PacketDetails.ExtractDhcpOptionsEnds | src/components/PacketDetails.tsx:87-100 | when no value is negative the scan ends |
| PacketDetails.LengthMinusTwoNeverEnds | src/components/PacketDetails.tsx:87-100 | a length of -2 leaves the index where it is, so the loop never ends |
| PacketDetails.ScanStops | src/components/PacketDetails.tsx:88-92 | at a 0, a 255 or the last value the scan stops with what it has |
| PacketDetails.ScanStep | src/components/PacketDetails.tsx:89-99 | a complete option records its hex-rendered data under its code and moves past it |
| PacketDetails.RecordOptionsKeepsOthers | src/components/PacketDetails.tsx:94-96 | a code no option carries keeps the value it had, or stays absent |
| PacketDetails.RecordOptionsLastWins | src/components/PacketDetails.tsx:94-96 | for a code that occurs several times, the data of its last occurrence is kept |
| PacketDetails.ScanRecordsEncoded | src/components/PacketDetails.tsx:87-100 | over values holding encoded options, followed by a stop, the scan records exactly those options |
| PacketDetails.ScanDecodesOptions | src/components/PacketDetails.tsx:87-100 | encoding options after any prefix and scanning from the prefix's end gives back those options |
| PacketDetails.ExtractDecodesBracketedFrame | src/components/PacketDetails.tsx:80-105 | for a hex-bracketed frame whose options begin at byte 240, the panel lists exactly the encoded options, each shown as a hex dump |
| PacketDetails.KnownOptionName | src/components/PacketDetails.tsx:108-127 | the panel's table of option names; `KnownOptionNameInjective` and `KnownNamesAreNotFallbacks` state its properties |
| PacketDetails.OptionName | src/components/PacketDetails.tsx:107-129 | a listed code gets its name; every other code, and NaN, gets "Option" followed by the number |
| PacketDetails.KnownNamesAreNotFallbacks | src/components/PacketDetails.tsx:108-127 | no listed name can be mistaken for a fallback "Option n" |
| PacketDetails.KnownOptionNameInjective | src/components/PacketDetails.tsx:108-127 | no two listed codes share a name |
| PacketDetails.OptionNameInjective | src/components/PacketDetails.tsx:107-129 | different codes are always shown with different names |
| PacketDetails.KeyNamesDistinct | src/components/PacketDetails.tsx:254-258 | two keys of the options object are listed under one name only when they are the "undefined" key and the NaN key, which both read as NaN |
| PacketDetails.FormatOptionValue | src/components/PacketDetails.tsx:131-151 | values of codes other than 53, 50 and 54 are shown unchanged, as are type values without a label and address values that do not split into four |
| PacketDetails.MessageTypeLabel | src/components/PacketDetails.tsx:133-143 | the table of option 53 labels; stated by the two lemmas below |
| PacketDetails.LabelsAgreeWithCapture | src/components/PacketDetails.tsx:132-143 | the panel's labels for the option 53 byte name the same types as the backend's conversion, and bytes the backend calls Unknown stay raw |
| PacketDetails.OnlyTypeBytesHaveLabels | src/components/PacketDetails.tsx:133-143 | only the bytes 1, 2, 3, 5, 6, 7, 8 and 9 get a label |
| PacketDetails.FormatsAddress | src/components/PacketDetails.tsx:144-148 | the four-byte data of option 50 or 54 is shown in dotted form |
| RawDataRoundTrip.ParsedDebugList | src/components/PacketDetails.tsx:67-78 | a non-empty `Debug` list from the backend is shown as each byte's decimal padded to two digits, with "00" between every two bytes |
| RawDataRoundTrip.DecodeOfDebugBytes | src/components/PacketDetails.tsx:67-84 | the backend's decimal list reads in the panel as each byte's decimal digits read as hex, with a 0 between any two, or as one 0 for an empty frame |
| RawDataRoundTrip.DecimalReadAsHexGrows | src/components/PacketDetails.tsx:84 | bytes below 10 survive the reading, and larger ones come back larger |
| RawDataRoundTrip.DebugBytesRoundTripsOnlyForOneDigit | src-tauri/src/main.rs:195 | the panel reads back exactly the logged frame only when it is one byte below 10 |
| RawDataRoundTrip.LoggedFramesShowEmptyOptions | src/components/PacketDetails.tsx:80-105 | for every frame the backend logs, the option scan ends and every listed option has empty data |
| LogsView.Matches | src/components/LogsView.tsx:126-129 | the search test: the type without case, the addresses with case, the requested address when present and non-empty |
| LogsView.FilteredLogs | src/components/LogsView.tsx:125-130 | the shown logs are the matching ones in their order, each as often as in the full list |
| LogsView.EmptyQueryKeepsAll | src/components/LogsView.tsx:125-130 | an empty search shows every log |
| LogsView.FilterTwice | src/components/LogsView.tsx:125-130 | searching the shown logs again for the same text changes nothing |
| LogsView.MatchesNarrowing | src/components/LogsView.tsx:126-129 | a log matching a longer query matches every part of it |
| LogsView.QueryNarrowing | src/components/LogsView.tsx:125-130 | typing more only removes logs: filtering for the longer query equals filtering the earlier result |
| LogsView.TypeMatchIgnoresCase | src/components/LogsView.tsx:126 | the type is matched without regard to case |
| LogsView.QueryCaseIgnoredForType | src/components/LogsView.tsx:126-129 | two queries that differ only in case both match a log whose type contains them; on a log whose addresses contain neither, one matches exactly when the other does |
| LogsView.AddressMatchKeepsCase | src/components/LogsView.tsx:127-128 | addresses are matched with case: "A" does not find "a" |
| LogsView.NoOption50MatchesElsewhere | src/components/LogsView.tsx:129 | a missing or empty requested address never matches |
| LogsView.ClearLogsClicked | src/components/LogsView.tsx:74-89 | the list is emptied exactly in a browser or once the backend call has returned; on the desktop a returned call empties the backend store, and a throw leaves page and store as they were |
| LogsView.ClearKeepsInSync | src/components/LogsView.tsx:74-89 | on the desktop the page stays in step with the backend however the call ends |
| Option50View.Option50Logs | src/components/Option50View.tsx:89 | the listed logs are those with a non-empty requested address, in order and with their multiplicities |
| Option50View.ComputeStats | src/components/Option50View.tsx:34-37 | the total is the number of logs; the option 50 count equals the one-by-one count and never exceeds the total |
| Option50View.OptionLogsCounted | src/components/Option50View.tsx:35-36 | the filtered length equals the one-by-one count |
| Option50View.AllCounted | src/components/Option50View.tsx:35-37 | the count equals the total exactly when every log carries an address |
| Option50View.NoneCounted | src/components/Option50View.tsx:35-36 | the count is 0 exactly when no log carries an address |
| Option50View.Percentage | src/components/Option50View.tsx:196 | 0 for no packets; otherwise the p with 2·total·p ≤ 200·count + total < 2·total·(p+1) |
| Option50View.PercentageIsNearest | src/components/Option50View.tsx:196 | the percentage is within half a step of 100·count/total, rounding halves up |
| Option50View.PercentageBounds | src/components/Option50View.tsx:196 | a count within the total gives a percentage from 0 to 100 |
| Option50View.PercentageMonotone | src/components/Option50View.tsx:196 | more logs with an address never lower the percentage |
| Option50View.PercentageOfLogs | src/components/Option50View.tsx:34-37 | the panel shows 100 when every log carries an address, 0 when none does, and never more than 100 |
| Option50View.RoundsUpToFull | src/components/Option50View.tsx:196 | 199 of 200 is shown as 100 |
| Option50View.SampleStats | src/components/Option50View.tsx:40-74 | the built-in sample gives 2 of 3, shown as 67 |
| NetworkInterfaces.DescriptionOf | src-tauri/src/network_interfaces.rs:21 | a missing description becomes "Interface Réseau" |
| NetworkInterfaces.IsLoopback | src-tauri/src/network_interfaces.rs:31 | the loopback flag: the description mentions "loopback", in any case |
| NetworkInterfaces.IsActive | src-tauri/src/network_interfaces.rs:30-36 | the active flag; stated by the two lemmas below |
| NetworkInterfaces.ActiveIffNoMarks | src-tauri/src/network_interfaces.rs:30-36 | with an address a device is active; without one it is active exactly when its description names none of loopback, virtual, hyper-v, kernel |
| NetworkInterfaces.LoopbackNeedsAddress | src-tauri/src/network_interfaces.rs:31-36 | a loopback device is active exactly when it has an address |
| NetworkInterfaces.MicrosoftName | src-tauri/src/network_interfaces.rs:98-102 | every Microsoft name starts "Interface Microsoft"; from the second on it carries the count |
| NetworkInterfaces.MicrosoftNameInjective | src-tauri/src/network_interfaces.rs:98-102 | different counts give different names |
| NetworkInterfaces.GenerateCleanName | src-tauri/src/network_interfaces.rs:70-110 | a device outside NPF keeps its own name, and only the Microsoft branch moves the counter, by exactly one |
| NetworkInterfaces.EthernetFirst | src-tauri/src/network_interfaces.rs:74-83 | a wired description is named after its vendor, whatever else it mentions |
| NetworkInterfaces.WirelessSecond | src-tauri/src/network_interfaces.rs:84-85 | a wireless description that is not wired is named "Wi-Fi" |
| NetworkInterfaces.BluetoothThird | src-tauri/src/network_interfaces.rs:86-87 | a description neither wired nor wireless that mentions bluetooth is named "Bluetooth" |
| NetworkInterfaces.LoopbackFourth | src-tauri/src/network_interfaces.rs:88-89 | failing the earlier tests and mentioning loopback gives "Loopback" |
| NetworkInterfaces.VirtualFifth | src-tauri/src/network_interfaces.rs:90-91 | failing the earlier tests and mentioning virtual or hyper-v gives "Interface Virtuelle" |
| NetworkInterfaces.KernelSixth | src-tauri/src/network_interfaces.rs:92-94 | a Microsoft description with kernel, failing the earlier tests, is "Interface Kernel" and leaves the counter as it was |
| NetworkInterfaces.MeaningfulLast | src-tauri/src/network_interfaces.rs:104-105 | a description failing every test is named by its meaningful words, and the counter is unchanged |
| NetworkInterfaces.CleanNameNumbersMicrosoft | src-tauri/src/network_interfaces.rs:92-103 | the naming function raises the counter by one exactly for Microsoft descriptions and names them after the new count |
| NetworkInterfaces.TakeTwo | src-tauri/src/network_interfaces.rs:124 | the first two elements, or all when there are fewer |
| NetworkInterfaces.ExtractMeaningfulName | src-tauri/src/network_interfaces.rs:112-136 | two words or fewer give the default name |
| NetworkInterfaces.WordsAreWords | src-tauri/src/network_interfaces.rs:113 | `split_whitespace` yields non-empty pieces without whitespace |
| NetworkInterfaces.ExtractedWords | src-tauri/src/network_interfaces.rs:112-136 | the extracted name splits back into the first two meaningful words in order, or is the default when there are none |
| NetworkInterfaces.InterfaceOf | src-tauri/src/network_interfaces.rs:20-49 | one device's record keeps its real name and addresses and flags it by its description |
| NetworkInterfaces.BuildInterfaces | src-tauri/src/network_interfaces.rs:17-54 | one interface per device, in order, each with the device's real name, description and loopback flag |
| NetworkInterfaces.CounterAfterBuild | src-tauri/src/network_interfaces.rs:18-52 | the counter ends at its start plus the number of devices that raise it |
| NetworkInterfaces.Numbering | src-tauri/src/network_interfaces.rs:96-102 | a device that raises the counter is named after the count of such devices up to and including it |
| NetworkInterfaces.NumberingOrder | src-tauri/src/network_interfaces.rs:96-102 | of two such devices the later is named after a larger count |
| NetworkInterfaces.GetNetworkInterfaces | src-tauri/src/network_interfaces.rs:56-66 | a failing device list gives the single active, non-loopback fallback interface |
| NetworkInterfaces.MicrosoftNumbering | src-tauri/src/network_interfaces.rs:92-103 | the k-th Microsoft device of a listing is "Interface Microsoft" for k = 1 and "Interface Microsoft k" after |
| NetworkInterfaces.MicrosoftNamesDistinct | src-tauri/src/network_interfaces.rs:96-102 | no two Microsoft devices of one listing share a name |
| NetworkInterfaces.MicrosoftCounterAtEnd | src-tauri/src/network_interfaces.rs:18-52 | over a listing the counter reaches the number of Microsoft devices |
| NetworkInterfaces.GetInterfaces | src-tauri/src/main.rs:41-52 | the page receives one record per interface, with `is_active` as `is_up` and the other fields copied |
| NetworkView.InterfaceKind | src/components/NetworkView.tsx:18-31 | the loopback icon is drawn exactly for loopback interfaces |
| NetworkView.WirelessWordsAreWifi | src/components/NetworkView.tsx:23-25 | an ordinary interface whose description has wifi, wireless or wlan gets the Wi-Fi icon |
| NetworkView.WiredWordsAreEthernet | src/components/NetworkView.tsx:23-27 | one with none of those but ethernet or lan gets the wired icon |
| NetworkView.WlanIsWifi | src/components/NetworkView.tsx:23-27 | "wlan" also contains "lan", yet such an interface gets the Wi-Fi icon |
| NetworkView.ServerIffNoWords | src/components/NetworkView.tsx:23-30 | an ordinary interface gets the server icon exactly when its description names none of the five words |
| NetworkView.StatusText | src/components/NetworkView.tsx:41-43 | "Actif" exactly for interfaces that are up, "Inactif" otherwise |
| NetworkView.ActiveInterfaces | src/components/NetworkView.tsx:51 | the ordinary section keeps interfaces of the list, in order, none of them loopback |
| NetworkView.LoopbackInterfaces | src/components/NetworkView.tsx:52 | the loopback section keeps interfaces of the list, in order, all of them loopback |
| NetworkView.SectionsPartition | src/components/NetworkView.tsx:51-52 | the two sections together hold every interface exactly once |
| NetworkView.CountsOrdered | src/components/NetworkView.tsx:209-212 | the header count never exceeds the available count, which never exceeds the total |
| NetworkView.UpCount | src/components/NetworkView.tsx:69 | the header count never exceeds the size of the ordinary section |
| NetworkView.UpCountCounts | src/components/NetworkView.tsx:69 | the header counts exactly the interfaces that are up and not loopback |
| NetworkView.ListedSections | src/components/NetworkView.tsx:51-52 | for listed devices, the loopback section holds exactly those whose description mentions loopback, and no ordinary one gets the loopback icon |

## Left out

- The capture loop, the capture thread, the `pcap` handle, `stop_capture`, the `Mutex` around the capture and all `println!` output are not modelled. They are I/O and concurrency; the model starts from the bytes of one frame.
- The debug dump of bytes 278-298 and the option 53, 54 and 61 messages of the second walk only print. They change no result and are left out.
- `check_npcap`, the DLL path set-up and the Tauri command registration are platform glue.
- The clock is the `now` parameter, and the time is kept as its string form.
- `Device::list` is a parameter. `None` stands for its error, which selects the fallback interface.
- Locking of the log store is not modelled. A poisoned lock appears only as the `Threw` outcome of the "clear" button.
- React rendering, polling every second, icons and colours, `formatTimestamp` and the singular and plural strings of the headers are presentation. They are left out.
- The mock logs of the log table are left out. The option 50 panel's built-in sample is modelled, with its times as parameters.
- Option50View.Percentage: `Math.round` on a floating-point quotient is replaced by exact half-up rounding. The two can differ only where the quotient is within rounding error of a half.
- PacketDetails.ParseIntHex: values are unbounded integers, so precision loss beyond 2^53 and the sign of -0 are not modelled.
- The options object is a map, so the key order of JavaScript objects is not modelled. Its keys are the numbers the codes are written from, and the key "undefined"; `JsDecimalInjective` shows that no information is lost.
- Lower-casing covers ASCII letters only, both for Rust's `to_lowercase` and for JavaScript's `toLowerCase`.
- Strings are sequences of code points. The `len() > 2` test of a meaningful word counts UTF-8 bytes of them. JavaScript's `padStart` counts UTF-16 code units, and PadTwo counts code points; they differ only on text with characters outside the Basic Multilingual Plane, which the hex digits of a dump never are.
- NetworkInterfaces.GenerateCleanName: the counter is unbounded, so the wrap-around of the `u32` count after 2^32 Microsoft devices is not modelled.
- PacketDetails.ScanOptions: the loop carries a fuel bound. `None` means the loop is still running when the fuel runs out; `ExtractDhcpOptionsEnds` and `LengthMinusTwoNeverEnds` say when that happens.
- Backend.ParseDebugBytes: this reading of the `Debug` list accepts leading zeros. It is a partner for the round trip and not part of the program.
