/** Naming and flagging of capture devices
    (src-tauri/src/network_interfaces.rs) and their hand-over to the page
    (`get_interfaces` in src-tauri/src/main.rs). The device list itself comes
    from the capture library and is a parameter here. */
module NetworkInterfaces {
  import opened Wrappers
  import opened Seqs
  import opened Text
  import opened Numerals

  /** What the capture library reports for one device. */
  datatype Device = Device(name: string, desc: Option<string>, addresses: seq<string>)

  /** `NetworkInterface` of network_interfaces.rs (lines 4-12). */
  datatype NetworkInterface = NetworkInterface(
    name: string,
    description: string,
    addresses: seq<string>,
    isLoopback: bool,
    isActive: bool,
    realName: string)

  const DefaultName := "Interface Réseau"

  /** Windows capture devices are named `\Device\NPF_{GUID}`. */
  const NpfPrefix := "\\Device\\NPF_"

  /** The description, or the default name when the device has none (line 21). */
  function DescriptionOf(desc: Option<string>): (r: string)
    ensures desc.Some? ==> r == desc.value
    ensures desc.None? ==> r == DefaultName
  {
    desc.GetOr(DefaultName)
  }

  // ---------------------------------------------------------------------
  // Flags (lines 30-36)

  predicate Mentions(description: string, word: string) {
    Contains(Lower(description), word)
  }

  predicate IsLoopback(description: string) {
    Mentions(description, "loopback")
  }

  /** An interface counts as active when it has an address, or else when
      nothing in its description marks it as loopback, virtual or kernel. */
  predicate IsActive(description: string, addresses: seq<string>) {
    var isNotVirtual := !Mentions(description, "virtual") && !Mentions(description, "hyper-v");
    var isNotKernel := !Mentions(description, "kernel");
    |addresses| > 0 || (!IsLoopback(description) && isNotVirtual && isNotKernel)
  }

  /** The words that make an interface without addresses inactive. */
  const InactiveMarks: seq<string> := ["loopback", "virtual", "hyper-v", "kernel"]

  /** With an address an interface is always active; without one it is
      active exactly when its description carries none of the marks. */
  lemma ActiveIffNoMarks(description: string, addresses: seq<string>)
    ensures |addresses| > 0 ==> IsActive(description, addresses)
    ensures |addresses| == 0 ==>
      (IsActive(description, addresses) <==> !ContainsAny(Lower(description), InactiveMarks))
  {
    var l := Lower(description);
    if ContainsAny(l, InactiveMarks) {
      var k :| 0 <= k < |InactiveMarks| && Contains(l, InactiveMarks[k]);
      assert k == 0 || k == 1 || k == 2 || k == 3;
    } else {
      assert !Contains(l, InactiveMarks[0]) && !Contains(l, InactiveMarks[1]);
      assert !Contains(l, InactiveMarks[2]) && !Contains(l, InactiveMarks[3]);
    }
  }

  /** A loopback interface is active only through an address. */
  lemma LoopbackNeedsAddress(description: string, addresses: seq<string>)
    requires IsLoopback(description)
    ensures IsActive(description, addresses) <==> |addresses| > 0
  {
  }

  // ---------------------------------------------------------------------
  // generate_clean_name (lines 70-110)

  /** The per-run counters; only "Microsoft" is ever used. Values are `u32`
      in the source. */
  type Counters = map<string, nat>

  function MicrosoftCount(counters: Counters): nat {
    if "Microsoft" in counters then counters["Microsoft"] else 0
  }

  /** The first Microsoft interface is "Interface Microsoft", the n-th
      "Interface Microsoft n". */
  function MicrosoftName(n: nat): (r: string)
    ensures StartsWith(r, "Interface Microsoft")
    ensures n != 1 ==> r == "Interface Microsoft " + NatToDecimal(n)
  {
    if n == 1 then "Interface Microsoft" else "Interface Microsoft " + NatToDecimal(n)
  }

  /** Different counts give different names. */
  lemma MicrosoftNameInjective(a: nat, b: nat)
    requires MicrosoftName(a) == MicrosoftName(b)
    ensures a == b
  {
    var p := "Interface Microsoft ";
    if a != 1 && b != 1 {
      assert NatToDecimal(a) == MicrosoftName(a)[|p|..];
      assert NatToDecimal(b) == MicrosoftName(b)[|p|..];
      NatToStringInjective(a, b, 10);
    }
  }

  /** A clean name and the counters after producing it. */
  datatype Named = Named(name: string, counters: Counters)

  predicate IsEthernet(l: string) {
    Contains(l, "ethernet") || Contains(l, "gigabit") || Contains(l, "network adapter")
  }

  predicate IsWireless(l: string) {
    Contains(l, "wifi") || Contains(l, "wireless") || Contains(l, "802.11")
  }

  predicate IsVirtual(l: string) {
    Contains(l, "virtual") || Contains(l, "hyper-v")
  }

  /** The description reaches the Microsoft counter: an NPF device whose
      lower-cased description passes every earlier test, mentions microsoft
      and not kernel. */
  predicate CountsAsMicrosoft(description: string, deviceName: string) {
    var l := Lower(description);
    StartsWith(deviceName, NpfPrefix) && !IsEthernet(l) && !IsWireless(l)
    && !Contains(l, "bluetooth") && !Contains(l, "loopback") && !IsVirtual(l)
    && Contains(l, "microsoft") && !Contains(l, "kernel")
  }

  /** `generate_clean_name`: a readable name for an NPF device, tested in a
      fixed order; any other device keeps its own name. */
  function GenerateCleanName(description: string, deviceName: string, counters: Counters): (r: Named)
    ensures !StartsWith(deviceName, NpfPrefix) ==> r.name == deviceName
    ensures CountsAsMicrosoft(description, deviceName) ==>
      r.counters == counters["Microsoft" := MicrosoftCount(counters) + 1]
      && r.name == MicrosoftName(MicrosoftCount(r.counters))
    ensures !CountsAsMicrosoft(description, deviceName) ==> r.counters == counters
  {
    if StartsWith(deviceName, NpfPrefix) then
      var l := Lower(description);
      if IsEthernet(l) then
        if Contains(l, "aquantia") then Named("Ethernet (Aquantia)", counters)
        else if Contains(l, "intel") then Named("Ethernet (Intel)", counters)
        else if Contains(l, "realtek") then Named("Ethernet (Realtek)", counters)
        else Named("Ethernet", counters)
      else if IsWireless(l) then Named("Wi-Fi", counters)
      else if Contains(l, "bluetooth") then Named("Bluetooth", counters)
      else if Contains(l, "loopback") then Named("Loopback", counters)
      else if IsVirtual(l) then Named("Interface Virtuelle", counters)
      else if Contains(l, "microsoft") then
        if Contains(l, "kernel") then Named("Interface Kernel", counters)
        else
          var count := MicrosoftCount(counters) + 1;
          Named(MicrosoftName(count), counters["Microsoft" := count])
      else Named(ExtractMeaningfulName(description), counters)
    else Named(deviceName, counters)
  }

  /** The branch order: an Ethernet description is named after its vendor
      (Aquantia before Intel before Realtek) whatever else it mentions, and
      a wireless one is "Wi-Fi" even if it also says bluetooth, loopback,
      virtual or microsoft. */
  lemma EthernetFirst(description: string, deviceName: string, counters: Counters)
    requires StartsWith(deviceName, NpfPrefix)
    requires IsEthernet(Lower(description))
    ensures var name := GenerateCleanName(description, deviceName, counters).name;
      name == (if Mentions(description, "aquantia") then "Ethernet (Aquantia)"
        else if Mentions(description, "intel") then "Ethernet (Intel)"
        else if Mentions(description, "realtek") then "Ethernet (Realtek)"
        else "Ethernet")
  {
  }

  lemma WirelessSecond(description: string, deviceName: string, counters: Counters)
    requires StartsWith(deviceName, NpfPrefix)
    requires !IsEthernet(Lower(description)) && IsWireless(Lower(description))
    ensures GenerateCleanName(description, deviceName, counters).name == "Wi-Fi"
  {
  }

  /** Neither wired nor wireless: the first two tests fail. */
  predicate PastRadioTests(description: string) {
    !IsEthernet(Lower(description)) && !IsWireless(Lower(description))
  }

  lemma BluetoothThird(description: string, deviceName: string, counters: Counters)
    requires StartsWith(deviceName, NpfPrefix) && PastRadioTests(description)
    requires Mentions(description, "bluetooth")
    ensures GenerateCleanName(description, deviceName, counters).name == "Bluetooth"
  {
  }

  lemma LoopbackFourth(description: string, deviceName: string, counters: Counters)
    requires StartsWith(deviceName, NpfPrefix) && PastRadioTests(description)
    requires !Mentions(description, "bluetooth") && Mentions(description, "loopback")
    ensures GenerateCleanName(description, deviceName, counters).name == "Loopback"
  {
  }

  lemma VirtualFifth(description: string, deviceName: string, counters: Counters)
    requires StartsWith(deviceName, NpfPrefix) && PastRadioTests(description)
    requires !Mentions(description, "bluetooth") && !Mentions(description, "loopback")
    requires Mentions(description, "virtual") || Mentions(description, "hyper-v")
    ensures GenerateCleanName(description, deviceName, counters).name == "Interface Virtuelle"
  {
  }

  /** A Microsoft description that mentions kernel is named "Interface
      Kernel" and does not move the counter. */
  lemma KernelSixth(description: string, deviceName: string, counters: Counters)
    requires StartsWith(deviceName, NpfPrefix) && PastRadioTests(description)
    requires !Mentions(description, "bluetooth") && !Mentions(description, "loopback")
    requires !IsVirtual(Lower(description))
    requires Mentions(description, "microsoft") && Mentions(description, "kernel")
    ensures GenerateCleanName(description, deviceName, counters) == Named("Interface Kernel", counters)
  {
  }

  /** A description that passes every test is named by its meaningful
      words. */
  lemma MeaningfulLast(description: string, deviceName: string, counters: Counters)
    requires StartsWith(deviceName, NpfPrefix) && PastRadioTests(description)
    requires !Mentions(description, "bluetooth") && !Mentions(description, "loopback")
    requires !IsVirtual(Lower(description)) && !Mentions(description, "microsoft")
    ensures GenerateCleanName(description, deviceName, counters) == Named(ExtractMeaningfulName(description), counters)
  {
  }

  // ---------------------------------------------------------------------
  // extract_meaningful_name (lines 112-136)

  /** Kept by the filter at lines 116-123: longer than two bytes and none of
      the four generic words, compared in lower case. */
  predicate IsMeaningful(word: string) {
    var l := Lower(word);
    Utf8Length(word) > 2 && l != "microsoft" && l != "adapter" && l != "network" && l != "interface"
  }

  /** `take(2)`. */
  function TakeTwo<T>(xs: seq<T>): (r: seq<T>)
    ensures |r| == if |xs| < 2 then |xs| else 2
    ensures r == xs[..|r|]
  {
    if |xs| < 2 then xs else xs[..2]
  }

  /** The first two meaningful words of the description. */
  function MeaningfulWords(description: string): seq<string> {
    TakeTwo(Filter(Words(description), IsMeaningful))
  }

  /** `extract_meaningful_name`: a description of more than two words gives
      its first two meaningful words joined by a space; otherwise, or when
      no word is meaningful, the default name. */
  function ExtractMeaningfulName(description: string): (r: string)
    ensures |Words(description)| <= 2 ==> r == DefaultName
  {
    var parts := Words(description);
    if |parts| > 2 then
      var meaningful := TakeTwo(Filter(parts, IsMeaningful));
      if |meaningful| > 0 then Join(meaningful, " ") else DefaultName
    else DefaultName
  }

  /** Every word `split_whitespace` yields is non-empty and free of
      whitespace. */
  lemma WordsAreWords(s: string)
    ensures forall i :: 0 <= i < |Words(s)| ==> |Words(s)[i]| > 0
    ensures forall i, j :: 0 <= i < |Words(s)| && 0 <= j < |Words(s)[i]| ==> !IsRustWhitespace(Words(s)[i][j])
  {
    var pieces := SplitOn(s, IsRustWhitespace);
    var ws := Words(s);
    forall i, j | 0 <= i < |ws| && 0 <= j < |ws[i]|
      ensures !IsRustWhitespace(ws[i][j])
    {
      FilterElement(pieces, (w: string) => |w| > 0, i);
    }
  }

  /** The extracted name splits back into exactly the words it was made of:
      the first two meaningful words, in their order. A result that is not
      the default name therefore consists of meaningful words only. */
  lemma ExtractedWords(description: string)
    requires |Words(description)| > 2
    ensures MeaningfulWords(description) == [] ==> ExtractMeaningfulName(description) == DefaultName
    ensures MeaningfulWords(description) != [] ==>
      Words(ExtractMeaningfulName(description)) == MeaningfulWords(description)
    ensures forall i :: 0 <= i < |MeaningfulWords(description)| ==> IsMeaningful(MeaningfulWords(description)[i])
  {
    var m := MeaningfulWords(description);
    if m != [] {
      WordsAreWords(description);
      KeptAreWords(Words(description), m);
      WordsJoin(m);
    }
  }

  /** The words kept from a list of words are words. */
  lemma KeptAreWords(parts: seq<string>, m: seq<string>)
    requires forall i :: 0 <= i < |parts| ==> |parts[i]| > 0
    requires forall i, j :: 0 <= i < |parts| && 0 <= j < |parts[i]| ==> !IsRustWhitespace(parts[i][j])
    requires m == TakeTwo(Filter(parts, IsMeaningful))
    ensures forall i :: 0 <= i < |m| ==> |m[i]| > 0
    ensures forall i, j :: 0 <= i < |m| && 0 <= j < |m[i]| ==> !IsRustWhitespace(m[i][j])
  {
    var kept := Filter(parts, IsMeaningful);
    forall i | 0 <= i < |m|
      ensures |m[i]| > 0
      ensures forall j :: 0 <= j < |m[i]| ==> !IsRustWhitespace(m[i][j])
    {
      assert m[i] == kept[i];
      FilterElement(parts, IsMeaningful, i);
    }
  }

  // ---------------------------------------------------------------------
  // get_network_interfaces (lines 14-68)

  /** The interface built from one device (lines 21-49). */
  function InterfaceOf(d: Device, name: string): (r: NetworkInterface)
    ensures r.realName == d.name && r.addresses == d.addresses
    ensures r.isLoopback == IsLoopback(r.description)
    ensures r.isActive == IsActive(r.description, d.addresses)
  {
    var description := DescriptionOf(d.desc);
    NetworkInterface(name, description, d.addresses, IsLoopback(description), IsActive(description, d.addresses), d.name)
  }

  /** The result of the device loop and the counters it leaves behind. */
  datatype Built = Built(interfaces: seq<NetworkInterface>, counters: Counters)

  /** A naming function of the shape of `generate_clean_name`. The device
      loop is written over any such function, so that what is proved about
      the loop rests only on the stated behaviour of the counter. */
  type Namer = (string, string, Counters) -> Named

  /** Which (description, device name) pairs bump the counter. */
  type Bumps = (string, string) -> bool

  /** The counter behaviour of `generate_clean_name`: a pair picked by
      `bumps` raises the Microsoft counter by one and is named by `nameOf`
      after the new value; every other pair leaves the counters alone. */
  ghost predicate Numbers(namer: Namer, bumps: Bumps, nameOf: nat -> string) {
    forall description, deviceName, counters ::
      var r := namer(description, deviceName, counters);
      if bumps(description, deviceName) then
        r.counters == counters["Microsoft" := MicrosoftCount(counters) + 1]
        && r.name == nameOf(MicrosoftCount(counters) + 1)
      else r.counters == counters
  }

  /** `generate_clean_name` numbers the descriptions that reach its
      Microsoft branch with "Interface Microsoft", "Interface Microsoft 2",
      and so on. */
  lemma CleanNameNumbersMicrosoft()
    ensures Numbers(GenerateCleanName, CountsAsMicrosoft, MicrosoftName)
  {
    forall description, deviceName, counters
      ensures var r := GenerateCleanName(description, deviceName, counters);
        if CountsAsMicrosoft(description, deviceName) then
          r.counters == counters["Microsoft" := MicrosoftCount(counters) + 1]
          && r.name == MicrosoftName(MicrosoftCount(counters) + 1)
        else r.counters == counters
    {
      var r := GenerateCleanName(description, deviceName, counters);
      if CountsAsMicrosoft(description, deviceName) {
        assert MicrosoftCount(r.counters) == MicrosoftCount(counters) + 1;
      }
    }
  }

  /** The loop over the device list, threading the counters. */
  function BuildInterfaces(devices: seq<Device>, counters: Counters, namer: Namer): (r: Built)
    ensures |r.interfaces| == |devices|
    ensures forall i :: 0 <= i < |devices| ==> r.interfaces[i].realName == devices[i].name
    ensures forall i :: 0 <= i < |devices| ==> r.interfaces[i].description == DescriptionOf(devices[i].desc)
    ensures forall i :: 0 <= i < |devices| ==> r.interfaces[i].isLoopback == IsLoopback(r.interfaces[i].description)
    decreases |devices|
  {
    if |devices| == 0 then Built([], counters)
    else
      var d := devices[0];
      var named := namer(DescriptionOf(d.desc), d.name, counters);
      var rest := BuildInterfaces(devices[1..], named.counters, namer);
      Built([InterfaceOf(d, named.name)] + rest.interfaces, rest.counters)
  }

  predicate Bumped(bumps: Bumps, d: Device) {
    bumps(DescriptionOf(d.desc), d.name)
  }

  /** How many devices bump the counter. */
  function CountBumps(devices: seq<Device>, bumps: Bumps): (n: nat)
    ensures n <= |devices|
    decreases |devices|
  {
    if |devices| == 0 then 0
    else (if Bumped(bumps, devices[0]) then 1 else 0) + CountBumps(devices[1..], bumps)
  }

  /** The Microsoft devices of a listing: those whose description reaches
      the counter. */
  function MicrosoftDevices(devices: seq<Device>): (n: nat)
    ensures n <= |devices|
  {
    CountBumps(devices, CountsAsMicrosoft)
  }

  /** The counter ends at its start plus the number of devices that bump it. */
  lemma {:induction false} CounterAfterBuild(devices: seq<Device>, counters: Counters, namer: Namer, bumps: Bumps, nameOf: nat -> string)
    requires Numbers(namer, bumps, nameOf)
    ensures MicrosoftCount(BuildInterfaces(devices, counters, namer).counters) == MicrosoftCount(counters) + CountBumps(devices, bumps)
    decreases |devices|
  {
    if |devices| > 0 {
      var d := devices[0];
      var named := namer(DescriptionOf(d.desc), d.name, counters);
      CounterAfterBuild(devices[1..], named.counters, namer, bumps, nameOf);
    }
  }

  /** The name the loop gives the k-th device, followed device by device. */
  function NameAt(devices: seq<Device>, counters: Counters, namer: Namer, k: nat): string
    requires k < |devices|
    decreases k
  {
    var named := namer(DescriptionOf(devices[0].desc), devices[0].name, counters);
    if k == 0 then named.name else NameAt(devices[1..], named.counters, namer, k - 1)
  }

  lemma {:induction false} BuildNamesAt(devices: seq<Device>, counters: Counters, namer: Namer, k: nat)
    requires k < |devices|
    ensures BuildInterfaces(devices, counters, namer).interfaces[k].name == NameAt(devices, counters, namer, k)
    decreases k
  {
    var named := namer(DescriptionOf(devices[0].desc), devices[0].name, counters);
    var restBuilt := BuildInterfaces(devices[1..], named.counters, namer);
    assert BuildInterfaces(devices, counters, namer).interfaces == [InterfaceOf(devices[0], named.name)] + restBuilt.interfaces;
    if k > 0 {
      BuildNamesAt(devices[1..], named.counters, namer, k - 1);
    }
  }

  /** The k-th device, when it bumps the counter, is named after the number
      of bumping devices up to and including it. */
  lemma {:induction false} Numbering(devices: seq<Device>, counters: Counters, k: nat, namer: Namer, bumps: Bumps, nameOf: nat -> string)
    requires Numbers(namer, bumps, nameOf)
    requires k < |devices| && Bumped(bumps, devices[k])
    ensures NameAt(devices, counters, namer, k) == nameOf(MicrosoftCount(counters) + CountBumps(devices[..k + 1], bumps))
    decreases k
  {
    var d := devices[0];
    var named := namer(DescriptionOf(d.desc), d.name, counters);
    var rest := devices[1..];
    var step := if Bumped(bumps, d) then 1 else 0;
    assert MicrosoftCount(named.counters) == MicrosoftCount(counters) + step;
    assert devices[..k + 1][1..] == rest[..k];
    if k > 0 {
      Numbering(rest, named.counters, k - 1, namer, bumps, nameOf);
      assert rest[..k - 1 + 1] == rest[..k];
    } else {
      assert rest[..0] == [];
    }
  }

  /** Of two bumping devices, the later one is named after a larger count. */
  lemma NumberingOrder(devices: seq<Device>, counters: Counters, j: nat, k: nat, namer: Namer, bumps: Bumps, nameOf: nat -> string)
    requires Numbers(namer, bumps, nameOf)
    requires j < k < |devices|
    requires Bumped(bumps, devices[j]) && Bumped(bumps, devices[k])
    ensures exists a: nat, b: nat ::
      && a < b
      && BuildInterfaces(devices, counters, namer).interfaces[j].name == nameOf(a)
      && BuildInterfaces(devices, counters, namer).interfaces[k].name == nameOf(b)
  {
    Numbering(devices, counters, j, namer, bumps, nameOf);
    Numbering(devices, counters, k, namer, bumps, nameOf);
    BuildNamesAt(devices, counters, namer, j);
    BuildNamesAt(devices, counters, namer, k);
    CountBumpsGrows(devices, j, k, bumps);
    var a := MicrosoftCount(counters) + CountBumps(devices[..j + 1], bumps);
    var b := MicrosoftCount(counters) + CountBumps(devices[..k + 1], bumps);
    assert a < b;
  }

  /** A longer prefix holding one more bumping device counts more. */
  lemma {:induction false} CountBumpsGrows(devices: seq<Device>, j: nat, k: nat, bumps: Bumps)
    requires j < k < |devices| && Bumped(bumps, devices[k])
    ensures CountBumps(devices[..j + 1], bumps) < CountBumps(devices[..k + 1], bumps)
    decreases j
  {
    var rest := devices[1..];
    assert devices[..j + 1][1..] == rest[..j];
    assert devices[..k + 1][1..] == rest[..k];
    if j > 0 {
      CountBumpsGrows(rest, j - 1, k - 1, bumps);
    } else {
      CountBumpsPositive(rest, k - 1, bumps);
    }
  }

  lemma {:induction false} CountBumpsPositive(devices: seq<Device>, k: nat, bumps: Bumps)
    requires k < |devices| && Bumped(bumps, devices[k])
    ensures CountBumps(devices[..k + 1], bumps) > 0
    decreases k
  {
    assert devices[..k + 1][1..] == devices[1..][..k];
    if k > 0 && !Bumped(bumps, devices[0]) {
      CountBumpsPositive(devices[1..], k - 1, bumps);
    }
  }

  /** `get_network_interfaces`: `None` stands for a failing device list,
      which gives the single Ethernet fallback (lines 56-66). */
  function GetNetworkInterfaces(listed: Option<seq<Device>>): (r: seq<NetworkInterface>)
    ensures listed.Some? ==> r == BuildInterfaces(listed.value, map[], GenerateCleanName).interfaces
    ensures listed.None? ==> |r| == 1 && r[0].isActive && !r[0].isLoopback
  {
    match listed
    case Some(devices) => BuildInterfaces(devices, map[], GenerateCleanName).interfaces
    case None =>
      [NetworkInterface("Ethernet", "Carte réseau Ethernet (fallback)", ["192.168.1.100"], false, true, "Ethernet")]
  }

  /** In one listing, the k-th device that reaches the Microsoft branch is
      named "Interface Microsoft" for k = 1 and "Interface Microsoft k"
      after that. */
  lemma MicrosoftNumbering(devices: seq<Device>, k: nat)
    requires k < |devices| && CountsAsMicrosoft(DescriptionOf(devices[k].desc), devices[k].name)
    ensures GetNetworkInterfaces(Some(devices))[k].name == MicrosoftName(MicrosoftDevices(devices[..k + 1]))
  {
    CleanNameNumbersMicrosoft();
    Numbering(devices, map[], k, GenerateCleanName, CountsAsMicrosoft, MicrosoftName);
    BuildNamesAt(devices, map[], GenerateCleanName, k);
    assert MicrosoftCount(map[]) == 0;
  }

  /** Within one listing no two Microsoft interfaces get the same name. */
  lemma MicrosoftNamesDistinct(devices: seq<Device>, j: nat, k: nat)
    requires j < k < |devices|
    requires CountsAsMicrosoft(DescriptionOf(devices[j].desc), devices[j].name)
    requires CountsAsMicrosoft(DescriptionOf(devices[k].desc), devices[k].name)
    ensures var ifs := GetNetworkInterfaces(Some(devices));
      ifs[j].name != ifs[k].name
  {
    CleanNameNumbersMicrosoft();
    NumberingOrder(devices, map[], j, k, GenerateCleanName, CountsAsMicrosoft, MicrosoftName);
    var built := BuildInterfaces(devices, map[], GenerateCleanName).interfaces;
    var a: nat, b: nat :| a < b && built[j].name == MicrosoftName(a) && built[k].name == MicrosoftName(b);
    if MicrosoftName(a) == MicrosoftName(b) {
      MicrosoftNameInjective(a, b);
    }
  }

  /** Over a whole listing the counter reaches the number of Microsoft
      devices. */
  lemma MicrosoftCounterAtEnd(devices: seq<Device>)
    ensures MicrosoftCount(BuildInterfaces(devices, map[], GenerateCleanName).counters) == MicrosoftDevices(devices)
  {
    CleanNameNumbersMicrosoft();
    CounterAfterBuild(devices, map[], GenerateCleanName, CountsAsMicrosoft, MicrosoftName);
  }

  // ---------------------------------------------------------------------
  // get_interfaces (src-tauri/src/main.rs, lines 40-51)

  /** The record the page receives: `is_active` travels as `is_up`. */
  datatype UiInterface = UiInterface(
    name: string,
    description: string,
    addresses: seq<string>,
    isLoopback: bool,
    isUp: bool,
    realName: string)

  function ToUi(i: NetworkInterface): UiInterface {
    UiInterface(i.name, i.description, i.addresses, i.isLoopback, i.isActive, i.realName)
  }

  function GetInterfaces(listed: Option<seq<Device>>): (r: seq<UiInterface>)
    ensures |r| == |GetNetworkInterfaces(listed)|
    ensures forall i :: 0 <= i < |r| ==>
      r[i].isUp == GetNetworkInterfaces(listed)[i].isActive
      && r[i].isLoopback == GetNetworkInterfaces(listed)[i].isLoopback
      && r[i].name == GetNetworkInterfaces(listed)[i].name
      && r[i].description == GetNetworkInterfaces(listed)[i].description
  {
    Map(GetNetworkInterfaces(listed), ToUi)
  }
}
