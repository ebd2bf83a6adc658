/** The interface panel (src/components/NetworkView.tsx): the split into
    ordinary and loopback interfaces, the counts in its header and footer,
    the icon chosen for each interface and its status text. */
module NetworkView {
  import opened Wrappers
  import opened Seqs
  import opened Text
  import opened NetworkInterfaces

  /** The icon `getInterfaceIcon` draws, as a kind. */
  datatype Kind = LoopbackKind | WifiKind | EthernetKind | ServerKind

  /** `getInterfaceIcon` (lines 18-31): the loopback flag first, then the
      lower-cased description, wireless words before wired ones. */
  function InterfaceKind(iface: UiInterface): (k: Kind)
    ensures k == LoopbackKind <==> iface.isLoopback
  {
    if iface.isLoopback then LoopbackKind
    else
      var desc := Lower(iface.description);
      if Contains(desc, "wifi") || Contains(desc, "wireless") || Contains(desc, "wlan") then WifiKind
      else if Contains(desc, "ethernet") || Contains(desc, "lan") then EthernetKind
      else ServerKind
  }

  /** An ordinary interface whose description names a wireless word is
      drawn as Wi-Fi. */
  lemma WirelessWordsAreWifi(iface: UiInterface)
    requires !iface.isLoopback
    requires ContainsAny(Lower(iface.description), ["wifi", "wireless", "wlan"])
    ensures InterfaceKind(iface) == WifiKind
  {
    var desc := Lower(iface.description);
    var words := ["wifi", "wireless", "wlan"];
    var k :| 0 <= k < |words| && Contains(desc, words[k]);
    assert k == 0 || k == 1 || k == 2;
  }

  /** One without a wireless word but naming ethernet or lan is drawn as
      wired. */
  lemma WiredWordsAreEthernet(iface: UiInterface)
    requires !iface.isLoopback
    requires !ContainsAny(Lower(iface.description), ["wifi", "wireless", "wlan"])
    requires ContainsAny(Lower(iface.description), ["ethernet", "lan"])
    ensures InterfaceKind(iface) == EthernetKind
  {
    var desc := Lower(iface.description);
    var wireless := ["wifi", "wireless", "wlan"];
    assert !Contains(desc, wireless[0]) && !Contains(desc, wireless[1]) && !Contains(desc, wireless[2]);
    var wired := ["ethernet", "lan"];
    var k :| 0 <= k < |wired| && Contains(desc, wired[k]);
    assert k == 0 || k == 1;
  }

  /** Every description mentioning "wlan" also mentions "lan", yet such an
      interface is shown as Wi-Fi, because the wireless test comes first. */
  lemma WlanIsWifi(iface: UiInterface)
    requires !iface.isLoopback
    requires Contains(Lower(iface.description), "wlan")
    ensures Contains(Lower(iface.description), "lan")
    ensures InterfaceKind(iface) == WifiKind
  {
    var desc := Lower(iface.description);
    assert Contains("wlan", "lan") by {
      assert "wlan"[1..4] == "lan";
      assert OccursAt("wlan", "lan", 1);
    }
    ContainsTransitive(desc, "wlan", "lan");
  }

  /** A non-loopback interface is drawn as a server exactly when its
      description mentions none of the five words. */
  lemma ServerIffNoWords(iface: UiInterface)
    requires !iface.isLoopback
    ensures InterfaceKind(iface) == ServerKind <==>
      !ContainsAny(Lower(iface.description), ["wifi", "wireless", "wlan", "ethernet", "lan"])
  {
    var desc := Lower(iface.description);
    var words := ["wifi", "wireless", "wlan", "ethernet", "lan"];
    if ContainsAny(desc, words) {
      var k :| 0 <= k < |words| && Contains(desc, words[k]);
      assert k == 0 || k == 1 || k == 2 || k == 3 || k == 4;
    } else {
      assert !Contains(desc, words[0]) && !Contains(desc, words[1]) && !Contains(desc, words[2]);
      assert !Contains(desc, words[3]) && !Contains(desc, words[4]);
    }
  }

  /** `getStatusText` (lines 41-43). */
  function StatusText(isUp: bool): (r: string)
    ensures r == "Actif" || r == "Inactif"
    ensures r == "Actif" <==> isUp
  {
    if isUp then "Actif" else "Inactif"
  }

  // ---------------------------------------------------------------------
  // The two sections and the counts (lines 51-52, 69, 209-212)

  predicate IsLoopbackUi(iface: UiInterface) {
    iface.isLoopback
  }

  predicate IsNotLoopbackUi(iface: UiInterface) {
    !iface.isLoopback
  }

  predicate IsUp(iface: UiInterface) {
    iface.isUp
  }

  /** `activeInterfaces`: every interface that is not loopback, up or not. */
  function ActiveInterfaces(ifs: seq<UiInterface>): (r: seq<UiInterface>)
    ensures IsSubsequence(r, ifs)
    ensures forall i :: 0 <= i < |r| ==> !r[i].isLoopback
  {
    Filter(ifs, IsNotLoopbackUi)
  }

  /** `loopbackInterfaces`. */
  function LoopbackInterfaces(ifs: seq<UiInterface>): (r: seq<UiInterface>)
    ensures IsSubsequence(r, ifs)
    ensures forall i :: 0 <= i < |r| ==> r[i].isLoopback
  {
    Filter(ifs, IsLoopbackUi)
  }

  /** The two sections split the list: their sizes add up to the footer's
      total and together they hold every interface exactly once. */
  lemma {:induction false} SectionsPartition(ifs: seq<UiInterface>)
    ensures |ActiveInterfaces(ifs)| + |LoopbackInterfaces(ifs)| == |ifs|
    ensures multiset(ActiveInterfaces(ifs)) + multiset(LoopbackInterfaces(ifs)) == multiset(ifs)
    decreases |ifs|
  {
    if |ifs| > 0 {
      SectionsPartition(ifs[1..]);
      assert ifs == [ifs[0]] + ifs[1..];
    }
  }

  /** The header's count: the ordinary interfaces that are up. */
  function UpCount(ifs: seq<UiInterface>): (n: nat)
    ensures n <= |ActiveInterfaces(ifs)|
  {
    FilterPartition(ActiveInterfaces(ifs), IsUp);
    |Filter(ActiveInterfaces(ifs), IsUp)|
  }

  /** The header never counts more than the footer's "available" figure,
      which never exceeds the footer's total. */
  lemma CountsOrdered(ifs: seq<UiInterface>)
    ensures UpCount(ifs) <= |ActiveInterfaces(ifs)| <= |ifs|
  {
    SectionsPartition(ifs);
  }

  /** An interface is in the header count exactly when it is up and not
      loopback, counted one by one. */
  function CountUpOrdinary(ifs: seq<UiInterface>): nat
    decreases |ifs|
  {
    if |ifs| == 0 then 0
    else (if ifs[0].isUp && !ifs[0].isLoopback then 1 else 0) + CountUpOrdinary(ifs[1..])
  }

  lemma {:induction false} UpCountCounts(ifs: seq<UiInterface>)
    ensures UpCount(ifs) == CountUpOrdinary(ifs)
    decreases |ifs|
  {
    if |ifs| > 0 {
      UpCountCounts(ifs[1..]);
    }
  }

  /** For interfaces listed by the backend, the loopback section holds
      exactly those whose description mentions loopback, and an ordinary
      interface is never drawn with the loopback icon. */
  lemma ListedSections(devices: seq<Device>)
    ensures var ifs := GetInterfaces(Some(devices));
      (forall i :: 0 <= i < |LoopbackInterfaces(ifs)| ==> IsLoopback(LoopbackInterfaces(ifs)[i].description))
      && (forall i :: 0 <= i < |ActiveInterfaces(ifs)| ==>
            !IsLoopback(ActiveInterfaces(ifs)[i].description)
            && InterfaceKind(ActiveInterfaces(ifs)[i]) != LoopbackKind)
  {
    var ifs := GetInterfaces(Some(devices));
    var loops := LoopbackInterfaces(ifs);
    var ordinary := ActiveInterfaces(ifs);
    forall i | 0 <= i < |loops|
      ensures IsLoopback(loops[i].description)
    {
      FilterElement(ifs, IsLoopbackUi, i);
      var j :| 0 <= j < |ifs| && ifs[j] == loops[i];
    }
    forall i | 0 <= i < |ordinary|
      ensures !IsLoopback(ordinary[i].description)
    {
      FilterElement(ifs, IsNotLoopbackUi, i);
      var j :| 0 <= j < |ifs| && ifs[j] == ordinary[i];
    }
  }
}
