/** The Option 50 panel's statistics (src/components/Option50View.tsx): how
    many logs carry a requested address, out of how many, and the share as
    a whole percentage. */
module Option50View {
  import opened Wrappers
  import opened Seqs
  import opened Backend

  /** `log => log.option_50`: a present, non-empty string is truthy. */
  predicate HasOption50(log: DhcpLog) {
    log.option50.Some? && log.option50.value != ""
  }

  /** `option50Logs` (lines 35 and 89). */
  function Option50Logs(logs: seq<DhcpLog>): (r: seq<DhcpLog>)
    ensures IsSubsequence(r, logs)
    ensures forall i :: 0 <= i < |r| ==> HasOption50(r[i])
    ensures forall x :: multiset(r)[x] == if HasOption50(x) then multiset(logs)[x] else 0
  {
    FilterMultiset(logs, HasOption50);
    Filter(logs, HasOption50)
  }

  /** The logs carrying a requested address, counted one by one: the
      reference the filtered length is compared with. */
  function CountWithOption50(logs: seq<DhcpLog>): (c: nat)
    ensures c <= |logs|
    decreases |logs|
  {
    if |logs| == 0 then 0
    else (if HasOption50(logs[0]) then 1 else 0) + CountWithOption50(logs[1..])
  }

  /** The two statistics the panel shows. */
  datatype Stats = Stats(option50Count: nat, totalPackets: nat)

  /** Lines 35-37 (and 72-74 for the built-in sample). */
  function ComputeStats(logs: seq<DhcpLog>): (r: Stats)
    ensures r.totalPackets == |logs|
    ensures r.option50Count == CountWithOption50(logs)
    ensures r.option50Count <= r.totalPackets
  {
    OptionLogsCounted(logs);
    Stats(|Option50Logs(logs)|, |logs|)
  }

  /** The length of the filtered list is the one-by-one count, which never
      exceeds the number of logs. */
  lemma {:induction false} OptionLogsCounted(logs: seq<DhcpLog>)
    ensures |Option50Logs(logs)| == CountWithOption50(logs) <= |logs|
    decreases |logs|
  {
    if |logs| > 0 {
      OptionLogsCounted(logs[1..]);
    }
  }

  /** Every log is counted exactly when all of them carry an address. */
  lemma {:induction false} AllCounted(logs: seq<DhcpLog>)
    ensures CountWithOption50(logs) == |logs| <==> forall i :: 0 <= i < |logs| ==> HasOption50(logs[i])
    decreases |logs|
  {
    if |logs| > 0 {
      var tail := logs[1..];
      AllCounted(tail);
      if CountWithOption50(logs) == |logs| {
        forall i | 0 <= i < |logs|
          ensures HasOption50(logs[i])
        {
          if i > 0 {
            assert logs[i] == tail[i - 1];
          }
        }
      } else if HasOption50(logs[0]) {
        var i :| 0 <= i < |tail| && !HasOption50(tail[i]);
        assert logs[i + 1] == tail[i];
      }
    }
  }

  /** No log is counted exactly when none carries an address. */
  lemma {:induction false} NoneCounted(logs: seq<DhcpLog>)
    ensures CountWithOption50(logs) == 0 <==> forall i :: 0 <= i < |logs| ==> !HasOption50(logs[i])
    decreases |logs|
  {
    if |logs| > 0 {
      var tail := logs[1..];
      NoneCounted(tail);
      if CountWithOption50(logs) == 0 {
        forall i | 0 <= i < |logs|
          ensures !HasOption50(logs[i])
        {
          if i > 0 {
            assert logs[i] == tail[i - 1];
          }
        }
      } else if !HasOption50(logs[0]) {
        var i :| 0 <= i < |tail| && HasOption50(tail[i]);
        assert logs[i + 1] == tail[i];
      }
    }
  }

  // ---------------------------------------------------------------------
  // The percentage (line 196)

  /** `totalPackets > 0 ? Math.round(count / total * 100) : 0`, in exact
      integers: the quotient rounded half up. */
  function Percentage(count: nat, total: nat): (p: nat)
    ensures total == 0 ==> p == 0
    ensures total > 0 ==> p * (2 * total) <= 200 * count + total < (p + 1) * (2 * total)
  {
    if total == 0 then 0 else (200 * count + total) / (2 * total)
  }

  /** Products keep the order of their left factors. */
  lemma MulLe(a: int, b: int, c: int)
    requires a <= b && c >= 0
    ensures a * c <= b * c
  {
  }

  /** A value lies between two neighbouring multiples of `d` for one
      quotient only. */
  lemma QuotientUnique(p: int, q: int, d: int, a: int)
    requires d > 0
    requires p * d <= a < (p + 1) * d
    requires q * d <= a < (q + 1) * d
    ensures p == q
  {
    if p < q {
      MulLe(p + 1, q, d);
    } else if q < p {
      MulLe(q + 1, p, d);
    }
  }

  /** The percentage is the integer nearest to 100·count/total, halves going
      up: the distance is at most half a step, and exactly half only below. */
  lemma PercentageIsNearest(count: nat, total: nat)
    requires total > 0
    ensures -(total as int) <= 2 * (100 * count as int - Percentage(count, total) * total) < total
  {
    var p := Percentage(count, total);
    assert p * (2 * total) == 2 * (p * total);
    assert (p + 1) * (2 * total) == 2 * (p * total) + 2 * total;
  }

  /** A count no larger than the total gives a percentage from 0 to 100. */
  lemma PercentageBounds(count: nat, total: nat)
    requires count <= total
    ensures 0 <= Percentage(count, total) <= 100
  {
    var p := Percentage(count, total);
    if total > 0 && p > 100 {
      MulLe(101, p, 2 * total);
    }
  }

  /** More logs with an address never lower the percentage. */
  lemma PercentageMonotone(c1: nat, c2: nat, total: nat)
    requires c1 <= c2
    ensures Percentage(c1, total) <= Percentage(c2, total)
  {
    var p1, p2 := Percentage(c1, total), Percentage(c2, total);
    if total > 0 && p1 > p2 {
      MulLe(p2 + 1, p1, 2 * total);
    }
  }

  /** The shown percentage of a list of logs: 100 when every log carries an
      address, 0 when none does or when there are none. */
  lemma PercentageOfLogs(logs: seq<DhcpLog>)
    ensures var s := ComputeStats(logs);
      0 <= Percentage(s.option50Count, s.totalPackets) <= 100
    ensures (forall i :: 0 <= i < |logs| ==> HasOption50(logs[i])) && |logs| > 0 ==>
      Percentage(ComputeStats(logs).option50Count, ComputeStats(logs).totalPackets) == 100
    ensures (forall i :: 0 <= i < |logs| ==> !HasOption50(logs[i])) ==>
      Percentage(ComputeStats(logs).option50Count, ComputeStats(logs).totalPackets) == 0
  {
    var s := ComputeStats(logs);
    AllCounted(logs);
    NoneCounted(logs);
    PercentageBounds(s.option50Count, s.totalPackets);
    if s.totalPackets > 0 {
      FullShare(s.totalPackets);
      NoShare(s.totalPackets);
    }
  }

  lemma FullShare(total: nat)
    requires total > 0
    ensures Percentage(total, total) == 100
  {
    QuotientUnique(Percentage(total, total), 100, 2 * total, 200 * total + total);
  }

  lemma NoShare(total: nat)
    requires total > 0
    ensures Percentage(0, total) == 0
  {
    QuotientUnique(Percentage(0, total), 0, 2 * total, total);
  }

  /** Rounding reaches 100 before every log carries an address: 199 of 200
      is shown as 100%. */
  lemma RoundsUpToFull()
    ensures Percentage(199, 200) == 100
  {
  }

  // ---------------------------------------------------------------------
  // The built-in sample (lines 40-74)

  /** The three sample logs shown outside the desktop shell; their times are
      read from the clock, so they are parameters here. */
  function SampleLogs(t0: string, t1: string, t2: string): (r: seq<DhcpLog>)
    ensures |r| == 3
  {
    [ DhcpLog(t0, "DISCOVER", "0.0.0.0", "255.255.255.255", Some("192.168.1.100"), "Ethernet", "Simulation de paquet DHCP"),
      DhcpLog(t1, "OFFER", "192.168.1.1", "192.168.1.100", Some("192.168.1.100"), "Ethernet", "Simulation de paquet DHCP"),
      DhcpLog(t2, "REQUEST", "0.0.0.0", "255.255.255.255", None, "Ethernet", "Simulation de paquet DHCP") ]
  }

  /** The sample gives 2 of 3, shown as 67%. */
  lemma SampleStats(t0: string, t1: string, t2: string)
    ensures ComputeStats(SampleLogs(t0, t1, t2)) == Stats(2, 3)
    ensures Percentage(2, 3) == 67
  {
    var logs := SampleLogs(t0, t1, t2);
    var tail := logs[1..];
    var last := tail[1..];
    assert last[1..] == [];
    assert CountWithOption50(last) == 0;
    assert CountWithOption50(tail) == 1;
    assert CountWithOption50(logs) == 2;
  }
}
