/** The log table's search box and its "clear" button
    (src/components/LogsView.tsx). */
module LogsView {
  import opened Wrappers
  import opened Seqs
  import opened Text
  import opened Backend

  /** `log.option_50 && log.option_50.includes(q)`: both `null` and the
      empty string are falsy, so neither ever matches. */
  predicate Option50Matches(o: Option<string>, q: string) {
    o.Some? && o.value != "" && Contains(o.value, q)
  }

  /** The predicate of `filteredLogs`: the packet type is compared after
      lower-casing both sides, the addresses as they are. */
  predicate Matches(q: string, log: DhcpLog) {
    Contains(Lower(log.packetType), Lower(q))
    || Contains(log.sourceIp, q)
    || Contains(log.destinationIp, q)
    || Option50Matches(log.option50, q)
  }

  /** The filter callback for query `q`, named so that every use denotes the
      same function value. */
  function Matcher(q: string): DhcpLog -> bool {
    log => Matches(q, log)
  }

  /** `filteredLogs`: the logs that match, in their order. */
  function FilteredLogs(logs: seq<DhcpLog>, q: string): (r: seq<DhcpLog>)
    ensures IsSubsequence(r, logs)
    ensures forall i :: 0 <= i < |r| ==> Matches(q, r[i])
    ensures forall x :: multiset(r)[x] == if Matches(q, x) then multiset(logs)[x] else 0
  {
    FilterMultiset(logs, Matcher(q));
    Filter(logs, Matcher(q))
  }

  /** An empty search box shows every log. */
  lemma EmptyQueryKeepsAll(logs: seq<DhcpLog>)
    ensures FilteredLogs(logs, "") == logs
  {
    forall i | 0 <= i < |logs|
      ensures Matcher("")(logs[i])
    {
      ContainsEmpty(logs[i].sourceIp);
    }
    FilterKeepsAll(logs, Matcher(""));
  }

  /** Searching the shown logs again for the same text shows the same logs. */
  lemma FilterTwice(logs: seq<DhcpLog>, q: string)
    ensures FilteredLogs(FilteredLogs(logs, q), q) == FilteredLogs(logs, q)
  {
    FilterIdempotent(logs, Matcher(q));
  }

  /** A log that matches a longer query matches every part of it. */
  lemma MatchesNarrowing(q: string, longer: string, log: DhcpLog)
    requires Contains(longer, q)
    requires Matches(longer, log)
    ensures Matches(q, log)
  {
    if Contains(Lower(log.packetType), Lower(longer)) {
      LowerContains(longer, q);
      ContainsTransitive(Lower(log.packetType), Lower(longer), Lower(q));
    } else if Contains(log.sourceIp, longer) {
      ContainsTransitive(log.sourceIp, longer, q);
    } else if Contains(log.destinationIp, longer) {
      ContainsTransitive(log.destinationIp, longer, q);
    } else {
      ContainsTransitive(log.option50.value, longer, q);
    }
  }

  /** Typing more characters only removes logs: filtering for the longer
      query is the same as first filtering for any part of it. */
  lemma QueryNarrowing(logs: seq<DhcpLog>, q: string, longer: string)
    requires Contains(longer, q)
    ensures FilteredLogs(FilteredLogs(logs, q), longer) == FilteredLogs(logs, longer)
    ensures forall log :: multiset(FilteredLogs(logs, longer))[log] > 0 ==> Matches(q, log)
  {
    forall i | 0 <= i < |logs| && Matcher(longer)(logs[i])
      ensures Matcher(q)(logs[i])
    {
      MatchesNarrowing(q, longer, logs[i]);
    }
    FilterNarrowing(logs, Matcher(q), Matcher(longer));
    forall log | multiset(FilteredLogs(logs, longer))[log] > 0
      ensures Matches(q, log)
    {
      MatchesNarrowing(q, longer, log);
    }
  }

  /** The packet type is matched without regard to case: a log whose type
      differs only in case is kept or dropped alike. */
  lemma TypeMatchIgnoresCase(q: string, log: DhcpLog, t: string)
    requires Lower(t) == Lower(log.packetType)
    ensures Matches(q, log.(packetType := t)) <==> Matches(q, log)
  {
  }

  /** A query differing only in case finds the same types: a log found
      through its type is found by both queries, and a log whose addresses
      contain neither query is found by both or by neither. */
  lemma QueryCaseIgnoredForType(q: string, q2: string, log: DhcpLog)
    requires Lower(q) == Lower(q2)
    ensures Contains(Lower(log.packetType), Lower(q)) ==> Matches(q, log) && Matches(q2, log)
    ensures !Contains(log.sourceIp, q) && !Contains(log.destinationIp, q) && !Option50Matches(log.option50, q)
      && !Contains(log.sourceIp, q2) && !Contains(log.destinationIp, q2) && !Option50Matches(log.option50, q2)
      ==> (Matches(q, log) <==> Matches(q2, log))
  {
  }

  /** The addresses are matched with case: an upper-case query does not find
      a lower-case address. */
  lemma AddressMatchKeepsCase(log: DhcpLog)
    requires log.packetType == "" && log.sourceIp == "a" && log.destinationIp == "a"
    requires log.option50 == None
    ensures !Matches("A", log)
    ensures Matches("a", log)
  {
    assert Lower("A") == "a";
    assert !Contains("a", "A") by {
      assert "a"[0..1][0] != "A"[0];
    }
    assert OccursAt("a", "a", 0);
  }

  /** Without a requested address, a log matches only through its type or
      its addresses. */
  lemma NoOption50MatchesElsewhere(q: string, log: DhcpLog)
    requires log.option50 == None || log.option50 == Some("")
    ensures Matches(q, log) <==>
      Contains(Lower(log.packetType), Lower(q)) || Contains(log.sourceIp, q) || Contains(log.destinationIp, q)
  {
  }

  // ---------------------------------------------------------------------
  // clearLogs (lines 74-89)

  /** Where the page runs: inside the desktop shell, which has the backend,
      or in a plain browser. */
  datatype Host = Desktop | Browser

  /** How the `clear_logs` call ends: it returns, or it throws (the backend
      reports a poisoned lock). */
  datatype CallOutcome = Returned | Threw

  /** The page's list and the backend's store. */
  datatype Screen = Screen(shown: seq<DhcpLog>, store: LogStore)

  /** `clearLogs`: on the desktop the backend is cleared first, and the page
      empties its own list only once that call has returned; a throw skips
      the reset. In a browser there is no call and the list is emptied. */
  function ClearLogsClicked(s: Screen, host: Host, outcome: CallOutcome): (r: Screen)
    ensures r.shown == [] || r == s
    ensures r.shown == [] <==> s.shown == [] || host == Browser || outcome == Returned
    ensures host == Browser ==> r.store == s.store
    ensures host == Desktop && outcome == Returned ==> GetLogs(r.store) == []
    ensures host == Desktop && outcome == Threw ==> r == s
  {
    match host
    case Browser => s.(shown := [])
    case Desktop =>
      match outcome
      case Returned => Screen([], ClearLogs(s.store))
      case Threw => s
  }

  /** The page shows what the backend holds. */
  predicate InSync(s: Screen) {
    s.shown == GetLogs(s.store)
  }

  /** On the desktop, clearing keeps the page in step with the backend
      whichever way the call ends: the page is never emptied while the
      backend still holds logs. */
  lemma ClearKeepsInSync(s: Screen, outcome: CallOutcome)
    requires InSync(s)
    ensures InSync(ClearLogsClicked(s, Desktop, outcome))
  {
  }
}
