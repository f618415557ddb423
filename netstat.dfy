/** `check_netstat` and the threshold part of `main` in check_netstat/check_netstat.py:
    count the TCP connections, over IPv4 and IPv6, whose remote end is a given host and
    port, per state, and raise an alert on the number of established ones. */
module Netstat {
  import opened Wrappers
  import opened Strings
  import opened HexCodec
  import opened TcpStates
  import opened Rows
  import opened Plugin

  // The state names the count compares against.
  const Established: string := "ESTABLISHED"
  const SynSent: string := "SYN_SENT"
  const SynRecv: string := "SYN_RECV"
  const FinWait1: string := "FIN_WAIT1"
  const FinWait2: string := "FIN_WAIT2"
  const TimeWait: string := "TIME_WAIT"
  const CloseWait: string := "CLOSE_WAIT"
  const LastAck: string := "LAST_ACK"
  const Listen: string := "LISTEN"
  const Closing: string := "CLOSING"
  const Closed: string := "CLOSED"
  const Close: string := "CLOSE"

  /** The `results` dictionary of `check_netstat`. It has no `closed` key. */
  datatype Counters = Counters(
    connections: nat,
    established: nat,
    synSent: nat,
    synRecv: nat,
    finWait1: nat,
    finWait2: nat,
    timeWait: nat,
    close: nat,
    closeWait: nat,
    lastAck: nat,
    listen: nat,
    closing: nat)

  const NoCounts: Counters := Counters(0, 0, 0, 0, 0, 0, 0, 0, 0, 0, 0, 0)

  /** `'%s:%d' % (host, port)` */
  function Destination(host: string, port: int): string
  {
    host + ":" + ToDecimal(port)
  }

  /** The test of the loop: only the remote end of a record is compared. */
  predicate Targets(record: Connection, destination: string, destinationV6: string)
  {
    record.remote == destination || record.remote == destinationV6
  }

  /** The counters after one matching record: `connections` and the bucket of the
      record's state go up. `CLOSING` and unknown names have no bucket; `CLOSED` would
      raise, since `results` has no `closed` key. */
  function Bump(results: Counters, state: string): Result<Counters>
  {
    var results := results.(connections := results.connections + 1);
    if state == Established then Success(results.(established := results.established + 1))
    else if state == SynSent then Success(results.(synSent := results.synSent + 1))
    else if state == SynRecv then Success(results.(synRecv := results.synRecv + 1))
    else if state == FinWait1 then Success(results.(finWait1 := results.finWait1 + 1))
    else if state == FinWait2 then Success(results.(finWait2 := results.finWait2 + 1))
    else if state == TimeWait then Success(results.(timeWait := results.timeWait + 1))
    else if state == Close then Success(results.(close := results.close + 1))
    else if state == CloseWait then Success(results.(closeWait := results.closeWait + 1))
    else if state == LastAck then Success(results.(lastAck := results.lastAck + 1))
    else if state == Listen then Success(results.(listen := results.listen + 1))
    else if state == Closed then Failure(KeyError("closed"))
    else Success(results)
  }

  /** The counters after the loop has seen `records`. */
  function Tally(records: seq<Connection>, destination: string, destinationV6: string): Result<Counters>
  {
    if |records| == 0 then Success(NoCounts)
    else
      var results :- Tally(records[..|records| - 1], destination, destinationV6);
      var record := records[|records| - 1];
      if Targets(record, destination, destinationV6) then Bump(results, record.state)
      else Success(results)
  }

  /** `check_netstat(dhost, dport)`: scan tcp then tcp6, build both forms of the
      destination, then count. */
  function CheckNetstatSpec(dhost: string, dport: int, tcp4Lines: seq<string>, tcp6Lines: seq<string>, sys: System)
    : Result<Counters>
  {
    var tcp4 :- ParseAll(tcp4Lines, RowParser(V4, Tcp, sys));
    var tcp6 :- ParseAll(tcp6Lines, RowParser(V6, Tcp, sys));
    var mapped :- Ipv4ToIpv6(dhost);
    Tally(tcp4 + tcp6, Destination(dhost, dport), Destination(mapped, dport))
  }

  /** `check_netstat` as the source runs it: the two scans, then the counting loop. */
  method CheckNetstat(dhost: string, dport: int, tcp4Lines: seq<string>, tcp6Lines: seq<string>, sys: System)
    returns (result: Result<Counters>)
    ensures result == CheckNetstatSpec(dhost, dport, tcp4Lines, tcp6Lines, sys)
  {
    var tcp4 :- NetstatTable(tcp4Lines, V4, Tcp, sys);
    var tcp6 :- NetstatTable(tcp6Lines, V6, Tcp, sys);
    var connections := tcp4 + tcp6;
    var destination := Destination(dhost, dport);
    var mapped :- Ipv4ToIpv6(dhost);
    var destinationV6 := Destination(mapped, dport);
    result := CountConnections(connections, destination, destinationV6);
  }

  /** The loop of `check_netstat`: one pass over the records that increments the
      counters of those whose remote end is the destination. */
  method CountConnections(connections: seq<Connection>, destination: string, destinationV6: string)
    returns (result: Result<Counters>)
    ensures result == Tally(connections, destination, destinationV6)
  {
    var results := NoCounts;
    for i := 0 to |connections|
      invariant Tally(connections[..i], destination, destinationV6) == Success(results)
    {
      ghost var before := results;
      TallyStep(connections, i, destination, destinationV6, before);
      var target, state := connections[i].remote, connections[i].state;
      if target == destination || target == destinationV6 {
        results := results.(connections := results.connections + 1);
        // The source tests each name in turn; at most one test can hold, so the tests
        // are chained here.
        if state == Established {
          results := results.(established := results.established + 1);
        } else if state == SynSent {
          results := results.(synSent := results.synSent + 1);
        } else if state == SynRecv {
          results := results.(synRecv := results.synRecv + 1);
        } else if state == FinWait1 {
          results := results.(finWait1 := results.finWait1 + 1);
        } else if state == FinWait2 {
          results := results.(finWait2 := results.finWait2 + 1);
        } else if state == TimeWait {
          results := results.(timeWait := results.timeWait + 1);
        } else if state == Close {
          results := results.(close := results.close + 1);
        } else if state == CloseWait {
          results := results.(closeWait := results.closeWait + 1);
        } else if state == LastAck {
          results := results.(lastAck := results.lastAck + 1);
        } else if state == Listen {
          results := results.(listen := results.listen + 1);
        } else if state == Closed {
          TallyFailureSticks(connections, i + 1, destination, destinationV6);
          return Failure(KeyError("closed"));
        }
        assert Bump(before, state) == Success(results);
      }
    }
    assert connections[..|connections|] == connections;
    return Success(results);
  }

  /** One more record seen by the loop. */
  lemma TallyStep(records: seq<Connection>, i: nat, destination: string, destinationV6: string, before: Counters)
    requires i < |records| && Tally(records[..i], destination, destinationV6) == Success(before)
    ensures Tally(records[..i + 1], destination, destinationV6)
         == if Targets(records[i], destination, destinationV6) then Bump(before, records[i].state) else Success(before)
  {
    assert records[..i + 1][..i] == records[..i];
  }

  /** Once the loop has raised, the whole count has raised. */
  lemma {:induction false} TallyFailureSticks(records: seq<Connection>, k: nat, destination: string, destinationV6: string)
    requires k <= |records| && Tally(records[..k], destination, destinationV6).Failure?
    ensures Tally(records, destination, destinationV6) == Tally(records[..k], destination, destinationV6)
    decreases |records|
  {
    if k < |records| {
      var init := records[..|records| - 1];
      assert init[..k] == records[..k];
      TallyFailureSticks(init, k, destination, destinationV6);
    } else {
      assert records[..k] == records;
    }
  }

  // ---------------------------------------------------------------------------
  // Reference definitions

  /** The records the loop counts, in order. */
  function Matching(records: seq<Connection>, destination: string, destinationV6: string): seq<Connection>
  {
    if |records| == 0 then []
    else
      var record := records[|records| - 1];
      Matching(records[..|records| - 1], destination, destinationV6)
        + (if Targets(record, destination, destinationV6) then [record] else [])
  }

  /** How many of `records` are in `state`. */
  function CountState(records: seq<Connection>, state: string): nat
  {
    if |records| == 0 then 0
    else CountState(records[..|records| - 1], state) + (if records[|records| - 1].state == state then 1 else 0)
  }

  lemma CountStateSnoc(records: seq<Connection>, record: Connection, state: string)
    ensures CountState(records + [record], state) == CountState(records, state) + (if record.state == state then 1 else 0)
  {
    assert (records + [record])[..|records|] == records;
  }

  // ---------------------------------------------------------------------------
  // Properties of the count

  /** The count fails exactly when a counted record is `CLOSED`. Otherwise `connections`
      is the number of counted records, each bucket the number of counted records in its
      state, and `closing` stays 0. */
  lemma {:induction false} TallyCounts(records: seq<Connection>, destination: string, destinationV6: string)
    ensures var m := Matching(records, destination, destinationV6);
      Tally(records, destination, destinationV6).Success? <==> CountState(m, Closed) == 0
    ensures var m := Matching(records, destination, destinationV6);
      var result := Tally(records, destination, destinationV6);
      result.Success? ==>
        && result.value.connections == |m|
        && result.value.established == CountState(m, Established)
        && result.value.synSent == CountState(m, SynSent)
        && result.value.synRecv == CountState(m, SynRecv)
        && result.value.finWait1 == CountState(m, FinWait1)
        && result.value.finWait2 == CountState(m, FinWait2)
        && result.value.timeWait == CountState(m, TimeWait)
        && result.value.close == CountState(m, Close)
        && result.value.closeWait == CountState(m, CloseWait)
        && result.value.lastAck == CountState(m, LastAck)
        && result.value.listen == CountState(m, Listen)
        && result.value.closing == 0
  {
    if |records| > 0 {
      var init := records[..|records| - 1];
      var record := records[|records| - 1];
      TallyCounts(init, destination, destinationV6);
      var m := Matching(init, destination, destinationV6);
      if Targets(record, destination, destinationV6) {
        assert Matching(records, destination, destinationV6) == m + [record];
        BumpCounts(m, record, Tally(init, destination, destinationV6));
      } else {
        assert Matching(records, destination, destinationV6) == m;
      }
    }
  }

  /** One counted record, for `TallyCounts`. */
  lemma BumpCounts(m: seq<Connection>, record: Connection, before: Result<Counters>)
    requires before.Success? <==> CountState(m, Closed) == 0
    requires before.Success? ==>
        && before.value.connections == |m|
        && before.value.established == CountState(m, Established)
        && before.value.synSent == CountState(m, SynSent)
        && before.value.synRecv == CountState(m, SynRecv)
        && before.value.finWait1 == CountState(m, FinWait1)
        && before.value.finWait2 == CountState(m, FinWait2)
        && before.value.timeWait == CountState(m, TimeWait)
        && before.value.close == CountState(m, Close)
        && before.value.closeWait == CountState(m, CloseWait)
        && before.value.lastAck == CountState(m, LastAck)
        && before.value.listen == CountState(m, Listen)
        && before.value.closing == 0
    ensures var after := if before.Success? then Bump(before.value, record.state) else before;
      var m' := m + [record];
      && (after.Success? <==> CountState(m', Closed) == 0)
      && (after.Success? ==>
        && after.value.connections == |m'|
        && after.value.established == CountState(m', Established)
        && after.value.synSent == CountState(m', SynSent)
        && after.value.synRecv == CountState(m', SynRecv)
        && after.value.finWait1 == CountState(m', FinWait1)
        && after.value.finWait2 == CountState(m', FinWait2)
        && after.value.timeWait == CountState(m', TimeWait)
        && after.value.close == CountState(m', Close)
        && after.value.closeWait == CountState(m', CloseWait)
        && after.value.lastAck == CountState(m', LastAck)
        && after.value.listen == CountState(m', Listen)
        && after.value.closing == 0)
  {
    CountStateSnoc(m, record, Closed);
    CountStateSnoc(m, record, Established);
    CountStateSnoc(m, record, SynSent);
    CountStateSnoc(m, record, SynRecv);
    CountStateSnoc(m, record, FinWait1);
    CountStateSnoc(m, record, FinWait2);
    CountStateSnoc(m, record, TimeWait);
    CountStateSnoc(m, record, Close);
    CountStateSnoc(m, record, CloseWait);
    CountStateSnoc(m, record, LastAck);
    CountStateSnoc(m, record, Listen);
  }

  /** Records that do not target the destination change no counter: the count over all
      records is the count over the matching ones. */
  lemma {:induction false} NonMatchingIgnored(records: seq<Connection>, destination: string, destinationV6: string)
    ensures Tally(records, destination, destinationV6)
         == Tally(Matching(records, destination, destinationV6), destination, destinationV6)
  {
    if |records| > 0 {
      var init := records[..|records| - 1];
      var record := records[|records| - 1];
      var m := Matching(init, destination, destinationV6);
      NonMatchingIgnored(init, destination, destinationV6);
      if Targets(record, destination, destinationV6) {
        assert (m + [record])[..|m|] == m;
      } else {
        assert Matching(records, destination, destinationV6) == m;
      }
    }
  }

  /** Over records whose states are names from `TCP_STATE`, as every scanned record's
      is, `connections` is the sum of the ten buckets plus the counted `CLOSING` rows. */
  lemma ConnectionsSum(records: seq<Connection>, destination: string, destinationV6: string)
    requires forall k :: 0 <= k < |records| ==> records[k].state in TcpState.Values
    ensures Tally(records, destination, destinationV6).Success?
    ensures var c := Tally(records, destination, destinationV6).value;
      c.connections == c.established + c.synSent + c.synRecv + c.finWait1 + c.finWait2
                     + c.timeWait + c.close + c.closeWait + c.lastAck + c.listen
                     + CountState(Matching(records, destination, destinationV6), Closing)
  {
    var m := Matching(records, destination, destinationV6);
    MatchingFrom(records, destination, destinationV6);
    StateCountsSum(m);
    TallyCounts(records, destination, destinationV6);
  }

  /** Every counted record is one of the records. */
  lemma {:induction false} MatchingFrom(records: seq<Connection>, destination: string, destinationV6: string)
    ensures forall r :: r in Matching(records, destination, destinationV6) ==> r in records
  {
    if |records| > 0 {
      var init := records[..|records| - 1];
      MatchingFrom(init, destination, destinationV6);
      assert forall r :: r in init ==> r in records;
    }
  }

  /** A list of records in table states splits by state, with no `CLOSED` among them. */
  lemma {:induction false} StateCountsSum(m: seq<Connection>)
    requires forall r :: r in m ==> r.state in TcpState.Values
    ensures CountState(m, Closed) == 0
    ensures |m| == CountState(m, Established) + CountState(m, SynSent) + CountState(m, SynRecv)
                 + CountState(m, FinWait1) + CountState(m, FinWait2) + CountState(m, TimeWait)
                 + CountState(m, Close) + CountState(m, CloseWait) + CountState(m, LastAck)
                 + CountState(m, Listen) + CountState(m, Closing)
  {
    if |m| > 0 {
      var init := m[..|m| - 1];
      assert forall r :: r in init ==> r in m;
      StateCountsSum(init);
      assert m[|m| - 1] in m;
      OneBucket(m[|m| - 1].state);
    }
  }

  /** A name from `TCP_STATE` is exactly one of the eleven, and not `CLOSED`. */
  lemma OneBucket(state: string)
    requires state in TcpState.Values
    ensures state != Closed
    ensures (if state == Established then 1 else 0) + (if state == SynSent then 1 else 0)
          + (if state == SynRecv then 1 else 0) + (if state == FinWait1 then 1 else 0)
          + (if state == FinWait2 then 1 else 0) + (if state == TimeWait then 1 else 0)
          + (if state == Close then 1 else 0) + (if state == CloseWait then 1 else 0)
          + (if state == LastAck then 1 else 0) + (if state == Listen then 1 else 0)
          + (if state == Closing then 1 else 0) == 1
  {
    StateNamesExclude();
  }

  /** Whenever both scans and the mapping of the host succeed, so does the count: the
      `closed` key miss cannot happen, `closing` stays 0, and `connections` is the sum
      of the buckets plus the counted `CLOSING` rows. */
  lemma ScannedCountNeverRaises(dhost: string, dport: int, tcp4Lines: seq<string>, tcp6Lines: seq<string>, sys: System)
    requires ParseAll(tcp4Lines, RowParser(V4, Tcp, sys)).Success?
    requires ParseAll(tcp6Lines, RowParser(V6, Tcp, sys)).Success?
    requires Ipv4ToIpv6(dhost).Success?
    ensures CheckNetstatSpec(dhost, dport, tcp4Lines, tcp6Lines, sys).Success?
    ensures var c := CheckNetstatSpec(dhost, dport, tcp4Lines, tcp6Lines, sys).value;
      c.closing == 0
      && c.connections >= c.established + c.synSent + c.synRecv + c.finWait1 + c.finWait2
                          + c.timeWait + c.close + c.closeWait + c.lastAck + c.listen
  {
    var tcp4 := ParseAll(tcp4Lines, RowParser(V4, Tcp, sys)).value;
    var tcp6 := ParseAll(tcp6Lines, RowParser(V6, Tcp, sys)).value;
    TcpTableStates(tcp4Lines, V4, sys);
    TcpTableStates(tcp6Lines, V6, sys);
    var records := tcp4 + tcp6;
    forall k | 0 <= k < |records|
      ensures records[k].state in TcpState.Values
    {
      if k >= |tcp4| {
        assert records[k] == tcp6[k - |tcp4|];
      }
    }
    var destination := Destination(dhost, dport);
    var destinationV6 := Destination(Ipv4ToIpv6(dhost).value, dport);
    ConnectionsSum(records, destination, destinationV6);
    TallyCounts(records, destination, destinationV6);
  }

  /** `check_netstat` returns its counters exactly when every row of both tables is
      parsable and the host has a mapped form; it raises in every other case. */
  lemma CheckNetstatSucceeds(dhost: string, dport: int, tcp4Lines: seq<string>, tcp6Lines: seq<string>, sys: System)
    ensures CheckNetstatSpec(dhost, dport, tcp4Lines, tcp6Lines, sys).Success?
        <==> (forall k :: 0 <= k < |tcp4Lines| ==> ParsableRow(tcp4Lines[k], V4, Tcp, sys))
             && (forall k :: 0 <= k < |tcp6Lines| ==> ParsableRow(tcp6Lines[k], V6, Tcp, sys))
             && Ipv4ToIpv6(dhost).Success?
  {
    ParsableTableScans(tcp4Lines, V4, Tcp, sys);
    ParsableTableScans(tcp6Lines, V6, Tcp, sys);
    if ParseAll(tcp4Lines, RowParser(V4, Tcp, sys)).Success?
       && ParseAll(tcp6Lines, RowParser(V6, Tcp, sys)).Success?
       && Ipv4ToIpv6(dhost).Success?
    {
      ScannedCountNeverRaises(dhost, dport, tcp4Lines, tcp6Lines, sys);
    }
  }

  /** An IPv4 peer of an IPv6 socket is written in `/proc/net/tcp6` as the mapped
      address `::ffff:a.b.c.d`. For a destination given as the dotted quad of the same
      kernel word, the remote end such a row converts to is the second form of the
      destination, so the loop counts it. */
  lemma MappedPeerCounted(h: string, p: string)
    requires |h| == 8 && forall i :: 0 <= i < 8 ==> IsUpperHexDigit(h[i])
    requires |p| > 0 && forall i :: 0 <= i < |p| ==> IsDigit(p[i], Hexadecimal)
    ensures Ip(h).Success? && Ipv4ToIpv6(Ip(h).value).Success?
    ensures ConvertPort(MappedRow(h) + ":" + p, V6).Success?
    ensures Endpoint(ConvertPort(MappedRow(h) + ":" + p, V6).value)
         == Destination(Ipv4ToIpv6(Ip(h).value).value, DigitsValue(p, Hexadecimal))
  {
    MappedAddressMatches(h);
    MappedRowDigits(h);
    ConvertKernelEndpoint6(MappedRow(h), p);
  }

  // ---------------------------------------------------------------------------
  // Alerting

  /** The threshold tests of `main` once the count is known; `main` has already
      stopped when `minimal > maximal`. */
  function Classify(established: nat, minimal: int, maximal: int, noalert: bool): (code: int)
    requires minimal <= maximal
    ensures noalert ==> code == OK
    ensures !noalert ==> (code == CRITICAL <==> established < minimal || maximal < established)
    ensures !noalert ==> (code == OK <==> minimal <= established <= maximal)
  {
    if noalert then OK
    else if established < minimal then CRITICAL
    else if minimal <= established <= maximal then OK
    else CRITICAL
  }

  /** `main` from the threshold check on: an inverted range is rejected before any
      table is read; otherwise the count decides, unless it raised. */
  method NetstatProbe(minimal: int, maximal: int, noalert: bool, dhost: string, dport: int,
                      tcp4Lines: seq<string>, tcp6Lines: seq<string>, sys: System)
    returns (outcome: Outcome)
    ensures minimal > maximal ==> outcome == Exit(UNKNOWN)
    ensures minimal <= maximal ==>
      var count := CheckNetstatSpec(dhost, dport, tcp4Lines, tcp6Lines, sys);
      outcome == if count.Failure? then Crash(count.error)
                 else Exit(Classify(count.value.established, minimal, maximal, noalert))
  {
    if minimal > maximal {
      return Exit(UNKNOWN);
    }
    var results := CheckNetstat(dhost, dport, tcp4Lines, tcp6Lines, sys);
    if results.Failure? {
      return Crash(results.error);
    }
    var established := results.value.established;
    if noalert {
      return Exit(OK);
    }
    if established < minimal {
      return Exit(CRITICAL);
    }
    if established >= minimal && established <= maximal {
      return Exit(OK);
    }
    assert established > maximal;
    return Exit(CRITICAL);
  }
}
