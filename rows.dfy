/** The table scans of check_netstat/check_netstat.py: `netstat_tcp4`, `netstat_tcp6`,
    `netstat_udp4`, `netstat_udp6` and `packet_socket`, with `_remove_empty` and
    `_convert_ipv4_port` / `_convert_ipv6_port`.

    A table is the list of its lines as `readlines()` returns them (each still ending in
    its newline), with the header line already removed. Everything else a scan reads is
    a `System`: the user database, the file-descriptor scan and the `exe` links. */
module Rows {
  import opened Wrappers
  import opened Strings
  import opened HexCodec
  import opened TcpStates
  import opened InodeLookup

  /** Which address decoder a table uses: `_ip` (tcp, udp) or `_ip6` (tcp6, udp6). */
  datatype Family = V4 | V6

  /** TCP tables carry a state code in column 3; UDP ones do not. */
  datatype Protocol = Tcp | Udp

  /** One `nline` of a connection table: `[id, uid, local, remote, state, pid, exe]`,
      where `uid` holds the user name. */
  datatype Connection = Connection(
    id: string,
    user: string,
    local: string,
    remote: string,
    state: string,
    pid: Option<string>,
    exe: Option<string>)

  /** One `nline` of `packet_socket`: `[pid, exe]`. */
  datatype PacketSocket = PacketSocket(pid: Option<string>, exe: Option<string>)

  /** What a scan consults besides the table: `pwd.getpwuid` as a map from uid to user
      name, the file-descriptor scan, and the `exe` links. */
  datatype System = System(passwd: map<int, string>, fds: seq<FdEntry>, exeLinks: map<string, string>)

  /** `_remove_empty(line.split(' '))`: the columns of a row. Only spaces separate
      columns, so the last column keeps the line's newline. */
  function Columns(line: string): seq<string>
  {
    RemoveEmpty(Split(line, {' '}))
  }

  /** `host, port = column.split(':')` then `_ip(host)` or `_ip6(host)` and
      `_hex2dec(port)`, in that order. */
  function ConvertPort(column: string, family: Family): (r: Result<(string, string)>)
    ensures |Split(column, {':'})| != 2 ==> r == Failure(ValueError)
    ensures family == V6 && r.Success? ==> r.value.0 == Ip6(Split(column, {':'})[0])
  {
    var parts := Split(column, {':'});
    if |parts| != 2 then Failure(ValueError)
    else
      var host :- if family == V4 then Ip(parts[0]) else Success(Ip6(parts[0]));
      var port :- Hex2Dec(parts[1]);
      Success((host, port))
  }

  /** `host + ':' + port` */
  function Endpoint(hostPort: (string, string)): string
  {
    hostPort.0 + ":" + hostPort.1
  }

  /** `pwd.getpwuid(uid)[0]`: an unknown uid raises KeyError. */
  function UserName(uid: int, passwd: map<int, string>): (r: Result<string>)
    ensures r.Success? <==> uid in passwd
  {
    if uid in passwd then Success(passwd[uid])
    else Failure(KeyError("getpwuid(): uid not found: " + ToDecimal(uid)))
  }

  /** The state of a row: `TCP_STATE[cols[3]]` for TCP, the constant `Stateless` for UDP. */
  function StateColumn(cols: seq<string>, protocol: Protocol): Result<string>
  {
    if protocol == Udp then Success("Stateless")
    else
      var code :- At(cols, 3);
      StateName(code)
  }

  /** The columns a connection row is read into before the inode lookup. */
  datatype RowFields = RowFields(id: string, user: string, local: string, remote: string, state: string, inode: string)

  /** The statements of a connection scan's loop body up to the inode lookup, in the
      source's order: each can raise and end the scan. */
  function DecodeRow(line: string, family: Family, protocol: Protocol, sys: System): Result<RowFields>
  {
    var cols := Columns(line);
    var local :- At(cols, 1);
    var localHostPort :- ConvertPort(local, family);
    var remote :- At(cols, 2);
    var remoteHostPort :- ConvertPort(remote, family);
    var id :- At(cols, 0);
    var state :- StateColumn(cols, protocol);
    var uidText :- At(cols, 7);
    var uid :- ParseInt(uidText, Decimal);
    var user :- UserName(uid, sys.passwd);
    var inode :- At(cols, 9);
    Success(RowFields(id, user, Endpoint(localHostPort), Endpoint(remoteHostPort), state, inode))
  }

  /** A row the loop body gets through: ten columns, two endpoints that convert, a
      known state code for TCP, and a decimal uid the user database knows. */
  predicate ParsableRow(line: string, family: Family, protocol: Protocol, sys: System)
  {
    var cols := Columns(line);
    && |cols| >= 10
    && ConvertPort(cols[1], family).Success?
    && ConvertPort(cols[2], family).Success?
    && (protocol == Tcp ==> IsStateCode(cols[3]))
    && ParseInt(cols[7], Decimal).Success?
    && ParseInt(cols[7], Decimal).value in sys.passwd
  }

  /** The body of the loop of a connection scan, for one row. */
  function ParseRow(line: string, family: Family, protocol: Protocol, sys: System): (r: Result<Connection>)
    ensures r.Success? <==> ParsableRow(line, family, protocol, sys)
    ensures r.Success? ==>
      var cols := Columns(line);
      && |cols| >= 10
      && r.value.id == cols[0]
      && ConvertPort(cols[1], family).Success? && r.value.local == Endpoint(ConvertPort(cols[1], family).value)
      && ConvertPort(cols[2], family).Success? && r.value.remote == Endpoint(ConvertPort(cols[2], family).value)
      && ParseInt(cols[7], Decimal).Success? && ParseInt(cols[7], Decimal).value in sys.passwd
      && r.value.user == sys.passwd[ParseInt(cols[7], Decimal).value]
      && r.value.pid == PidOfInode(sys.fds, cols[9])
      && (r.value.pid.None? ==> r.value.exe.None?)
      && r.value.exe == ReadExe(r.value.pid, sys.exeLinks)
      && (protocol == Udp ==> r.value.state == "Stateless")
      && (protocol == Tcp ==> StateName(cols[3]) == Success(r.value.state))
  {
    var row :- DecodeRow(line, family, protocol, sys);
    var pid := PidOfInode(sys.fds, row.inode);
    Success(Connection(row.id, row.user, row.local, row.remote, row.state, pid, ReadExe(pid, sys.exeLinks)))
  }

  /** The loop body of a connection scan as the source runs it: the same statements,
      then the inode lookup as a loop. */
  method ReadRow(line: string, family: Family, protocol: Protocol, sys: System) returns (r: Result<Connection>)
    ensures r == ParseRow(line, family, protocol, sys)
  {
    var row :- DecodeRow(line, family, protocol, sys);
    var pid := GetPidOfInode(sys.fds, row.inode);
    return Success(Connection(row.id, row.user, row.local, row.remote, row.state, pid, ReadExe(pid, sys.exeLinks)));
  }

  /** A kernel endpoint `HHHHHHHH:PPPP` of a tcp or udp row decodes to the byte-reversed
      dotted quad and the port's value in decimal. */
  lemma ConvertKernelEndpoint(h: string, p: string)
    requires |h| == 8 && IsHexWord(h)
    requires |p| > 0 && forall i :: 0 <= i < |p| ==> IsDigit(p[i], Hexadecimal)
    ensures ConvertPort(h + ":" + p, V4)
         == Success((DottedQuad(ByteAt(h, 3), ByteAt(h, 2), ByteAt(h, 1), ByteAt(h, 0)),
                     ToDecimal(DigitsValue(p, Hexadecimal))))
  {
    HostPortSplit(h, p);
    IpOfHexWord(h);
    ParseDigits(p, Hexadecimal);
  }

  /** The same for a tcp6 or udp6 row: the address segments are copied, not converted. */
  lemma ConvertKernelEndpoint6(a: string, p: string)
    requires forall i :: 0 <= i < |a| ==> IsDigit(a[i], Hexadecimal)
    requires |p| > 0 && forall i :: 0 <= i < |p| ==> IsDigit(p[i], Hexadecimal)
    ensures ConvertPort(a + ":" + p, V6) == Success((Ip6(a), ToDecimal(DigitsValue(p, Hexadecimal))))
  {
    HostPortSplit(a, p);
    ParseDigits(p, Hexadecimal);
  }

  lemma HostPortSplit(host: string, port: string)
    requires forall i :: 0 <= i < |host| ==> IsDigit(host[i], Hexadecimal)
    requires forall i :: 0 <= i < |port| ==> IsDigit(port[i], Hexadecimal)
    ensures Split(host + ":" + port, {':'}) == [host, port]
  {
    var parts := [host, port];
    assert Join(parts, ':') == host + ":" + port;
    forall k, i | 0 <= k < |parts| && 0 <= i < |parts[k]|
      ensures parts[k][i] != ':'
    {
      assert IsDigit(parts[k][i], Hexadecimal);
    }
    SplitOfJoin(parts, ':');
  }

  function RowParser(family: Family, protocol: Protocol, sys: System): string -> Result<Connection>
  {
    line => ParseRow(line, family, protocol, sys)
  }

  /** The loop body of `packet_socket`: the inode is column 8, the last one, with its
      trailing whitespace (the newline) stripped. */
  function ParsePacketRow(line: string, sys: System): (r: Result<PacketSocket>)
    ensures r.Success? <==> |Columns(line)| >= 9
    ensures r.Success? ==>
      var inode := RStrip(Columns(line)[8]);
      && r.value.pid == PidOfInode(sys.fds, inode)
      && (r.value.pid.None? ==> r.value.exe.None?)
      && r.value.exe == ReadExe(r.value.pid, sys.exeLinks)
  {
    var inode :- PacketInode(line);
    var pid := PidOfInode(sys.fds, inode);
    Success(PacketSocket(pid, ReadExe(pid, sys.exeLinks)))
  }

  /** `line_array[8].rstrip()`: column 8 of a packet row, without its newline. */
  function PacketInode(line: string): Result<string>
  {
    var column :- At(Columns(line), 8);
    Success(RStrip(column))
  }

  /** The loop body of `packet_socket` as the source runs it, the inode lookup as a loop. */
  method ReadPacketRow(line: string, sys: System) returns (r: Result<PacketSocket>)
    ensures r == ParsePacketRow(line, sys)
  {
    var inode :- PacketInode(line);
    var pid := GetPidOfInode(sys.fds, inode);
    return Success(PacketSocket(pid, ReadExe(pid, sys.exeLinks)));
  }

  function PacketParser(sys: System): string -> Result<PacketSocket>
  {
    line => ParsePacketRow(line, sys)
  }

  // ---------------------------------------------------------------------------
  // Whole tables

  /** A scan of a whole table: one result per line, in order, or the exception of the
      first line that raises. */
  function ParseAll<T>(lines: seq<string>, parse: string -> Result<T>): Result<seq<T>>
  {
    if |lines| == 0 then Success([])
    else
      var init :- ParseAll(lines[..|lines| - 1], parse);
      var last :- parse(lines[|lines| - 1]);
      Success(init + [last])
  }

  /** Once a prefix of the table has raised, the scan has raised with that exception. */
  lemma {:induction false} ParseAllFailureSticks<T>(lines: seq<string>, k: nat, parse: string -> Result<T>)
    requires k <= |lines| && ParseAll(lines[..k], parse).Failure?
    ensures ParseAll(lines, parse) == ParseAll(lines[..k], parse)
    decreases |lines|
  {
    if k < |lines| {
      var init := lines[..|lines| - 1];
      assert init[..k] == lines[..k];
      ParseAllFailureSticks(init, k, parse);
    } else {
      assert lines[..k] == lines;
    }
  }

  /** A scan succeeds exactly when every row parses, and then it holds one record per
      row, in row order. */
  lemma {:induction false} ParseAllRecords<T>(lines: seq<string>, parse: string -> Result<T>)
    ensures ParseAll(lines, parse).Success? <==> forall k :: 0 <= k < |lines| ==> parse(lines[k]).Success?
    ensures ParseAll(lines, parse).Success? ==>
      |ParseAll(lines, parse).value| == |lines|
      && forall k :: 0 <= k < |lines| ==> parse(lines[k]) == Success(ParseAll(lines, parse).value[k])
  {
    if |lines| > 0 {
      var init := lines[..|lines| - 1];
      ParseAllRecords(init, parse);
      forall k | 0 <= k < |init|
        ensures init[k] == lines[k]
      {
      }
    }
  }

  /** A failed scan reports the exception of its first failing row. */
  lemma {:induction false} ParseAllFirstError<T>(lines: seq<string>, parse: string -> Result<T>)
    requires ParseAll(lines, parse).Failure?
    ensures exists k :: 0 <= k < |lines| && parse(lines[k]) == Failure(ParseAll(lines, parse).error)
                        && forall j :: 0 <= j < k ==> parse(lines[j]).Success?
  {
    var init := lines[..|lines| - 1];
    if ParseAll(init, parse).Failure? {
      ParseAllFirstError(init, parse);
      var k :| 0 <= k < |init| && parse(init[k]) == Failure(ParseAll(init, parse).error)
               && forall j :: 0 <= j < k ==> parse(init[j]).Success?;
      assert init[k] == lines[k];
      forall j | 0 <= j < k
        ensures parse(lines[j]).Success?
      {
        assert init[j] == lines[j];
      }
    } else {
      ParseAllRecords(init, parse);
      var k := |lines| - 1;
      forall j | 0 <= j < k
        ensures parse(lines[j]).Success?
      {
        assert init[j] == lines[j];
      }
    }
  }

  /** `netstat_tcp4`, `netstat_tcp6`, `netstat_udp4`, `netstat_udp6`: the loop that
      appends one record per row. */
  method NetstatTable(lines: seq<string>, family: Family, protocol: Protocol, sys: System)
    returns (result: Result<seq<Connection>>)
    ensures result == ParseAll(lines, RowParser(family, protocol, sys))
  {
    var parse := RowParser(family, protocol, sys);
    var records: seq<Connection> := [];
    for i := 0 to |lines|
      invariant ParseAll(lines[..i], parse) == Success(records)
    {
      assert lines[..i + 1][..i] == lines[..i];
      var record := ReadRow(lines[i], family, protocol, sys);
      if record.Failure? {
        ParseAllFailureSticks(lines, i + 1, parse);
        return Failure(record.error);
      }
      records := records + [record.value];
    }
    assert lines[..|lines|] == lines;
    return Success(records);
  }

  /** `packet_socket`: the same loop over `/proc/net/packet`. */
  method PacketTable(lines: seq<string>, sys: System) returns (result: Result<seq<PacketSocket>>)
    ensures result == ParseAll(lines, PacketParser(sys))
  {
    var parse := PacketParser(sys);
    var sockets: seq<PacketSocket> := [];
    for i := 0 to |lines|
      invariant ParseAll(lines[..i], parse) == Success(sockets)
    {
      assert lines[..i + 1][..i] == lines[..i];
      var socket := ReadPacketRow(lines[i], sys);
      if socket.Failure? {
        ParseAllFailureSticks(lines, i + 1, parse);
        return Failure(socket.error);
      }
      sockets := sockets + [socket.value];
    }
    assert lines[..|lines|] == lines;
    return Success(sockets);
  }

  // ---------------------------------------------------------------------------
  // Properties of the scans

  /** A TCP scan succeeds only if every row has one of the eleven known state codes;
      an unknown code is never dropped silently, it ends the scan. Every record then
      carries the name the table gives its code. */
  lemma TcpTableStates(lines: seq<string>, family: Family, sys: System)
    ensures var result := ParseAll(lines, RowParser(family, Tcp, sys));
      result.Success? ==>
        && (forall k :: 0 <= k < |lines| ==> |Columns(lines[k])| >= 10 && IsStateCode(Columns(lines[k])[3]))
        && (forall k :: 0 <= k < |result.value| ==> result.value[k].state in TcpState.Values)
    ensures (exists k :: 0 <= k < |lines| && 4 <= |Columns(lines[k])| && !IsStateCode(Columns(lines[k])[3]))
      ==> ParseAll(lines, RowParser(family, Tcp, sys)).Failure?
  {
    var parse := RowParser(family, Tcp, sys);
    ParseAllRecords(lines, parse);
    var result := ParseAll(lines, parse);
    if result.Success? {
      forall k | 0 <= k < |lines|
        ensures |Columns(lines[k])| >= 10 && IsStateCode(Columns(lines[k])[3])
        ensures result.value[k].state in TcpState.Values
      {
        assert parse(lines[k]) == Success(result.value[k]);
      }
    }
  }

  /** A scan raises nothing exactly when every row is parsable. */
  lemma ParsableTableScans(lines: seq<string>, family: Family, protocol: Protocol, sys: System)
    ensures ParseAll(lines, RowParser(family, protocol, sys)).Success?
        <==> forall k :: 0 <= k < |lines| ==> ParsableRow(lines[k], family, protocol, sys)
  {
    ParseAllRecords(lines, RowParser(family, protocol, sys));
  }

  /** A row as the kernel writes it in `/proc/net/tcp` or `/proc/net/udp` parses: two
      `HHHHHHHH:PPPP` endpoints, a known state code for TCP, and the decimal uid of a
      known user. The record holds the decoded endpoints and that user's name. */
  lemma KernelRowParses(line: string, protocol: Protocol, sys: System,
                        localHost: string, localPort: string, remoteHost: string, remotePort: string, uid: nat)
    requires |Columns(line)| >= 10
    requires Columns(line)[1] == localHost + ":" + localPort
    requires Columns(line)[2] == remoteHost + ":" + remotePort
    requires |localHost| == 8 && IsHexWord(localHost) && |remoteHost| == 8 && IsHexWord(remoteHost)
    requires |localPort| > 0 && forall i :: 0 <= i < |localPort| ==> IsDigit(localPort[i], Hexadecimal)
    requires |remotePort| > 0 && forall i :: 0 <= i < |remotePort| ==> IsDigit(remotePort[i], Hexadecimal)
    requires protocol == Tcp ==> IsStateCode(Columns(line)[3])
    requires Columns(line)[7] == ToDecimal(uid) && uid in sys.passwd
    ensures ParseRow(line, V4, protocol, sys).Success?
    ensures var record := ParseRow(line, V4, protocol, sys).value;
      && record.remote == DottedQuad(ByteAt(remoteHost, 3), ByteAt(remoteHost, 2), ByteAt(remoteHost, 1), ByteAt(remoteHost, 0))
                          + ":" + ToDecimal(DigitsValue(remotePort, Hexadecimal))
      && record.user == sys.passwd[uid]
  {
    ConvertKernelEndpoint(localHost, localPort);
    ConvertKernelEndpoint(remoteHost, remotePort);
    ParseIntOfDecimal(uid);
  }

  /** Every record of a UDP scan has the state `Stateless`. */
  lemma UdpTableStateless(lines: seq<string>, family: Family, sys: System)
    ensures var result := ParseAll(lines, RowParser(family, Udp, sys));
      result.Success? ==> forall k :: 0 <= k < |result.value| ==> result.value[k].state == "Stateless"
  {
    var parse := RowParser(family, Udp, sys);
    ParseAllRecords(lines, parse);
    var result := ParseAll(lines, parse);
    if result.Success? {
      forall k | 0 <= k < |result.value|
        ensures result.value[k].state == "Stateless"
      {
        assert parse(lines[k]) == Success(result.value[k]);
      }
    }
  }

  /** In every record of a scan, a missing pid means a missing executable. */
  lemma NoPidNoExe(lines: seq<string>, family: Family, protocol: Protocol, sys: System)
    ensures var result := ParseAll(lines, RowParser(family, protocol, sys));
      result.Success? ==> forall k :: 0 <= k < |result.value| ==>
        (result.value[k].pid.None? ==> result.value[k].exe.None?)
  {
    var parse := RowParser(family, protocol, sys);
    ParseAllRecords(lines, parse);
    var result := ParseAll(lines, parse);
    if result.Success? {
      forall k | 0 <= k < |result.value|
        ensures result.value[k].pid.None? ==> result.value[k].exe.None?
      {
        assert parse(lines[k]) == Success(result.value[k]);
      }
    }
  }

  /** The columns of a row are its space-separated pieces in order, whatever the
      padding: leading spaces change nothing. */
  lemma ColumnsOfPadded(line: string, padding: nat)
    ensures Columns(Spaces(padding) + line) == Columns(line)
  {
    SpacesSplit(padding, line);
    RemoveEmptyAppend(EmptyPieces(padding), Split(line, {' '}));
    RemoveEmptyOfEmptyPieces(padding);
  }

  function Spaces(n: nat): string
  {
    if n == 0 then "" else " " + Spaces(n - 1)
  }

  function EmptyPieces(n: nat): seq<string>
  {
    if n == 0 then [] else [""] + EmptyPieces(n - 1)
  }

  /** Leading spaces become empty pieces in front of the pieces of the rest. */
  lemma {:induction false} SpacesSplit(n: nat, line: string)
    ensures Split(Spaces(n) + line, {' '}) == EmptyPieces(n) + Split(line, {' '})
  {
    if n > 0 {
      assert (Spaces(n) + line)[1..] == Spaces(n - 1) + line;
      SpacesSplit(n - 1, line);
    } else {
      assert Spaces(n) + line == line;
    }
  }

  lemma {:induction false} RemoveEmptyOfEmptyPieces(n: nat)
    ensures RemoveEmpty(EmptyPieces(n)) == []
  {
    if n > 0 {
      assert EmptyPieces(n)[1..] == EmptyPieces(n - 1);
      RemoveEmptyOfEmptyPieces(n - 1);
    }
  }
}
