# Netstat and disk probes, modelled in Dafny

This project models two Icinga/Nagios monitoring plugins written in Python 2.

`check_netstat/check_netstat.py` reads the kernel's socket tables `/proc/net/tcp`, `tcp6`,
`udp`, `udp6` and `packet`. It decodes their hexadecimal addresses and ports. It finds the
process owning each socket by scanning the `/proc/<pid>/fd` links. Then it counts the TCP
connections whose remote end is a given host and port, per TCP state. The plugin exits
CRITICAL when the number of established connections falls outside `[min, max]`.

`check_disk.py` accepts a mount point only if `/proc/mounts` lists it with a file-system
type outside a fixed list of pseudo file systems. It then compares the usage percentage
with a warning and a critical threshold.

The files:

- `wrappers.dfy`: `Option`, the Python exceptions that can end a run (`IndexError`,
  `ValueError`, `KeyError(key)`), and `Result`.
- `strings.dfy`: the Python 2 string built-ins the plugins use, over `seq<char>`:
  - slicing, `split(c)`, `split()`, `join`, `strip`/`rstrip`;
  - `int(s)` / `int(s, 16)`, `str(n)`, and the `{0:02X}` format.
- `hex_codec.dfy`: `_hex2dec`, `_ip`, `_ip6` and `ipv4toipv6`, with the round trips between
  the kernel's encoding and the dotted and mapped forms.
- `tcp_states.dfy`: the `TCP_STATE` table.
- `inode_lookup.dfy`: `_get_pid_of_inode` over a given file-descriptor scan, and the `exe`
  link lookup.
- `rows.dfy`: the row parser and the table scans: `netstat_tcp4`, `netstat_tcp6`,
  `netstat_udp4`, `netstat_udp6`, `packet_socket`.
- `netstat.dfy`: `check_netstat` and the alerting part of `main`.
- `plugin.dfy`: the exit codes and how a run ends (an exit code, or an uncaught exception).
- `mount_table.dfy`: `valid_mount_point` and the threshold checks of check_disk's `main`.

Each loop of the source is a method with loop invariants. Each such loop method is proved
equal to a recursive specification function. The table scans, the counting loop and the mount loop
are followed over the prefix of the input seen so far. The inode lookup, which returns
early, is followed over the suffix still to scan. The properties are lemmas about those
functions.

Where the plugins' own text and their code disagree, the model follows the code:

- The docstrings of `netstat_udp4` and `netstat_udp6` say the state of a UDP record will
  always be blank (check_netstat/check_netstat.py:168, 195-196). The code stores the string
  `Stateless` (lines 179 and 207), and so does the model (`Rows.UdpTableStateless`).
- The help text of check_disk's `--critical` says it fires when usage is greater than the
  threshold (check_disk.py:118). The code tests `>=` (line 154), and so does the model
  (`MountTable.UsageStatus`).

Other behaviours of the code that the model keeps as they are:

- An unknown uid is not shown as an unresolved name. `pwd.getpwuid` raises KeyError and the
  scan ends with it (`Rows.UserName`).
- `_ip("7F000001")` is `1.0.0.127`: the pairs are read in reverse (`HexCodec.IpKernelSamples`).
- `_ip` reads only the first eight characters (`HexCodec.IpIgnoresTail`). It raises
  ValueError when `int(pair, 16)` rejects one of its four pairs (see `Strings.ParseInt`);
  signed or space-padded pairs such as `-1` or ` 7` are accepted, as `int` accepts them. An address of six characters or
  fewer has an empty last pair, which also raises (`HexCodec.IpTooShort`).
- `ipv4toipv6` does not check that the parts lie in 0..255.
- `_ip6` takes the second 4-byte group in the pair order 6, 7, 5, 4, not 7, 6, 5, 4. The model
  reproduces this order (`HexCodec.Ip6OrderShape`).
- The inode test is `re.search(inode, target)`. It is modelled as substring containment,
  so an inode number that is a prefix of another one matches it
  (`InodeLookup.LongerInodeMatches`).
- `CLOSING` connections add to `connections` only: the loop has no branch for them.
  The `CLOSED` branch would raise KeyError, since `results` has no `closed` key. No scanned
  record can reach it (`Netstat.ScannedCountNeverRaises`).
- An empty `/proc/mounts` yields one empty line, which raises IndexError
  (`MountTable.EmptyTableRaises`).

Inputs that come from the operating system are parameters:

- the table lines, as `readlines()` returns them with the header dropped;
- the user database, as a map from uid to name;
- the `/proc/*/fd/*` glob, in scan order, each entry with its link target, or none when
  `readlink` raised;
- the `exe` links, as a map;
- the text of `/proc/mounts`;
- the usage percentage, standing for a `disk_status` call that succeeded.

## Model

| member | source | states |
|---|---|---|
| Strings.ParseInt | check_netstat/check_netstat.py:83 | Python 2's `int(s)` and `int(s, 16)`: surrounding whitespace, an optional sign followed by optional whitespace (`int('- 1') == -1`) and, in base 16, an optional `0x`, then at least one digit; anything else is ValueError |
| Strings.ToDecimal | check_netstat/check_netstat.py:83 | `str(n)` and `'%d' % n` for an integer |
| Strings.FormatHex02 | check_netstat/check_netstat.py:258 | `'{0:02X}'.format(n)`: upper-case hexadecimal, zero-padded to two characters |
| Strings.Split | check_netstat/check_netstat.py:102 | `s.split(c)` never returns an empty list |
| Strings.RemoveEmpty | check_netstat/check_netstat.py:97-98 | `_remove_empty` keeps exactly the non-empty strings of its input |
| Strings.RemoveEmptyAppend | check_netstat/check_netstat.py:97-98 | `_remove_empty` keeps order: it distributes over concatenation |
| Strings.RemoveEmptyOfNonEmpty | check_netstat/check_netstat.py:97-98 | a list with no empty string is returned unchanged |
| Strings.RStrip | check_netstat/check_netstat.py:230 | `rstrip()` returns the longest prefix that does not end in whitespace; everything cut is whitespace |
| Strings.ParseDigits | check_netstat/check_netstat.py:82-83 | `int(ds, 16)` or `int(ds)` of a non-empty run of digits is their value |
| Strings.ParseHexPair | check_netstat/check_netstat.py:82-83 | `int(p, 16)` of two hexadecimal digits is `16 * high + low` |
| Strings.ParseIntOfDecimal | check_netstat/check_netstat.py:82-83 | `int(str(n)) == n` for every integer `n`, negative ones included |
| Strings.FormatHex02Byte | check_netstat/check_netstat.py:258 | `{0:02X}` of a byte is two upper-case hexadecimal digits whose value is the byte |
| Strings.FormatHex02OfPair | check_netstat/check_netstat.py:258 | `{0:02X}` of the value of two upper-case hexadecimal digits gives back those digits |
| HexCodec.Hex2Dec | check_netstat/check_netstat.py:82-83 | `_hex2dec`: `str(int(s, 16))`, raising ValueError exactly when `int(s, 16)` does (`Strings.ParseInt`) |
| HexCodec.Ip | check_netstat/check_netstat.py:86-88 | `_ip`: the pairs at 6, 4, 2 and 0 through `_hex2dec`, joined with dots |
| HexCodec.Ip6 | check_netstat/check_netstat.py:91-94 | `_ip6`: the sixteen slices of line 93, in that order, joined with colons |
| HexCodec.Ipv4ToIpv6 | check_netstat/check_netstat.py:256-259 | `ipv4toipv6`: the mapped prefix, then the first four dot-separated parts through `int` and `{0:02X}`, left to right; a missing part raises IndexError and a part `int` rejects raises ValueError, whichever comes first |
| HexCodec.IpOfHexWord | check_netstat/check_netstat.py:86-88 | `_ip` of eight hexadecimal digits is the dotted quad of its byte pairs, last pair first, each below 256 |
| HexCodec.IpRoundTrip | check_netstat/check_netstat.py:86-88 | decoding the kernel's little-endian `%08X` encoding of a.b.c.d gives back `a.b.c.d` |
| HexCodec.IpKernelSamples | check_netstat/check_netstat.py:86-88 | `0100007F` decodes to `127.0.0.1`; `7F000001` decodes to `1.0.0.127` |
| HexCodec.IpIgnoresTail | check_netstat/check_netstat.py:86-88 | characters after the eighth never change `_ip`'s result |
| HexCodec.IpTooShort | check_netstat/check_netstat.py:86-88 | an address of six characters or fewer raises ValueError: the last pair is empty |
| HexCodec.Ip6Layout | check_netstat/check_netstat.py:91-94 | `_ip6` of 32 characters is 47 long: 16 colon-separated segments, segment `k` being input pair `Ip6Order[k]`, copied unchanged |
| HexCodec.Ip6OrderShape | check_netstat/check_netstat.py:93 | the pair order is a permutation that keeps each 4-byte group in place and reverses groups 1, 3, 4; group 2 is taken as 6, 7, 5, 4 |
| HexCodec.Ipv4ToIpv6OfQuad | check_netstat/check_netstat.py:256-259 | `ipv4toipv6(a.b.c.d)` is the mapped prefix followed by `{:02X}` of a, b, c, d, in order |
| HexCodec.Ipv4ToIpv6NeedsFourParts | check_netstat/check_netstat.py:257-258 | a host with fewer than four dot-separated parts raises |
| HexCodec.Ip6OfMapped | check_netstat/check_netstat.py:91-94 | `_ip6` of the tcp6 row of `::ffff:h` is the mapped prefix followed by the pairs of `h` in reverse |
| HexCodec.Ipv4ToIpv6OfIp | check_netstat/check_netstat.py:256-259 | `ipv4toipv6(_ip(h))` is the mapped prefix followed by the pairs of `h` in reverse |
| HexCodec.MappedOfWordBytes | check_netstat/check_netstat.py:256-259 | `ipv4toipv6` of the bytes of `h` gives back the pairs of `h` |
| HexCodec.MappedAddressMatches | check_netstat/check_netstat.py:288-296 | for every upper-case word `h`, `ipv4toipv6(_ip(h)) == _ip6(tcp6 row of ::ffff:h)`, which is what makes the second destination test work |
| TcpStates.StateName | check_netstat/check_netstat.py:125 | `TCP_STATE[code]` succeeds iff the code is `01`..`09`, `0A` or `0B`; the name is a table value; otherwise KeyError(code) |
| TcpStates.StateCodes | check_netstat/check_netstat.py:27-39 | the table's keys are exactly the eleven codes `01`..`0B` |
| TcpStates.StateCount | check_netstat/check_netstat.py:27-39 | the table has eleven entries |
| TcpStates.StateNamesDistinct | check_netstat/check_netstat.py:27-39 | no two codes share a name |
| TcpStates.StateNamesExclude | check_netstat/check_netstat.py:27-39 | the table never yields `CLOSED` or `Stateless`; `0B` is `CLOSING` |
| InodeLookup.PidOfPath | check_netstat/check_netstat.py:250 | `item.split('/')[2]`, raising IndexError for a path with fewer components |
| InodeLookup.PidOfInode | check_netstat/check_netstat.py:242-253 | the pid of the first fd entry whose link can be read, contains the inode and has a third path component; none otherwise |
| InodeLookup.GetPidOfInode | check_netstat/check_netstat.py:242-253 | the loop with early return computes the pid of the first matching fd entry, or none |
| InodeLookup.PidOfFirstMatch | check_netstat/check_netstat.py:247-250 | when entry `k` is the first match, the result is the third path component of entry `k` |
| InodeLookup.PidComesFromFirstMatch | check_netstat/check_netstat.py:247-250 | any pid returned comes from the first matching entry |
| InodeLookup.NoPidIffNoMatch | check_netstat/check_netstat.py:247-253 | the result is none iff no entry matches |
| InodeLookup.UnreadableEntryIgnored | check_netstat/check_netstat.py:248-252 | an entry whose link cannot be read never changes the result, wherever it sits |
| InodeLookup.PidOfProcPath | check_netstat/check_netstat.py:250 | `split('/')[2]` of `/proc/<pid>/fd/<fd>` is `<pid>` |
| InodeLookup.LongerInodeMatches | check_netstat/check_netstat.py:249 | the link `socket:[<inode><more>]` matches `inode`: the test is a search, not an equality |
| InodeLookup.LongerInodeReported | check_netstat/check_netstat.py:247-250 | so the owner of a socket with a longer inode number is reported when its entry comes first |
| InodeLookup.ReadExe | check_netstat/check_netstat.py:129-132 | the executable is known iff there is a pid and its `exe` link can be read, and then it is the target of `/proc/<pid>/exe`; no pid means no executable |
| Rows.Columns | check_netstat/check_netstat.py:121 | `_remove_empty(line.split(' '))` |
| Rows.ParseAll | check_netstat/check_netstat.py:119-136 | a scan: one record per line in order, or the exception of the first line that raises |
| Rows.ConvertPort | check_netstat/check_netstat.py:101-108 | a column that is not exactly two `:`-separated parts raises ValueError; the IPv6 host is `_ip6` of the first part |
| Rows.UserName | check_netstat/check_netstat.py:126 | `getpwuid` succeeds iff the uid is in the user database |
| Rows.ParseRow | check_netstat/check_netstat.py:120-135 | a row parses iff it is `ParsableRow`: ten columns, both endpoints convert, a known state code for TCP, and a decimal uid the user database knows. The record holds column 0, both converted endpoints, the user of the uid in column 7, and the pid of the inode in column 9. The executable is `ReadExe` of that pid: the target of `/proc/<pid>/exe`, or none when there is no pid or the link cannot be read. The state is `TCP_STATE[column 3]` for TCP and `Stateless` for UDP |
| Rows.ParsableTableScans | check_netstat/check_netstat.py:119-136 | a scan raises nothing iff every row of the table is parsable |
| Rows.KernelRowParses | check_netstat/check_netstat.py:120-135 | a row with two kernel `HHHHHHHH:PPPP` endpoints, a known state code for TCP and the decimal uid of a known user parses; its remote end is the byte-reversed dotted quad and decimal port, its user that uid's name |
| Rows.ReadRow | check_netstat/check_netstat.py:120-135 | the loop body, with the inode lookup, computes `ParseRow` |
| Rows.ConvertKernelEndpoint | check_netstat/check_netstat.py:101-103 | a tcp/udp endpoint `HHHHHHHH:PPPP` converts to the byte-reversed dotted quad and the port's value in decimal |
| Rows.ConvertKernelEndpoint6 | check_netstat/check_netstat.py:106-108 | a tcp6/udp6 endpoint converts to `_ip6` of its address and the port's value in decimal |
| Rows.ParsePacketRow | check_netstat/check_netstat.py:228-238 | a packet row parses iff it has at least nine columns; the pid is that of column 8 with its trailing whitespace stripped; the executable is `ReadExe` of that pid, so no pid means no executable |
| Rows.ReadPacketRow | check_netstat/check_netstat.py:228-238 | the loop body of `packet_socket` computes `ParsePacketRow` |
| Rows.ParseAllRecords | check_netstat/check_netstat.py:119-136 | a scan succeeds iff every row parses, and then holds one record per row, in row order |
| Rows.ParseAllFirstError | check_netstat/check_netstat.py:119-136 | a failed scan raises the exception of its first failing row |
| Rows.NetstatTable | check_netstat/check_netstat.py:111-136 | the scan loop of `netstat_tcp4` (and tcp6, udp4, udp6) computes `ParseAll` of its rows |
| Rows.PacketTable | check_netstat/check_netstat.py:221-239 | the scan loop of `packet_socket` computes `ParseAll` of its rows |
| Rows.TcpTableStates | check_netstat/check_netstat.py:125 | a TCP scan succeeds only if every row has ten columns and a known state code; every record's state is a table name; an unknown code ends the scan |
| Rows.UdpTableStateless | check_netstat/check_netstat.py:179 | every record of a UDP scan has state `Stateless` |
| Rows.NoPidNoExe | check_netstat/check_netstat.py:128-132 | in every scanned record, a missing pid means a missing executable |
| Rows.ColumnsOfPadded | check_netstat/check_netstat.py:121 | leading spaces do not change a row's columns |
| Netstat.Destination | check_netstat/check_netstat.py:290-291 | `'%s:%d' % (host, port)` |
| Netstat.Targets | check_netstat/check_netstat.py:296 | a record is counted when its remote end is either form of the destination |
| Netstat.Bump | check_netstat/check_netstat.py:297-330 | one counted record: `connections` and the counter of its state go up; `CLOSING` and other names touch no counter; `CLOSED` raises KeyError |
| Netstat.Tally | check_netstat/check_netstat.py:293-330 | the counters after the loop has seen the records, or the KeyError it raised |
| Netstat.CheckNetstatSpec | check_netstat/check_netstat.py:281-332 | the tcp scan, the tcp6 scan, `ipv4toipv6` of the host, then the count, each raising in that order |
| Netstat.CheckNetstat | check_netstat/check_netstat.py:281-332 | the two scans, the destinations and the counting loop compute `CheckNetstatSpec` |
| Netstat.CheckNetstatSucceeds | check_netstat/check_netstat.py:281-332 | `check_netstat` returns counters iff every row of both TCP tables is parsable and the host has a mapped form |
| Netstat.CountConnections | check_netstat/check_netstat.py:293-330 | the counting loop computes `Tally` of the records |
| Netstat.TallyCounts | check_netstat/check_netstat.py:293-330 | the count raises iff a record targeting the destination is `CLOSED`. Otherwise `connections` is the number of matching records, each counter is the number of matching records in its state, and `closing` stays 0 |
| Netstat.NonMatchingIgnored | check_netstat/check_netstat.py:296 | records whose remote end is neither destination change nothing |
| Netstat.ConnectionsSum | check_netstat/check_netstat.py:297-327 | over table states, `connections` is the sum of the ten counters plus the matching `CLOSING` records |
| Netstat.ScannedCountNeverRaises | check_netstat/check_netstat.py:287-332 | when both scans and `ipv4toipv6` succeed, the count succeeds: `closed` is never reached, `closing` is 0, and `connections` bounds the sum of the counters |
| Netstat.MappedPeerCounted | check_netstat/check_netstat.py:290-296 | a tcp6 row whose remote end is `::ffff:` plus the kernel word of the destination converts to exactly `destination_ipv6` |
| Netstat.Classify | check_netstat/check_netstat.py:377-392 | with `noalert` the code is OK; otherwise CRITICAL iff established is below min or above max, OK iff it lies in `[min, max]` |
| Netstat.NetstatProbe | check_netstat/check_netstat.py:371-392 | `min > max` exits UNKNOWN before any table is read; otherwise an exception of the count ends the run, else the exit code is `Classify` of the established count |
| MountTable.MountLines | check_disk.py:81 | `output[:-1].split('\n')` yields at least one line |
| MountTable.ValidMounts | check_disk.py:81-85 | `valid_mounts` after the loop has seen the lines, or the IndexError of a line with fewer than three columns |
| MountTable.CheckMounts | check_disk.py:87-90 | the membership test of the mount point in `valid_mounts` |
| MountTable.IsValidMountPoint | check_disk.py:73-90 | `valid_mount_point` over the text of `/proc/mounts` |
| MountTable.ValidMountPoint | check_disk.py:73-90 | the collecting loop and the membership test compute `IsValidMountPoint` |
| MountTable.ValidMountsMeaning | check_disk.py:81-85 | the loop succeeds iff every line has three columns. The error is IndexError. It collects exactly the mount columns of the lines whose type is not excluded |
| MountTable.CheckMountsMeaning | check_disk.py:73-90 | true iff every line has three columns and some line lists the mount point with a non-excluded type; false iff every line has three columns and none does; IndexError iff some line has fewer than three columns |
| MountTable.MountOrderIrrelevant | check_disk.py:81-88 | any reordering of the lines gives the same answer |
| MountTable.ExcludedOnlyNeverValid | check_disk.py:75-85 | a mount point listed only with excluded types, however often, is never valid |
| MountTable.OnlyMountColumnCounts | check_disk.py:82-87 | when no mount column equals the mount point the answer is false, whatever the device columns hold |
| MountTable.OneAcceptingEntryEnough | check_disk.py:84-88 | one entry with a non-excluded type is enough to make a mount point valid |
| MountTable.EmptyTableRaises | check_disk.py:81-82 | an empty mount table raises IndexError |
| MountTable.UsageStatus | check_disk.py:146-156 | with `warning < critical`: OK iff `noalert` or usage ≤ warning; WARNING iff strictly between the thresholds; CRITICAL iff usage ≥ critical (all without `noalert`) |
| MountTable.DiskProbe | check_disk.py:132-156 | `warning >= critical` exits UNKNOWN before the mount table is read. Otherwise: an unreadable table or an invalid mount point exits UNKNOWN, and a malformed table raises. For a valid mount point, `percInUse` stands for the result of a `disk_status` call that succeeded, and the exit code is `UsageStatus` of it |

## Left out

- The file-descriptor scan and the `exe` links are one snapshot (`Rows.System`) for the
  whole run. The source globs `/proc/*/fd/*` again for every row and reads each `exe` link
  when it needs it, so changes to processes between rows are not captured.
- MountTable.DiskProbe: the failures of `disk_status` are not modelled. An `os.statvfs`
  error exits UNKNOWN, and a file system with no blocks raises ZeroDivisionError. The model
  takes the percentage of a call that succeeded.
- Reading the files under `/proc` is not modelled (`_tcp4load` and the other loaders,
  `read_procfs`). Their contents are parameters, and the loaders' removal of the header
  line is assumed already done. A failed read of `/proc/mounts` is `None`, which exits
  UNKNOWN.
- The `/proc/[0-9]*/fd/[0-9]*` glob, `os.readlink` and `pwd.getpwuid` are inputs: an
  ordered list of fd entries, a map of `exe` links, and a map from uid to name.
- InodeLookup.GetPidOfInode: `re.search` is modelled as substring search. An inode holding
  regular-expression metacharacters is not modelled; kernel inodes are decimal digits.
- Rows.ParseRow: the exceptions raised inside the `try` around `readlink` are modelled only
  as a missing link. The TypeError of `'/proc/' + None` gives `exe = None`, as in the source.
- `disk_status` and `check_disk` are not modelled: they call `os.statvfs` and compute in
  floating point.
- MountTable.DiskProbe: the usage percentage is a real-valued input. NaN, infinities and
  rounding are not modelled.
- `argparse`, the `--debug` path (`print_debug`, then exit OK), `print_perfdata` and all
  printed messages are left out. They are I/O.
- Netstat.NetstatProbe: the `if results:` test is always true, since the dictionary is never
  empty, so it is not modelled.
- Netstat.NetstatProbe: a missing `--host` or `--port` is not modelled. Host and port are a
  string and an integer. In the source a missing `--port` makes the `%d` format of
  check_netstat.py:290 raise TypeError; a missing `--host` alone formats as `None:<port>`
  and, after both table scans, `ipv4toipv6(None)` raises AttributeError at `split`
  (check_netstat.py:257, reached from :291).
- Strings.ParseInt: Python 2's trailing `L` on longs and Unicode digits are not accepted.
  The tables only hold ASCII hexadecimal and decimal digits.
- The other plugins in the repository (`check_cpu`, `check_load`, `check_mem`,
  `check_swap`, `check_network`) are not part of this model.
