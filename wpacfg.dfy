/** The station and access-point supervisor of iotwifi/wpacfg.go. It drives wpa_cli
    (interface wlan0) and hostapd_cli (interface uap0) through their text output: a
    key/value parser for status dumps, a scan-results table parser, a connected-station
    list filter, and the sequential ConnectNetwork protocol with its bounded status poll.
    Running a command is an abstract daemon that answers each argument vector, possibly
    depending on the commands issued before it; the class WpaCfg records every issued
    command in its trace. */
module IotWifi {
  import opened GoText

  datatype Option<T> = None | Some(value: T)

  // ================================================================ records

  /** One row of `wpa_cli scan_results`. */
  datatype WpaNetwork = WpaNetwork(bssid: string, frequency: string, signalLevel: string, flags: string, ssid: string)

  /** The credentials of the network to join. */
  datatype WpaCredentials = WpaCredentials(ssid: string, psk: string)

  /** The outcome of a connection attempt. */
  datatype WpaConnection = WpaConnection(ssid: string, state: string, ip: string, message: string)

  /** Go's zero value WpaConnection{}, returned beside every error. */
  function NoConnection(): WpaConnection {
    WpaConnection("", "", "", "")
  }

  /** A value of APStatus's map[string]interface{}: a status field or the client list. */
  datatype StatusValue = Str(text: string) | List(items: seq<string>)

  // ================================================================ commands

  /** The argument vector of one process invocation. */
  type Argv = seq<string>

  /** What an invocation gave back: its standard output, or the error exec returned. */
  datatype Reply = Output(text: string) | Failure(reason: string)

  /** The daemons behind the command-line tools: the reply to a command, given every
      command issued before it. */
  type Daemon = (seq<Argv>, Argv) -> Reply

  const WpaCli: Argv := ["wpa_cli", "-i", "wlan0"]
  const HostapdCli: Argv := ["hostapd_cli", "-i", "uap0"]

  /** A value in double quotes, as set_network expects an SSID or a passphrase. */
  function Quoted(s: string): string {
    "\"" + s + "\""
  }

  const AddNetworkCmd: Argv := WpaCli + ["add_network"]
  const StatusCmd: Argv := WpaCli + ["status"]
  const SaveCmd: Argv := WpaCli + ["save_config"]
  const ScanCmd: Argv := WpaCli + ["scan"]
  const ScanResultsCmd: Argv := WpaCli + ["scan_results"]
  const ApStatusCmd: Argv := HostapdCli + ["status"]
  const ListStaCmd: Argv := HostapdCli + ["list_sta"]

  function SetSsidCmd(net: string, ssid: string): Argv {
    WpaCli + ["set_network", net, "ssid", Quoted(ssid)]
  }

  function SetPskCmd(net: string, psk: string): Argv {
    WpaCli + ["set_network", net, "psk", Quoted(psk)]
  }

  function EnableCmd(net: string): Argv {
    WpaCli + ["enable_network", net]
  }

  // ================================================================ last-wins index

  /** The map built by inserting, line by line, the entry each line yields; a later
      entry replaces an earlier one with the same key. */
  function Index<V>(entry: string -> Option<(string, V)>, lines: seq<string>): map<string, V>
  {
    if lines == [] then map[]
    else
      var m := Index(entry, lines[..|lines| - 1]);
      match entry(lines[|lines| - 1])
      case None => m
      case Some(kv) => m[kv.0 := kv.1]
  }

  predicate Defines<V>(entry: string -> Option<(string, V)>, line: string, k: string) {
    entry(line).Some? && entry(line).value.0 == k
  }

  /** A key is in the index exactly when some line yields an entry with that key. */
  lemma {:induction false} IndexKeys<V>(entry: string -> Option<(string, V)>, lines: seq<string>, k: string)
    ensures k in Index(entry, lines) <==> exists i :: 0 <= i < |lines| && Defines(entry, lines[i], k)
  {
    if lines != [] {
      var init := lines[..|lines| - 1];
      var last := |lines| - 1;
      IndexKeys(entry, init, k);
      assert forall i :: 0 <= i < |init| ==> init[i] == lines[i];
      if Defines(entry, lines[last], k) {
        assert k in Index(entry, lines);
      } else {
        assert (k in Index(entry, lines)) == (k in Index(entry, init));
        if k in Index(entry, lines) {
          var i :| 0 <= i < |init| && Defines(entry, init[i], k);
          assert Defines(entry, lines[i], k);
        } else {
          forall i | 0 <= i < |lines|
            ensures !Defines(entry, lines[i], k)
          {
            if i < last {
              assert lines[i] == init[i];
            }
          }
        }
      }
    }
  }

  /** The value kept for a key is the one of the last line that yields that key. */
  lemma {:induction false} IndexLastWins<V>(entry: string -> Option<(string, V)>, lines: seq<string>, k: string, i: int)
    requires 0 <= i < |lines| && Defines(entry, lines[i], k)
    requires forall j :: i < j < |lines| ==> !Defines(entry, lines[j], k)
    ensures k in Index(entry, lines) && Index(entry, lines)[k] == entry(lines[i]).value.1
  {
    var init := lines[..|lines| - 1];
    if i < |lines| - 1 {
      assert !Defines(entry, lines[|lines| - 1], k);
      assert init[i] == lines[i];
      forall j | i < j < |init|
        ensures !Defines(entry, init[j], k)
      {
        assert init[j] == lines[j];
      }
      IndexLastWins(entry, init, k, i);
    }
  }

  /** Two line sequences whose entries agree position by position give the same index. */
  lemma {:induction false} IndexPointwise<V>(e1: string -> Option<(string, V)>, l1: seq<string>,
                                             e2: string -> Option<(string, V)>, l2: seq<string>)
    requires |l1| == |l2|
    requires forall i :: 0 <= i < |l1| ==> e1(l1[i]) == e2(l2[i])
    ensures Index(e1, l1) == Index(e2, l2)
  {
    if l1 != [] {
      var n := |l1| - 1;
      assert e1(l1[n]) == e2(l2[n]);
      forall i | 0 <= i < n
        ensures e1(l1[..n][i]) == e2(l2[..n][i])
      {
        assert l1[..n][i] == l1[i] && l2[..n][i] == l2[i];
      }
      IndexPointwise(e1, l1[..n], e2, l2[..n]);
    }
  }

  // ================================================================ cfgMapper

  /** The entry one line contributes in cfgMapper: the line is split on every '=' and
      segments 0 and 1 are kept, so the value stops at a second '='. */
  function CfgLine(line: string): Option<(string, string)>
  {
    var kv := Split(line, '=');
    if |kv| > 1 then Some((kv[0], kv[1])) else None
  }

  /** A line yields an entry exactly when it holds a '='; the key is the text before the
      first '=' and the value the text between the first and the second '=' (or the end). */
  lemma CfgLineReadsFirstTwoSegments(line: string)
    ensures CfgLine(line).None? <==> '=' !in line
    ensures CfgLine(line).Some? ==>
              var (k, v) := CfgLine(line).value;
              var p := |k| + 1 + |v|;
              '=' !in k && '=' !in v && p <= |line| && line[..p] == k + "=" + v
              && (p == |line| || line[p] == '=')
  {
    var parts := Split(line, '=');
    JoinSplit(line, '=');
    if |parts| == 1 {
      assert line == parts[0];
    } else {
      var (k, v) := (parts[0], parts[1]);
      var p := |k| + 1 + |v|;
      assert line == k + "=" + Join(parts[1..], "=");
      if |parts| == 2 {
        assert parts[1..] == [v];
        assert line == k + "=" + v;
      } else {
        assert parts[1..][1..] == parts[2..];
        assert Join(parts[1..], "=") == v + "=" + Join(parts[2..], "=");
        assert line == (k + "=" + v) + ("=" + Join(parts[2..], "="));
      }
    }
  }

  /** Every key/value line, whatever follows a second '=', parses back to its key and value. */
  lemma CfgLineOfKeyValue(k: string, v: string, rest: string)
    requires '=' !in k && '=' !in v
    requires rest == [] || rest[0] == '='
    ensures CfgLine(k + "=" + v + rest) == Some((k, v))
  {
    if rest == [] {
      SplitJoin([k, v], '=');
      assert Join([k, v], "=") == k + "=" + v;
      assert k + "=" + v + rest == k + "=" + v;
    } else {
      var more := Split(rest[1..], '=');
      JoinSplit(rest[1..], '=');
      var tail := [v] + more;
      var parts := [k] + tail;
      assert parts[0] == k && parts[1] == v;
      SplitJoin(parts, '=');
      JoinCons(k, tail, "=");
      JoinCons(v, more, "=");
      assert rest == "=" + Join(more, "=");
      Associative(k + "=", v, rest);
      Associative(v, "=", Join(more, "="));
    }
  }

  /** cfgMapper: the last-wins index of the entries of the text's lines. */
  method CfgMapper(data: string) returns (cfg: map<string, string>)
    ensures cfg == Index(CfgLine, Split(data, '\n'))
  {
    cfg := map[];
    var lines := Split(data, '\n');
    for i := 0 to |lines|
      invariant cfg == Index(CfgLine, lines[..i])
    {
      var kv := Split(lines[i], '=');
      if |kv| > 1 {
        cfg := cfg[kv[0] := kv[1]];
      }
      assert lines[..i + 1][..i] == lines[..i];
    }
    assert lines[..|lines|] == lines;
  }

  // ================================================================ APStatus

  /** The index marker hostapd_cli appends to per-BSS fields such as ssid[0]. */
  const IndexMarker := "[0]"

  /** The entry a line of hostapd_cli status output contributes once "[0]" is removed. */
  function ApLine(line: string): Option<(string, string)> {
    CfgLine(RemoveAll(line, IndexMarker))
  }

  /** Removing every "[0]" from the whole status text before parsing is the same as
      removing it from each line, so the parsed fields are the last-wins index of ApLine. */
  lemma ApStatusFieldsLineByLine(text: string)
    ensures Index(CfgLine, Split(RemoveAll(text, IndexMarker), '\n')) == Index(ApLine, Split(text, '\n'))
  {
    SplitRemoveAll(text, IndexMarker);
    IndexPointwise(CfgLine, Split(RemoveAll(text, IndexMarker), '\n'), ApLine, Split(text, '\n'));
  }

  /** An indexed field such as ssid[0]=x is read as key ssid with value x, also when the
      value holds brackets, as in ssid[0]=Cafe [Guest]. */
  lemma ApLineStripsIndex(k: string, v: string)
    requires '[' !in k && '=' !in k && '=' !in v && !Contains(v, IndexMarker)
    ensures RemoveAll(k + "[0]=" + v, IndexMarker) == k + "=" + v
    ensures ApLine(k + "[0]=" + v) == Some((k, v))
  {
    assert k + "[0]=" + v == k + ("[0]" + ("=" + v));
    RemoveAllSkip(k, "[0]" + ("=" + v), IndexMarker);
    RemoveAllFront(IndexMarker, "=" + v);
    MarkerNotAfterEquals(v);
    RemoveAllAbsent("=" + v, IndexMarker);
    assert k + ("=" + v) == k + "=" + v;
    CfgLineOfKeyValue(k, v, []);
    assert k + "=" + v + [] == k + "=" + v;
  }

  /** An "=" in front creates no "[0]". */
  lemma MarkerNotAfterEquals(v: string)
    requires !Contains(v, IndexMarker)
    ensures !Contains("=" + v, IndexMarker)
  {
    var w := "=" + v;
    assert w[1..] == v;
    if |IndexMarker| <= |w| {
      assert w[..|IndexMarker|][0] != IndexMarker[0];
    }
  }

  /** A line without "[0]", such as one with the index [1], is parsed as it stands. */
  lemma ApLineKeepsOtherIndices(line: string)
    requires !Contains(line, IndexMarker)
    ensures ApLine(line) == CfgLine(line)
  {
    RemoveAllAbsent(line, IndexMarker);
  }

  /** The lines of list_sta output kept as clients: those longer than one byte. */
  function LongLines(lines: seq<string>): seq<string> {
    if lines == [] then []
    else (if ByteLen(lines[0]) > 1 then [lines[0]] else []) + LongLines(lines[1..])
  }

  /** The filter acts line by line, so it keeps the original order. */
  lemma {:induction false} LongLinesAppend(a: seq<string>, b: seq<string>)
    ensures LongLines(a + b) == LongLines(a) + LongLines(b)
  {
    if a == [] {
      assert a + b == b;
    } else {
      assert (a + b)[0] == a[0];
      assert (a + b)[1..] == a[1..] + b;
      LongLinesAppend(a[1..], b);
    }
  }

  /** The clients are exactly the lines longer than one byte, each as often as it occurs:
      the lines of two or more characters and the lines of one character outside ASCII.
      Empty lines and lines of one ASCII character are dropped. */
  lemma {:induction false} LongLinesExactly(lines: seq<string>)
    ensures forall x :: multiset(LongLines(lines))[x]
                        == if |x| > 1 || (|x| == 1 && x[0] as int >= 0x80) then multiset(lines)[x] else 0
  {
    if lines != [] {
      ByteLenAboveOne(lines[0]);
      LongLinesExactly(lines[1..]);
      assert lines == [lines[0]] + lines[1..];
      assert multiset(lines) == multiset{lines[0]} + multiset(lines[1..]);
    }
  }

  /** The filter counts bytes: an empty line and a line of one ASCII character are
      dropped, while a line of one two-byte character such as "é" is kept. */
  lemma LongLinesCountBytes()
    ensures LongLines(["", "a", "\U{E9}", "ab"]) == ["\U{E9}", "ab"]
  {
  }

  /** The client-collecting loop of APStatus. */
  method ConnectedClients(text: string) returns (clients: seq<string>)
    ensures clients == LongLines(Split(text, '\n'))
  {
    clients := [];
    var lines := Split(text, '\n');
    for i := 0 to |lines|
      invariant clients == LongLines(lines[..i])
    {
      var line := lines[i];
      LongLinesAppend(lines[..i], [line]);
      assert lines[..i + 1] == lines[..i] + [line];
      if ByteLen(line) > 1 {
        clients := clients + [line];
      }
    }
    assert lines[..|lines|] == lines;
  }

  /** The status fields as values of APStatus's map. */
  function AsValues(fields: map<string, string>): (m: map<string, StatusValue>)
    ensures m.Keys == fields.Keys
    ensures forall k :: k in m ==> m[k] == Str(fields[k])
  {
    map k | k in fields :: Str(fields[k])
  }

  /** The copying loop of APStatus: every status field is stored in the result map. */
  method CopyFields(fields: map<string, string>) returns (cfg: map<string, StatusValue>)
    ensures cfg == AsValues(fields)
  {
    cfg := map[];
    var pending := fields.Keys;
    while pending != {}
      invariant pending <= fields.Keys
      invariant cfg.Keys == fields.Keys - pending
      invariant forall k :: k in cfg ==> cfg[k] == Str(fields[k])
      decreases pending
    {
      var k :| k in pending;
      cfg := cfg[k := Str(fields[k])];
      pending := pending - {k};
    }
  }

  // ================================================================ ScanNetworks

  /** The entry one row of scan_results contributes: none for a [P2P] row or a row with
      at most four fields; otherwise fields 0 to 3 and the SSID rebuilt by joining the
      remaining fields with single spaces, keyed by that SSID. */
  function ScanRow(line: string): Option<(string, WpaNetwork)>
  {
    if Contains(line, "[P2P]") then None
    else
      var fields := Fields(line);
      if |fields| > 4 then
        var ssid := Join(fields[4..], " ");
        Some((ssid, WpaNetwork(fields[0], fields[1], fields[2], fields[3], ssid)))
      else None
  }

  /** The scan_results row of a network, fields separated by tabs as wpa_cli prints them. */
  function FormatRow(n: WpaNetwork): string {
    Join([n.bssid, n.frequency, n.signalLevel, n.flags, n.ssid], "\t")
  }

  /** A network that a scan_results row can describe: four single-word fields and an SSID
      made of words separated by single spaces. */
  predicate Printable(n: WpaNetwork) {
    IsWord(n.bssid) && IsWord(n.frequency) && IsWord(n.signalLevel) && IsWord(n.flags)
    && Fields(n.ssid) != [] && Join(Fields(n.ssid), " ") == n.ssid
  }

  lemma JoinCons(x: string, rest: seq<string>, sep: string)
    requires rest != []
    ensures Join([x] + rest, sep) == x + sep + Join(rest, sep)
  {
    assert ([x] + rest)[1..] == rest;
  }

  /** A leading single-word cell followed by a tab is one field. */
  lemma FieldsOfCell(a: string, rest: seq<string>)
    requires IsWord(a) && rest != []
    ensures Fields(Join([a] + rest, "\t")) == [a] + Fields(Join(rest, "\t"))
  {
    JoinCons(a, rest, "\t");
    assert a + "\t" + Join(rest, "\t") == a + ['\t'] + Join(rest, "\t");
    FieldsAtSpace(a, '\t', Join(rest, "\t"));
    FieldsOfWord(a);
  }

  lemma FieldsOfRow(a: string, b: string, c: string, d: string, e: string)
    requires IsWord(a) && IsWord(b) && IsWord(c) && IsWord(d)
    ensures Fields(Join([a, b, c, d, e], "\t")) == [a, b, c, d] + Fields(e)
  {
    Uncons(a, b, c, d, e);
    FieldsOfCell(a, [b, c, d, e]);
    FieldsOfCell(b, [c, d, e]);
    FieldsOfCell(c, [d, e]);
    FieldsOfCell(d, [e]);
    assert Join([e], "\t") == e;
    Recons(a, b, c, d, Fields(e));
  }

  lemma Uncons<T>(a: T, b: T, c: T, d: T, e: T)
    ensures [a, b, c, d, e] == [a] + [b, c, d, e] && [b, c, d, e] == [b] + [c, d, e]
    ensures [c, d, e] == [c] + [d, e] && [d, e] == [d] + [e]
  {
  }

  lemma Recons<T>(a: T, b: T, c: T, d: T, tail: seq<T>)
    ensures [a] + ([b] + ([c] + ([d] + tail))) == [a, b, c, d] + tail
  {
  }

  /** A printed row that is not a [P2P] row parses back to its network, keyed by its SSID;
      in particular an SSID with spaces is rebuilt whole. */
  lemma ScanRowOfFormatRow(n: WpaNetwork)
    requires Printable(n) && !Contains(FormatRow(n), "[P2P]")
    ensures ScanRow(FormatRow(n)) == Some((n.ssid, n))
  {
    FieldsOfRow(n.bssid, n.frequency, n.signalLevel, n.flags, n.ssid);
    var fields := Fields(FormatRow(n));
    assert fields[4..] == Fields(n.ssid);
  }

  /** Conversely, an accepted row is not a [P2P] row, its whitespace-separated fields are
      the four leading fields followed by the words of the SSID, and its key is the SSID. */
  lemma ScanRowReadsFields(line: string)
    requires ScanRow(line).Some?
    ensures var (key, n) := ScanRow(line).value;
            key == n.ssid && !Contains(line, "[P2P]") && Printable(n)
            && Fields(line) == [n.bssid, n.frequency, n.signalLevel, n.flags] + Fields(n.ssid)
  {
    var fields := Fields(line);
    var n := ScanRow(line).value.1;
    FieldsJoin(fields[4..]);
    assert fields == fields[..4] + fields[4..];
    assert fields[..4] == [fields[0], fields[1], fields[2], fields[3]];
  }

  /** Every network in a scan table is stored under its own SSID. */
  lemma {:induction false} ScanTableKeyedBySsid(rows: seq<string>)
    ensures forall s :: s in Index(ScanRow, rows) ==> Index(ScanRow, rows)[s].ssid == s
  {
    if rows != [] {
      ScanTableKeyedBySsid(rows[..|rows| - 1]);
    }
  }

  lemma {:induction false} JoinAvoids(parts: seq<string>, sep: string, c: char)
    requires c !in sep
    requires forall i :: 0 <= i < |parts| ==> c !in parts[i]
    ensures c !in Join(parts, sep)
  {
    if |parts| > 1 {
      JoinAvoids(parts[1..], sep, c);
    }
  }

  lemma NewlineFreeRow(n: WpaNetwork)
    requires Printable(n)
    ensures '\n' !in FormatRow(n)
  {
    assert IsSpace('\n');
    var words := Fields(n.ssid);
    JoinAvoids(words, " ", '\n');
    var cells := [n.bssid, n.frequency, n.signalLevel, n.flags, n.ssid];
    JoinAvoids(cells, "\t", '\n');
  }

  /** A scan_results output made of a header, a [P2P] row, a row with at most four fields
      and one printed network yields exactly that network, under its SSID. */
  lemma ScanSkipsHeaderP2pAndShortRows(header: string, p2p: string, short: string, n: WpaNetwork)
    requires '\n' !in header && '\n' !in p2p && '\n' !in short
    requires Contains(p2p, "[P2P]") && |Fields(short)| <= 4
    requires Printable(n) && !Contains(FormatRow(n), "[P2P]")
    ensures Index(ScanRow, Split(Join([header, p2p, short, FormatRow(n)], "\n"), '\n')[1..]) == map[n.ssid := n]
  {
    NewlineFreeRow(n);
    var lines := [header, p2p, short, FormatRow(n)];
    SplitJoin(lines, '\n');
    var rows := [p2p, short, FormatRow(n)];
    assert lines[1..] == rows;
    assert Split(Join(lines, "\n"), '\n')[1..] == rows;
    ScanRowOfFormatRow(n);
    assert ScanRow(p2p).None? && ScanRow(short).None?;
    assert [p2p][..0] == [];
    assert Index(ScanRow, [p2p]) == map[];
    assert [p2p, short][..1] == [p2p];
    assert Index(ScanRow, [p2p, short]) == map[];
    assert rows[..2] == [p2p, short];
    assert Index(ScanRow, rows) == Index(ScanRow, rows[..2])[n.ssid := n];
  }

  /** The first line of scan_results is the column header and is never parsed, whatever
      it holds. */
  lemma ScanIgnoresFirstLine(header: string, body: string)
    requires '\n' !in header
    ensures Index(ScanRow, Split(header + "\n" + body, '\n')[1..]) == Index(ScanRow, Split(body, '\n'))
  {
    SplitAtSeparator(header, '\n', body);
    assert ([header] + Split(body, '\n'))[1..] == Split(body, '\n');
  }

  /** The row-parsing loop of ScanNetworks: every row after the header is parsed, a later
      row overwriting an earlier one with the same SSID. */
  method ParseScanResults(text: string) returns (nets: map<string, WpaNetwork>)
    ensures nets == Index(ScanRow, Split(text, '\n')[1..])
  {
    nets := map[];
    var rows := Split(text, '\n')[1..];
    for i := 0 to |rows|
      invariant nets == Index(ScanRow, rows[..i])
    {
      var row := rows[i];
      assert rows[..i + 1][..i] == rows[..i];
      if !Contains(row, "[P2P]") {
        var fields := Fields(row);
        if |fields| > 4 {
          var ssid := Join(fields[4..], " ");
          nets := nets[ssid := WpaNetwork(fields[0], fields[1], fields[2], fields[3], ssid)];
        }
      }
    }
    assert rows[..|rows|] == rows;
  }

  /** The scan acknowledgement passes the gate exactly when it is "OK" surrounded by
      nothing but white space. */
  lemma ScanAcknowledged(ack: string)
    ensures TrimSpace(ack) == "OK" <==>
              exists i :: 0 <= i <= |ack| - 2 && ack[i..i + 2] == "OK" && AllSpace(ack[..i]) && AllSpace(ack[i + 2..])
  {
    if i :| 0 <= i <= |ack| - 2 && ack[i..i + 2] == "OK" && AllSpace(ack[..i]) && AllSpace(ack[i + 2..]) {
      assert ack == ack[..i] + "OK" + ack[i + 2..];
      TrimSpacePadded(ack[..i], "OK", ack[i + 2..]);
    }
  }

  // ================================================================ wpa_state

  const StateKey := "wpa_state="

  /** The text before the first line break, if s holds one. */
  function UntilNewline(s: string): (r: Option<string>)
    ensures r.None? <==> '\n' !in s
    ensures r.Some? ==> |r.value| < |s| && s[..|r.value|] == r.value && '\n' !in r.value && s[|r.value|] == '\n'
  {
    if s == [] then None
    else if s[0] == '\n' then Some([])
    else
      match UntilNewline(s[1..])
      case None => None
      case Some(t) =>
        assert [s[0]] + t == s[..1 + |t|];
        Some([s[0]] + t)
  }

  /** The supplicant state the regular expression (?m)wpa_state=(.*)\n captures on its
      first match: the text after the first "wpa_state=" up to the next line break; none
      when that occurrence is not followed by a line break or there is no occurrence. */
  function WpaState(s: string): Option<string>
    decreases |s|
  {
    if |s| < |StateKey| then None
    else if s[..|StateKey|] == StateKey then UntilNewline(s[|StateKey|..])
    else WpaState(s[1..])
  }

  /** The regular expression matches at position i, capturing v. */
  predicate MatchAt(s: string, i: int, v: string) {
    0 <= i && i + |StateKey| + |v| < |s|
    && s[i..i + |StateKey|] == StateKey
    && s[i + |StateKey|..i + |StateKey| + |v|] == v
    && '\n' !in v
    && s[i + |StateKey| + |v|] == '\n'
  }

  /** A newline-free prefix followed by a line break is the text before the first one. */
  lemma {:induction false} UntilNewlineOfLine(t: string, v: string)
    requires |v| < |t| && t[..|v|] == v && '\n' !in v && t[|v|] == '\n'
    ensures UntilNewline(t) == Some(v)
  {
    if v != [] {
      assert t[0] == v[0];
      assert t[1..][..|v| - 1] == v[1..];
      assert forall c :: c in v[1..] ==> c in v;
      UntilNewlineOfLine(t[1..], v[1..]);
      assert [t[0]] + v[1..] == v;
    }
  }

  lemma MatchCaptureUnique(s: string, i: int, v: string, u: string)
    requires MatchAt(s, i, v) && MatchAt(s, i, u)
    ensures v == u
  {
    var b := i + |StateKey|;
    assert s[b..][..|v|] == s[b..b + |v|];
    assert s[b..][..|u|] == s[b..b + |u|];
    UntilNewlineOfLine(s[b..], v);
    UntilNewlineOfLine(s[b..], u);
  }

  lemma MatchShift(s: string, i: int, v: string)
    requires 1 <= i && s != []
    ensures MatchAt(s, i, v) <==> MatchAt(s[1..], i - 1, v)
  {
    var b := i + |StateKey|;
    if i + |StateKey| + |v| < |s| {
      SliceOfTail(s, i, b);
      SliceOfTail(s, b, b + |v|);
    }
  }

  /** What WpaState returns is the capture of the leftmost match. */
  lemma {:induction false} WpaStateIsLeftmostMatch(s: string)
    requires WpaState(s).Some?
    ensures exists i :: MatchAt(s, i, WpaState(s).value) && forall j, u :: 0 <= j < i ==> !MatchAt(s, j, u)
    decreases |s|
  {
    var v := WpaState(s).value;
    if s[..|StateKey|] == StateKey {
      var rest := s[|StateKey|..];
      assert s[|StateKey|..|StateKey| + |v|] == rest[..|v|];
      assert MatchAt(s, 0, v);
    } else {
      WpaStateIsLeftmostMatch(s[1..]);
      var i :| MatchAt(s[1..], i, v) && forall j, u :: 0 <= j < i ==> !MatchAt(s[1..], j, u);
      MatchShift(s, i + 1, v);
      forall j, u | 0 <= j < i + 1
        ensures !MatchAt(s, j, u)
      {
        if j > 0 {
          MatchShift(s, j, u);
        }
      }
    }
  }

  /** A match at i before which nothing matches is what WpaState returns. */
  lemma {:induction false} WpaStateFindsLeftmostMatch(s: string, i: int, v: string)
    requires MatchAt(s, i, v)
    requires forall j, u :: 0 <= j < i ==> !MatchAt(s, j, u)
    ensures WpaState(s) == Some(v)
    decreases |s|
  {
    if s[..|StateKey|] == StateKey {
      var rest := s[|StateKey|..];
      assert rest[i + |v|] == '\n';
      var w := UntilNewline(rest).value;
      assert s[|StateKey|..|StateKey| + |w|] == rest[..|w|];
      assert MatchAt(s, 0, w);
      MatchCaptureUnique(s, 0, v, w);
    } else {
      MatchShift(s, i, v);
      forall j, u | 0 <= j < i - 1
        ensures !MatchAt(s[1..], j, u)
      {
        MatchShift(s, j + 1, u);
      }
      WpaStateFindsLeftmostMatch(s[1..], i - 1, v);
    }
  }

  /** A state is found only where a "wpa_state=" has a line break somewhere after it. */
  lemma WpaStateHasNewlineAfterKey(s: string)
    ensures WpaState(s).Some? ==>
              exists i :: 0 <= i <= |s| - |StateKey| && s[i..i + |StateKey|] == StateKey && '\n' in s[i..]
  {
    if WpaState(s).Some? {
      WpaStateIsLeftmostMatch(s);
      var v := WpaState(s).value;
      var i :| MatchAt(s, i, v);
      assert s[i..][|StateKey| + |v|] == '\n';
    }
  }

  /** Without a line break after any "wpa_state=", in particular when the state is on a
      final line without one, nothing matches and WpaState reports no state. */
  lemma WpaStateNeedsNewline(s: string)
    requires forall i :: 0 <= i <= |s| - |StateKey| && s[i..i + |StateKey|] == StateKey ==> '\n' !in s[i..]
    ensures WpaState(s) == None
  {
    WpaStateHasNewlineAfterKey(s);
  }

  /** A final line without a line break yields no state, even when it is a "wpa_state="
      line, as long as the lines before it hold no "wpa_state=". */
  lemma WpaStateUnterminatedLastLine(before: string, last: string)
    requires !Contains(before, StateKey) && '\n' !in last
    ensures WpaState(before + "\n" + last) == None
  {
    var s := before + "\n" + last;
    var b := |before|;
    ContainsOccurs(before, StateKey);
    forall i | 0 <= i <= |s| - |StateKey|
      ensures s[i..i + |StateKey|] == StateKey ==> '\n' !in s[i..]
    {
      if i + |StateKey| <= b {
        assert s[i..i + |StateKey|] == before[i..i + |StateKey|];
        assert !OccursAt(before, StateKey, i);
      } else if i <= b {
        assert s[i..i + |StateKey|][b - i] == '\n';
      } else {
        assert s[i..] == last[i - b - 1..];
      }
    }
    WpaStateNeedsNewline(s);
  }

  /** A status reply that ends the poll: the command succeeded and its state is COMPLETED. */
  predicate CompletedReply(r: Reply) {
    r.Output? && WpaState(r.text) == Some("COMPLETED")
  }

  // ================================================================ ConnectNetwork

  /** What one operation returned and the commands it issued, in order. */
  datatype Run<T> = Run(value: T, err: Option<string>, issued: seq<Argv>)

  /** The success result: the requested SSID with state COMPLETED. */
  function CompletedConnection(ssid: string): WpaConnection {
    WpaConnection(ssid, "COMPLETED", "", "")
  }

  /** The result after the last poll: no SSID, state FAIL and a message naming the network. */
  function FailedConnection(ssid: string): WpaConnection {
    WpaConnection("", "FAIL", "", "Unable to connect to " + ssid)
  }

  /** The number of status polls before ConnectNetwork gives up. */
  const MaxPolls := 5

  lemma OutcomesDiffer(ssid: string)
    ensures CompletedConnection(ssid) != FailedConnection(ssid)
  {
    assert |CompletedConnection(ssid).state| != |FailedConnection(ssid).state|;
  }

  function Repeat<T>(c: T, n: nat): (r: seq<T>)
    ensures |r| == n && forall i :: 0 <= i < n ==> r[i] == c
  {
    seq(n, _ => c)
  }

  /** The three commands that configure and enable network net. */
  function Setup(net: string, creds: WpaCredentials): seq<Argv> {
    [SetSsidCmd(net, creds.ssid), SetPskCmd(net, creds.psk), EnableCmd(net)]
  }

  /** The network handle: the trimmed reply to add_network. */
  function Handle(d: Daemon, h: seq<Argv>): string {
    match d(h, AddNetworkCmd)
    case Output(text) => TrimSpace(text)
    case Failure(_) => ""
  }

  /** Every command ConnectNetwork may issue before save_config, in order. */
  function Plan(net: string, creds: WpaCredentials): seq<Argv> {
    [AddNetworkCmd] + Setup(net, creds) + Repeat(StatusCmd, MaxPolls)
  }

  /** Issues the commands one after another, stopping at the first that fails. */
  function Steps(d: Daemon, h: seq<Argv>, cmds: seq<Argv>): Run<()>
    decreases |cmds|
  {
    if cmds == [] then Run((), None, [])
    else
      match d(h, cmds[0])
      case Failure(e) => Run((), Some(e), [cmds[0]])
      case Output(_) =>
        var rest := Steps(d, h + [cmds[0]], cmds[1..]);
        rest.(issued := [cmds[0]] + rest.issued)
  }

  /** The status poll with the given number of attempts left. */
  function Poll(d: Daemon, h: seq<Argv>, ssid: string, attempts: nat): Run<WpaConnection>
    decreases attempts
  {
    if attempts == 0 then Run(FailedConnection(ssid), None, [])
    else
      match d(h, StatusCmd)
      case Failure(e) => Run(NoConnection(), Some(e), [StatusCmd])
      case Output(out) =>
        if WpaState(out) == Some("COMPLETED") then
          match d(h + [StatusCmd], SaveCmd)
          case Failure(e) => Run(NoConnection(), Some(e), [StatusCmd, SaveCmd])
          case Output(_) => Run(CompletedConnection(ssid), None, [StatusCmd, SaveCmd])
        else
          var next := Poll(d, h + [StatusCmd], ssid, attempts - 1);
          next.(issued := [StatusCmd] + next.issued)
  }

  /** ConnectNetwork as a function of the daemon and the history before the call. */
  function Connect(d: Daemon, h: seq<Argv>, creds: WpaCredentials): Run<WpaConnection> {
    match d(h, AddNetworkCmd)
    case Failure(e) => Run(NoConnection(), Some(e), [AddNetworkCmd])
    case Output(out) =>
      var net := TrimSpace(out);
      var setup := Steps(d, h + [AddNetworkCmd], Setup(net, creds));
      if setup.err.Some? then Run(NoConnection(), setup.err, [AddNetworkCmd] + setup.issued)
      else
        var poll := Poll(d, h + [AddNetworkCmd] + setup.issued, creds.ssid, MaxPolls);
        poll.(issued := [AddNetworkCmd] + setup.issued + poll.issued)
  }

  // ---------------------------------------------------------------- lemmas

  /** Every command of a list issued after history h was answered with output. */
  predicate AllAnswered(d: Daemon, h: seq<Argv>, cmds: seq<Argv>) {
    forall j :: 0 <= j < |cmds| ==> d(h + cmds[..j], cmds[j]).Output?
  }

  /** The run stopped at its first failure: every command before the last one was
      answered, and the run reports an error exactly when the last one failed. */
  predicate StoppedAtFailure<T>(d: Daemon, h: seq<Argv>, r: Run<T>)
    requires r.issued != []
  {
    && AllAnswered(d, h, r.issued[..|r.issued| - 1])
    && (r.err.Some? <==> d(h + r.issued[..|r.issued| - 1], r.issued[|r.issued| - 1]).Failure?)
    && (r.err.Some? ==> r.err.value == d(h + r.issued[..|r.issued| - 1], r.issued[|r.issued| - 1]).reason)
  }

  // Sequence facts stated once for any element type, so that the solver does not
  // rediscover them for sequences of argument vectors.

  lemma Pair<T>(x: T, y: T)
    ensures [x] + [y] == [x, y]
  {
  }

  lemma PrefixWithin<T>(x: seq<T>, a: seq<T>, b: seq<T>, c: seq<T>)
    requires a <= b
    ensures x + a <= x + b + c
  {
    assert (x + b + c)[..|x + a|] == x + a;
  }

  lemma RepeatCons<T>(c: T, n: nat)
    ensures [c] + Repeat(c, n) == Repeat(c, n + 1)
    ensures Repeat(c, n) + [c] == Repeat(c, n + 1)
  {
  }

  lemma RepeatPrefix<T>(c: T, n: nat, m: nat)
    requires m <= n
    ensures Repeat(c, n)[..m] == Repeat(c, m)
  {
  }

  lemma HistoryShift<T>(h: seq<T>, c: T, rest: seq<T>, j: nat)
    requires j <= |rest|
    ensures h + ([c] + rest)[..j + 1] == (h + [c]) + rest[..j]
  {
    assert ([c] + rest)[..j + 1] == [c] + rest[..j];
  }

  /** Prefixing a run with an answered command keeps it stopped at its first failure. */
  lemma StoppedAtFailureCons<T, U>(d: Daemon, h: seq<Argv>, c: Argv, r: Run<T>, v: U)
    requires d(h, c).Output? && r.issued != [] && StoppedAtFailure(d, h + [c], r)
    ensures StoppedAtFailure(d, h, Run(v, r.err, [c] + r.issued))
  {
    var all := [c] + r.issued;
    var n := |r.issued|;
    var pre := all[..|all| - 1];
    forall j | 0 <= j < |pre|
      ensures d(h + pre[..j], pre[j]).Output?
    {
      assert pre[..j] == all[..j];
      if j > 0 {
        HistoryShift(h, c, r.issued, j - 1);
        assert r.issued[..n - 1][..j - 1] == r.issued[..j - 1];
        assert pre[j] == r.issued[..n - 1][j - 1];
      } else {
        assert h + all[..0] == h;
      }
    }
    HistoryShift(h, c, r.issued, n - 1);
  }

  lemma StoppedAtFailureAppend<T, U>(d: Daemon, h: seq<Argv>, first: seq<Argv>, r: Run<T>, v: U)
    requires AllAnswered(d, h, first) && r.issued != [] && StoppedAtFailure(d, h + first, r)
    ensures StoppedAtFailure(d, h, Run(v, r.err, first + r.issued))
    decreases |first|
  {
    if first == [] {
      assert first + r.issued == r.issued;
      assert h + first == h;
    } else {
      var c := first[0];
      assert d(h + first[..0], first[0]).Output?;
      assert h + first[..0] == h;
      forall j | 0 <= j < |first| - 1
        ensures d((h + [c]) + first[1..][..j], first[1..][j]).Output?
      {
        HistoryShift(h, c, first[1..], j);
        assert [c] + first[1..] == first;
        assert first[1..][j] == first[j + 1];
      }
      assert h + [c] + first[1..] == h + first;
      StoppedAtFailureAppend(d, h + [c], first[1..], r, v);
      StoppedAtFailureCons(d, h, c, Run(v, r.err, first[1..] + r.issued), v);
      assert [c] + (first[1..] + r.issued) == first + r.issued;
    }
  }

  lemma {:induction false} StepsStopAtFailure(d: Daemon, h: seq<Argv>, cmds: seq<Argv>)
    requires cmds != []
    ensures var r := Steps(d, h, cmds);
            r.issued != [] && r.issued <= cmds && (r.err.None? ==> r.issued == cmds)
            && StoppedAtFailure(d, h, r)
    decreases |cmds|
  {
    var r := Steps(d, h, cmds);
    if d(h, cmds[0]).Failure? {
      assert h + r.issued[..0] == h;
    } else if |cmds| == 1 {
      assert cmds[1..] == [];
      assert r.issued == [cmds[0]];
      assert h + r.issued[..0] == h;
    } else {
      var rest := Steps(d, h + [cmds[0]], cmds[1..]);
      StepsStopAtFailure(d, h + [cmds[0]], cmds[1..]);
      StoppedAtFailureCons(d, h, cmds[0], rest, ());
      assert cmds == [cmds[0]] + cmds[1..];
    }
  }

  /** A run that reports no error issued every command. */
  lemma StepsWithoutError(d: Daemon, h: seq<Argv>, cmds: seq<Argv>)
    requires Steps(d, h, cmds).err.None?
    ensures Steps(d, h, cmds).issued == cmds
  {
    if cmds != [] {
      StepsStopAtFailure(d, h, cmds);
    }
  }

  lemma {:induction false} PollStopsAtFailure(d: Daemon, h: seq<Argv>, ssid: string, attempts: nat)
    requires attempts > 0
    ensures var p := Poll(d, h, ssid, attempts);
            p.issued != [] && StoppedAtFailure(d, h, p) && (p.err.Some? ==> p.value == NoConnection())
    decreases attempts
  {
    var p := Poll(d, h, ssid, attempts);
    assert h + p.issued[..0] == h;
    match d(h, StatusCmd)
    case Failure(e) =>
    case Output(out) =>
      if WpaState(out) == Some("COMPLETED") {
        assert p.issued[..1] == [StatusCmd];
      } else if attempts == 1 {
        assert p.issued == [StatusCmd];
      } else {
        var next := Poll(d, h + [StatusCmd], ssid, attempts - 1);
        PollStopsAtFailure(d, h + [StatusCmd], ssid, attempts - 1);
        StoppedAtFailureCons(d, h, StatusCmd, next, next.value);
      }
  }

  /** Hard errors: ConnectNetwork issues commands until one fails and then returns that
      command's error at once, with the zero connection; every command before the last
      succeeded, and an error is reported exactly when the last command failed. */
  lemma ConnectStopsAtFirstFailure(d: Daemon, h: seq<Argv>, creds: WpaCredentials)
    ensures var r := Connect(d, h, creds);
            r.issued != [] && StoppedAtFailure(d, h, r) && (r.err.Some? ==> r.value == NoConnection())
  {
    var r := Connect(d, h, creds);
    if d(h, AddNetworkCmd).Failure? {
      assert r.issued[..0] == [];
      assert h + [] == h;
    } else {
      var net := Handle(d, h);
      var setup := Steps(d, h + [AddNetworkCmd], Setup(net, creds));
      StepsStopAtFailure(d, h + [AddNetworkCmd], Setup(net, creds));
      if setup.err.Some? {
        ConnectSetupFails(d, h, creds);
        StoppedAtFailureCons(d, h, AddNetworkCmd, setup, NoConnection());
      } else {
        ConnectAfterSetup(d, h, creds);
        var poll := Poll(d, Prelude(d, h, creds), creds.ssid, MaxPolls);
        PollStopsAtFailure(d, Prelude(d, h, creds), creds.ssid, MaxPolls);
        var first := [AddNetworkCmd] + Setup(net, creds);
        StoppedAnswered(d, h + [AddNetworkCmd], setup);
        AnsweredPrelude(d, h, Setup(net, creds));
        Associative(h, [AddNetworkCmd], Setup(net, creds));
        StoppedAtFailureAppend(d, h, first, poll, poll.value);
      }
    }
  }

  /** A run that stopped without an error had every command answered. */
  lemma StoppedAnswered<T>(d: Daemon, h: seq<Argv>, r: Run<T>)
    requires r.issued != [] && StoppedAtFailure(d, h, r) && r.err.None?
    ensures AllAnswered(d, h, r.issued)
  {
    var n := |r.issued| - 1;
    forall j | 0 <= j < |r.issued|
      ensures d(h + r.issued[..j], r.issued[j]).Output?
    {
      if j < n {
        assert r.issued[..n][..j] == r.issued[..j];
        assert r.issued[..n][j] == r.issued[j];
      }
    }
  }

  lemma AnsweredPrelude(d: Daemon, h: seq<Argv>, setup: seq<Argv>)
    requires d(h, AddNetworkCmd).Output? && AllAnswered(d, h + [AddNetworkCmd], setup)
    ensures AllAnswered(d, h, [AddNetworkCmd] + setup)
  {
    var all := [AddNetworkCmd] + setup;
    forall j | 0 <= j < |all|
      ensures d(h + all[..j], all[j]).Output?
    {
      if j == 0 {
        assert h + all[..0] == h;
      } else {
        HistoryShift(h, AddNetworkCmd, setup, j - 1);
      }
    }
  }

  /** No status reply among the first k polls after history h was COMPLETED. */
  predicate NeverCompleted(d: Daemon, h: seq<Argv>, k: nat) {
    forall j :: 0 <= j < k ==> !CompletedReply(d(h + Repeat(StatusCmd, j), StatusCmd))
  }

  lemma RepeatShift<T>(h: seq<T>, c: T, j: nat)
    ensures h + Repeat(c, j + 1) == (h + [c]) + Repeat(c, j)
  {
    RepeatCons(c, j);
    Associative(h, [c], Repeat(c, j));
  }

  lemma NeverCompletedCons(d: Daemon, h: seq<Argv>, k: nat)
    requires !CompletedReply(d(h, StatusCmd)) && NeverCompleted(d, h + [StatusCmd], k)
    ensures NeverCompleted(d, h, k + 1)
  {
    forall j | 0 <= j < k + 1
      ensures !CompletedReply(d(h + Repeat(StatusCmd, j), StatusCmd))
    {
      if j == 0 {
        assert h + Repeat(StatusCmd, 0) == h;
      } else {
        RepeatShift(h, StatusCmd, j - 1);
      }
    }
  }

  /** The commands a poll with the given attempts may issue after history h: at most one
      status command per attempt, none but the last answered COMPLETED; or status
      commands followed by one save_config, issued right after the first COMPLETED
      status reply. */
  predicate PollShape(d: Daemon, h: seq<Argv>, attempts: nat, issued: seq<Argv>) {
    var m := |issued|;
    || (m <= attempts && issued == Repeat(StatusCmd, m) && (m == 0 || NeverCompleted(d, h, m - 1)))
    || (2 <= m <= attempts + 1 && issued == Repeat(StatusCmd, m - 1) + [SaveCmd]
        && CompletedReply(d(h + Repeat(StatusCmd, m - 2), StatusCmd))
        && NeverCompleted(d, h, m - 2))
  }

  /** The poll issues only status commands, at most one per attempt, and then at most one
      save_config, which comes right after the first COMPLETED status reply; a poll that
      stops at a failing command got no COMPLETED reply before it. */
  lemma {:induction false} PollCommands(d: Daemon, h: seq<Argv>, ssid: string, attempts: nat)
    ensures PollShape(d, h, attempts, Poll(d, h, ssid, attempts).issued)
    decreases attempts
  {
    var p := Poll(d, h, ssid, attempts);
    if attempts > 0 && d(h, StatusCmd).Output? {
      if CompletedReply(d(h, StatusCmd)) {
        RepeatCons(StatusCmd, 0);
        Pair(StatusCmd, SaveCmd);
        assert h + Repeat(StatusCmd, 0) == h;
      } else {
        var next := Poll(d, h + [StatusCmd], ssid, attempts - 1);
        PollCommands(d, h + [StatusCmd], ssid, attempts - 1);
        assert p.issued == [StatusCmd] + next.issued;
        PollCommandsStep(d, h, attempts, next.issued);
      }
    } else if attempts > 0 {
      RepeatCons(StatusCmd, 0);
    }
  }

  /** The inductive step of PollCommands: one more status command in front. */
  lemma PollCommandsStep(d: Daemon, h: seq<Argv>, attempts: nat, next: seq<Argv>)
    requires attempts > 0 && !CompletedReply(d(h, StatusCmd))
    requires PollShape(d, h + [StatusCmd], attempts - 1, next)
    ensures PollShape(d, h, attempts, [StatusCmd] + next)
  {
    var m := |next|;
    if m <= attempts - 1 && next == Repeat(StatusCmd, m) && (m == 0 || NeverCompleted(d, h + [StatusCmd], m - 1)) {
      RepeatCons(StatusCmd, m);
      if m > 0 {
        NeverCompletedCons(d, h, m - 1);
      }
    } else {
      Associative([StatusCmd], Repeat(StatusCmd, m - 1), [SaveCmd]);
      RepeatCons(StatusCmd, m - 1);
      RepeatShift(h, StatusCmd, m - 2);
      NeverCompletedCons(d, h, m - 2);
    }
  }

  /** How a poll with the given attempts after history h may end: connected, with
      status commands and one save_config, no earlier reply having been COMPLETED; or
      FAIL, after one status command per attempt, none of whose replies was COMPLETED. */
  predicate PollEnding(d: Daemon, h: seq<Argv>, ssid: string, attempts: nat, value: WpaConnection, issued: seq<Argv>) {
    || (value == CompletedConnection(ssid) && 2 <= |issued|
        && issued == Repeat(StatusCmd, |issued| - 1) + [SaveCmd]
        && NeverCompleted(d, h, |issued| - 2))
    || (value == FailedConnection(ssid) && issued == Repeat(StatusCmd, attempts)
        && NeverCompleted(d, h, attempts))
  }

  /** Without an error the poll ends in one of two ways: connected, right after the first
      COMPLETED reply and a save_config; or FAIL, after every attempt was used up
      without a COMPLETED reply. */
  lemma {:induction false} PollOutcome(d: Daemon, h: seq<Argv>, ssid: string, attempts: nat)
    ensures var p := Poll(d, h, ssid, attempts);
            p.err.None? ==> PollEnding(d, h, ssid, attempts, p.value, p.issued)
    decreases attempts
  {
    var p := Poll(d, h, ssid, attempts);
    if attempts > 0 && d(h, StatusCmd).Output? && !CompletedReply(d(h, StatusCmd)) {
      var next := Poll(d, h + [StatusCmd], ssid, attempts - 1);
      PollOutcome(d, h + [StatusCmd], ssid, attempts - 1);
      assert p == next.(issued := [StatusCmd] + next.issued);
      if next.err.None? {
        PollOutcomeStep(d, h, ssid, attempts, next);
      }
    } else if attempts > 0 && CompletedReply(d(h, StatusCmd)) {
      RepeatCons(StatusCmd, 0);
      Pair(StatusCmd, SaveCmd);
    }
  }

  /** The inductive step of PollOutcome: one more quiet status reply in front. */
  lemma PollOutcomeStep(d: Daemon, h: seq<Argv>, ssid: string, attempts: nat, next: Run<WpaConnection>)
    requires attempts > 0 && !CompletedReply(d(h, StatusCmd))
    requires PollEnding(d, h + [StatusCmd], ssid, attempts - 1, next.value, next.issued)
    ensures PollEnding(d, h, ssid, attempts, next.value, [StatusCmd] + next.issued)
  {
    OutcomesDiffer(ssid);
    var m := |next.issued|;
    if next.value == CompletedConnection(ssid) {
      NeverCompletedCons(d, h, m - 2);
      Associative([StatusCmd], Repeat(StatusCmd, m - 1), [SaveCmd]);
      RepeatCons(StatusCmd, m - 1);
    } else {
      NeverCompletedCons(d, h, attempts - 1);
      RepeatCons(StatusCmd, attempts - 1);
    }
  }

  /** Commands answered one after another all run, and the run reports no error. */
  lemma {:induction false} StepsAllAnswered(d: Daemon, h: seq<Argv>, cmds: seq<Argv>)
    requires AllAnswered(d, h, cmds)
    ensures Steps(d, h, cmds) == Run((), None, cmds)
    decreases |cmds|
  {
    if cmds != [] {
      var (c, rest) := (cmds[0], cmds[1..]);
      assert cmds == [c] + rest;
      assert h + cmds[..0] == h;
      forall j | 0 <= j < |rest|
        ensures d((h + [c]) + rest[..j], rest[j]).Output?
      {
        HistoryShift(h, c, rest, j);
        assert rest[j] == cmds[j + 1];
      }
      StepsAllAnswered(d, h + [c], rest);
    }
  }

  /** The three configuration commands, unfolded: they stop at the first that fails. */
  lemma SetupSteps(d: Daemon, h: seq<Argv>, net: string, creds: WpaCredentials)
    ensures var ssid := d(h, SetSsidCmd(net, creds.ssid));
            var psk := d(h + [SetSsidCmd(net, creds.ssid)], SetPskCmd(net, creds.psk));
            var enable := d(h + [SetSsidCmd(net, creds.ssid), SetPskCmd(net, creds.psk)], EnableCmd(net));
            Steps(d, h, Setup(net, creds))
            == if ssid.Failure? then Run((), Some(ssid.reason), [SetSsidCmd(net, creds.ssid)])
               else if psk.Failure? then Run((), Some(psk.reason), [SetSsidCmd(net, creds.ssid), SetPskCmd(net, creds.psk)])
               else if enable.Failure? then Run((), Some(enable.reason), Setup(net, creds))
               else Run((), None, Setup(net, creds))
  {
    var (c0, c1, c2) := (SetSsidCmd(net, creds.ssid), SetPskCmd(net, creds.psk), EnableCmd(net));
    var (h1, h2) := (h + [c0], h + [c0, c1]);
    assert Setup(net, creds) == [c0, c1, c2];
    assert [c0, c1, c2][1..] == [c1, c2];
    assert [c1, c2][1..] == [c2];
    assert [c2][1..] == [];
    assert h1 + [c1] == h2;
    assert Steps(d, h2 + [c2], []) == Run((), None, []);
    assert [c2] + [] == [c2];
    var last := Steps(d, h2, [c2]);
    assert last == if d(h2, c2).Failure? then Run((), Some(d(h2, c2).reason), [c2]) else Run((), None, [c2]);
    var mid := Steps(d, h1, [c1, c2]);
    assert mid == if d(h1, c1).Failure? then Run((), Some(d(h1, c1).reason), [c1])
                  else last.(issued := [c1] + last.issued);
  }

  /** The history before the first poll of ConnectNetwork. */
  function Prelude(d: Daemon, h: seq<Argv>, creds: WpaCredentials): seq<Argv> {
    h + [AddNetworkCmd] + Setup(Handle(d, h), creds)
  }

  /** When one of the configuration commands fails, ConnectNetwork stops there. */
  lemma ConnectSetupFails(d: Daemon, h: seq<Argv>, creds: WpaCredentials)
    requires d(h, AddNetworkCmd).Output?
    requires Steps(d, h + [AddNetworkCmd], Setup(Handle(d, h), creds)).err.Some?
    ensures var setup := Steps(d, h + [AddNetworkCmd], Setup(Handle(d, h), creds));
            Connect(d, h, creds) == Run(NoConnection(), setup.err, [AddNetworkCmd] + setup.issued)
    ensures h + Connect(d, h, creds).issued
            == h + [AddNetworkCmd] + Steps(d, h + [AddNetworkCmd], Setup(Handle(d, h), creds)).issued
  {
    Associative(h, [AddNetworkCmd], Steps(d, h + [AddNetworkCmd], Setup(Handle(d, h), creds)).issued);
  }

  /** Once add_network and the three configuration commands succeed, ConnectNetwork
      continues with the poll after the prelude. */
  lemma ConnectAfterSetup(d: Daemon, h: seq<Argv>, creds: WpaCredentials)
    requires d(h, AddNetworkCmd).Output?
    requires Steps(d, h + [AddNetworkCmd], Setup(Handle(d, h), creds)).err.None?
    ensures var poll := Poll(d, Prelude(d, h, creds), creds.ssid, MaxPolls);
            Connect(d, h, creds) == Run(poll.value, poll.err, [AddNetworkCmd] + Setup(Handle(d, h), creds) + poll.issued)
    ensures h + Connect(d, h, creds).issued == Prelude(d, h, creds) + Poll(d, Prelude(d, h, creds), creds.ssid, MaxPolls).issued
    ensures Steps(d, h + [AddNetworkCmd], Setup(Handle(d, h), creds)).issued == Setup(Handle(d, h), creds)
  {
    var pre := [AddNetworkCmd] + Setup(Handle(d, h), creds);
    Associative(h, [AddNetworkCmd], Setup(Handle(d, h), creds));
    Associative(h, pre, Poll(d, Prelude(d, h, creds), creds.ssid, MaxPolls).issued);
    StepsWithoutError(d, h + [AddNetworkCmd], Setup(Handle(d, h), creds));
  }

  /** The order of ConnectNetwork's commands: they follow add_network, the three
      configuration commands with the trimmed handle in each, and five status polls,
      except that a save_config may come right after the first COMPLETED status reply; so
      at most ten commands are issued. Whichever command the run stops at, no status reply
      before the last status command was COMPLETED. */
  lemma ConnectCommands(d: Daemon, h: seq<Argv>, creds: WpaCredentials)
    ensures var r := Connect(d, h, creds);
            var plan := Plan(Handle(d, h), creds);
            || (r.issued <= plan && (|r.issued| <= 4 || NeverCompleted(d, Prelude(d, h, creds), |r.issued| - 5)))
            || (6 <= |r.issued| <= 10 && r.issued == plan[..|r.issued| - 1] + [SaveCmd]
                && CompletedReply(d(h + r.issued[..|r.issued| - 2], StatusCmd))
                && NeverCompleted(d, Prelude(d, h, creds), |r.issued| - 6))
  {
    var r := Connect(d, h, creds);
    var net := Handle(d, h);
    var plan := Plan(net, creds);
    if d(h, AddNetworkCmd).Output? {
      var setup := Steps(d, h + [AddNetworkCmd], Setup(net, creds));
      StepsStopAtFailure(d, h + [AddNetworkCmd], Setup(net, creds));
      if setup.err.None? {
        ConnectAfterSetup(d, h, creds);
        PollCommands(d, Prelude(d, h, creds), creds.ssid, MaxPolls);
        ConnectCommandsAfterSetup(d, h, creds, Poll(d, Prelude(d, h, creds), creds.ssid, MaxPolls).issued);
      } else {
        ConnectSetupFails(d, h, creds);
        PrefixWithin([AddNetworkCmd], setup.issued, Setup(net, creds), Repeat(StatusCmd, MaxPolls));
      }
    } else {
      PrefixWithin([AddNetworkCmd], [], Setup(net, creds), Repeat(StatusCmd, MaxPolls));
      assert [AddNetworkCmd] + [] == [AddNetworkCmd];
    }
  }

  lemma ConnectCommandsAfterSetup(d: Daemon, h: seq<Argv>, creds: WpaCredentials, polls: seq<Argv>)
    requires PollShape(d, Prelude(d, h, creds), MaxPolls, polls)
    ensures var issued := [AddNetworkCmd] + Setup(Handle(d, h), creds) + polls;
            var plan := Plan(Handle(d, h), creds);
            || (issued <= plan && (|issued| <= 4 || NeverCompleted(d, Prelude(d, h, creds), |issued| - 5)))
            || (6 <= |issued| <= 10 && issued == plan[..|issued| - 1] + [SaveCmd]
                && CompletedReply(d(h + issued[..|issued| - 2], StatusCmd))
                && NeverCompleted(d, Prelude(d, h, creds), |issued| - 6))
  {
    var pre := [AddNetworkCmd] + Setup(Handle(d, h), creds);
    var plan := Plan(Handle(d, h), creds);
    var issued := pre + polls;
    var m := |polls|;
    assert plan == pre + Repeat(StatusCmd, MaxPolls);
    assert |pre| == 4;
    if m <= MaxPolls && polls == Repeat(StatusCmd, m) && (m == 0 || NeverCompleted(d, Prelude(d, h, creds), m - 1)) {
      RepeatPrefix(StatusCmd, MaxPolls, m);
      PrefixWithin(pre, polls, Repeat(StatusCmd, MaxPolls), []);
      assert plan + [] == plan;
    } else {
      var shorter := Repeat(StatusCmd, m - 1);
      RepeatPrefix(StatusCmd, MaxPolls, m - 1);
      PrefixWithin(pre, shorter, Repeat(StatusCmd, MaxPolls), []);
      assert plan + [] == plan;
      Associative(pre, shorter, [SaveCmd]);
      assert plan[..|issued| - 1] == pre + shorter;
      RepeatPrefix(StatusCmd, m - 1, m - 2);
      assert issued[..|issued| - 2] == pre + Repeat(StatusCmd, m - 2);
      Associative(h, [AddNetworkCmd], Setup(Handle(d, h), creds));
      Associative(h, pre, Repeat(StatusCmd, m - 2));
    }
  }

  /** Without an error, ConnectNetwork reports either the connection to the requested
      network, after a save_config that followed the first COMPLETED status reply, or
      FAIL with the message "Unable to connect to <ssid>" after exactly the planned nine
      commands, none of whose five status replies was COMPLETED, and no save_config. */
  lemma ConnectOutcome(d: Daemon, h: seq<Argv>, creds: WpaCredentials)
    ensures var r := Connect(d, h, creds);
            var plan := Plan(Handle(d, h), creds);
            r.err.None? ==>
              || (r.value == CompletedConnection(creds.ssid) && 6 <= |r.issued| <= 10
                  && r.issued == plan[..|r.issued| - 1] + [SaveCmd]
                  && NeverCompleted(d, Prelude(d, h, creds), |r.issued| - 6))
              || (r.value == FailedConnection(creds.ssid) && r.issued == plan && SaveCmd !in r.issued
                  && NeverCompleted(d, Prelude(d, h, creds), MaxPolls))
  {
    var net := Handle(d, h);
    if d(h, AddNetworkCmd).Output? && Steps(d, h + [AddNetworkCmd], Setup(net, creds)).err.None? {
      ConnectAfterSetup(d, h, creds);
      var pre := [AddNetworkCmd] + Setup(net, creds);
      var poll := Poll(d, Prelude(d, h, creds), creds.ssid, MaxPolls);
      PollOutcome(d, Prelude(d, h, creds), creds.ssid, MaxPolls);
      PollCommands(d, Prelude(d, h, creds), creds.ssid, MaxPolls);
      if poll.err.None? {
        ConnectOutcomeAfterSetup(net, creds, poll);
      }
    }
  }

  /** save_config is none of the planned commands. */
  lemma SaveNotPlanned(net: string, creds: WpaCredentials)
    ensures SaveCmd !in Plan(net, creds)
  {
    var plan := Plan(net, creds);
    assert SaveCmd[3] == "save_config";
    assert "save_config"[0] == 's';
    assert AddNetworkCmd[3][0] == 'a' && StatusCmd[3][1] == 't';
    assert SetSsidCmd(net, creds.ssid)[3][1] == 'e' && SetPskCmd(net, creds.psk)[3][1] == 'e';
    assert EnableCmd(net)[3][0] == 'e';
    forall i | 0 <= i < |plan|
      ensures plan[i] != SaveCmd
    {
      if i >= 4 {
        assert plan[i] == StatusCmd;
      }
    }
  }

  lemma ConnectOutcomeAfterSetup(net: string, creds: WpaCredentials, poll: Run<WpaConnection>)
    requires |poll.issued| <= MaxPolls + 1
    requires poll.value == CompletedConnection(creds.ssid) ==>
               2 <= |poll.issued| && poll.issued == Repeat(StatusCmd, |poll.issued| - 1) + [SaveCmd]
    requires poll.value == FailedConnection(creds.ssid) ==> poll.issued == Repeat(StatusCmd, MaxPolls)
    ensures var issued := [AddNetworkCmd] + Setup(net, creds) + poll.issued;
            var plan := Plan(net, creds);
            && (poll.value == CompletedConnection(creds.ssid) ==>
                  6 <= |issued| <= 10 && issued == plan[..|issued| - 1] + [SaveCmd])
            && (poll.value == FailedConnection(creds.ssid) ==> issued == plan && SaveCmd !in issued)
  {
    var pre := [AddNetworkCmd] + Setup(net, creds);
    var plan := Plan(net, creds);
    var issued := pre + poll.issued;
    var m := |poll.issued|;
    assert plan == pre + Repeat(StatusCmd, MaxPolls);
    if poll.value == CompletedConnection(creds.ssid) {
      assert issued == pre + Repeat(StatusCmd, m - 1) + [SaveCmd];
      assert Repeat(StatusCmd, MaxPolls)[..m - 1] == Repeat(StatusCmd, m - 1);
      assert plan[..|issued| - 1] == pre + Repeat(StatusCmd, m - 1);
    } else if poll.value == FailedConnection(creds.ssid) {
      SaveNotPlanned(net, creds);
    }
  }

  /** A first status reply of COMPLETED and a successful save_config connect after
      exactly six commands. */
  lemma ConnectFirstPollCompletes(d: Daemon, h: seq<Argv>, creds: WpaCredentials)
    requires AllAnswered(d, h, [AddNetworkCmd] + Setup(Handle(d, h), creds))
    requires CompletedReply(d(Prelude(d, h, creds), StatusCmd))
    requires d(Prelude(d, h, creds) + [StatusCmd], SaveCmd).Output?
    ensures Connect(d, h, creds)
            == Run(CompletedConnection(creds.ssid), None,
                   [AddNetworkCmd] + Setup(Handle(d, h), creds) + [StatusCmd, SaveCmd])
  {
    var net := Handle(d, h);
    var cmds := [AddNetworkCmd] + Setup(net, creds);
    assert d(h + cmds[..0], cmds[0]).Output?;
    assert h + cmds[..0] == h;
    forall j | 0 <= j < |Setup(net, creds)|
      ensures d((h + [AddNetworkCmd]) + Setup(net, creds)[..j], Setup(net, creds)[j]).Output?
    {
      HistoryShift(h, AddNetworkCmd, Setup(net, creds), j);
      assert cmds[j + 1] == Setup(net, creds)[j];
    }
    StepsAllAnswered(d, h + [AddNetworkCmd], Setup(net, creds));
    assert h + [AddNetworkCmd] + Setup(net, creds) == Prelude(d, h, creds);
  }

  /** Five status replies that are never COMPLETED end in FAIL after nine commands,
      with no error and no save_config. */
  lemma ConnectNeverCompletes(d: Daemon, h: seq<Argv>, creds: WpaCredentials)
    requires AllAnswered(d, h, [AddNetworkCmd] + Setup(Handle(d, h), creds))
    requires forall k :: 0 <= k < MaxPolls ==>
               d(Prelude(d, h, creds) + Repeat(StatusCmd, k), StatusCmd).Output?
    requires NeverCompleted(d, Prelude(d, h, creds), MaxPolls)
    ensures Connect(d, h, creds) == Run(FailedConnection(creds.ssid), None, Plan(Handle(d, h), creds))
  {
    var net := Handle(d, h);
    var cmds := [AddNetworkCmd] + Setup(net, creds);
    assert d(h + cmds[..0], cmds[0]).Output?;
    assert h + cmds[..0] == h;
    forall j | 0 <= j < |Setup(net, creds)|
      ensures d((h + [AddNetworkCmd]) + Setup(net, creds)[..j], Setup(net, creds)[j]).Output?
    {
      HistoryShift(h, AddNetworkCmd, Setup(net, creds), j);
      assert cmds[j + 1] == Setup(net, creds)[j];
    }
    StepsAllAnswered(d, h + [AddNetworkCmd], Setup(net, creds));
    assert h + [AddNetworkCmd] + Setup(net, creds) == Prelude(d, h, creds);
    PollExhausted(d, Prelude(d, h, creds), creds.ssid, MaxPolls);
  }

  /** The first k status replies after history h were answered and none was COMPLETED. */
  predicate Quiet(d: Daemon, h: seq<Argv>, k: nat) {
    forall j :: 0 <= j < k ==> var r := d(h + Repeat(StatusCmd, j), StatusCmd); r.Output? && !CompletedReply(r)
  }

  lemma QuietExtend(d: Daemon, h: seq<Argv>, k: nat)
    requires Quiet(d, h, k)
    requires var r := d(h + Repeat(StatusCmd, k), StatusCmd); r.Output? && !CompletedReply(r)
    ensures Quiet(d, h, k + 1)
    ensures h + Repeat(StatusCmd, k) + [StatusCmd] == h + Repeat(StatusCmd, k + 1)
  {
    assert Repeat(StatusCmd, k) + [StatusCmd] == Repeat(StatusCmd, k + 1);
  }

  /** After k quiet polls the poll goes on as a poll with k fewer attempts. */
  lemma {:induction false} PollAfterQuiet(d: Daemon, h: seq<Argv>, ssid: string, attempts: nat, k: nat)
    requires k <= attempts && Quiet(d, h, k)
    ensures var rest := Poll(d, h + Repeat(StatusCmd, k), ssid, attempts - k);
            Poll(d, h, ssid, attempts) == Run(rest.value, rest.err, Repeat(StatusCmd, k) + rest.issued)
    decreases k
  {
    var whole := Poll(d, h, ssid, attempts);
    if k == 0 {
      assert h + Repeat(StatusCmd, 0) == h;
      assert Repeat(StatusCmd, 0) + whole.issued == whole.issued;
    } else {
      assert h + Repeat(StatusCmd, 0) == h;
      var h1 := h + [StatusCmd];
      forall j | 0 <= j < k - 1
        ensures var r := d(h1 + Repeat(StatusCmd, j), StatusCmd); r.Output? && !CompletedReply(r)
      {
        RepeatShift(h, StatusCmd, j);
      }
      var next := Poll(d, h1, ssid, attempts - 1);
      assert whole == next.(issued := [StatusCmd] + next.issued);
      PollAfterQuiet(d, h1, ssid, attempts - 1, k - 1);
      var rest := Poll(d, h1 + Repeat(StatusCmd, k - 1), ssid, attempts - k);
      assert next == Run(rest.value, rest.err, Repeat(StatusCmd, k - 1) + rest.issued);
      RepeatShift(h, StatusCmd, k - 1);
      assert rest == Poll(d, h + Repeat(StatusCmd, k), ssid, attempts - k);
      RepeatCons(StatusCmd, k - 1);
      Associative([StatusCmd], Repeat(StatusCmd, k - 1), rest.issued);
      assert whole.issued == Repeat(StatusCmd, k) + rest.issued;
    }
  }

  /** A poll whose every reply is quiet reports FAIL after using up its attempts. */
  lemma PollQuiet(d: Daemon, h: seq<Argv>, ssid: string, attempts: nat)
    requires Quiet(d, h, attempts)
    ensures Poll(d, h, ssid, attempts) == Run(FailedConnection(ssid), None, Repeat(StatusCmd, attempts))
  {
    PollExhausted(d, h, ssid, attempts);
  }

  lemma {:induction false} PollExhausted(d: Daemon, h: seq<Argv>, ssid: string, attempts: nat)
    requires forall k :: 0 <= k < attempts ==> d(h + Repeat(StatusCmd, k), StatusCmd).Output?
    requires NeverCompleted(d, h, attempts)
    ensures Poll(d, h, ssid, attempts) == Run(FailedConnection(ssid), None, Repeat(StatusCmd, attempts))
    decreases attempts
  {
    if attempts > 0 {
      assert h + Repeat(StatusCmd, 0) == h;
      forall k | 0 <= k < attempts - 1
        ensures d((h + [StatusCmd]) + Repeat(StatusCmd, k), StatusCmd).Output?
        ensures !CompletedReply(d((h + [StatusCmd]) + Repeat(StatusCmd, k), StatusCmd))
      {
        RepeatShift(h, StatusCmd, k);
      }
      PollExhausted(d, h + [StatusCmd], ssid, attempts - 1);
      assert [StatusCmd] + Repeat(StatusCmd, attempts - 1) == Repeat(StatusCmd, attempts);
    }
  }

  // ================================================================ the supervisor

  /** The WPA supervisor. Each operation runs its commands through Exec, which records
      them in trace. */
  class WpaCfg {
    /** wpa_supplicant and hostapd as seen through their command-line tools. */
    const daemon: Daemon
    /** Every command issued so far, oldest first. */
    var trace: seq<Argv>

    constructor (daemon: Daemon)
      ensures this.daemon == daemon && trace == []
    {
      this.daemon := daemon;
      trace := [];
    }

    /** Runs one command and collects its standard output. */
    method Exec(argv: Argv) returns (r: Reply)
      modifies this
      ensures trace == old(trace) + [argv]
      ensures r == daemon(old(trace), argv)
    {
      r := daemon(trace, argv);
      trace := trace + [argv];
    }

    /** wpa_cli status, parsed into key/value pairs; on a command error the empty map
        and that error. */
    method Status() returns (cfg: map<string, string>, err: Option<string>)
      modifies this
      ensures trace == old(trace) + [StatusCmd]
      ensures match daemon(old(trace), StatusCmd)
              case Failure(e) => cfg == map[] && err == Some(e)
              case Output(out) => cfg == Index(CfgLine, Split(out, '\n')) && err == None
    {
      var state := Exec(StatusCmd);
      if state.Failure? {
        return map[], Some(state.reason);
      }
      cfg := CfgMapper(state.text);
      err := None;
    }

    /** hostapd_cli status with every "[0]" removed and parsed into key/value pairs,
        then "clients" set to the lines of list_sta longer than one byte. A failing
        status gives the empty map; a failing list_sta gives the status fields, without
        the client list, together with the error. */
    method APStatus() returns (cfg: map<string, StatusValue>, err: Option<string>)
      modifies this
      ensures match daemon(old(trace), ApStatusCmd)
              case Failure(e) => trace == old(trace) + [ApStatusCmd] && cfg == map[] && err == Some(e)
              case Output(out) =>
                var fields := AsValues(Index(CfgLine, Split(RemoveAll(out, IndexMarker), '\n')));
                && trace == old(trace) + [ApStatusCmd, ListStaCmd]
                && match daemon(old(trace) + [ApStatusCmd], ListStaCmd)
                   case Failure(e) => cfg == fields && err == Some(e)
                   case Output(list) => cfg == fields["clients" := List(LongLines(Split(list, '\n')))] && err == None
    {
      var state := Exec(ApStatusCmd);
      if state.Failure? {
        return map[], Some(state.reason);
      }
      var fields := CfgMapper(RemoveAll(state.text, IndexMarker));
      cfg := CopyFields(fields);
      var list := Exec(ListStaCmd);
      if list.Failure? {
        return cfg, Some(list.reason);
      }
      var clients := ConnectedClients(list.text);
      cfg := cfg["clients" := List(clients)];
      err := None;
    }

    /** wpa_cli scan; when its trimmed reply is "OK", wpa_cli scan_results parsed into
        networks keyed by SSID. Any other acknowledgement gives the empty map and no
        error, and scan_results is not issued. */
    method ScanNetworks() returns (nets: map<string, WpaNetwork>, err: Option<string>)
      modifies this
      ensures match daemon(old(trace), ScanCmd)
              case Failure(e) => trace == old(trace) + [ScanCmd] && nets == map[] && err == Some(e)
              case Output(ack) =>
                if TrimSpace(ack) != "OK" then
                  trace == old(trace) + [ScanCmd] && nets == map[] && err == None
                else
                  && trace == old(trace) + [ScanCmd, ScanResultsCmd]
                  && match daemon(old(trace) + [ScanCmd], ScanResultsCmd)
                     case Failure(e) => nets == map[] && err == Some(e)
                     case Output(rows) => nets == Index(ScanRow, Split(rows, '\n')[1..]) && err == None
    {
      nets := map[];
      var ack := Exec(ScanCmd);
      if ack.Failure? {
        return map[], Some(ack.reason);
      }
      if TrimSpace(ack.text) == "OK" {
        var rows := Exec(ScanResultsCmd);
        if rows.Failure? {
          return map[], Some(rows.reason);
        }
        nets := ParseScanResults(rows.text);
      }
      err := None;
    }

    /** Adds, configures and enables a network, then polls the supplicant state up to
        five times; exactly the run Connect describes. */
    method ConnectNetwork(creds: WpaCredentials) returns (conn: WpaConnection, err: Option<string>)
      modifies this
      ensures conn == Connect(daemon, old(trace), creds).value
      ensures err == Connect(daemon, old(trace), creds).err
      ensures trace == old(trace) + Connect(daemon, old(trace), creds).issued
    {
      ghost var h := trace;
      var add := Exec(AddNetworkCmd);
      if add.Failure? {
        return NoConnection(), Some(add.reason);
      }
      var net := TrimSpace(add.text);
      assert Handle(daemon, h) == net;
      err := Configure(net, creds);
      if err.Some? {
        ConnectSetupFails(daemon, h, creds);
        return NoConnection(), err;
      }
      ConnectAfterSetup(daemon, h, creds);
      conn, err := AwaitCompleted(creds.ssid);
    }

    /** The configuration steps of ConnectNetwork: set_network ssid, set_network psk and
        enable_network for network net, stopping at the first that fails. */
    method Configure(net: string, creds: WpaCredentials) returns (err: Option<string>)
      modifies this
      ensures err == Steps(daemon, old(trace), Setup(net, creds)).err
      ensures trace == old(trace) + Steps(daemon, old(trace), Setup(net, creds)).issued
    {
      ghost var h := trace;
      ghost var (c0, c1, c2) := (SetSsidCmd(net, creds.ssid), SetPskCmd(net, creds.psk), EnableCmd(net));
      SetupSteps(daemon, h, net, creds);
      var reply := Exec(SetSsidCmd(net, creds.ssid));
      if reply.Failure? {
        return Some(reply.reason);
      }
      reply := Exec(SetPskCmd(net, creds.psk));
      Associative(h, [c0], [c1]);
      assert [c0] + [c1] == [c0, c1];
      if reply.Failure? {
        return Some(reply.reason);
      }
      reply := Exec(EnableCmd(net));
      Associative(h, [c0, c1], [c2]);
      assert [c0, c1] + [c2] == Setup(net, creds);
      if reply.Failure? {
        return Some(reply.reason);
      }
      return None;
    }

    /** The status poll of ConnectNetwork: up to five wpa_cli status calls; on the first
        COMPLETED state save_config and the connection; FAIL once the attempts are used up. */
    method AwaitCompleted(ssid: string) returns (conn: WpaConnection, err: Option<string>)
      modifies this
      ensures conn == Poll(daemon, old(trace), ssid, MaxPolls).value
      ensures err == Poll(daemon, old(trace), ssid, MaxPolls).err
      ensures trace == old(trace) + Poll(daemon, old(trace), ssid, MaxPolls).issued
    {
      ghost var h := trace;
      var i := 0;
      while i < MaxPolls
        invariant 0 <= i <= MaxPolls
        invariant trace == h + Repeat(StatusCmd, i)
        invariant Quiet(daemon, h, i)
      {
        PollAfterQuiet(daemon, h, ssid, MaxPolls, i);
        var state := Exec(StatusCmd);
        Associative(h, Repeat(StatusCmd, i), [StatusCmd]);
        if state.Failure? {
          return NoConnection(), Some(state.reason);
        }
        if WpaState(state.text) == Some("COMPLETED") {
          var save := Exec(SaveCmd);
          Associative(h, Repeat(StatusCmd, i), [StatusCmd, SaveCmd]);
          Associative(h + Repeat(StatusCmd, i), [StatusCmd], [SaveCmd]);
          assert [StatusCmd] + [SaveCmd] == [StatusCmd, SaveCmd];
          if save.Failure? {
            return NoConnection(), Some(save.reason);
          }
          return CompletedConnection(ssid), None;
        }
        QuietExtend(daemon, h, i);
        i := i + 1;
      }
      PollQuiet(daemon, h, ssid, MaxPolls);
      return FailedConnection(ssid), None;
    }
  }
}
