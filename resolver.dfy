/**
 * The device resolver: turns a decoded `{device_id, ip}` payload into a
 * diagnostics record by looking the device up in the registry, pinging the
 * address once and probing a set of TCP ports.
 *
 * The two points where the resolver touches the operating system are
 * parameters: `run` is what `subprocess.run` reports for a command line,
 * and `connect` is what `socket.connect_ex` does for an address and port.
 * The wall-clock timestamp is the parameter `now`, and whether the host is
 * Windows is the parameter `windows`.
 */
module Resolver {
  import opened Wrappers
  import opened Text
  import Numbers
  import Stats

  /** What `subprocess.run(cmd, capture_output=True, text=True, timeout=2)` reports. */
  datatype ProcessOutcome =
    | Completed(stdout: string)  // the process ended; its standard output
    | TimedOut                   // `subprocess.TimeoutExpired`
    | Failed                     // any other exception (no `ping` binary, a decoding error, ...)

  /** What `sock.connect_ex((ip, port))` does: returns an error number (0 on success) or raises. */
  datatype ConnectOutcome = Returned(code: int) | Raised

  /**
   * A ping result. `Up` carries the mean, smallest and largest round-trip
   * time in milliseconds and the loss in percent; `Down` is the record with
   * no statistics and a loss of `'100%'`.
   */
  datatype PingStats =
    | Up(avg: real, min: real, max: real, lossPct: real)
    | Down
  {
    /** The `loss` field as a number of percent. */
    function Loss(): real
    {
      if Up? then lossPct else 100.0
    }
  }

  datatype PortStatus = Open | Closed

  /** One entry of the `ports` dictionary: its key `port` and its value `{service, status}`. */
  datatype PortEntry = PortEntry(port: int, service: string, status: PortStatus)

  /** The `ports` dictionary, in insertion order. */
  type PortTable = seq<PortEntry>

  /**
   * A registry entry: the `ports` object when present (its keys in document
   * order, with their service labels) and the entry's other fields.
   */
  datatype DeviceEntry = DeviceEntry(attrs: map<string, string>, ports: Option<seq<(string, string)>>)

  /** The device map: device identifier to registry entry. */
  type Registry = map<string, DeviceEntry>

  /** The decoded QR payload. */
  type Payload = map<string, string>

  /** The record `get_device_info` returns. */
  datatype Diagnostics = Diagnostics(
    deviceId: string,
    ip: string,
    deviceType: string,
    location: string,
    model: string,
    ping: PingStats,
    ports: PortTable,
    lastCheck: string)

  /** A call the resolver makes into the network layer, in the order it makes them. */
  datatype Probe = PingCall(ip: string) | PortCall(ip: string, port: int)

  /** The number of echo requests `get_device_info` asks `ping` for (its default `count`). */
  const PingCount := 2

  /** The ports probed for every device, in the order they are probed. */
  const EssentialPorts: seq<(int, string)> := [(80, "HTTP"), (443, "HTTPS")]

  /** The value `dict.get` yields when the registry has no entry: an empty dictionary. */
  const EmptyEntry := DeviceEntry(map[], None)

  // ---------------------------------------------------------------------
  // Ping: command line and output parsing
  // ---------------------------------------------------------------------

  /** The argument vector handed to `subprocess.run`. */
  function PingCommand(windows: bool, ip: string, count: int): seq<string>
  {
    if windows then ["ping", "-n", Numbers.IntToString(count), "-w", "1000", ip]
    else ["ping", "-c", Numbers.IntToString(count), "-W", "1", ip]
  }

  /**
   * The command is `ping`, the count is the third argument and reads back as
   * the requested count, the per-attempt timeout is one second (given in
   * milliseconds on Windows) and the address is the last argument.
   */
  lemma PingCommandArguments(windows: bool, ip: string, count: int)
    ensures var cmd := PingCommand(windows, ip, count);
            && |cmd| == 6 && cmd[0] == "ping" && cmd[|cmd| - 1] == ip
            && Numbers.ParseInt(cmd[2]) == Some(count)
            && (windows ==> cmd[1] == "-n" && cmd[3] == "-w" && cmd[4] == "1000")
            && (!windows ==> cmd[1] == "-c" && cmd[3] == "-W" && cmd[4] == "1")
  {
    Numbers.IntToStringRoundTrip(count);
  }

  /**
   * The text a line offers as a round-trip time: after the first `time=`,
   * up to the next `time=` (the second piece of `split("time=")`), cut at
   * the first `ms` and stripped of white space.
   */
  function SampleText(line: string): string
    requires Contains(line, "time=")
  {
    Strip(Split(Split(line, "time=")[1], "ms")[0])
  }

  /**
   * The sample text is the text running from just after the line's first
   * `time=` up to the next `ms` or `time=` (or the end of the line), with the
   * white space at both of its ends cut off: it contains neither `time=` nor
   * `ms`, and it neither starts nor ends with white space.
   */
  lemma SampleTextSpan(line: string)
    requires Contains(line, "time=")
    ensures var t, start := SampleText(line), Find(line, "time=").value + 5;
            && (exists a: nat, b: nat, stop: nat :: RunsUpTo(line, start, stop, "time=", "ms")
                                                  && TrimmedWithin(line, start, stop, a, b)
                                                  && t == line[a..b])
            && !Occurs(t, "time=") && !Occurs(t, "ms")
            && (t != [] ==> !IsSpace(t[0]) && !IsSpace(t[|t| - 1]))
  {
    StripBetween(line, "time=", "ms");
  }

  /**
   * The point where the sample text stops is unique: `time=` and `ms` cannot
   * overlap, so of two stops after the same start, the earlier one would put
   * a marker inside the text before the later one.
   */
  lemma SampleStopUnique(line: string, start: nat, stop1: nat, stop2: nat)
    requires RunsUpTo(line, start, stop1, "time=", "ms") && RunsUpTo(line, start, stop2, "time=", "ms")
    ensures stop1 == stop2
  {
    EarlierStopInside(line, start, stop1, stop2);
    EarlierStopInside(line, start, stop2, stop1);
  }

  /** A marker that stops a stretch before `y` lies wholly inside `line[start..y]`. */
  lemma EarlierStopInside(line: string, start: nat, x: nat, y: nat)
    requires RunsUpTo(line, start, x, "time=", "ms")
    requires y <= |line| && (y == |line| || OccursAt(line, "time=", y) || OccursAt(line, "ms", y))
    ensures x < y ==> Occurs(line[start..y], "time=") || Occurs(line[start..y], "ms")
  {
    if x < y {
      MarkerGap(line, x, y);
      if OccursAt(line, "time=", x) {
        OccursWithin(line, start, y, "time=", x);
      } else {
        OccursWithin(line, start, y, "ms", x);
      }
    }
  }

  /** A marker at `x` ends no later than the next marker, or the end of the line, at `y`. */
  lemma MarkerGap(line: string, x: nat, y: nat)
    requires x < y <= |line| && (OccursAt(line, "time=", x) || OccursAt(line, "ms", x))
    requires y == |line| || OccursAt(line, "time=", y) || OccursAt(line, "ms", y)
    ensures OccursAt(line, "time=", x) ==> x + 5 <= y
    ensures OccursAt(line, "ms", x) ==> x + 2 <= y
  {
    if OccursAt(line, "time=", x) {
      TimeChars(line, x);
    } else {
      MsChars(line, x);
    }
    if y < |line| {
      if OccursAt(line, "time=", y) {
        TimeChars(line, y);
      } else {
        MsChars(line, y);
      }
    }
  }

  lemma TimeChars(line: string, j: nat)
    requires OccursAt(line, "time=", j)
    ensures line[j] == 't' && line[j + 1] == 'i' && line[j + 2] == 'm' && line[j + 3] == 'e' && line[j + 4] == '='
  {
    assert line[j..j + 5] == "time=";
    assert line[j + 1] == line[j..j + 5][1] && line[j + 2] == line[j..j + 5][2];
    assert line[j + 3] == line[j..j + 5][3] && line[j + 4] == line[j..j + 5][4];
  }

  lemma MsChars(line: string, j: nat)
    requires OccursAt(line, "ms", j)
    ensures line[j] == 'm' && line[j + 1] == 's'
  {
    assert line[j..j + 2] == "ms";
    assert line[j + 1] == line[j..j + 2][1];
  }

  /** The sample a line contributes, if it mentions `time=` and its text parses as a float. */
  function SampleOf(line: string): Option<real>
  {
    if Contains(line, "time=") then Numbers.ParseFloat(SampleText(line)) else None
  }

  /** The samples of a list of lines, in line order. */
  function Samples(lines: seq<string>): seq<real>
  {
    if lines == [] then []
    else
      var last := lines[|lines| - 1];
      Samples(lines[..|lines| - 1]) + (if SampleOf(last).Some? then [SampleOf(last).value] else [])
  }

  /** One more line adds its sample, if any, to the samples of the lines before it. */
  lemma SampleStep(lines: seq<string>, i: nat)
    requires i < |lines|
    ensures Samples(lines[..i + 1])
            == Samples(lines[..i]) + (if SampleOf(lines[i]).Some? then [SampleOf(lines[i]).value] else [])
  {
    assert lines[..i + 1][..i] == lines[..i];
  }

  /** The samples found in the whole output of the ping command. */
  function OutputSamples(output: string): seq<real>
  {
    Samples(Split(output, "\n"))
  }

  /** The packet loss in percent for `k` parsed replies out of `count` requested: `(1 - k/count) * 100`. */
  function LossPercent(k: nat, count: int): real
    requires count != 0
  {
    (1.0 - k as real / count as real) * 100.0
  }

  /** The result of `ping(ip, count)` once the command has produced `outcome`; `None` is Python's `None`. */
  function PingStatsOf(outcome: ProcessOutcome, count: int): Option<PingStats>
  {
    match outcome
    case TimedOut => Some(Down)
    case Failed => None
    case Completed(output) =>
      if !Contains(output, "time=") then Some(Down)
      else
        var times := OutputSamples(output);
        if times == [] then Some(Down)
        else if count == 0 then None  // `len(times)/count` raises ZeroDivisionError
        else
          Some(Up(Stats.Mean(times), Stats.Min(times), Stats.Max(times),
                  LossPercent(|times|, count)))
  }

  /** The ping record `get_device_info` embeds: a `None` from `ping` becomes the down record. */
  function OrDown(stats: Option<PingStats>): PingStats
  {
    if stats.Some? then stats.value else Down
  }

  /** Samples of consecutive stretches of lines concatenate. */
  lemma {:induction false} SamplesAppend(a: seq<string>, b: seq<string>)
    ensures Samples(a + b) == Samples(a) + Samples(b)
    decreases |b|
  {
    if b != [] {
      var b' := b[..|b| - 1];
      assert (a + b)[..|a + b| - 1] == a + b';
      assert (a + b)[|a + b| - 1] == b[|b| - 1];
      SamplesAppend(a, b');
    } else {
      assert a + b == a;
    }
  }

  /**
   * Each line contributes at most one sample, and a line without a usable
   * time (no `time=`, or text that is not a number) is skipped without
   * disturbing the samples of the lines around it.
   */
  lemma SkippedLine(a: seq<string>, line: string, b: seq<string>)
    ensures |Samples(a + [line] + b)| <= |Samples(a + b)| + 1
    ensures SampleOf(line).None? ==> Samples(a + [line] + b) == Samples(a + b)
    ensures SampleOf(line).Some? ==> Samples(a + [line] + b) == Samples(a) + [SampleOf(line).value] + Samples(b)
  {
    SamplesAppend(a + [line], b);
    SamplesAppend(a, [line]);
    SamplesAppend(a, b);
    assert [line][..0] == [];
  }

  /** Every sample comes from some line, and every line with a usable time contributes its value. */
  lemma {:induction false} SamplesFromLines(lines: seq<string>)
    ensures |Samples(lines)| <= |lines|
    ensures forall k :: 0 <= k < |Samples(lines)| ==>
              exists i :: 0 <= i < |lines| && SampleOf(lines[i]) == Some(Samples(lines)[k])
    ensures forall i :: 0 <= i < |lines| && SampleOf(lines[i]).Some? ==> SampleOf(lines[i]).value in Samples(lines)
  {
    if lines != [] {
      var init := lines[..|lines| - 1];
      SamplesFromLines(init);
      assert forall i :: 0 <= i < |init| ==> init[i] == lines[i];
    }
  }

  /** Output that never mentions `time=` yields no samples, so the guard before the loop changes nothing. */
  lemma NoMarkerNoSamples(output: string)
    requires !Contains(output, "time=")
    ensures OutputSamples(output) == []
  {
    var lines := Split(output, "\n");
    forall i | 0 <= i < |lines| ensures SampleOf(lines[i]).None? {
      if Contains(lines[i], "time=") {
        FindFirst(lines[i], "time=");
        OccursInPiece(output, "\n", i, "time=");
        FindFirst(output, "time=");
      }
    }
    NoUsableLines(lines);
  }

  lemma {:induction false} NoUsableLines(lines: seq<string>)
    requires forall i :: 0 <= i < |lines| ==> SampleOf(lines[i]).None?
    ensures Samples(lines) == []
  {
    if lines != [] {
      NoUsableLines(lines[..|lines| - 1]);
    }
  }

  /**
   * The ping result is `up` exactly when the command completed, at least one
   * sample was parsed and the count is not zero; then the statistics are the
   * mean, minimum and maximum of exactly those samples, in that order of
   * size, and the loss is `(1 - k/count) * 100` for `k` samples.
   */
  lemma PingUp(outcome: ProcessOutcome, count: int)
    ensures (PingStatsOf(outcome, count).Some? && PingStatsOf(outcome, count).value.Up?)
            <==> (outcome.Completed? && count != 0 && OutputSamples(outcome.stdout) != [])
    ensures PingStatsOf(outcome, count).Some? && PingStatsOf(outcome, count).value.Up? ==>
              var times, stats := OutputSamples(outcome.stdout), PingStatsOf(outcome, count).value;
              && stats.avg == Stats.Mean(times)
              && stats.min <= stats.avg <= stats.max
              && stats.min in times && stats.max in times
              && (forall k :: 0 <= k < |times| ==> stats.min <= times[k] <= stats.max)
              && stats.lossPct == LossPercent(|times|, count)
  {
    if outcome.Completed? && !Contains(outcome.stdout, "time=") {
      NoMarkerNoSamples(outcome.stdout);
    }
    if outcome.Completed? && OutputSamples(outcome.stdout) != [] {
      Stats.MeanBetweenExtremes(OutputSamples(outcome.stdout));
    }
  }

  /** The result is the down record exactly on a timeout or when no sample was parsed. */
  lemma PingDown(outcome: ProcessOutcome, count: int)
    ensures PingStatsOf(outcome, count) == Some(Down)
            <==> outcome.TimedOut? || (outcome.Completed? && OutputSamples(outcome.stdout) == [])
    ensures PingStatsOf(outcome, count) == Some(Down) ==> PingStatsOf(outcome, count).value.Loss() == 100.0
  {
    if outcome.Completed? && !Contains(outcome.stdout, "time=") {
      NoMarkerNoSamples(outcome.stdout);
    }
  }

  /**
   * `ping` returns `None` exactly when the command failed for a reason other
   * than the timeout, or when samples were parsed but the count is zero.
   */
  lemma PingNone(outcome: ProcessOutcome, count: int)
    ensures PingStatsOf(outcome, count).None?
            <==> outcome.Failed? || (outcome.Completed? && OutputSamples(outcome.stdout) != [] && count == 0)
  {
    if outcome.Completed? && !Contains(outcome.stdout, "time=") {
      NoMarkerNoSamples(outcome.stdout);
    }
  }

  /**
   * The loss is not clamped: it is zero when every requested reply was
   * parsed, strictly between 0 and 100 when some were, and negative when more
   * lines were parsed than replies were requested.
   */
  lemma LossFigures(outcome: ProcessOutcome, count: int)
    requires count > 0
    requires PingStatsOf(outcome, count).Some? && PingStatsOf(outcome, count).value.Up?
    ensures var k, loss := |OutputSamples(outcome.stdout)|, PingStatsOf(outcome, count).value.lossPct;
            && (k == count ==> loss == 0.0)
            && (k < count ==> 0.0 < loss < 100.0)
            && (k > count ==> loss < 0.0)
  {
    PingUp(outcome, count);
    LossRange(|OutputSamples(outcome.stdout)|, count);
  }

  lemma LossRange(k: nat, count: int)
    requires k > 0 && count > 0
    ensures var loss := LossPercent(k, count);
            && (k == count ==> loss == 0.0)
            && (k < count ==> 0.0 < loss < 100.0)
            && (k > count ==> loss < 0.0)
  {
    QuotientVersusOne(k as real, count as real);
  }

  /** For a positive `c`, `x / c` is below, at or above 1 as `x` is below, at or above `c`. */
  lemma QuotientVersusOne(x: real, c: real)
    requires x > 0.0 && c > 0.0
    ensures 0.0 < x / c
    ensures x < c ==> x / c < 1.0
    ensures x == c ==> x / c == 1.0
    ensures x > c ==> x / c > 1.0
  {
    var q := x / c;
    assert q * c == x;
    if q >= 1.0 {
      ProductAtLeast(q, c);
    }
  }

  /** Scaling a positive `c` by a factor of at least 1 does not make it smaller. */
  lemma ProductAtLeast(q: real, c: real)
    requires q >= 1.0 && c > 0.0
    ensures q * c >= c
  {
    assert q * c == c + (q - 1.0) * c;
  }

  // ---------------------------------------------------------------------
  // Ports: the `ports` dictionary
  // ---------------------------------------------------------------------

  /** The keys of the table, in insertion order. */
  function PortsOf(t: PortTable): (ps: seq<int>)
    ensures |ps| == |t|
  {
    if t == [] then [] else [t[0].port] + PortsOf(t[1..])
  }

  /** No port is a key twice. */
  predicate DistinctPorts(t: PortTable)
  {
    forall i, j :: 0 <= i < j < |t| ==> t[i].port != t[j].port
  }

  /** `ports.get(p)`: the entry for port `p`. */
  function Lookup(t: PortTable, p: int): Option<PortEntry>
  {
    if t == [] then None
    else if t[0].port == p then Some(t[0])
    else Lookup(t[1..], p)
  }

  /**
   * `ports[e.port] = e`: a new key goes at the end, an existing key keeps
   * its place and gets the new value.
   */
  function Put(t: PortTable, e: PortEntry): PortTable
  {
    if t == [] then [e]
    else if t[0].port == e.port then [e] + t[1..]
    else [t[0]] + Put(t[1..], e)
  }

  lemma {:induction false} PortsOfAt(t: PortTable)
    ensures forall i :: 0 <= i < |t| ==> PortsOf(t)[i] == t[i].port
  {
    if t != [] {
      PortsOfAt(t[1..]);
    }
  }

  /** `Lookup` finds exactly the keys of the table, and what it finds is an entry of the table with that key. */
  lemma {:induction false} LookupFinds(t: PortTable, p: int)
    ensures Lookup(t, p).Some? <==> p in PortsOf(t)
    ensures Lookup(t, p).Some? ==> Lookup(t, p).value in t && Lookup(t, p).value.port == p
  {
    if t != [] {
      LookupFinds(t[1..], p);
      assert PortsOf(t) == [t[0].port] + PortsOf(t[1..]);
    }
  }

  /**
   * After `ports[e.port] = e` the key order is the old one, with `e.port`
   * appended if it is new; `e.port` maps to `e`; every other key is untouched.
   */
  lemma {:induction false} PutWrites(t: PortTable, e: PortEntry)
    ensures PortsOf(Put(t, e)) == if e.port in PortsOf(t) then PortsOf(t) else PortsOf(t) + [e.port]
    ensures Lookup(Put(t, e), e.port) == Some(e)
    ensures forall p :: p != e.port ==> Lookup(Put(t, e), p) == Lookup(t, p)
  {
    if t != [] {
      var r := Put(t, e);
      if t[0].port == e.port {
        assert r[1..] == t[1..];
      } else {
        PutWrites(t[1..], e);
        assert r[1..] == Put(t[1..], e);
      }
      assert PortsOf(t) == [t[0].port] + PortsOf(t[1..]);
      assert PortsOf(r) == [r[0].port] + PortsOf(r[1..]);
    }
  }

  /** Keys stay distinct under `Put`. */
  lemma PutDistinct(t: PortTable, e: PortEntry)
    requires DistinctPorts(t)
    ensures DistinctPorts(Put(t, e))
  {
    var r := Put(t, e);
    PutWrites(t, e);
    PortsOfAt(t);
    PortsOfAt(r);
    forall i, j | 0 <= i < j < |r| ensures r[i].port != r[j].port {
      assert PortsOf(r)[i] == r[i].port && PortsOf(r)[j] == r[j].port;
      if j < |t| {
        assert PortsOf(t)[i] == t[i].port && PortsOf(t)[j] == t[j].port;
      } else {
        assert e.port !in PortsOf(t) && PortsOf(r)[j] == e.port;
        assert PortsOf(r)[i] == PortsOf(t)[i];
      }
    }
  }

  /** The status the source records for a port, given what the connect attempt did. */
  function StatusOf(c: ConnectOutcome): PortStatus
  {
    if c == Returned(0) then Open else Closed
  }

  /** The dictionary entry written for a probed port. */
  function ProbeEntry(ip: string, port: int, service: string, connect: (string, int) -> ConnectOutcome): PortEntry
  {
    PortEntry(port, service, StatusOf(connect(ip, port)))
  }

  /** The table after probing and writing each `(port, service)` pair in turn. */
  function Merge(ip: string, t: PortTable, pairs: seq<(int, string)>, connect: (string, int) -> ConnectOutcome): PortTable
  {
    if pairs == [] then t
    else
      var (port, service) := pairs[|pairs| - 1];
      Put(Merge(ip, t, pairs[..|pairs| - 1], connect), ProbeEntry(ip, port, service, connect))
  }

  /** The label of the last pair for `port`, which is the one whose write survives. */
  function LastLabel(pairs: seq<(int, string)>, port: int): Option<string>
  {
    if pairs == [] then None
    else if pairs[|pairs| - 1].0 == port then Some(pairs[|pairs| - 1].1)
    else LastLabel(pairs[..|pairs| - 1], port)
  }

  /** A port has a last label exactly when some pair mentions it. */
  lemma {:induction false} LastLabelMentioned(pairs: seq<(int, string)>, port: int)
    ensures LastLabel(pairs, port).Some? <==> exists i :: 0 <= i < |pairs| && pairs[i].0 == port
  {
    if pairs != [] {
      var init := pairs[..|pairs| - 1];
      LastLabelMentioned(init, port);
      assert forall i :: 0 <= i < |init| ==> init[i] == pairs[i];
    }
  }

  /** The declared ports whose key `int()` accepts, converted, in declaration order. */
  function Declared(decls: seq<(string, string)>): seq<(int, string)>
  {
    if decls == [] then []
    else
      var (key, service) := decls[|decls| - 1];
      Declared(decls[..|decls| - 1]) +
        (if Numbers.ParseInt(key).Some? then [(Numbers.ParseInt(key).value, service)] else [])
  }

  /** `device_details.get('ports', {})`. */
  function DeclaredPortsOf(entry: DeviceEntry): seq<(string, string)>
  {
    if entry.ports.Some? then entry.ports.value else []
  }

  /** The `ports` dictionary `get_device_info` builds: the essential ports, then the declared ones. */
  function PortsFor(ip: string, entry: DeviceEntry, connect: (string, int) -> ConnectOutcome): PortTable
  {
    Merge(ip, Merge(ip, [], EssentialPorts, connect), Declared(DeclaredPortsOf(entry)), connect)
  }

  /** The network calls for probing each pair in turn. */
  function PortCalls(ip: string, pairs: seq<(int, string)>): seq<Probe>
  {
    if pairs == [] then []
    else PortCalls(ip, pairs[..|pairs| - 1]) + [PortCall(ip, pairs[|pairs| - 1].0)]
  }

  /**
   * After the writes, a port holds the probe of its last label if the pairs
   * mention it, and whatever it held before otherwise.
   */
  lemma {:induction false} MergeLookup(ip: string, t: PortTable, pairs: seq<(int, string)>,
                                      connect: (string, int) -> ConnectOutcome, p: int)
    ensures Lookup(Merge(ip, t, pairs, connect), p) ==
              if LastLabel(pairs, p).Some? then Some(ProbeEntry(ip, p, LastLabel(pairs, p).value, connect))
              else Lookup(t, p)
  {
    if pairs != [] {
      var (port, service) := pairs[|pairs| - 1];
      MergeLookup(ip, t, pairs[..|pairs| - 1], connect, p);
      PutWrites(Merge(ip, t, pairs[..|pairs| - 1], connect), ProbeEntry(ip, port, service, connect));
    }
  }

  /** Writing keeps the keys distinct and keeps the old keys, in their order, at the front. */
  lemma {:induction false} MergeKeepsOrder(ip: string, t: PortTable, pairs: seq<(int, string)>,
                                          connect: (string, int) -> ConnectOutcome)
    ensures DistinctPorts(t) ==> DistinctPorts(Merge(ip, t, pairs, connect))
    ensures |PortsOf(t)| <= |PortsOf(Merge(ip, t, pairs, connect))|
    ensures PortsOf(Merge(ip, t, pairs, connect))[..|PortsOf(t)|] == PortsOf(t)
  {
    if pairs != [] {
      var init := pairs[..|pairs| - 1];
      var (port, service) := pairs[|pairs| - 1];
      MergeKeepsOrder(ip, t, init, connect);
      PutWrites(Merge(ip, t, init, connect), ProbeEntry(ip, port, service, connect));
      if DistinctPorts(t) {
        PutDistinct(Merge(ip, t, init, connect), ProbeEntry(ip, port, service, connect));
      }
    }
  }

  /** A declared entry whose key `int()` accepts is the last word on that port unless a later entry maps to the same port. */
  lemma {:induction false} DeclaredLabel(decls: seq<(string, string)>, i: nat, p: int)
    requires i < |decls| && Numbers.ParseInt(decls[i].0) == Some(p)
    requires forall j :: i < j < |decls| ==> Numbers.ParseInt(decls[j].0) != Some(p)
    ensures LastLabel(Declared(decls), p) == Some(decls[i].1)
  {
    var n := |decls|;
    var init := decls[..n - 1];
    var tail := if Numbers.ParseInt(decls[n - 1].0).Some? then [(Numbers.ParseInt(decls[n - 1].0).value, decls[n - 1].1)] else [];
    assert Declared(decls) == Declared(init) + tail;
    if i < n - 1 {
      DeclaredLabel(init, i, p);
      assert LastLabel(Declared(init) + tail, p) == LastLabel(Declared(init), p) by {
        if tail != [] {
          assert (Declared(init) + tail)[..|Declared(init) + tail| - 1] == Declared(init);
        } else {
          assert Declared(init) + tail == Declared(init);
        }
      }
    }
  }

  /** Only keys that `int()` accepts produce a port. */
  lemma {:induction false} DeclaredOnlyParsed(decls: seq<(string, string)>, p: int)
    requires LastLabel(Declared(decls), p).Some?
    ensures exists i :: 0 <= i < |decls| && Numbers.ParseInt(decls[i].0) == Some(p)
  {
    var n := |decls|;
    var init := decls[..n - 1];
    var key := decls[n - 1].0;
    var tail := if Numbers.ParseInt(key).Some? then [(Numbers.ParseInt(key).value, decls[n - 1].1)] else [];
    assert Declared(decls) == Declared(init) + tail;
    if Numbers.ParseInt(key) != Some(p) {
      assert LastLabel(Declared(init), p).Some? by {
        LastLabelMentioned(Declared(decls), p);
        LastLabelMentioned(Declared(init), p);
        var i :| 0 <= i < |Declared(decls)| && Declared(decls)[i].0 == p;
        assert i < |Declared(init)| && Declared(init)[i].0 == p;
      }
      DeclaredOnlyParsed(init, p);
      var i :| 0 <= i < |init| && Numbers.ParseInt(init[i].0) == Some(p);
      assert decls[i] == init[i];
    }
  }

  lemma {:induction false} DeclaredAppend(a: seq<(string, string)>, b: seq<(string, string)>)
    ensures Declared(a + b) == Declared(a) + Declared(b)
    decreases |b|
  {
    if b == [] {
      assert a + b == a;
    } else {
      var b' := b[..|b| - 1];
      assert (a + b)[..|a + b| - 1] == a + b';
      assert (a + b)[|a + b| - 1] == b[|b| - 1];
      DeclaredAppend(a, b');
    }
  }

  /**
   * A declared entry whose key `int()` rejects is skipped: the declared
   * ports, and so the whole `ports` dictionary, are as if it were absent.
   */
  lemma SkippedKey(a: seq<(string, string)>, d: (string, string), b: seq<(string, string)>,
                   ip: string, attrs: map<string, string>, connect: (string, int) -> ConnectOutcome)
    requires Numbers.ParseInt(d.0).None?
    ensures Declared(a + [d] + b) == Declared(a + b)
    ensures PortsFor(ip, DeviceEntry(attrs, Some(a + [d] + b)), connect) == PortsFor(ip, DeviceEntry(attrs, Some(a + b)), connect)
  {
    DeclaredAppend(a + [d], b);
    DeclaredAppend(a, [d]);
    DeclaredAppend(a, b);
    assert Declared([d]) == [] by {
      assert [d][..0] == [];
    }
    assert Declared(a + [d]) == Declared(a);
  }

  /**
   * The `ports` dictionary: keys are distinct; 80 and 443 come first, in
   * that order; a port is present exactly when it is 80, 443 or the value of
   * a declared key; a declared port carries the label of its last
   * declaration, and 80 and 443 keep `HTTP` and `HTTPS` unless declared; and
   * every port is open exactly when its connect attempt returned 0.
   */
  lemma PortsForTable(ip: string, entry: DeviceEntry, connect: (string, int) -> ConnectOutcome)
    ensures var r, ds := PortsFor(ip, entry, connect), Declared(DeclaredPortsOf(entry));
            && DistinctPorts(r)
            && |r| >= 2 && r[0].port == 80 && r[1].port == 443
            && (forall p :: Lookup(r, p).Some? <==> p == 80 || p == 443 || LastLabel(ds, p).Some?)
            && (forall p :: LastLabel(ds, p).Some? ==>
                  Lookup(r, p) == Some(ProbeEntry(ip, p, LastLabel(ds, p).value, connect)))
            && (LastLabel(ds, 80).None? ==> Lookup(r, 80) == Some(ProbeEntry(ip, 80, "HTTP", connect)))
            && (LastLabel(ds, 443).None? ==> Lookup(r, 443) == Some(ProbeEntry(ip, 443, "HTTPS", connect)))
            && (forall k :: 0 <= k < |r| ==> (r[k].status == Open <==> connect(ip, r[k].port) == Returned(0)))
  {
    var e80, e443 := ProbeEntry(ip, 80, "HTTP", connect), ProbeEntry(ip, 443, "HTTPS", connect);
    var base := EssentialTable(ip, connect);
    var ds := Declared(DeclaredPortsOf(entry));
    var r := PortsFor(ip, entry, connect);
    MergeKeepsOrder(ip, base, ds, connect);
    assert PortsOf(base) == [80, 443];
    PortsOfAt(r);
    assert PortsOf(r)[0] == 80 && PortsOf(r)[1] == 443;
    assert base[1..] == [e443];
    forall p ensures Lookup(base, p) == if p == 80 then Some(e80) else if p == 443 then Some(e443) else None {
      if p != 80 {
        assert Lookup(base, p) == Lookup([e443], p);
        if p != 443 {
          assert [e443][1..] == [];
        }
      }
    }
    forall p ensures Lookup(r, p) == if LastLabel(ds, p).Some? then Some(ProbeEntry(ip, p, LastLabel(ds, p).value, connect))
                                     else Lookup(base, p) {
      MergeLookup(ip, base, ds, connect, p);
    }
    forall k | 0 <= k < |r| ensures r[k].status == Open <==> connect(ip, r[k].port) == Returned(0) {
      LookupDistinct(r, k);
    }
  }

  /** The port numbers of a list of `(port, label)` pairs, in order. */
  function PairPorts(pairs: seq<(int, string)>): (ps: seq<int>)
    ensures |ps| == |pairs|
  {
    if pairs == [] then [] else PairPorts(pairs[..|pairs| - 1]) + [pairs[|pairs| - 1].0]
  }

  /** The members of a sequence of ports. */
  function Members(ps: seq<int>): set<int>
  {
    set p | p in ps
  }

  /**
   * The ports of `ps` that are not in `seen`, each at its first appearance:
   * an independent statement of the order a dictionary gives its new keys.
   */
  function Unseen(ps: seq<int>, seen: set<int>): seq<int>
    decreases |ps|
  {
    if ps == [] then []
    else if ps[0] in seen then Unseen(ps[1..], seen)
    else [ps[0]] + Unseen(ps[1..], seen + {ps[0]})
  }

  /** `Unseen` keeps exactly the ports of `ps` outside `seen`. */
  lemma {:induction false} UnseenMembers(ps: seq<int>, seen: set<int>, p: int)
    ensures p in Unseen(ps, seen) <==> p in ps && p !in seen
    decreases |ps|
  {
    if ps != [] {
      assert ps == [ps[0]] + ps[1..];
      if ps[0] in seen {
        UnseenMembers(ps[1..], seen, p);
      } else {
        UnseenMembers(ps[1..], seen + {ps[0]}, p);
      }
    }
  }

  /** A port appended to `ps` is appended to `Unseen` exactly when it is new. */
  lemma {:induction false} UnseenSnoc(ps: seq<int>, x: int, seen: set<int>)
    ensures Unseen(ps + [x], seen) == Unseen(ps, seen) + (if x in seen || x in ps then [] else [x])
    decreases |ps|
  {
    if ps == [] {
      assert ([] + [x])[1..] == [];
    } else {
      var h, rest := ps[0], ps[1..];
      assert (ps + [x])[0] == h && (ps + [x])[1..] == rest + [x];
      assert x in ps <==> x == h || x in rest;
      if h in seen {
        UnseenSnoc(rest, x, seen);
      } else {
        UnseenSnoc(rest, x, seen + {h});
      }
    }
  }

  /** The writes append to the old keys exactly the written ports that are new, in order of first write. */
  lemma {:induction false} MergeOrder(ip: string, t: PortTable, pairs: seq<(int, string)>,
                                      connect: (string, int) -> ConnectOutcome)
    ensures PortsOf(Merge(ip, t, pairs, connect)) == PortsOf(t) + Unseen(PairPorts(pairs), Members(PortsOf(t)))
  {
    var seen := Members(PortsOf(t));
    if pairs == [] {
      assert PortsOf(t) + [] == PortsOf(t);
    } else {
      var init := pairs[..|pairs| - 1];
      var (port, service) := pairs[|pairs| - 1];
      var m := Merge(ip, t, init, connect);
      MergeOrder(ip, t, init, connect);
      PutWrites(m, ProbeEntry(ip, port, service, connect));
      UnseenSnoc(PairPorts(init), port, seen);
      UnseenMembers(PairPorts(init), seen, port);
      assert port in PortsOf(m) <==> port in seen || port in PairPorts(init);
    }
  }

  /**
   * The keys of the `ports` dictionary, in full: 80, 443, then every port
   * declared with a key `int()` accepts, other than 80 and 443, in the order
   * of its first declaration.
   */
  lemma PortOrder(ip: string, entry: DeviceEntry, connect: (string, int) -> ConnectOutcome)
    ensures PortsOf(PortsFor(ip, entry, connect))
            == [80, 443] + Unseen(PairPorts(Declared(DeclaredPortsOf(entry))), {80, 443})
  {
    var base := EssentialTable(ip, connect);
    assert PortsOf(base) == [80, 443] by {
      assert base[1..] == [base[1]] && base[1..][1..] == [];
    }
    assert Members([80, 443]) == {80, 443};
    MergeOrder(ip, base, Declared(DeclaredPortsOf(entry)), connect);
  }

  /**
   * A device declaring a single port other than 80 and 443, say
   * `"8080": "custom"`, gets the ports 80, 443 and that port, in that order,
   * the last one with its declared label.
   */
  lemma SingleDeclaredPort(ip: string, key: string, service: string, connect: (string, int) -> ConnectOutcome)
    requires Numbers.ParseInt(key).Some?
    requires Numbers.ParseInt(key).value != 80 && Numbers.ParseInt(key).value != 443
    ensures var p, r := Numbers.ParseInt(key).value, PortsFor(ip, DeviceEntry(map[], Some([(key, service)])), connect);
            && PortsOf(r) == [80, 443, p]
            && Lookup(r, p) == Some(ProbeEntry(ip, p, service, connect))
  {
    var p := Numbers.ParseInt(key).value;
    var decls := [(key, service)];
    assert decls[..0] == [];
    assert Declared(decls) == [(p, service)];
    var base := EssentialTable(ip, connect);
    var e := ProbeEntry(ip, p, service, connect);
    var r := PortsFor(ip, DeviceEntry(map[], Some(decls)), connect);
    assert [(p, service)][..0] == [];
    assert r == Merge(ip, base, [(p, service)], connect);
    assert r == Put(base, e);
    PutWrites(base, e);
    assert PortsOf(base) == [80, 443] by {
      assert base[1..] == [base[1]] && base[1..][1..] == [];
    }
  }

  /** Probing the essential ports on an empty table gives 80 then 443, with their default labels. */
  lemma EssentialTable(ip: string, connect: (string, int) -> ConnectOutcome)
    returns (base: PortTable)
    ensures base == Merge(ip, [], EssentialPorts, connect)
    ensures base == [ProbeEntry(ip, 80, "HTTP", connect), ProbeEntry(ip, 443, "HTTPS", connect)]
  {
    var e80, e443 := ProbeEntry(ip, 80, "HTTP", connect), ProbeEntry(ip, 443, "HTTPS", connect);
    assert EssentialPorts[..1] == [(80, "HTTP")];
    assert [(80, "HTTP")][..0] == [];
    assert Merge(ip, [], [(80, "HTTP")], connect) == [e80];
    assert Merge(ip, [], EssentialPorts, connect) == Put([e80], e443);
    assert [e80][1..] == [];
    assert Put([e80], e443) == [e80] + Put([], e443);
    base := Merge(ip, [], EssentialPorts, connect);
  }

  lemma {:induction false} LookupDistinct(t: PortTable, k: nat)
    requires DistinctPorts(t) && k < |t|
    ensures Lookup(t, t[k].port) == Some(t[k])
  {
    if k > 0 {
      assert t[0].port != t[k].port;
      LookupDistinct(t[1..], k - 1);
    }
  }

  // ---------------------------------------------------------------------
  // Record assembly
  // ---------------------------------------------------------------------

  /** Python truthiness of an optional string: present and non-empty. */
  predicate Truthy(v: Option<string>)
  {
    v.Some? && v.value != ""
  }

  /** `dict.get(key)` on the payload. */
  function Get(info: Payload, key: string): Option<string>
  {
    if key in info then Some(info[key]) else None
  }

  /** An entry with no fields at all, which Python treats as false. */
  predicate IsEmptyEntry(entry: DeviceEntry)
  {
    entry.attrs == map[] && entry.ports.None?
  }

  /** `device_details.get(key, 'unknown')`. */
  function Attribute(entry: DeviceEntry, key: string): string
  {
    if key in entry.attrs then entry.attrs[key] else "unknown"
  }

  /** The payload names a device and an address, and the registry has a non-empty entry for that device. */
  predicate Resolvable(registry: Registry, info: Payload)
  {
    && Truthy(Get(info, "device_id")) && Truthy(Get(info, "ip"))
    && info["device_id"] in registry && !IsEmptyEntry(registry[info["device_id"]])
  }

  class DeviceResolver {
    /** The registry, read once when the resolver is made. */
    const deviceMap: Registry
    /** A table of well-known ports, kept by the resolver; no operation reads it. */
    const commonPorts: map<int, string>

    /**
     * `__init__`: `loaded` is what reading the device-map file produced,
     * `None` when the file is missing or cannot be read or parsed; the
     * registry is then empty.
     */
    constructor (loaded: Option<Registry>)
      ensures deviceMap == if loaded.Some? then loaded.value else map[]
      ensures commonPorts == map[22 := "SSH", 80 := "HTTP", 443 := "HTTPS", 23 := "Telnet", 21 := "FTP"]
    {
      deviceMap := if loaded.Some? then loaded.value else map[];
      commonPorts := map[22 := "SSH", 80 := "HTTP", 443 := "HTTPS", 23 := "Telnet", 21 := "FTP"];
    }

    /**
     * `ping(ip, count)`: runs the ping command, collects one sample per line
     * that carries a usable `time=` value and summarises them.
     */
    method Ping(ip: string, count: int, windows: bool, run: seq<string> -> ProcessOutcome)
      returns (r: Option<PingStats>)
      ensures r == PingStatsOf(run(PingCommand(windows, ip, count)), count)
      ensures r.Some? && r.value.Up? ==> r.value.min <= r.value.avg <= r.value.max
    {
      var outcome := run(PingCommand(windows, ip, count));
      if outcome.TimedOut? {
        return Some(Down);
      } else if outcome.Failed? {
        return None;
      }
      var output := outcome.stdout;
      r := Some(Down);
      if Contains(output, "time=") {
        var times := ExtractTimes(output);
        if times != [] {
          if count == 0 {
            return None;
          }
          var avg, lo, hi := Stats.Mean(times), Stats.Min(times), Stats.Max(times);
          var loss := LossPercent(|times|, count);
          r := Some(Up(avg, lo, hi, loss));
          Stats.MeanBetweenExtremes(times);
        }
      }
    }

    /**
     * The scan inside `ping`: for each line of the output that mentions
     * `time=`, the text after it up to `ms`, stripped, is converted with
     * `float()`; a line whose text does not convert is skipped.
     */
    method ExtractTimes(output: string) returns (times: seq<real>)
      ensures times == OutputSamples(output)
    {
      var lines := Split(output, "\n");
      times := [];
      var i := 0;
      while i < |lines|
        invariant 0 <= i <= |lines|
        invariant times == Samples(lines[..i])
      {
        var line := lines[i];
        SampleStep(lines, i);
        if Contains(line, "time=") {
          var timeText := Strip(Split(Split(line, "time=")[1], "ms")[0]);
          assert Numbers.ParseFloat(timeText) == SampleOf(line);
          match Numbers.ParseFloat(timeText) {
            case Some(t) =>
              times := times + [t];
            case None =>
          }
        }
        i := i + 1;
      }
      assert lines[..|lines|] == lines;
    }

    /** `check_port(ip, port)`: the port is open exactly when the connect attempt returned 0; an exception means closed. */
    method CheckPort(ip: string, port: int, connect: (string, int) -> ConnectOutcome) returns (open: bool)
      ensures open <==> connect(ip, port) == Returned(0)
      ensures connect(ip, port).Raised? ==> !open
    {
      match connect(ip, port) {
        case Returned(code) =>
          open := code == 0;
        case Raised =>
          open := false;
      }
    }

    /**
     * The first loop of `get_device_info`: probes 80 and then 443 and writes
     * each into an empty `ports` dictionary under its default label.
     */
    method ProbeEssentialPorts(ip: string, connect: (string, int) -> ConnectOutcome)
      returns (ports: PortTable, calls: seq<Probe>)
      ensures ports == Merge(ip, [], EssentialPorts, connect)
      ensures calls == PortCalls(ip, EssentialPorts)
    {
      ports, calls := [], [];
      var i := 0;
      while i < |EssentialPorts|
        invariant 0 <= i <= |EssentialPorts|
        invariant ports == Merge(ip, [], EssentialPorts[..i], connect)
        invariant calls == PortCalls(ip, EssentialPorts[..i])
      {
        var (port, service) := EssentialPorts[i];
        assert EssentialPorts[..i + 1][..i] == EssentialPorts[..i];
        var isOpen := CheckPort(ip, port, connect);
        calls := calls + [PortCall(ip, port)];
        ports := Put(ports, PortEntry(port, service, if isOpen then Open else Closed));
        i := i + 1;
      }
      assert EssentialPorts[..i] == EssentialPorts;
    }

    /**
     * The second loop of `get_device_info`: for each declared `(key, label)`
     * in document order, converts the key with `int()`, skipping the entry
     * when that raises, and otherwise probes the port and writes it into
     * `ports`, replacing an earlier entry for the same port in place.
     */
    method ProbeDeclaredPorts(ip: string, ports0: PortTable, decls: seq<(string, string)>,
                              connect: (string, int) -> ConnectOutcome)
      returns (ports: PortTable, calls: seq<Probe>)
      ensures ports == Merge(ip, ports0, Declared(decls), connect)
      ensures calls == PortCalls(ip, Declared(decls))
    {
      ports, calls := ports0, [];
      var j := 0;
      while j < |decls|
        invariant 0 <= j <= |decls|
        invariant ports == Merge(ip, ports0, Declared(decls[..j]), connect)
        invariant calls == PortCalls(ip, Declared(decls[..j]))
      {
        var (key, service) := decls[j];
        assert decls[..j + 1][..j] == decls[..j] && decls[..j + 1][j] == (key, service);
        match Numbers.ParseInt(key) {
          case Some(portNum) =>
            var isOpen := CheckPort(ip, portNum, connect);
            calls := calls + [PortCall(ip, portNum)];
            ports := Put(ports, PortEntry(portNum, service, if isOpen then Open else Closed));
            assert Declared(decls[..j + 1]) == Declared(decls[..j]) + [(portNum, service)];
          case None =>
            // `int(port)` raised ValueError: the entry is skipped
            assert Declared(decls[..j + 1]) == Declared(decls[..j]);
        }
        j := j + 1;
      }
      assert decls[..j] == decls;
    }

    /**
     * `get_device_info(info)`: rejects the payload, before any network call,
     * unless it names a device and an address and the registry has a
     * non-empty entry for the device; otherwise pings the address, probes the
     * essential and declared ports and assembles the record. `probes` lists
     * the network calls made, in order.
     */
    method GetDeviceInfo(info: Payload, windows: bool, run: seq<string> -> ProcessOutcome,
                         connect: (string, int) -> ConnectOutcome, now: string)
      returns (r: Option<Diagnostics>, probes: seq<Probe>)
      ensures r.Some? <==> Resolvable(deviceMap, info)
      ensures r.None? ==> probes == []
      ensures r.Some? ==>
                var id, ip := info["device_id"], info["ip"];
                var entry := deviceMap[id];
                && r.value == Diagnostics(id, ip, Attribute(entry, "type"), Attribute(entry, "location"),
                                          Attribute(entry, "model"),
                                          OrDown(PingStatsOf(run(PingCommand(windows, ip, PingCount)), PingCount)),
                                          PortsFor(ip, entry, connect), now)
                && probes == [PingCall(ip)] + PortCalls(ip, EssentialPorts)
                               + PortCalls(ip, Declared(DeclaredPortsOf(entry)))
    {
      var deviceId, ip := Get(info, "device_id"), Get(info, "ip");
      if !Truthy(deviceId) || !Truthy(ip) {
        return None, [];
      }
      var details := if deviceId.value in deviceMap then deviceMap[deviceId.value] else EmptyEntry;
      if IsEmptyEntry(details) {
        return None, [];
      }

      var pingStats := Ping(ip.value, PingCount, windows, run);
      probes := [PingCall(ip.value)];
      if pingStats.None? {
        pingStats := Some(Down);
      }

      var ports, essentialCalls := ProbeEssentialPorts(ip.value, connect);
      var declaredCalls;
      ports, declaredCalls := ProbeDeclaredPorts(ip.value, ports, DeclaredPortsOf(details), connect);
      probes := probes + essentialCalls + declaredCalls;

      r := Some(Diagnostics(deviceId.value, ip.value, Attribute(details, "type"), Attribute(details, "location"),
                            Attribute(details, "model"), pingStats.value, ports, now));
    }
  }
}
