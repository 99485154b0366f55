# DeviceResolver — a Dafny model

This project models the network-diagnostics core of the ARNet augmented-reality
viewer: the `DeviceResolver` class in `ARNet/network_tools/device_resolver.py`.
A scanned QR code yields a payload `{device_id, ip}`. The resolver handles it in four steps:

1. It looks the device up in a registry loaded from a JSON device map.
2. It pings the address and summarises the round-trip times: mean, minimum,
   maximum and loss.
3. It probes TCP ports. HTTP (80) and HTTPS (443) are always probed; the ports
   declared for the device in the registry are probed after them.
4. It assembles a diagnostics record.

Modules:

- `Wrappers`: the `Option` type that stands for Python's `None`.
- `Text`: the Python `str` operations the ping parser relies on. These are
  `sep in s`, `s.split(sep)` and `s.strip()`, with lemmas saying what they
  compute.
- `Numbers`: Python's `str(n)`, `int(s)` and `float(s)` on decimal text.
- `Stats`: `sum`, `min`, `max` and the mean over exact reals.
- `Resolver`: the data model; the specification functions for the ping result
  and the `ports` dictionary; and the class `DeviceResolver`, whose methods
  `Ping`, `CheckPort` and `GetDeviceInfo` follow the source's loops and are
  proved against those functions.

The operating system is reached through parameters:

- `run` is what `subprocess.run` reports for an argument vector: completed with
  its standard output, timed out, or failed with another exception.
- `connect` is what `socket.connect_ex` does for an address and port: returns
  an error number or raises.
- `windows` stands for `platform.system().lower() == "windows"`.
- `now` is the formatted timestamp.

`GetDeviceInfo` also returns the list of network calls it made, in order. This
lets the contract say that a rejected payload causes no ping and no port probe.

The model follows the code where a more idealised reading would differ:

- The loss `(1 - k/count) * 100` is not clamped. It is negative when more
  lines carry a time than replies were requested.
- Ports are kept in insertion order: 80, then 443, then the declared ports in
  order of first declaration. A declared port equal to an earlier key replaces its entry in
  place. Nothing is sorted.
- Declared ports are not range-checked. `int()` rejecting the key is the only
  filter.
- When the ping command fails for a reason other than the timeout, `ping`
  returns `None` and `get_device_info` substitutes the down record. A zero
  `count` with parsed samples raises `ZeroDivisionError`, which also makes
  `ping` return `None`.

## Model

| member | source | states |
|---|---|---|
| Text.FindFirst | ARNet/network_tools/device_resolver.py:61-64 | the substring test succeeds exactly when the marker occurs, and the position found is the first occurrence |
| Text.JoinSplit | ARNet/network_tools/device_resolver.py:63 | splitting loses nothing: joining the pieces with the separator gives back the text |
| Text.SplitPiecesFree | ARNet/network_tools/device_resolver.py:63-66 | no piece of a split contains the separator, and a text without it is its own single piece |
| Text.OccursInPiece | ARNet/network_tools/device_resolver.py:61-64 | whatever occurs in one output line occurs in the whole output |
| Text.BetweenSeparators | ARNet/network_tools/device_resolver.py:66 | `split(a)[1].split(b)[0]` is the stretch of the line that starts right after the first `a` and stops at the next `a` or `b`, or at the end of the line; it contains neither |
| Text.StripInfix | ARNet/network_tools/device_resolver.py:66 | `strip()` removes exactly the white space at both ends and nothing else |
| Text.StripBetween | ARNet/network_tools/device_resolver.py:66 | the stripped text between the separators is that stretch of the line, from after the first `a` up to the next `a` or `b` or the end, with exactly the white space at its two ends cut off; it contains neither separator and neither starts nor ends with white space |
| Numbers.IntToStringRoundTrip | ARNet/network_tools/device_resolver.py:47-49 | `int(str(n)) == n` for every integer |
| Numbers.SignedDigitsRoundTrip | ARNet/network_tools/device_resolver.py:47-49 | an optionally signed digit part reads back the integer it renders |
| Numbers.MantissaParts | ARNet/network_tools/device_resolver.py:67 | `float()` reads the mantissa `w.f` as the value of `w` plus the value of `f` over ten to the number of digits of `f` |
| Numbers.ParseFloatDecimal | ARNet/network_tools/device_resolver.py:67 | `float(w + "." + f)` for digit parts `w` (possibly empty) and `f` is the digits of `w` then `f` over ten to the number of digits of `f` |
| Numbers.ParseFloatExponent | ARNet/network_tools/device_resolver.py:67 | `float(m + "e" + str(x))` is the mantissa `m` times ten to the power `x`, for negative exponents too |
| Numbers.ScaleStep | ARNet/network_tools/device_resolver.py:67 | the exponent scale is ten to the power: 1 at zero, and ten times larger at each step up |
| Numbers.ParseFloatExtendsParseInt | ARNet/network_tools/device_resolver.py:67 | every text `int()` accepts, `float()` accepts with the same value |
| Numbers.DigitPartChars | ARNet/network_tools/device_resolver.py:173 | a digit part that `int()` accepts holds only digits and underscores |
| Numbers.DecimalKeyExample | ARNet/network_tools/device_resolver.py:173 | `int("8080")` is 8080 |
| Numbers.NameKeyExample | ARNet/network_tools/device_resolver.py:173 | `int("http")` raises `ValueError` |
| Stats.Min | ARNet/network_tools/device_resolver.py:74 | the minimum is one of the samples and no sample is below it |
| Stats.Max | ARNet/network_tools/device_resolver.py:75 | the maximum is one of the samples and no sample is above it |
| Stats.SumBounds | ARNet/network_tools/device_resolver.py:73 | a sum of values within `[lo, hi]` lies within `[n*lo, n*hi]` |
| Stats.MeanBetweenExtremes | ARNet/network_tools/device_resolver.py:73-75 | the mean lies between the minimum and the maximum |
| Stats.ConstantSamples | ARNet/network_tools/device_resolver.py:73 | samples that are all equal have that value as their mean |
| Resolver.PingCommandArguments | ARNet/network_tools/device_resolver.py:46-49 | the command is `ping` with six arguments; the third reads back as the count; the per-attempt timeout flag and value depend on the platform; the address is last |
| Resolver.SampleTextSpan | ARNet/network_tools/device_resolver.py:66 | the sample text of a line is the text from just after its first `time=` up to the next `ms` or `time=` (or the end of the line), with the white space at both ends cut off; it contains neither marker |
| Resolver.SampleStopUnique | ARNet/network_tools/device_resolver.py:66 | the place where the sample text stops is unique: it is the first `ms` or `time=` after the start, so a later time on the same line is never the sample |
| Resolver.SkippedLine | ARNet/network_tools/device_resolver.py:64-69 | a line contributes at most one sample; a line without a usable time is skipped without disturbing the samples around it |
| Resolver.SamplesFromLines | ARNet/network_tools/device_resolver.py:63-69 | there are no more samples than lines; every sample comes from a line; every line with a usable time contributes its value |
| Resolver.NoMarkerNoSamples | ARNet/network_tools/device_resolver.py:61-63 | output without `time=` yields no samples, so the outer test only short-cuts the scan |
| Resolver.PingUp | ARNet/network_tools/device_resolver.py:72-84 | the result is `up` exactly when the command completed, a sample was parsed and the count is not zero; then avg is the mean of exactly those samples, min and max are samples bounding all of them, min <= avg <= max, and loss is `(1 - k/count)*100` |
| Resolver.PingDown | ARNet/network_tools/device_resolver.py:86-102 | the result is the down record, with loss 100, exactly on a timeout or when no sample was parsed |
| Resolver.PingNone | ARNet/network_tools/device_resolver.py:103-105 | `ping` returns `None` exactly when the command failed otherwise, or samples were parsed with a count of zero |
| Resolver.LossFigures | ARNet/network_tools/device_resolver.py:76 | the loss of an `up` result is 0 when every reply was parsed, strictly between 0 and 100 when fewer were, and negative when more were |
| Resolver.LossRange | ARNet/network_tools/device_resolver.py:76 | the same three cases of `(1 - k/count)*100` for any positive `k` and `count` |
| Resolver.LookupFinds | ARNet/network_tools/device_resolver.py:164-178 | looking a port up in the `ports` dictionary succeeds exactly for its keys, and finds an entry with that key |
| Resolver.PutWrites | ARNet/network_tools/device_resolver.py:175-178 | writing `ports[p]` keeps the key order and appends `p` if new; `p` maps to the new entry; every other key is untouched |
| Resolver.PutDistinct | ARNet/network_tools/device_resolver.py:175-178 | writing a port keeps the keys distinct |
| Resolver.LastLabelMentioned | ARNet/network_tools/device_resolver.py:171-178 | a port has a surviving label exactly when some written pair names it |
| Resolver.MergeLookup | ARNet/network_tools/device_resolver.py:161-178 | after a loop of writes, a port holds the probe under its last written label if the loop wrote it, and its earlier entry otherwise |
| Resolver.MergeKeepsOrder | ARNet/network_tools/device_resolver.py:161-178 | a loop of writes keeps keys distinct and keeps the earlier keys, in order, at the front |
| Resolver.DeclaredLabel | ARNet/network_tools/device_resolver.py:171-178 | a declared port carries the label of its last declaration |
| Resolver.DeclaredOnlyParsed | ARNet/network_tools/device_resolver.py:172-173 | a declared port only comes from a key that `int()` accepts |
| Resolver.SkippedKey | ARNet/network_tools/device_resolver.py:172-180 | a declared entry whose key `int()` rejects leaves the declared ports and the whole `ports` dictionary as if it were absent |
| Resolver.EssentialTable | ARNet/network_tools/device_resolver.py:155-167 | the first loop yields 80/HTTP then 443/HTTPS |
| Resolver.PortsForTable | ARNet/network_tools/device_resolver.py:155-180 | the `ports` keys are distinct, and 80 and 443 come first; a port is present exactly when it is 80, 443 or a declared port; a declared port has its last declared label; 80 and 443 keep HTTP/HTTPS unless declared; a port is open exactly when its connect attempt returned 0 |
| Resolver.UnseenMembers | ARNet/network_tools/device_resolver.py:170-180 | the reference order of new ports keeps exactly the ports that are not yet keys |
| Resolver.MergeOrder | ARNet/network_tools/device_resolver.py:161-178 | a loop of writes appends to the existing keys exactly the new ports, each at its first write, in order |
| Resolver.PortOrder | ARNet/network_tools/device_resolver.py:155-180 | the `ports` keys are, in full and in order, 80, 443, then each declared port that `int()` accepts and is neither 80 nor 443, at its first declaration |
| Resolver.SingleDeclaredPort | ARNet/network_tools/device_resolver.py:155-180 | one declared port other than 80/443 gives the ports 80, 443 and that port, in that order, with its declared label |
| Resolver.DeviceResolver.constructor | ARNet/network_tools/device_resolver.py:10-31 | the registry is what loading produced, or empty when loading failed; the table of well-known ports is set |
| Resolver.DeviceResolver.Ping | ARNet/network_tools/device_resolver.py:44-105 | the result is the ping result of the command's outcome; an `up` result has min <= avg <= max |
| Resolver.DeviceResolver.ExtractTimes | ARNet/network_tools/device_resolver.py:58-69 | the loop collects exactly the samples of the output's lines, in line order |
| Resolver.DeviceResolver.CheckPort | ARNet/network_tools/device_resolver.py:107-116 | the port is open exactly when the connect attempt returned 0; an exception means closed |
| Resolver.DeviceResolver.ProbeEssentialPorts | ARNet/network_tools/device_resolver.py:161-167 | the first loop builds the table of the essential ports and probes 80 then 443 |
| Resolver.DeviceResolver.ProbeDeclaredPorts | ARNet/network_tools/device_resolver.py:170-180 | the second loop writes exactly the declared ports that `int()` accepts, in document order, and probes exactly those |
| Resolver.DeviceResolver.GetDeviceInfo | ARNet/network_tools/device_resolver.py:128-194 | a record is returned exactly when both fields are present and non-empty and the registry has a non-empty entry; otherwise no network call is made. The record echoes the id and address, takes type, location and model from the entry with `unknown` as default, embeds the ping result or the down record, and holds the ports table; the calls are one ping, then 80, 443 and the declared ports |

## Left out

- Process execution, the two-second timeout mechanics and `platform.system()`: these are operating-system I/O, so the outcome of `subprocess.run` and the platform test are parameters.
- The socket in `check_port`: network I/O, so the outcome of `connect_ex` is a parameter. The 0.5 s socket timeout has no counterpart.
- `_load_device_map`: file and JSON I/O. The constructor takes the loaded registry, or `None` for any failure. Registry entries are modelled as string fields plus an optional ordered list of declared ports. Non-string JSON values and non-object entries are not modelled.
- `round(..., 2)` and the percent-string formatting of the loss: statistics are exact reals and the loss is a number of percent. Binary floating point, its rounding, and `inf`/`nan` inputs to `float()` are not modelled.
- `int()` and `float()` accept ASCII digits only. Python also accepts other Unicode decimal digits, and `int()` refuses texts longer than its digit limit; neither is modelled.
- `datetime.now()`: the timestamp is the parameter `now`.
- `print` logging: no behavioural content.
- The outer `except Exception` of `get_device_info`: with the modelled input types, no step of the model raises there.
- Declared ports: a registry entry's declared ports are an ordered list of key/label pairs, which may repeat a key text; a JSON object never does. Every property is proved for any list, so it holds for lists with distinct keys too. A repeated key text would be probed once per repetition; the source cannot receive such input.
- Resolver.DeviceResolver.constructor: the table of well-known ports is stored but never read by any operation.
- ARNet/main.py, ARNet/ar_overlay/overlay.py and the modules under ARNet/qr_detection are not part of this model. They are camera, rendering and QR-library code.
