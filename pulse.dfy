/** What the audio hub derives for its `pactl` calls: the sink name of a
    Bluetooth device, the choice of the USB input source from
    `pactl list sources short`, and the `pactl` invocations of
    `set_volumes`. An invocation is its argument vector; running it is not
    part of this model. */
module Pulse {
  import opened PyStr
  import opened Bluetooth

  // ---------------------------------------------------------------------
  // Sink names

  const SinkPrefix: string := "bluez_sink."
  const SinkSuffix: string := ".a2dp_sink"

  /** `f"bluez_sink.{mac.replace(':', '_')}.a2dp_sink"` */
  function SinkName(mac: string): (r: string)
    ensures |r| == |mac| + 21
    ensures r[..11] == "bluez_sink." && r[|r| - 10..] == ".a2dp_sink"
    ensures forall k :: 0 <= k < |mac| ==> r[11 + k] == if mac[k] == ':' then '_' else mac[k]
    ensures ':' !in r
  {
    var r := SinkPrefix + Replace(mac, ':', '_') + SinkSuffix;
    assert r[..11] == SinkPrefix;
    assert r[|r| - 10..] == SinkSuffix;
    assert forall k :: 0 <= k < |r| ==> r[k] != ':';
    r
  }

  /** The Bluetooth address a sink name stands for, the inverse of SinkName. */
  function SinkMac(sink: string): Option<string> {
    if |sink| >= 21 && sink[..11] == SinkPrefix && sink[|sink| - 10..] == SinkSuffix
    then Some(Replace(sink[11..|sink| - 10], '_', ':'))
    else None
  }

  /** The address is recovered from the sink name whenever it held no '_'. */
  lemma SinkNameRoundTrip(mac: string)
    requires '_' !in mac
    ensures SinkMac(SinkName(mac)) == Some(mac)
  {
    var r := SinkName(mac);
    assert r[11..|r| - 10] == Replace(mac, ':', '_');
    ReplaceBack(mac, ':', '_');
  }

  lemma MacHasNoUnderscore(mac: string)
    requires IsMacShaped(mac)
    ensures '_' !in mac
  {
    assert forall k :: 0 <= k < 17 ==> MacCharAt(mac[k], k);
  }

  /** Different Bluetooth addresses get different sinks. */
  lemma SinkNameInjective(a: string, b: string)
    requires IsMacShaped(a) && IsMacShaped(b)
    requires SinkName(a) == SinkName(b)
    ensures a == b
  {
    MacHasNoUnderscore(a);
    MacHasNoUnderscore(b);
    SinkNameRoundTrip(a);
    SinkNameRoundTrip(b);
  }

  /** Outside MAC-shaped input the naming is not injective: ':' and '_'
      give the same sink. */
  lemma SinkNameCollision()
    ensures SinkName("0:1") == SinkName("0_1")
  {
    assert Replace("0:1", ':', '_') == "0_1";
    assert Replace("0_1", ':', '_') == "0_1";
  }

  /** The set-default-sink call of `set_default_sink`. */
  function SetDefaultSinkArgs(mac: string): seq<string> {
    ["pactl", "set-default-sink", SinkName(mac)]
  }

  // ---------------------------------------------------------------------
  // Choosing the USB input source

  /** `"usb" in line.lower() and "input" in line.lower()` */
  predicate IsUsbInput(line: string) {
    Contains(Lower(line), "usb") && Contains(Lower(line), "input")
  }

  /** `line.split("\t")[0]`: the source's index or name column. */
  function SourceId(line: string): string {
    Before(line, '\t')
  }

  /** Line `k` is the first line that names a USB input. */
  ghost predicate FirstUsbAt(lines: seq<string>, k: int) {
    0 <= k < |lines| && IsUsbInput(lines[k])
    && forall j :: 0 <= j < k ==> !IsUsbInput(lines[j])
  }

  /** Index of the first USB input line, `|lines|` when there is none. */
  function FirstUsbIndex(lines: seq<string>): (k: nat)
    ensures k <= |lines|
    ensures forall j :: 0 <= j < k ==> !IsUsbInput(lines[j])
    ensures k < |lines| ==> IsUsbInput(lines[k])
  {
    if lines == [] || IsUsbInput(lines[0]) then 0
    else
      var k := FirstUsbIndex(lines[1..]);
      assert forall j :: 1 <= j < |lines| ==> lines[j] == lines[1..][j - 1];
      1 + k
  }

  /** The value of `usb_source` after the search loop: the id of the first
      USB input line, or nothing. */
  function SelectUsbSource(lines: seq<string>): (r: Option<string>)
    ensures r.None? <==> forall k :: 0 <= k < |lines| ==> !IsUsbInput(lines[k])
    ensures r.Some? ==> exists k :: FirstUsbAt(lines, k) && r.value == SourceId(lines[k])
  {
    var k := FirstUsbIndex(lines);
    if k < |lines| then
      assert FirstUsbAt(lines, k);
      Some(SourceId(lines[k]))
    else None
  }

  /** Lines after the first USB input line play no part. */
  lemma LaterSourcesIgnored(xs: seq<string>, line: string, ys: seq<string>)
    requires forall k :: 0 <= k < |xs| ==> !IsUsbInput(xs[k])
    requires IsUsbInput(line)
    ensures SelectUsbSource(xs + [line] + ys) == Some(SourceId(line))
  {
    var lines := xs + [line] + ys;
    assert lines[|xs|] == line;
    var r := SelectUsbSource(lines);
    var k :| FirstUsbAt(lines, k) && r.value == SourceId(lines[k]);
  }

  /** The `for line in sources: ... break` loop of `set_volumes`. */
  method FindUsbSource(sources: seq<string>) returns (usbSource: Option<string>)
    ensures usbSource == SelectUsbSource(sources)
  {
    usbSource := None;
    var n := 0;
    while n < |sources|
      invariant 0 <= n <= |sources|
      invariant forall j :: 0 <= j < n ==> !IsUsbInput(sources[j])
      invariant usbSource == None
    {
      if IsUsbInput(sources[n]) {
        usbSource := Some(SourceId(sources[n]));
        FirstUsbAtIsIndex(sources);
        assert FirstUsbAt(sources, n);
        break;
      }
      n := n + 1;
    }
  }

  // ---------------------------------------------------------------------
  // The pactl calls of set_volumes

  const ListSourcesArgs: seq<string> := ["pactl", "list", "sources", "short"]

  /** `f"{n}%"` */
  function Percent(n: int): string {
    IntText(n) + "%"
  }

  function SetSourceVolumeArgs(source: string, percent: int): seq<string> {
    ["pactl", "set-source-volume", source, Percent(percent)]
  }

  function SetSinkVolumeArgs(percent: int): seq<string> {
    ["pactl", "set-sink-volume", "@DEFAULT_SINK@", Percent(percent)]
  }

  /** The calls `set_volumes` issues, in order, given the lines of
      `pactl list sources short`: the listing itself, then the input volume
      of the first USB input source when one with a non-empty id exists
      (`if usb_source:`), then always the output volume of the default
      sink. */
  function VolumeCallsFor(lines: seq<string>, inputPercent: int, outputPercent: int): (r: seq<seq<string>>)
    ensures 2 <= |r| <= 3
    ensures r[0] == ["pactl", "list", "sources", "short"]
    ensures r[|r| - 1] == ["pactl", "set-sink-volume", "@DEFAULT_SINK@", Percent(outputPercent)]
    ensures |r| == 3 <==> exists k :: FirstUsbAt(lines, k) && SourceId(lines[k]) != []
    ensures |r| == 3 ==>
      exists k :: FirstUsbAt(lines, k) && r[1] == ["pactl", "set-source-volume", SourceId(lines[k]), Percent(inputPercent)]
  {
    FirstUsbAtIsIndex(lines);
    CallsForSource(SelectUsbSource(lines), inputPercent, outputPercent)
  }

  /** The calls once the search has settled on `usbSource`. */
  function CallsForSource(usbSource: Option<string>, inputPercent: int, outputPercent: int): seq<seq<string>> {
    if usbSource.Some? && usbSource.value != [] then
      [ListSourcesArgs, SetSourceVolumeArgs(usbSource.value, inputPercent), SetSinkVolumeArgs(outputPercent)]
    else
      [ListSourcesArgs, SetSinkVolumeArgs(outputPercent)]
  }

  /** `set_volumes` on the output of `pactl list sources short`, which
      `run_cmd` strips before it is split into lines. */
  function VolumeCalls(sourcesOutput: string, inputPercent: int, outputPercent: int): seq<seq<string>> {
    VolumeCallsFor(Lines(Strip(sourcesOutput)), inputPercent, outputPercent)
  }

  /** Only the index FirstUsbIndex finds is the first USB input line. */
  lemma FirstUsbAtIsIndex(lines: seq<string>)
    ensures forall k :: FirstUsbAt(lines, k) ==> k == FirstUsbIndex(lines)
  {
  }

  /** With no USB input line at all, only the listing and the output
      volume call are issued. */
  lemma NoUsbSourceSkipsInputVolume(sourcesOutput: string, inputPercent: int, outputPercent: int)
    requires forall l :: l in Lines(Strip(sourcesOutput)) ==> !IsUsbInput(l)
    ensures VolumeCalls(sourcesOutput, inputPercent, outputPercent)
      == [ListSourcesArgs, SetSinkVolumeArgs(outputPercent)]
  {
  }

  /** A first USB input line that starts with its tab has an empty id,
      which `if usb_source:` treats as not found: no input volume call. */
  lemma EmptySourceIdSkipsInputVolume(lines: seq<string>, k: int, inputPercent: int, outputPercent: int)
    requires FirstUsbAt(lines, k) && lines[k] != [] && lines[k][0] == '\t'
    ensures VolumeCallsFor(lines, inputPercent, outputPercent)
      == [ListSourcesArgs, SetSinkVolumeArgs(outputPercent)]
  {
    FirstUsbAtIsIndex(lines);
    assert SourceId(lines[k]) == [];
  }

  /** `set_volumes`: look for the USB input source, then issue the volume
      calls. */
  method SetVolumes(sourcesOutput: string, inputPercent: int, outputPercent: int)
    returns (calls: seq<seq<string>>)
    ensures calls == VolumeCalls(sourcesOutput, inputPercent, outputPercent)
  {
    calls := [ListSourcesArgs];
    var sources := Lines(Strip(sourcesOutput));
    var usbSource := FindUsbSource(sources);
    if usbSource.Some? && usbSource.value != [] {
      calls := calls + [SetSourceVolumeArgs(usbSource.value, inputPercent)];
    }
    calls := calls + [SetSinkVolumeArgs(outputPercent)];
    assert calls == CallsForSource(usbSource, inputPercent, outputPercent);
  }

  /** The percentages are written in decimal, and each reads back as the
      number given. */
  lemma PercentReadsBack(n: int)
    ensures Percent(n)[|Percent(n)| - 1] == '%'
    ensures IntValue(Percent(n)[..|Percent(n)| - 1]) == n
  {
    assert Percent(n)[..|Percent(n)| - 1] == IntText(n);
    IntTextValue(n);
  }
}
