/** The decisions of the menu loop in `main_menu` that connect a speaker:
    option 2 (pick a paired device by number) and option 3 (type a MAC
    address). Console input arrives already read and, for the number,
    already converted by `int()`; the transcripts of the sessions are
    parameters. The result is the list of external calls the option makes. */
module Menu {
  import opened PyStr
  import opened Bluetooth
  import opened Pulse

  /** One external call: a `bluetoothctl` session with the lines it sends,
      or one `pactl` invocation with its argument vector. */
  datatype Call = Bluetoothctl(session: seq<string>) | Pactl(args: seq<string>)

  /** `s[k]` for a Python list: a negative index counts from the end, and
      an index outside `-|s| <= k < |s|` raises IndexError (None). */
  function PyIndex<T>(s: seq<T>, k: int): Option<T> {
    if 0 <= k < |s| then Some(s[k])
    else if -|s| <= k < 0 then Some(s[|s| + k])
    else None
  }

  /** What happens to the number typed at "Select number to connect". */
  datatype Selection<T> = Cancelled | Selected(item: T) | IndexError

  /** `if idx == 0 or idx > len(devices): continue` then `devices[idx-1]`.
      The guard lets negative numbers through, and Python indexing then
      counts them from the end of the list, or raises IndexError, which
      nothing in `main_menu` catches. */
  function SelectPaired<T>(devices: seq<T>, idx: int): (r: Selection<T>)
    ensures r.Cancelled? <==> idx == 0 || idx > |devices|
    ensures 1 <= idx <= |devices| ==> r == Selected(devices[idx - 1])
    ensures -|devices| < idx < 0 ==> r == Selected(devices[|devices| + idx - 1])
    ensures r.IndexError? <==> idx < 0 && idx <= -|devices|
  {
    if idx == 0 || idx > |devices| then Cancelled
    else
      match PyIndex(devices, idx - 1)
      case Some(d) => Selected(d)
      case None => IndexError
  }

  /** For the numbers the menu offers (0 to cancel, 1 to |devices|), the
      guard cancels or selects the device shown under that number. */
  lemma MenuNumbersSelectShownDevice<T>(devices: seq<T>, idx: int)
    requires idx >= 0
    ensures SelectPaired(devices, idx).Selected? <==> 1 <= idx <= |devices|
    ensures !SelectPaired(devices, idx).IndexError?
  {
  }

  /** Something selected is always one of the listed devices. */
  lemma SelectedIsListed<T>(devices: seq<T>, idx: int)
    requires SelectPaired(devices, idx).Selected?
    ensures SelectPaired(devices, idx).item in devices
  {
    if idx >= 1 {
      assert devices[idx - 1] in devices;
    } else {
      assert devices[|devices| + idx - 1] in devices;
    }
  }

  /** Typing -1 reads `devices[-2]`: the last device but one, or an
      IndexError when only one device is listed. */
  lemma MinusOneSelectsLastButOne<T>(devices: seq<T>)
    requires devices != []
    ensures |devices| >= 2 ==> SelectPaired(devices, -1) == Selected(devices[|devices| - 2])
    ensures |devices| == 1 ==> SelectPaired(devices, -1) == IndexError
  {
  }

  /** The outcome of one menu option: the calls made, and whether an
      uncaught exception ended the program. */
  datatype Outcome = Outcome(calls: seq<Call>, crashed: bool)

  /** The calls of `connect_to_device` and, on its success, of
      `set_default_sink`. */
  function ConnectAndRoute(mac: string, connectTranscript: string): seq<Call> {
    [Bluetoothctl(ConnectSession(mac))]
      + (if ConnectSucceeded(connectTranscript) then [Pactl(SetDefaultSinkArgs(mac))] else [])
  }

  /** Option 2: list the paired devices, and if there are any, connect to
      the one whose number was typed; its sink becomes the default only
      when the connect transcript reports success. */
  function PairedOption(pairedTranscript: string, idx: int, connectTranscript: string): (r: Outcome)
    ensures |r.calls| >= 1 && r.calls[0] == Bluetoothctl(["devices Paired"])
    ensures r.crashed <==>
      (ParseDevices(pairedTranscript) != [] && idx < 0 && idx <= -|ParseDevices(pairedTranscript)|)
    ensures r.crashed ==> r.calls == [Bluetoothctl(["devices Paired"])]
    ensures var devices := ParseDevices(pairedTranscript);
      devices != [] && 1 <= idx <= |devices| ==>
        r.calls[1..] == ConnectAndRoute(devices[idx - 1].mac, connectTranscript)
    ensures var devices := ParseDevices(pairedTranscript);
      devices != [] && -|devices| < idx < 0 ==>
        r.calls[1..] == ConnectAndRoute(devices[|devices| + idx - 1].mac, connectTranscript)
    ensures var devices := ParseDevices(pairedTranscript);
      devices == [] || idx == 0 || idx > |devices| ==> r == Outcome([Bluetoothctl(["devices Paired"])], false)
  {
    var listing := [Bluetoothctl(PairedSession)];
    var devices := ParseDevices(pairedTranscript);
    if devices == [] then Outcome(listing, false)
    else
      match SelectPaired(devices, idx)
      case Cancelled => Outcome(listing, false)
      case IndexError => Outcome(listing, true)
      case Selected(d) => Outcome(listing + ConnectAndRoute(d.mac, connectTranscript), false)
  }

  /** In option 2 a `pactl set-default-sink` call follows only a successful
      connect, and names the sink of the connected device, a sink name
      without ':' from which that device's address is recovered. */
  lemma PairedOptionRoutesOnlyOnSuccess(pairedTranscript: string, idx: int, connectTranscript: string)
    requires |PairedOption(pairedTranscript, idx, connectTranscript).calls| == 3
    ensures ConnectSucceeded(connectTranscript)
    ensures var calls := PairedOption(pairedTranscript, idx, connectTranscript).calls;
      exists d :: d in ParseDevices(pairedTranscript)
        && calls[1] == Bluetoothctl(ConnectSession(d.mac))
        && calls[2] == Pactl(["pactl", "set-default-sink", SinkName(d.mac)])
        && SinkMac(SinkName(d.mac)) == Some(d.mac)
  {
    var devices := ParseDevices(pairedTranscript);
    var sel := SelectPaired(devices, idx);
    assert devices != [] && sel.Selected?;
    var d := sel.item;
    var route := ConnectAndRoute(d.mac, connectTranscript);
    var calls := PairedOption(pairedTranscript, idx, connectTranscript).calls;
    assert calls == [Bluetoothctl(PairedSession)] + route;
    assert |route| == 2;
    assert calls[1] == route[0] && calls[2] == route[1];
    SelectedIsListed(devices, idx);
    ListedSinkRoundTrip(pairedTranscript, d);
  }

  /** The sink name of a listed device gives its address back. */
  lemma ListedSinkRoundTrip(transcript: string, d: Device)
    requires d in ParseDevices(transcript)
    ensures SinkMac(SinkName(d.mac)) == Some(d.mac)
  {
    var devices := ParseDevices(transcript);
    var k :| 0 <= k < |devices| && devices[k] == d;
    ParseLinesWellFormed(Lines(transcript), k);
    MacHasNoUnderscore(d.mac);
    SinkNameRoundTrip(d.mac);
  }

  /** Option 3: strip the typed address and check it with `re.match`; when
      it passes, connect, and then set the default sink whatever the
      connect transcript said (the result of `connect_to_device` is not
      looked at). */
  function AddressOption(typed: string): (r: seq<Call>)
    ensures r == [] <==> !ValidMacInput(typed)
    ensures r != [] ==>
      (|r| == 2
       && r[0] == Bluetoothctl(["pair " + Strip(typed), "trust " + Strip(typed), "connect " + Strip(typed)])
       && r[1] == Pactl(["pactl", "set-default-sink", SinkName(Strip(typed))]))
  {
    var mac := Strip(typed);
    if ValidMacInput(typed) then [Bluetoothctl(ConnectSession(mac)), Pactl(SetDefaultSinkArgs(mac))]
    else []
  }

  /** A well-formed address typed with whitespace around it is connected
      and routed under its own sink name. */
  lemma AddressOptionOnPaddedAddress(p: string, m: string, q: string)
    requires forall k :: 0 <= k < |p| ==> IsSpace(p[k])
    requires forall k :: 0 <= k < |q| ==> IsSpace(q[k])
    requires IsMacShaped(m)
    ensures AddressOption(p + m + q)
      == [Bluetoothctl(ConnectSession(m)), Pactl(SetDefaultSinkArgs(m))]
  {
    PaddedAddressAccepted(p, m, q);
    assert MacCharAt(m[0], 0) && MacCharAt(m[16], 16);
    StripPadding(p, m, q);
  }

  /** A typed address with a seventh group also passes the check and is
      passed on whole, so the sink name carries the extra group. */
  lemma AddressOptionKeepsTrailingText(m: string, t: string)
    requires IsMacShaped(m)
    requires t != [] && !IsSpace(t[|t| - 1])
    ensures AddressOption(m + t) == [Bluetoothctl(ConnectSession(m + t)), Pactl(SetDefaultSinkArgs(m + t))]
  {
    TrailingTextAccepted(m, t);
    assert MacCharAt(m[0], 0);
    StripUnpadded(m + t);
  }
}
