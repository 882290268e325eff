/** What the audio hub reads out of its `bluetoothctl` sessions: the device
    lines of a transcript, the connect-success test, and the MAC-address
    check applied to typed input; and the command lines it sends. The
    session driver itself (process control, prompts, time-outs) is not part
    of this model: a transcript is a plain string parameter. */
module Bluetooth {
  import opened PyStr

  /** A device record, `{"mac": ..., "name": ...}` in the source. */
  datatype Device = Device(mac: string, name: string)

  // ---------------------------------------------------------------------
  // The MAC-address pattern `([0-9A-Fa-f]{2}:){5}[0-9A-Fa-f]{2}`

  predicate IsHexDigit(c: char) {
    ('0' <= c <= '9') || ('a' <= c <= 'f') || ('A' <= c <= 'F')
  }

  /** What position `k` of a MAC address holds: a ':' after every pair. */
  predicate MacCharAt(c: char, k: int) {
    if k % 3 == 2 then c == ':' else IsHexDigit(c)
  }

  /** The first `n` characters of `s` follow the MAC layout. */
  predicate MacLayout(s: string, n: nat) {
    n <= |s| && forall k :: 0 <= k < n ==> MacCharAt(s[k], k)
  }

  /** Six hexadecimal pairs joined by ':', 17 characters in all. */
  predicate IsMacShaped(s: string) {
    |s| == 17 && MacLayout(s, 17)
  }

  /** `[0-9A-Fa-f]{2}` at the front of `s`. */
  predicate HexPair(s: string) {
    |s| >= 2 && IsHexDigit(s[0]) && IsHexDigit(s[1])
  }

  /** `([0-9A-Fa-f]{2}:){n}[0-9A-Fa-f]{2}` at the front of `s`, read group
      by group as the regular expression is written. */
  predicate GroupsMatch(s: string, n: nat)
    decreases n
  {
    if n == 0 then HexPair(s)
    else HexPair(s) && |s| >= 3 && s[2] == ':' && GroupsMatch(s[3..], n - 1)
  }

  /** The MAC sub-pattern matched at the front of `s` (what `re.match` does
      with it). */
  predicate MacPatternMatch(s: string) {
    GroupsMatch(s, 5)
  }

  lemma {:induction false} GroupsMatchLayout(s: string, n: nat)
    ensures GroupsMatch(s, n) <==> MacLayout(s, 3 * n + 2)
    decreases n
  {
    if n > 0 && |s| >= 3 {
      GroupsMatchLayout(s[3..], n - 1);
      if |s| >= 3 * n + 2 {
        forall k | 0 <= k < 3 * n - 1
          ensures MacCharAt(s[3..][k], k) <==> MacCharAt(s[k + 3], k + 3)
        {
          assert (k + 3) % 3 == k % 3;
        }
      }
      if MacLayout(s, 3 * n + 2) {
        assert MacCharAt(s[0], 0) && MacCharAt(s[1], 1) && MacCharAt(s[2], 2);
      }
      if GroupsMatch(s, n) {
        forall k | 0 <= k < 3 * n + 2
          ensures MacCharAt(s[k], k)
        {
          if k >= 3 {
            assert MacCharAt(s[3..][k - 3], k - 3);
          }
        }
      }
    } else if n == 0 {
      if HexPair(s) {
        assert MacCharAt(s[0], 0) && MacCharAt(s[1], 1);
      }
      if MacLayout(s, 2) {
        assert MacCharAt(s[0], 0) && MacCharAt(s[1], 1);
      }
    } else if MacLayout(s, 3 * n + 2) {
      assert false;
    }
  }

  /** The regular expression matches at the front exactly when the first 17
      characters are MAC-shaped. */
  lemma MacPatternIff(s: string)
    ensures MacPatternMatch(s) <==> |s| >= 17 && IsMacShaped(s[..17])
  {
    GroupsMatchLayout(s, 5);
    if |s| >= 17 {
      assert forall k :: 0 <= k < 17 ==> s[..17][k] == s[k];
    }
  }

  // ---------------------------------------------------------------------
  // Device lines: `Device (MAC) (.+)` found with `re.search`

  /** The regular expression `Device (MAC) (.+)` matches starting at index
      `i` of `line`: the literal "Device ", a MAC address, one space, and at
      least one character other than a newline. */
  predicate MatchAt(line: string, i: int) {
    0 <= i && i + 25 < |line| && line[i..][..7] == "Device "
    && MacPatternMatch(line[i + 7..]) && line[i + 24] == ' ' && line[i + 25] != '\n'
  }

  /** `i` is where `re.search` reports the match: the leftmost start. */
  ghost predicate LeftmostMatch(line: string, i: int) {
    MatchAt(line, i) && forall j :: 0 <= j < i ==> !MatchAt(line, j)
  }

  /** The text matched by `(.+)`: everything after the MAC and its space, up
      to the end of the line or the first newline. */
  function NameAt(line: string, i: nat): string
    requires i + 25 <= |line|
  {
    Before(line[i + 25..], '\n')
  }

  /** Searches for a match starting at `from` or later. */
  function FindMatch(line: string, from: nat): (r: Option<nat>)
    ensures r.Some? ==> from <= r.value && MatchAt(line, r.value)
    ensures r.Some? ==> forall j :: from <= j < r.value ==> !MatchAt(line, j)
    ensures r.None? ==> forall j :: from <= j ==> !MatchAt(line, j)
    decreases |line| - from
  {
    if from + 25 >= |line| then None
    else if MatchAt(line, from) then Some(from)
    else FindMatch(line, from + 1)
  }

  /** A record as the parser can produce it. */
  predicate WellFormed(d: Device) {
    IsMacShaped(d.mac) && d.name != [] && '\n' !in d.name
  }

  /** `mac_pattern.search(line)` and `match.groups()`: the MAC address and
      the name of the leftmost match, or nothing. */
  function ParseLine(line: string): (r: Option<Device>)
    ensures r.Some? <==> exists i :: MatchAt(line, i)
    ensures r.Some? ==>
      exists i :: LeftmostMatch(line, i) && r.value == Device(line[i + 7..i + 24], NameAt(line, i))
  {
    match FindMatch(line, 0)
    case None => None
    case Some(i) =>
      assert LeftmostMatch(line, i);
      Some(Device(line[i + 7..i + 24], NameAt(line, i)))
  }

  /** A parsed record has a 17-character MAC address and a non-empty name
      without newline. */
  lemma ParseLineWellFormed(line: string)
    requires ParseLine(line).Some?
    ensures WellFormed(ParseLine(line).value)
  {
    var i :| LeftmostMatch(line, i) && ParseLine(line).value == Device(line[i + 7..i + 24], NameAt(line, i));
    MatchFieldsWellFormed(line, i);
  }

  /** The groups of any match form a well-formed record. */
  lemma MatchFieldsWellFormed(line: string, i: int)
    requires MatchAt(line, i)
    ensures WellFormed(Device(line[i + 7..i + 24], NameAt(line, i)))
  {
    var rest := line[i + 7..];
    MacPatternIff(rest);
    assert rest[..17] == line[i + 7..i + 24];
    assert line[i + 25..][0] == line[i + 25];
  }

  /** The record of one line, as a list of zero or one elements. */
  function LineRecords(line: string): seq<Device> {
    OptionList(ParseLine(line))
  }

  /** The `for line in ...: if match: devices.append(...)` loop, as a
      function over the lines. */
  function ParseLines(lines: seq<string>): (r: seq<Device>)
    ensures |r| <= |lines|
  {
    FilterMap(ParseLine, lines)
  }

  /** Every record in the list is well formed. */
  lemma ParseLinesWellFormed(lines: seq<string>, k: int)
    requires 0 <= k < |ParseLines(lines)|
    ensures WellFormed(ParseLines(lines)[k])
  {
    ParsedFromSomeLine(lines, k);
    var n :| 0 <= n < |lines| && ParseLine(lines[n]) == Some(ParseLines(lines)[k]);
    ParseLineWellFormed(lines[n]);
  }

  /** The device list a transcript yields. */
  function ParseDevices(transcript: string): seq<Device> {
    ParseLines(Lines(transcript))
  }

  /** The records of a list of lines are those of its parts, in order: no
      line's record is dropped, merged or moved. */
  lemma ParseLinesAppend(xs: seq<string>, ys: seq<string>)
    ensures ParseLines(xs + ys) == ParseLines(xs) + ParseLines(ys)
  {
    FilterMapAppend(ParseLine, xs, ys);
  }

  lemma ParseLinesSingle(line: string)
    ensures ParseLines([line]) == LineRecords(line)
  {
    FilterMapSingle(ParseLine, line);
  }

  /** A line without a match contributes nothing. */
  lemma NonMatchingLineIgnored(xs: seq<string>, line: string, ys: seq<string>)
    requires forall i :: !MatchAt(line, i)
    ensures ParseLines(xs + [line] + ys) == ParseLines(xs + ys)
  {
    ParseLinesAppend(xs + [line], ys);
    ParseLinesAppend(xs, [line]);
    ParseLinesAppend(xs, ys);
    ParseLinesSingle(line);
  }

  /** A matching line contributes exactly its record, where it stands;
      a repeated line gives a repeated record. */
  lemma MatchingLineKept(xs: seq<string>, line: string, ys: seq<string>)
    requires exists i :: MatchAt(line, i)
    ensures ParseLines(xs + [line] + ys)
      == ParseLines(xs) + [ParseLine(line).value] + ParseLines(ys)
  {
    ParseLinesAppend(xs + [line], ys);
    ParseLinesAppend(xs, [line]);
    ParseLinesSingle(line);
  }

  lemma DuplicatesKept(line: string)
    requires exists i :: MatchAt(line, i)
    ensures ParseLines([line, line]) == [ParseLine(line).value, ParseLine(line).value]
  {
    FilterMapRepeat(ParseLine, line);
  }

  /** Every record comes from some line of the input. */
  lemma ParsedFromSomeLine(lines: seq<string>, k: int)
    requires 0 <= k < |ParseLines(lines)|
    ensures exists n :: 0 <= n < |lines| && ParseLine(lines[n]) == Some(ParseLines(lines)[k])
  {
    FilterMapFrom(ParseLine, lines, k);
  }

  // ---------------------------------------------------------------------
  // The line format the parser reads

  /** The line `bluetoothctl` prints for a device. */
  function FormatLine(d: Device): string {
    "Device " + d.mac + " " + d.name
  }

  function FormatAll(ds: seq<Device>): seq<string> {
    if ds == [] then [] else [FormatLine(ds[0])] + FormatAll(ds[1..])
  }

  /** A device line parses back to its record. */
  lemma ParseFormatLine(d: Device)
    requires WellFormed(d)
    ensures ParseLine(FormatLine(d)) == Some(d)
  {
    ParsePrefixedLine([], d);
    assert [] + FormatLine(d) == FormatLine(d);
  }

  /** Text before "Device" that holds no 'D' (such as "[NEW] " or
      "[CHG] ") does not disturb the match. */
  lemma ParsePrefixedLine(p: string, d: Device)
    requires WellFormed(d) && 'D' !in p
    ensures ParseLine(p + FormatLine(d)) == Some(d)
  {
    var line := p + FormatLine(d);
    FormatLineMatches(p, d);
    NoMatchInPrefix(p, FormatLine(d));
    FormatLineFields(p, d);
    ParseLineIs(line, |p|, d);
  }

  /** The record of a line is read at its leftmost match. */
  lemma ParseLineAt(line: string, i: int)
    requires LeftmostMatch(line, i)
    ensures ParseLine(line) == Some(Device(line[i + 7..i + 24], NameAt(line, i)))
  {
    var f := FindMatch(line, 0);
    assert f.Some? && f.value == i;
  }

  lemma ParseLineIs(line: string, i: int, d: Device)
    requires MatchAt(line, i) && forall j :: 0 <= j < i ==> !MatchAt(line, j)
    requires line[i + 7..i + 24] == d.mac && NameAt(line, i) == d.name
    ensures ParseLine(line) == Some(d)
  {
    ParseLineAt(line, i);
  }

  /** The fields of a device line sit where the pattern's groups read them. */
  lemma FormatLineFields(p: string, d: Device)
    requires WellFormed(d)
    ensures var line, i := p + FormatLine(d), |p|;
      i + 25 <= |line| && line[i + 7..i + 24] == d.mac && NameAt(line, i) == d.name
  {
    var line, i := p + FormatLine(d), |p|;
    assert line[i + 7..i + 24] == d.mac;
    assert line[i + 25..] == d.name;
    assert IndexOf(d.name, '\n') == |d.name|;
    assert d.name[..|d.name|] == d.name;
  }

  /** The pattern matches a device line where its "Device" begins. */
  lemma FormatLineMatches(p: string, d: Device)
    requires WellFormed(d)
    ensures MatchAt(p + FormatLine(d), |p|)
  {
    var line := p + FormatLine(d);
    var i := |p|;
    assert line[i..] == FormatLine(d);
    assert line[i..][..7] == "Device ";
    var rest := line[i + 7..];
    assert rest == d.mac + " " + d.name;
    assert rest[..17] == d.mac;
    MacPatternIff(rest);
    assert line[i + 24] == ' ';
    assert line[i + 25] == d.name[0];
  }

  /** No match starts inside text that holds no 'D'. */
  lemma NoMatchInPrefix(p: string, t: string)
    requires 'D' !in p
    ensures forall j :: 0 <= j < |p| ==> !MatchAt(p + t, j)
  {
    var line := p + t;
    forall j | 0 <= j < |p|
      ensures !MatchAt(line, j)
    {
      assert line[j] == p[j];
      if j + 7 <= |line| {
        assert line[j..][..7][0] == line[j];
      }
    }
  }

  lemma {:induction false} FormatAllNoNewline(ds: seq<Device>)
    requires forall k :: 0 <= k < |ds| ==> WellFormed(ds[k])
    ensures |FormatAll(ds)| == |ds|
    ensures forall k :: 0 <= k < |ds| ==> FormatAll(ds)[k] == FormatLine(ds[k])
    ensures forall k :: 0 <= k < |ds| ==> '\n' !in FormatAll(ds)[k]
  {
    if ds != [] {
      FormatAllNoNewline(ds[1..]);
      forall k | 0 <= k < |ds|
        ensures '\n' !in FormatLine(ds[k])
      {
        var d := ds[k];
        assert forall n :: 0 <= n < 17 ==> MacCharAt(d.mac[n], n);
        assert '\n' !in d.mac;
      }
    }
  }

  lemma ParseFormatAll(ds: seq<Device>)
    requires forall k :: 0 <= k < |ds| ==> WellFormed(ds[k])
    ensures ParseLines(FormatAll(ds)) == ds
  {
    var lines := FormatAll(ds);
    FormatAllNoNewline(ds);
    forall k | 0 <= k < |lines|
      ensures ParseLine(lines[k]) == Some(ds[k])
    {
      ParseFormatLine(ds[k]);
    }
    FilterMapAllFound(ParseLine, lines, ds);
  }

  /** A transcript made of formatted device lines parses back to exactly
      those records, in order, duplicates included. */
  lemma ParseFormattedTranscript(ds: seq<Device>)
    requires forall k :: 0 <= k < |ds| ==> WellFormed(ds[k])
    ensures ParseDevices(Unlines(FormatAll(ds))) == ds
  {
    FormatAllNoNewline(ds);
    LinesOfUnlines(FormatAll(ds));
    ParseFormatAll(ds);
  }

  /** A transcript holding one device line, such as
      "Device 11:22:33:44:55:66 My Speaker\n", yields that one record. */
  lemma OneDeviceTranscript(d: Device)
    requires WellFormed(d)
    ensures ParseDevices(FormatLine(d) + "\n") == [d]
  {
    var line := FormatLine(d);
    assert FormatAll([d]) == [line] + FormatAll([]);
    assert Unlines([line]) == line + "\n" + Unlines([]);
    assert Unlines(FormatAll([d])) == line + "\n";
    ParseFormattedTranscript([d]);
  }

  // ---------------------------------------------------------------------
  // The parsing loops of get_paired_devices and scan_devices

  /** The loop that scans the transcript line by line and appends a record
      for every line with a match. */
  method CollectDevices(transcript: string) returns (devices: seq<Device>)
    ensures devices == ParseDevices(transcript)
  {
    var lines := Lines(transcript);
    devices := [];
    for n := 0 to |lines|
      invariant devices == ParseLines(lines[..n])
    {
      var m := ParseLine(lines[n]);
      if m.Some? {
        devices := devices + [m.value];
      }
      ParseLinesSnoc(lines, n);
    }
    assert lines[..|lines|] == lines;
  }

  lemma ParseLinesSnoc(lines: seq<string>, n: nat)
    requires n < |lines|
    ensures ParseLines(lines[..n + 1]) == ParseLines(lines[..n]) + LineRecords(lines[n])
  {
    var xs, l := lines[..n], lines[n];
    assert lines[..n + 1] == xs + [l];
    ParseLinesAppend(xs, [l]);
    ParseLinesSingle(l);
  }

  const PairedSession: seq<string> := ["devices Paired"]

  /** `get_paired_devices`: one session asking for the paired devices, and
      the records of its transcript. */
  method GetPairedDevices(transcript: string) returns (session: seq<string>, devices: seq<Device>)
    ensures session == ["devices Paired"]
    ensures devices == ParseDevices(transcript)
  {
    session := PairedSession;
    devices := CollectDevices(transcript);
  }

  /** `scan_devices`: sessions turning discovery on, then off, then listing
      every known device; only the last transcript is parsed. */
  method ScanDevices(listTranscript: string) returns (sessions: seq<seq<string>>, devices: seq<Device>)
    ensures sessions == [["scan on"], ["scan off"], ["devices"]]
    ensures devices == ParseDevices(listTranscript)
  {
    sessions := [["scan on"], ["scan off"], ["devices"]];
    devices := CollectDevices(listTranscript);
  }

  // ---------------------------------------------------------------------
  // connect_to_device

  /** The command lines of the connect session, in the order sent. */
  function ConnectSession(mac: string): seq<string> {
    ["pair " + mac, "trust " + mac, "connect " + mac]
  }

  /** The success test on the connect transcript: the exact phrase
      "Connection successful", or "already connected" in any letter case. */
  predicate ConnectSucceeded(transcript: string) {
    Contains(transcript, "Connection successful")
    || Contains(Lower(transcript), "already connected")
  }

  /** The success phrase anywhere in the transcript means success. */
  lemma SuccessPhraseSucceeds(a: string, b: string)
    ensures ConnectSucceeded(a + "Connection successful" + b)
  {
    ContainsInfix(a, "Connection successful", b);
  }

  /** "already connected" in any letter case anywhere means success. */
  lemma AlreadyConnectedSucceeds(a: string, w: string, b: string)
    requires Lower(w) == "already connected"
    ensures ConnectSucceeded(a + w + b)
  {
    LowerAppend(a + w, b);
    LowerAppend(a, w);
    ContainsInfix(Lower(a), "already connected", Lower(b));
  }

  /** Success is never undone by more output around the transcript: the
      test only looks for phrases. */
  lemma SuccessSurvivesMoreOutput(a: string, t: string, b: string)
    requires ConnectSucceeded(t)
    ensures ConnectSucceeded(a + t + b)
  {
    if Contains(t, "Connection successful") {
      ContainsWithin(a, t, b, "Connection successful");
    } else {
      LowerAppend(a + t, b);
      LowerAppend(a, t);
      ContainsWithin(Lower(a), Lower(t), Lower(b), "already connected");
    }
  }

  /** Characters `i` to `i + |phrase|` of `t` read `phrase` once lower-cased. */
  ghost predicate OccursLoweredAt(t: string, phrase: string, i: int) {
    0 <= i && i + |phrase| <= |t| && Lower(t[i..i + |phrase|]) == phrase
  }

  /** The success test read on the transcript itself, both ways round:
      success exactly when "Connection successful" occurs at some index, or
      some 17 consecutive characters read "already connected" once
      lower-cased. Every other transcript is a failure. */
  lemma ConnectSucceededIff(t: string)
    ensures ConnectSucceeded(t) <==>
      (exists i :: OccursAt(t, "Connection successful", i))
      || (exists i :: OccursLoweredAt(t, "already connected", i))
  {
    ContainsIff(t, "Connection successful");
    var l := Lower(t);
    ContainsIff(l, "already connected");
    forall i
      ensures OccursAt(l, "already connected", i) <==> OccursLoweredAt(t, "already connected", i)
    {
      if 0 <= i && i + 17 <= |t| {
        assert l[i..][..17] == Lower(t[i..i + 17]);
      }
    }
  }

  /** A transcript without the letters that begin the two phrases ('C',
      and 'a' in either case) is never a success. */
  lemma NoPhraseFails(t: string)
    requires 'C' !in t && 'a' !in t && 'A' !in t
    ensures !ConnectSucceeded(t)
  {
    ContainsIff(t, "Connection successful");
    forall i
      ensures !OccursAt(t, "Connection successful", i)
    {
      if 0 <= i && i + 21 <= |t| {
        assert t[i..][..21][0] == t[i];
      }
    }
    var l := Lower(t);
    ContainsIff(l, "already connected");
    forall i
      ensures !OccursAt(l, "already connected", i)
    {
      if 0 <= i && i + 17 <= |l| {
        assert l[i..][..17][0] == LowerChar(t[i]);
      }
    }
  }

  /** The phrase "Connection successful" is case-sensitive: written all in
      lower case it is not a success. */
  lemma SuccessPhraseIsCaseSensitive()
    ensures !ConnectSucceeded("connection successful")
  {
    NoPhraseFails("connection successful");
  }

  // ---------------------------------------------------------------------
  // The MAC check of menu option 3

  /** `re.match(MAC, mac)` on the stripped input: anchored at the start
      only, so anything may follow the sixth pair. */
  predicate ValidMacInput(raw: string) {
    MacPatternMatch(Strip(raw))
  }

  /** The check accepts exactly when the stripped input begins with 17
      MAC-shaped characters. */
  lemma ValidMacInputIff(raw: string)
    ensures ValidMacInput(raw) <==> |Strip(raw)| >= 17 && IsMacShaped(Strip(raw)[..17])
  {
    MacPatternIff(Strip(raw));
  }

  /** A MAC address followed by anything, such as a seventh group, passes. */
  lemma TrailingTextAccepted(m: string, t: string)
    requires IsMacShaped(m)
    ensures ValidMacInput(m + t)
  {
    var s := m + t;
    assert MacCharAt(m[0], 0) && MacCharAt(m[16], 16);
    assert !IsSpace(s[0]) && !IsSpace(s[16]);
    var r := Strip(s);
    var i :| PaddedSlice(s, r, i);
    assert r[..17] == m;
    MacPatternIff(r);
  }

  lemma SeventhGroupAccepted()
    ensures ValidMacInput("AA:BB:CC:DD:EE:FF:00")
  {
    var m := "AA:BB:CC:DD:EE:FF";
    assert "AA:BB:CC:DD:EE:FF:00" == m + ":00";
    assert IsMacShaped(m);
    TrailingTextAccepted(m, ":00");
  }

  /** Five groups are too few. */
  lemma FiveGroupsRejected()
    ensures !ValidMacInput("AA:BB:CC:DD:EE")
  {
    var s := "AA:BB:CC:DD:EE";
    StripUnpadded(s);
    MacPatternIff(s);
  }

  /** Surrounding whitespace is stripped before the check. */
  lemma PaddedAddressAccepted(p: string, m: string, q: string)
    requires forall k :: 0 <= k < |p| ==> IsSpace(p[k])
    requires forall k :: 0 <= k < |q| ==> IsSpace(q[k])
    requires IsMacShaped(m)
    ensures ValidMacInput(p + m + q)
  {
    assert MacCharAt(m[0], 0) && MacCharAt(m[16], 16);
    StripPadding(p, m, q);
    MacPatternIff(m);
    assert m[..17] == m;
  }
}
