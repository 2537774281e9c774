/** Model of the PXE boot helper in util/pxenet.py.

    When pxelinux boots with `IPAPPEND 2` it appends `BOOTIF=<hwtype>-<mac>`
    to the kernel command line. The helper reads that option back from
    /proc/cmdline to get the MAC address of the boot interface, then looks
    for the interface under /sys/class/net whose `address` file holds that
    MAC. The file system is not modelled: the contents of /proc/cmdline is
    the `cmdline` argument, and the directory listing of /sys/class/net,
    with the contents of each entry's `address` file, is a sequence of
    `NetDevice` values in listing order. */
module PxeNet {
  import opened PyStr

  datatype Option<T> = None | Some(value: T)

  /** The two exceptions the helper raises. */
  datatype Error = BootIfNotFound | InterfaceNotFound(mac: string)

  datatype Result<T> = Ok(value: T) | Err(error: Error)

  /** The text each exception carries (lines 27 and 46). An interface error
      carries the MAC between a fixed prefix and suffix. */
  function Message(e: Error): (r: string)
    ensures e.BootIfNotFound? ==> |r| > 0 && r[0] == '/'
    ensures e.InterfaceNotFound? ==> |r| == |e.mac| + 37 && r[0] == 'i' && r[27..|r| - 10] == e.mac
  {
    match e
    case BootIfNotFound => "/proc/cmdline: BOOTIF= not found"
    case InterfaceNotFound(mac) => "interface with MAC address " + mac + " not found"
  }

  /** Different errors give different texts: the text names the error and,
      for a missing interface, the MAC that was looked for. */
  lemma MessageIdentifies(e1: Error, e2: Error)
    ensures Message(e1) == Message(e2) <==> e1 == e2
  {
    if Message(e1) == Message(e2) && e1.InterfaceNotFound? && e2.InterfaceNotFound? {
      assert e1.mac == Message(e1)[27..|Message(e1)| - 10];
    }
  }

  /** An entry of /sys/class/net: its name and the raw contents of its
      `address` file (which ends in a newline on Linux). */
  datatype NetDevice = NetDevice(name: string, address: string)

  /** The option key pxelinux uses for the boot interface. */
  const BootIfKey: string := "BOOTIF"

  /** How many trailing fields of the option value make up the MAC. */
  const MacFields: nat := 6

  // ---------------------------------------------------------------------
  // get_boot_hwaddr
  // ---------------------------------------------------------------------

  /** Reference reading of an option: it is the boot-interface option when it
      starts with `BOOTIF=`; its value is everything after that. */
  predicate IsBootIf(opt: string) {
    BootIfKey + "=" <= opt
  }

  /** The first BOOTIF option of `opts` sits at index `k`. */
  predicate IsFirstBootIf(opts: seq<string>, k: int) {
    0 <= k < |opts| && IsBootIf(opts[k])
    && forall j :: 0 <= j < k ==> !IsBootIf(opts[j])
  }

  /** One pass of the option loop: split the option at its first `=`, skip
      it when there is no `=` or when the key is not exactly `BOOTIF`, and
      otherwise yield the value, which may itself hold further `=`. */
  function BootIfValue(opt: string): (v: Option<string>)
    ensures v.Some? <==> IsBootIf(opt)
    ensures v.Some? ==> opt == BootIfKey + "=" + v.value
  {
    var parts := SplitFirst(opt, '=');
    KeyOfBootIf(opt, parts);
    if |parts| < 2 then None
    else if parts[0] != BootIfKey then None
    else Some(parts[1])
  }

  /** Splitting an option at its first `=` gives the key `BOOTIF` exactly
      when the option starts with `BOOTIF=`. */
  lemma KeyOfBootIf(opt: string, parts: seq<string>)
    requires parts == SplitFirst(opt, '=')
    ensures (|parts| == 2 && parts[0] == BootIfKey) <==> IsBootIf(opt)
  {
    var key := BootIfKey + "=";
    if IsBootIf(opt) {
      assert opt[6] == '=';
      assert |parts| == 2;
      var k := parts[0];
      assert opt[..|k|] == k && opt[|k|] == '=';
      assert k == opt[..6] == BootIfKey;
    }
  }

  /** The loop over the options: the value of the first BOOTIF option, or
      nothing when the loop falls through. */
  function FirstBootIf(opts: seq<string>): (v: Option<string>)
    ensures v.None? <==> forall k :: 0 <= k < |opts| ==> !IsBootIf(opts[k])
    ensures v.Some? ==> exists k :: IsFirstBootIf(opts, k) && opts[k] == BootIfKey + "=" + v.value
  {
    if opts == [] then None
    else match BootIfValue(opts[0])
      case Some(value) =>
        assert IsFirstBootIf(opts, 0);
        Some(value)
      case None =>
        var rest := FirstBootIf(opts[1..]);
        assert forall k :: 1 <= k < |opts| ==> opts[k] == opts[1..][k - 1];
        assert rest.Some? ==> exists k :: IsFirstBootIf(opts, k) && opts[k] == BootIfKey + "=" + rest.value by {
          if rest.Some? {
            var k :| IsFirstBootIf(opts[1..], k) && opts[1..][k] == BootIfKey + "=" + rest.value;
            assert IsFirstBootIf(opts, k + 1);
          }
        }
        rest
  }

  /** Python's `xs[-6:]`: the last six fields, or all of them when there are
      fewer. */
  function LastFields(xs: seq<string>): (r: seq<string>)
    ensures |r| == if |xs| < MacFields then |xs| else MacFields
    ensures r == xs[|xs| - |r|..]
  {
    if |xs| <= MacFields then xs else xs[|xs| - MacFields..]
  }

  /** The MAC built from a BOOTIF value: lower-case it, cut it at every byte
      outside `[0-9a-f]`, and join the last six fields with colons. Whatever
      the value holds, the MAC holds only lower-case hex digits and colons. */
  function FormatMac(value: string): (r: string)
    ensures forall i :: 0 <= i < |r| ==> IsHexLower(r[i]) || r[i] == ':'
  {
    var fields := LastFields(SplitNonHex(Lower(value)));
    HexFieldsJoin(fields);
    Join(':', fields)
  }

  /** Colon-joined `[0-9a-f]` fields: one colon fewer than fields, and every
      other byte a lower-case hex digit. */
  lemma HexFieldsJoin(fields: seq<string>)
    requires |fields| > 0
    requires forall k :: 0 <= k < |fields| ==> AllHexLower(fields[k])
    ensures CountChar(':', Join(':', fields)) == |fields| - 1
    ensures forall i :: 0 <= i < |Join(':', fields)| ==> IsHexLower(Join(':', fields)[i]) || Join(':', fields)[i] == ':'
  {
    forall k | 0 <= k < |fields| ensures ':' !in fields[k] {
      assert AllHexLower(fields[k]);
    }
    JoinCount(':', fields, IsHexLower);
  }

  /** `get_boot_hwaddr` as written: the contents of /proc/cmdline is split
      into options on runs of spaces, the first BOOTIF option decides, and
      the helper fails when there is none. */
  function ParseBootIf(cmdline: string): (r: Result<string>)
    ensures r.Err? <==> forall opt :: opt in SplitSpaces(cmdline) ==> !IsBootIf(opt)
    ensures r.Err? ==> r.error == BootIfNotFound
    ensures r.Ok? ==> exists k :: IsFirstBootIf(SplitSpaces(cmdline), k)
                        && r.value == FormatMac(SplitSpaces(cmdline)[k][|BootIfKey| + 1..])
  {
    var opts := SplitSpaces(cmdline);
    match FirstBootIf(opts)
    case None => Err(BootIfNotFound)
    case Some(value) =>
      assert exists k :: IsFirstBootIf(opts, k) && value == opts[k][|BootIfKey| + 1..] by {
        var k :| IsFirstBootIf(opts, k) && opts[k] == BootIfKey + "=" + value;
        assert opts[k][|BootIfKey| + 1..] == value;
      }
      Ok(FormatMac(value))
  }

  /** `get_boot_hwaddr` with the option value stripped of surrounding
      whitespace before the MAC is built from it, so that the newline that
      ends /proc/cmdline cannot become a field of its own. */
  function ParseBootIfTrimmed(cmdline: string): (r: Result<string>)
    ensures r.Err? <==> forall opt :: opt in SplitSpaces(cmdline) ==> !IsBootIf(opt)
    ensures r.Err? ==> r.error == BootIfNotFound
    ensures r.Ok? ==> exists k :: IsFirstBootIf(SplitSpaces(cmdline), k)
                        && r.value == FormatMac(Strip(SplitSpaces(cmdline)[k][|BootIfKey| + 1..]))
  {
    var opts := SplitSpaces(cmdline);
    match FirstBootIf(opts)
    case None => Err(BootIfNotFound)
    case Some(value) =>
      assert exists k :: IsFirstBootIf(opts, k) && value == opts[k][|BootIfKey| + 1..] by {
        var k :| IsFirstBootIf(opts, k) && opts[k] == BootIfKey + "=" + value;
        assert opts[k][|BootIfKey| + 1..] == value;
      }
      Ok(FormatMac(Strip(value)))
  }

  /** Every MAC the helper builds is made of `[0-9a-f]` and colons, and has
      one colon fewer than the number of fields it keeps: at most six, as
      many as there are bytes outside `[0-9a-f]` in the lowered value, plus
      one. */
  lemma FormatMacShape(value: string)
    ensures var n := CountNonHex(Lower(value)) + 1;
            CountChar(':', FormatMac(value)) == (if n < MacFields then n else MacFields) - 1
  {
    HexFieldsJoin(LastFields(SplitNonHex(Lower(value))));
  }

  /** The result of the helper, when it succeeds, is a colon-separated
      string of lower-case hex with at most five colons. */
  lemma ParseBootIfShape(cmdline: string)
    ensures ParseBootIf(cmdline).Ok? ==>
              var mac := ParseBootIf(cmdline).value;
              (forall i :: 0 <= i < |mac| ==> IsHexLower(mac[i]) || mac[i] == ':')
              && CountChar(':', mac) < MacFields
  {
    if ParseBootIf(cmdline).Err? {
      return;
    }
    var opts := SplitSpaces(cmdline);
    var k :| IsFirstBootIf(opts, k)
             && ParseBootIf(cmdline).value == FormatMac(opts[k][|BootIfKey| + 1..]);
    FormatMacShape(opts[k][|BootIfKey| + 1..]);
  }

  /** Once a BOOTIF option has been seen, options after it are ignored. */
  lemma {:induction false} FirstBootIfDecides(opts: seq<string>, more: seq<string>)
    requires FirstBootIf(opts).Some?
    ensures FirstBootIf(opts + more) == FirstBootIf(opts)
  {
    assert (opts + more)[0] == opts[0];
    if BootIfValue(opts[0]).None? {
      assert (opts + more)[1..] == opts[1..] + more;
      FirstBootIfDecides(opts[1..], more);
    }
  }

  // ---------------------------------------------------------------------
  // find_interface
  // ---------------------------------------------------------------------

  /** The device's address file holds `mac`, up to surrounding whitespace. */
  predicate HasAddress(device: NetDevice, mac: string) {
    Strip(device.address) == mac
  }

  /** Index `k` is the first device whose address file holds `mac`. */
  predicate IsFirstMatch(devices: seq<NetDevice>, mac: string, k: int) {
    0 <= k < |devices| && HasAddress(devices[k], mac)
    && forall j :: 0 <= j < k ==> !HasAddress(devices[j], mac)
  }

  /** `find_interface`: the name of the first device, in listing order, whose
      address file holds `mac` once surrounding whitespace is stripped; an
      error naming `mac` when there is none. */
  function FindInterface(devices: seq<NetDevice>, mac: string): (r: Result<string>)
    ensures r.Err? <==> forall k :: 0 <= k < |devices| ==> !HasAddress(devices[k], mac)
    ensures r.Err? ==> r.error == InterfaceNotFound(mac)
    ensures r.Ok? ==> exists k :: IsFirstMatch(devices, mac, k) && devices[k].name == r.value
  {
    if devices == [] then Err(InterfaceNotFound(mac))
    else if HasAddress(devices[0], mac) then
      assert IsFirstMatch(devices, mac, 0);
      Ok(devices[0].name)
    else
      var r := FindInterface(devices[1..], mac);
      assert forall k :: 1 <= k < |devices| ==> devices[k] == devices[1..][k - 1];
      assert r.Ok? ==> exists k :: IsFirstMatch(devices, mac, k) && devices[k].name == r.value by {
        if r.Ok? {
          var k :| IsFirstMatch(devices[1..], mac, k) && devices[1..][k].name == r.value;
          assert IsFirstMatch(devices, mac, k + 1);
        }
      }
      r
  }

  /** Devices listed after the first match do not change the answer. */
  lemma {:induction false} FindInterfaceDecides(devices: seq<NetDevice>, more: seq<NetDevice>, mac: string)
    requires FindInterface(devices, mac).Ok?
    ensures FindInterface(devices + more, mac) == FindInterface(devices, mac)
  {
    assert (devices + more)[0] == devices[0];
    if !HasAddress(devices[0], mac) {
      assert (devices + more)[1..] == devices[1..] + more;
      FindInterfaceDecides(devices[1..], more, mac);
    }
  }

  /** An address file holding `mac` followed by a newline, as sysfs writes
      it, matches `mac` when the MAC has no whitespace at either end. */
  lemma AddressFileMatches(mac: string)
    requires mac == [] || (!IsWhitespace(mac[0]) && !IsWhitespace(mac[|mac| - 1]))
    ensures Strip(mac + "\n") == mac
  {
    assert [] + mac + "\n" == mac + "\n";
    StripPadded([], mac, "\n");
  }

  // ---------------------------------------------------------------------
  // The boot interface (lines 49-50) and the trailing newline
  // ---------------------------------------------------------------------

  /** The script's first two steps: the MAC from the command line, then the
      interface that has it. The MAC is taken from the trimmed option value
      (see `TrailingNewlineDropsOctet` for what the unstripped value does). */
  function BootInterface(cmdline: string, devices: seq<NetDevice>): (r: Result<(string, string)>)
    ensures r.Ok? ==> ParseBootIfTrimmed(cmdline) == Ok(r.value.1)
    ensures r.Ok? ==> exists k :: IsFirstMatch(devices, r.value.1, k) && devices[k].name == r.value.0
    ensures r.Err? <==> ParseBootIfTrimmed(cmdline).Err?
                        || forall k :: 0 <= k < |devices| ==> !HasAddress(devices[k], ParseBootIfTrimmed(cmdline).value)
    ensures r.Err? ==> r.error == if ParseBootIfTrimmed(cmdline).Err? then BootIfNotFound
                                  else InterfaceNotFound(ParseBootIfTrimmed(cmdline).value)
  {
    match ParseBootIfTrimmed(cmdline)
    case Err(e) => Err(e)
    case Ok(mac) =>
      match FindInterface(devices, mac)
      case Err(e) => Err(e)
      case Ok(name) => Ok((name, mac))
  }

  /** One field of the value pxelinux writes: two hex digits. */
  predicate IsPxeOctet(o: string) {
    |o| == 2 && AllHexDigits(o)
  }

  /** The value pxelinux writes after `BOOTIF=`: the ARP hardware type and the
      six octets of the MAC joined with dashes, as in `01-00-11-22-33-44-55`. */
  function PxeBootIf(hwtype: string, octets: seq<string>): string {
    Join('-', [hwtype] + octets)
  }

  predicate IsPxeValue(hwtype: string, octets: seq<string>) {
    IsPxeOctet(hwtype) && |octets| == MacFields
    && forall k :: 0 <= k < |octets| ==> IsPxeOctet(octets[k])
  }

  /** The MAC a pxelinux value stands for: its six octets, lower-cased and
      joined with colons, as /sys/class/net/<name>/address shows it. */
  function PxeMac(octets: seq<string>): string {
    Join(':', LowerAll(octets))
  }

  /** The lowered pxelinux value splits into its seven lowered fields. */
  lemma PxeFields(hwtype: string, octets: seq<string>)
    requires IsPxeValue(hwtype, octets)
    ensures SplitNonHex(Lower(PxeBootIf(hwtype, octets))) == LowerAll([hwtype] + octets)
  {
    var fields := [hwtype] + octets;
    LowerJoin('-', fields);
    var lowered := LowerAll(fields);
    forall k | 0 <= k < |lowered| ensures AllHexLower(lowered[k]) {
      assert IsPxeOctet(fields[k]);
      forall i | 0 <= i < |lowered[k]| ensures IsHexLower(lowered[k][i]) {
        LowerCharHex(fields[k][i]);
      }
    }
    SplitJoinNonHex(lowered, '-');
  }

  /** Every byte of a pxelinux value is a hex digit or a dash. */
  lemma PxeBytes(hwtype: string, octets: seq<string>)
    requires IsPxeValue(hwtype, octets)
    ensures var v := PxeBootIf(hwtype, octets);
            v != [] && forall i :: 0 <= i < |v| ==> IsHexDigit(v[i]) || v[i] == '-'
  {
    var fields := [hwtype] + octets;
    forall k | 0 <= k < |fields| ensures '-' !in fields[k] {
      assert IsPxeOctet(fields[k]);
    }
    JoinCount('-', fields, IsHexDigit);
    assert CountChar('-', PxeBootIf(hwtype, octets)) == MacFields;
  }

  /** The MAC of a pxelinux value is lower-case hex and colons, and ends in
      a hex digit. */
  lemma PxeMacBytes(octets: seq<string>)
    requires |octets| == MacFields && forall k :: 0 <= k < |octets| ==> IsPxeOctet(octets[k])
    ensures var m := PxeMac(octets);
            m != [] && IsHexLower(m[|m| - 1])
            && forall i :: 0 <= i < |m| ==> IsHexLower(m[i]) || m[i] == ':'
  {
    var lowered := LowerAll(octets);
    forall k | 0 <= k < |lowered| ensures AllHexLower(lowered[k]) && ':' !in lowered[k] {
      assert IsPxeOctet(octets[k]);
      forall i | 0 <= i < |lowered[k]| ensures IsHexLower(lowered[k][i]) {
        LowerCharHex(octets[k][i]);
      }
    }
    JoinCount(':', lowered, IsHexLower);
    JoinSnoc(':', lowered[..5], lowered[5]);
    assert lowered[..5] + [lowered[5]] == lowered;
  }

  /** On the value itself: with a newline after it, the lowered value has an
      eighth, empty field, and the last six fields lose the first octet. */
  lemma FormatMacNewline(hwtype: string, octets: seq<string>)
    requires IsPxeValue(hwtype, octets)
    ensures FormatMac(PxeBootIf(hwtype, octets) + "\n") == Join(':', LowerAll(octets)[1..] + [[]])
  {
    var v := PxeBootIf(hwtype, octets);
    LowerAppend(v, "\n");
    assert Lower("\n") == "\n";
    PxeFields(hwtype, octets);
    SplitNonHexSuffix(Lower(v), '\n');
    var fields := LowerAll([hwtype] + octets) + [[]];
    assert fields[|fields| - MacFields..] == LowerAll(octets)[1..] + [[]];
  }

  /** On the value itself: with the padding stripped first, the last six
      fields are exactly the six octets. */
  lemma FormatMacStripped(hwtype: string, octets: seq<string>, padding: string)
    requires IsPxeValue(hwtype, octets) && AllWhitespace(padding)
    ensures FormatMac(Strip(PxeBootIf(hwtype, octets) + padding)) == PxeMac(octets)
  {
    var v := PxeBootIf(hwtype, octets);
    PxeBytes(hwtype, octets);
    assert [] + v + padding == v + padding;
    StripPadded([], v, padding);
    PxeFields(hwtype, octets);
    var fields := LowerAll([hwtype] + octets);
    assert fields[|fields| - MacFields..] == LowerAll(octets);
  }

  /** A command line of non-empty, space-free options, the last of which is
      the BOOTIF option: that option's value is the one the helper uses. */
  lemma {:induction false} BootIfLast(opts: seq<string>, value: string)
    requires forall k :: 0 <= k < |opts| ==> opts[k] != [] && ' ' !in opts[k] && !IsBootIf(opts[k])
    requires ' ' !in value
    ensures var cmdline := Join(' ', opts + [BootIfKey + "=" + value]);
            ParseBootIf(cmdline) == Ok(FormatMac(value))
            && ParseBootIfTrimmed(cmdline) == Ok(FormatMac(Strip(value)))
  {
    var opt := BootIfKey + "=" + value;
    var toks := opts + [opt];
    assert ' ' !in opt by {
      assert forall i :: |BootIfKey| + 1 <= i < |opt| ==> opt[i] == value[i - |BootIfKey| - 1];
    }
    assert forall j :: 0 <= j < |opts| ==> toks[j] == opts[j];
    assert SpaceTokens(toks);
    SplitJoinSpaces(toks);
    assert toks[|opts|] == opt && IsBootIf(opt);
    var v := FirstBootIf(toks);
    var k :| IsFirstBootIf(toks, k) && toks[k] == BootIfKey + "=" + v.value;
    assert k == |opts|;
    assert v.value == opt[|BootIfKey| + 1..] == value;
  }

  /** A pxelinux value followed by whitespace other than spaces holds no
      space. */
  lemma PxeValueNoSpace(hwtype: string, octets: seq<string>, padding: string)
    requires IsPxeValue(hwtype, octets) && AllWhitespace(padding) && ' ' !in padding
    ensures ' ' !in PxeBootIf(hwtype, octets) + padding
  {
    var v := PxeBootIf(hwtype, octets);
    PxeBytes(hwtype, octets);
    var value := v + padding;
    assert forall i :: 0 <= i < |v| ==> value[i] == v[i];
    assert forall i :: |v| <= i < |value| ==> value[i] == padding[i - |v|];
  }

  /** The MAC built from the newline-terminated value is not the MAC of the
      value: it ends in a colon. */
  lemma NewlineMacDiffers(octets: seq<string>)
    requires |octets| == MacFields && forall k :: 0 <= k < |octets| ==> IsPxeOctet(octets[k])
    ensures Join(':', LowerAll(octets)[1..] + [[]]) != PxeMac(octets)
  {
    var lowered := LowerAll(octets)[1..];
    JoinSnoc(':', lowered, []);
    var wrong := Join(':', lowered + [[]]);
    assert wrong[|wrong| - 1] == ':';
    PxeMacBytes(octets);
  }

  /** Finding, as written: /proc/cmdline ends in a newline and pxelinux puts
      BOOTIF last, so the option value keeps that newline; it becomes an
      eighth, empty field, and the MAC the helper returns drops the first
      octet and ends in a colon. It is never the MAC of the value. */
  lemma TrailingNewlineDropsOctet(cmdline: string, opts: seq<string>, hwtype: string, octets: seq<string>)
    requires forall k :: 0 <= k < |opts| ==> opts[k] != [] && ' ' !in opts[k] && !IsBootIf(opts[k])
    requires IsPxeValue(hwtype, octets)
    requires cmdline == Join(' ', opts + [BootIfKey + "=" + PxeBootIf(hwtype, octets) + "\n"])
    ensures ParseBootIf(cmdline) == Ok(Join(':', LowerAll(octets)[1..] + [[]]))
    ensures ParseBootIf(cmdline) != Ok(PxeMac(octets))
  {
    var value := PxeBootIf(hwtype, octets) + "\n";
    assert BootIfKey + "=" + PxeBootIf(hwtype, octets) + "\n" == BootIfKey + "=" + value;
    var wrong := Join(':', LowerAll(octets)[1..] + [[]]);
    assert ParseBootIf(cmdline) == Ok(FormatMac(value)) by {
      PxeValueNoSpace(hwtype, octets, "\n");
      BootIfLast(opts, value);
    }
    assert FormatMac(value) == wrong by {
      FormatMacNewline(hwtype, octets);
    }
    assert wrong != PxeMac(octets) by {
      NewlineMacDiffers(octets);
    }
  }

  /** When the trimmed MAC is found at index `k`, the boot interface is the
      first match, at `k` or before. */
  lemma BootInterfaceAt(cmdline: string, devices: seq<NetDevice>, mac: string, k: nat)
    requires ParseBootIfTrimmed(cmdline) == Ok(mac)
    requires k < |devices| && HasAddress(devices[k], mac)
    ensures BootInterface(cmdline, devices).Ok? && BootInterface(cmdline, devices).value.1 == mac
    ensures exists j :: j <= k && IsFirstMatch(devices, mac, j)
                        && devices[j].name == BootInterface(cmdline, devices).value.0
  {
    var r := BootInterface(cmdline, devices);
    var j :| IsFirstMatch(devices, mac, j) && devices[j].name == r.value.0;
    assert j <= k;
  }

  /** Corrected: with the option value stripped first, the MAC is that of
      the pxelinux value, whatever whitespace (other than spaces) follows. */
  lemma TrimmedParseRecoversMac(cmdline: string, opts: seq<string>, hwtype: string,
                                octets: seq<string>, padding: string)
    requires forall j :: 0 <= j < |opts| ==> opts[j] != [] && ' ' !in opts[j] && !IsBootIf(opts[j])
    requires IsPxeValue(hwtype, octets) && AllWhitespace(padding) && ' ' !in padding
    requires cmdline == Join(' ', opts + [BootIfKey + "=" + PxeBootIf(hwtype, octets) + padding])
    ensures ParseBootIfTrimmed(cmdline) == Ok(PxeMac(octets))
  {
    var value := PxeBootIf(hwtype, octets) + padding;
    assert BootIfKey + "=" + PxeBootIf(hwtype, octets) + padding == BootIfKey + "=" + value;
    PxeValueNoSpace(hwtype, octets, padding);
    BootIfLast(opts, value);
    FormatMacStripped(hwtype, octets, padding);
  }

  /** A device whose address file holds the MAC of a pxelinux value, as
      sysfs writes it, has that address. */
  lemma PxeMacAddressFile(octets: seq<string>, device: NetDevice)
    requires |octets| == MacFields && forall k :: 0 <= k < |octets| ==> IsPxeOctet(octets[k])
    requires device.address == PxeMac(octets) + "\n"
    ensures HasAddress(device, PxeMac(octets))
  {
    PxeMacBytes(octets);
    AddressFileMatches(PxeMac(octets));
  }

  /** End to end, with the corrected parse: a pxelinux command line leads to
      the first interface, in listing order, whose address file holds the
      MAC of the BOOTIF value as sysfs writes it. */
  lemma PxelinuxBootInterface(cmdline: string, opts: seq<string>, hwtype: string, octets: seq<string>,
                              devices: seq<NetDevice>, k: nat)
    requires forall j :: 0 <= j < |opts| ==> opts[j] != [] && ' ' !in opts[j] && !IsBootIf(opts[j])
    requires IsPxeValue(hwtype, octets)
    requires cmdline == Join(' ', opts + [BootIfKey + "=" + PxeBootIf(hwtype, octets) + "\n"])
    requires k < |devices| && devices[k].address == PxeMac(octets) + "\n"
    ensures BootInterface(cmdline, devices).Ok?
    ensures BootInterface(cmdline, devices).value.1 == PxeMac(octets)
    ensures exists j :: j <= k && IsFirstMatch(devices, PxeMac(octets), j)
                        && devices[j].name == BootInterface(cmdline, devices).value.0
  {
    assert AllWhitespace("\n");
    TrimmedParseRecoversMac(cmdline, opts, hwtype, octets, "\n");
    PxeMacAddressFile(octets, devices[k]);
    BootInterfaceAt(cmdline, devices, PxeMac(octets), k);
  }
}
