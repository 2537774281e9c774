# pxenet: finding the PXE boot interface, in Dafny

This project models `util/pxenet.py` from python-netcf. That small tool configures
the network interface a machine booted from. When pxelinux boots with
`IPAPPEND 2`, it appends `BOOTIF=<hwtype>-<mac>` to the kernel command line.
The tool works in two steps:

- `get_boot_hwaddr` reads that option back from `/proc/cmdline`.
- `find_interface` looks in `/sys/class/net` for the interface whose
  `address` file holds that MAC address.

The tool is Python 2, so its inputs are byte strings. Each Dafny `char`
stands for one byte. `str.lower()` and `str.strip()` act on ASCII only, as
they do on byte strings in the C locale that Python 2 starts in.

The model has two modules:

- `PyStr` (`pystr.dfy`) holds the Python operations the tool relies on:
  - the three `re.split` calls, with patterns `' +'`, `'='` (at most one
    split) and `'[^0-9a-f]'`;
  - `lower`, `strip` and `join`.

  Each one is proved against a partner: an inverse, a reference function or a
  characterisation.
- `PxeNet` (`pxenet.dfy`) holds the two operations as functions:
  - `ParseBootIf` for `get_boot_hwaddr`;
  - `FindInterface` for `find_interface`;
  - `BootInterface` for the first two steps of the script, chained together.

  It also holds the lemmas about what the operations return and when they
  fail.

The file reads are inputs. The contents of `/proc/cmdline` is a string. The
listing of `/sys/class/net` is a sequence of `NetDevice(name, address)`
values, where `address` is the raw contents of the entry's `address` file.
The sequence is in listing order.

## Model

| member | source | states |
|---|---|---|
| `PyStr.SplitSpaces` | util/pxenet.py:34 | The options never contain a space. There is always at least one option. Only the first option (after a leading space) and the last (after a trailing space) can be empty. |
| `PyStr.JoinSplitSpaces` | util/pxenet.py:34 | Joining the options back with single spaces gives the command line with each run of spaces collapsed to one space. Nothing else is lost, so tabs and newlines stay inside the options. |
| `PyStr.SplitJoinSpaces` | util/pxenet.py:34 | Splitting on runs of spaces undoes joining with single spaces, for every option list of the shape the split produces. |
| `PyStr.SplitSpacesSingle` | util/pxenet.py:34 | A string is a single option exactly when it contains no space. Tabs and newlines do not separate options. |
| `PyStr.SplitFirst` | util/pxenet.py:35-38 | With no `=`, the result is the whole option as its only part, so the option is skipped. Otherwise there are two parts: a key with no `=`, and the rest. Key + `=` + rest gives back the option, so the value may contain more `=`. |
| `PxeNet.BootIfValue` | util/pxenet.py:35-41 | An option yields a value exactly when it starts with `BOOTIF=` (key exactly `BOOTIF`, case-sensitive). The value is everything after the first `=`. |
| `PxeNet.KeyOfBootIf` | util/pxenet.py:35-40 | Splitting at the first `=` gives exactly the key `BOOTIF` if and only if the option starts with `BOOTIF=`. |
| `PxeNet.FirstBootIf` | util/pxenet.py:34-44 | It finds nothing exactly when no option is a BOOTIF option. Otherwise the value comes from the first BOOTIF option: every option before it is not one. |
| `PxeNet.FirstBootIfDecides` | util/pxenet.py:40-44 | Once a BOOTIF option has been found, options after it do not change the result. |
| `PyStr.Lower` | util/pxenet.py:43 | The result has the same length and no ASCII capital letters. Other bytes are unchanged, and each capital becomes its small letter. |
| `PyStr.LowerCharHex` | util/pxenet.py:43 | After lowering, a byte is in `[0-9a-f]` exactly when it was a hex digit of either case. |
| `PyStr.SplitNonHex` | util/pxenet.py:43 | There is one more field than there are bytes outside `[0-9a-f]`. Every field holds only `[0-9a-f]`. |
| `PyStr.JoinSplitNonHex` | util/pxenet.py:43 | Joining the fields with any byte puts that byte where each separator stood. The split loses nothing else. |
| `PyStr.SplitJoinNonHex` | util/pxenet.py:43 | Splitting undoes joining `[0-9a-f]` fields with any byte outside that class. |
| `PyStr.SplitNonHexSuffix` | util/pxenet.py:43 | A separator at the end of the string (such as a newline) adds one empty final field. |
| `PxeNet.LastFields` | util/pxenet.py:44 | `mac[-6:]` keeps the last `min(6, n)` fields, in order. |
| `PyStr.Join` | util/pxenet.py:44 | `':'.join(...)`. The first field starts the result. `JoinCount` and `JoinSnoc` fix the rest. |
| `PyStr.JoinCount` | util/pxenet.py:44 | Joining fields that contain no separator gives exactly one separator fewer than there are fields. Every other byte comes from a field. |
| `PyStr.JoinSnoc` | util/pxenet.py:44 | Joining one more field appends a separator and then that field. |
| `PxeNet.FormatMac` | util/pxenet.py:43-44 | The MAC built from any option value contains only `[0-9a-f:]`. |
| `PxeNet.FormatMacShape` | util/pxenet.py:43-44 | The MAC has exactly `min(6, n) - 1` colons, where `n` is the number of bytes outside `[0-9a-f]` in the lowered value, plus one. |
| `PxeNet.ParseBootIf` | util/pxenet.py:29-46 | `get_boot_hwaddr` as written. It fails with the BOOTIF-not-found error exactly when no option starts with `BOOTIF=`. Otherwise the MAC is built from the first such option's value. |
| `PxeNet.ParseBootIfShape` | util/pxenet.py:43-44 | Any MAC the parser returns contains only `[0-9a-f:]` and has at most five colons. |
| `PxeNet.BootIfLast` | util/pxenet.py:34-44 | Take options that are non-empty, contain no space and are not BOOTIF options, followed by a BOOTIF option. Joined with spaces, both parsers use that last option's value. |
| `PxeNet.FormatMacNewline` | util/pxenet.py:43-44 | A pxelinux value followed by a newline gives the last five octets and then an empty field. |
| `PxeNet.TrailingNewlineDropsOctet` | util/pxenet.py:33-44 | Finding, as written: when the command line is space-separated options that end `BOOTIF=<pxelinux value>\n`, the result drops the first octet and ends in `:`. It is never the MAC of the value. |
| `PxeNet.ParseBootIfTrimmed` | util/pxenet.py:43-44 | The corrected parser, which strips the option value before building the MAC. It fails exactly when the as-written parser fails, and otherwise uses the same first BOOTIF option. |
| `PxeNet.FormatMacStripped` | util/pxenet.py:43-44 | A pxelinux value with any whitespace after it gives exactly its six octets, lower-cased, once the whitespace is stripped. |
| `PxeNet.TrimmedParseRecoversMac` | util/pxenet.py:43-44 | Corrected: for a command line that ends with `BOOTIF=<pxelinux value>` and any whitespace that is not a space, the result is the MAC of the value. |
| `PyStr.Strip` | util/pxenet.py:24 | The result is no longer than the input. It neither starts nor ends with whitespace. |
| `PyStr.StripUnpadded` | util/pxenet.py:24 | The input is some whitespace, then the result, then some more whitespace. |
| `PyStr.StripPadded` | util/pxenet.py:24 | Stripping gives back any string whose ends are not whitespace, whatever whitespace surrounds it. |
| `PyStr.StripIdempotent` | util/pxenet.py:24 | Stripping twice is the same as stripping once. |
| `PxeNet.AddressFileMatches` | util/pxenet.py:23-24 | An address file that holds the MAC and then a newline, as sysfs writes it, matches that MAC. |
| `PxeNet.FindInterface` | util/pxenet.py:18-27 | It fails with the interface-not-found error, carrying the MAC, exactly when no entry's stripped address equals the MAC. Otherwise it returns the name of the first entry, in listing order, whose stripped address equals the MAC. |
| `PxeNet.Message` | util/pxenet.py:27 | The texts raised on lines 27 and 46. The text of the BOOTIF error starts with `/`. The text of the interface error starts with `i` and carries the MAC between a fixed prefix and a fixed suffix. |
| `PxeNet.MessageIdentifies` | util/pxenet.py:46 | Two errors have the same text exactly when they are the same error, with the same MAC. |
| `PxeNet.FindInterfaceDecides` | util/pxenet.py:22-25 | Entries listed after the first match do not change the result. |
| `PxeNet.BootInterface` | util/pxenet.py:49-50 | On success, the MAC is the corrected parse of the command line, and the name is that of the first entry whose address matches it. It fails exactly when the parse fails or no entry has that MAC. The error is passed through: BOOTIF-not-found from the parse, or interface-not-found carrying the MAC from the search. |
| `PxeNet.PxelinuxBootInterface` | util/pxenet.py:49-50 | Take a command line of space-separated options that ends `BOOTIF=<pxelinux value>\n`, and an entry whose address file holds that MAC followed by a newline. The result is that MAC, with the name of the first matching entry, at that entry or before it. |

## Findings

| source | as written | input that shows it | evidently intended | confidence | as-written member | corrected member |
|---|---|---|---|---|---|---|
| util/pxenet.py:33-44 | `/proc/cmdline` ends in a newline, and pxelinux appends `BOOTIF=` as the last option. The option value therefore keeps the newline, and `re.split('[^0-9a-f]', ...)` turns it into an empty eighth field. `mac[-6:]` then keeps octets 2-6 and that empty field. | `/proc/cmdline` = `initrd=initrd.img BOOTIF=01-00-11-22-33-44-55\n` gives `11:22:33:44:55:` | `00:11:22:33:44:55`, the address that `find_interface` can match | high; not executed | `PxeNet.ParseBootIf` (`PxeNet.TrailingNewlineDropsOctet`) | `PxeNet.ParseBootIfTrimmed` (`PxeNet.TrimmedParseRecoversMac`) |

## Left out

- `PxeNet.BootInterface`: it chains the corrected `ParseBootIfTrimmed` into `FindInterface`. Line 49 of the script calls the as-written parse, which `PxeNet.ParseBootIf` models (see Findings).
- File system access: `os.listdir('/sys/class/net')` (line 22) and the two `open(...).read()` calls (lines 23 and 33). The model takes the file contents and the listing as inputs. The order of the listing is whatever order the caller gives. An entry with no readable `address` file (line 23's `open` raising `IOError`, which ends the search before any later match) is not modelled: every `NetDevice` has contents.
- The rest of the `__main__` block (lines 51-65). It prints, fills in an XML interface template and calls `NetCF().define(...).up()` in the native netcf library. That is output and foreign side effects.
- Exceptions: the tool raises a plain `Exception`. The model returns `Err` with one of two `Error` values, and `Message` gives the exception's text.
- `re.split`, `str.lower`, `str.strip` and `str.join` are modelled only for the arguments the tool passes them, not in general.
- The native netcf bindings (`netcf/wrapper.py`, `python-netcf/netcf/wrapper.py`, `python-netcf/netcf/native.py`) and `setup.py`. These files are calls into a foreign library whose behaviour is not visible here, plus a ctypes declaration table and packaging metadata.
