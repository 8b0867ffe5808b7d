# BLE sniffer console script: selection, address rendering and the status loop

`sniffer.py` drives an external Bluetooth Low Energy sniffer over a serial port. It scans for
devices, lets the user pick one by number, tells the sniffer to follow it, and then runs a
polling loop that prints connection and packet statistics until the capture pipe closes.
Almost all of that is I/O and calls into the `SnifferAPI` and `PcapPipe` libraries. This
project models the three pieces of decision and bookkeeping logic in the script, with the
library calls turned into inputs:

- **Device selection** (`selectDevice`), module `DeviceSelection` in `selection.dfy`. The
  devices are listed and numbered from 1 in list order, with `count` incremented per device.
  Then the user's reply, already parsed, either selects the device listed under that number or
  selects nothing. Selecting nothing means "scan again". The parsed reply is an
  `Option<int>`. `None` stands for anything the bare `except:` around the prompt catches. That
  is a reply that Python's `int(...)` rejects, and also end of input or Ctrl-C at the prompt
  (`EOFError`, `KeyboardInterrupt`). All of these mean "scan again", not an exit. An empty
  list asks for no reply and yields `None`.
- **Address rendering**, module `HexAddress` in `address.dfy`. The script prints a hardware
  address as its first six bytes, each `"%02X"`, joined by `:`. This happens in the device
  listing and in the "Attempting to follow device" line. The model proves the shape of the
  rendering: 17 characters, colons at positions 2, 5, 8, 11 and 14, upper-case hex digits
  elsewhere. It also gives a parser and proves round trips in both directions.
- **The statistics loop** (`loop`), module `StatusLoop` in `status_loop.dfy`. It is a
  `while` loop over a trace of polls. Each poll holds the answer to the pipe's open check, the
  size of the batch `getPackets()` drains, `inConnection` and `missedPackets`. `Loop` updates
  `nLoops`, `nPackets` and `connected` as the script does and collects the status records it
  would print. Two things specify it: the one-tick function `Step` iterated by `Run`, and a
  closed form (`Total`, `PreviousFlag`, `EmitsAt`, `Emissions`) that does not refer to the
  loop's own bookkeeping. `RunClosedForm` proves the two agree.

Inputs and external state:
- The serial port, the sleeps, the scan, and the console prompt are not modelled. The
  prompt's answer is a parameter.
- The pipe's `isOpen()` and the sniffer's `getPackets()`, `inConnection` and `missedPackets` are
  fields of a `Poll`.
- `DeviceList` is not part of this model. The device list is a `seq<Device>`, and
  `devlist.find(i - 1)` is taken to return the element at index `i - 1` of `asList()`.

Three behaviours of the code that are easy to misread:
- With an empty list, `selectDevice` prints nothing and asks for no reply. It then returns
  `None` without reaching a `return`.
- The emission test compares `inConnection` with the last *recorded* flag, not with the
  previous tick's flag. `RunClosedForm` shows the two are the same. After every tick the
  recorded flag equals that tick's `inConnection`: when a tick does not emit, its emission
  test has just found the two equal.
- `loop()` only counts each drained batch and forwards nothing. A library callback forwards
  the packets.

## Model

| member | source | states |
|---|---|---|
| `HexAddress.Digit` | sniffer.py:76 | a value below sixteen becomes one upper-case hex digit, a decimal digit exactly when the value is below ten |
| `HexAddress.DigitValue` | sniffer.py:76 | an upper-case hex digit has a value below sixteen, below ten exactly for decimal digits |
| `HexAddress.FormatByte` | sniffer.py:76 | `"%02X" % b` for a byte is exactly two upper-case hex digits whose hexadecimal value is `b` |
| `HexAddress.ParseByte` | sniffer.py:76 | a two-character group is accepted exactly when both characters are upper-case hex digits |
| `HexAddress.ByteRoundTrip` | sniffer.py:76 | reading a formatted byte gives the byte back, and every accepted group is the formatting of what it reads as |
| `HexAddress.Join` | sniffer.py:75-82 | joining n groups gives 3n-1 characters, with `:` exactly at positions 2 mod 3, hex digits elsewhere, and group k at characters 3k and 3k+1 |
| `HexAddress.Split` | sniffer.py:75-82 | a string that splits into n groups has 3n-1 characters |
| `HexAddress.JoinThenSplit` | sniffer.py:75-82 | splitting the joined groups gives back the bytes that were joined |
| `HexAddress.SplitThenJoin` | sniffer.py:75-82 | every string that splits is exactly the join of the bytes it splits into |
| `HexAddress.FormatAddress` | sniffer.py:163-168 | the printed address is 17 characters, with `:` exactly at positions 2, 5, 8, 11 and 14, upper-case hex digits elsewhere, and group k equal to `"%02X" % address[k]` for k = 0..5 |
| `HexAddress.ParseAddress` | sniffer.py:163-168 | a parsed address has exactly six bytes |
| `HexAddress.FormatThenParse` | sniffer.py:163-168 | parsing a printed address gives back its first six bytes |
| `HexAddress.ParseThenFormat` | sniffer.py:163-168 | every string that parses is the printed form of the address it parses to |
| `HexAddress.DigitRoundTrip` | sniffer.py:76 | a digit and its value convert into each other |
| `DeviceSelection.EntryFor` | sniffer.py:75-82 | a listing line carries the number given, the device's name and RSSI, and an address text that parses back to the device's first six address bytes |
| `DeviceSelection.Choose` | sniffer.py:83-94 | something is selected if and only if the reply parsed and lies in 1..n, and then it is the device at index reply-1. So `0`, other numbers outside 1..n, and an unparsable reply select nothing |
| `DeviceSelection.SelectDevice` | sniffer.py:59-94 | devices are listed in order, numbered 1..n, and `count` ends equal to n. A reply is asked for exactly when the list is non-empty. A device is selected exactly when the reply parsed and lies in 1..n, and it is then the device at index reply-1, the one shown on the listing line numbered reply |
| `DeviceSelection.TwoDeviceCatalogue` | sniffer.py:84-94 | with two devices, reply `2` selects the second, while `5` and an unparsable reply select nothing |
| `StatusLoop.Step` | sniffer.py:105-111 | one tick counts itself and adds its batch to the total. It appends at most one record and keeps the earlier ones. Afterwards the recorded flag is that tick's `inConnection`, whether or not the tick emitted |
| `StatusLoop.Run` | sniffer.py:102-111 | after k ticks the tick counter is k, at most k records exist, and the recorded flag is the k-th tick's flag (false before the first tick) |
| `StatusLoop.OpenTicks` | sniffer.py:102 | the number of completed ticks is the number of polls before the first closed one: all of them open, and the next one closed unless the trace ended |
| `StatusLoop.Loop` | sniffer.py:96-112 | the loop stops at the first closed check, or when the trace ends (an interrupt). `nLoops` equals the number of completed ticks. Its state equals `Run` over those ticks and also the closed form: `nPackets` is the sum of the drained batches, `connected` is the latest tick's flag, and the records are exactly those of the emitting ticks |
| `StatusLoop.RunClosedForm` | sniffer.py:99-111 | after k ticks, `nLoops` is k and `nPackets` is the sum of the first k batches. `connected` is the k-th tick's flag, or false before any tick. The records are those of the ticks whose flag differs from the previous tick's or whose number is a multiple of 20 |
| `StatusLoop.EmissionRule` | sniffer.py:109-111 | tick k+1 appends one record exactly when its `inConnection` differs from the recorded `connected` or k+1 is a multiple of 20. The record carries that flag, the new cumulative total and that tick's `missedPackets`. Otherwise the records are unchanged |
| `StatusLoop.ConnectedIsLastEmitted` | sniffer.py:101-110 | the recorded `connected` is the flag of the last emitted record, or false if none has been emitted |
| `StatusLoop.EmittedGrows` | sniffer.py:109-111 | records are only appended: an earlier record list is a prefix of every later one |
| `StatusLoop.StatusAtLeastEveryPeriod` | sniffer.py:109 | any 20 consecutive ticks emit at least one record |
| `StatusLoop.RunReadsPrefix` | sniffer.py:102-107 | the state after k ticks depends only on the first k polls |
| `StatusLoop.StopsAtFirstClosed` | sniffer.py:102-107 | two traces that agree before the first closed check, and are both closed there, give the same tick count and final state. Nothing in the closed poll or after it, its batch included, is drained |
| `StatusLoop.QuietTicks` | sniffer.py:109 | ticks that do not meet the emission condition add no record |
| `StatusLoop.ThreeBatches` | sniffer.py:105-107 | three open ticks draining 3, 0 and 5 packets, then a closed check: three ticks, and 8 packets counted |
| `StatusLoop.TwentyFiveTicks` | sniffer.py:102-111 | 25 open ticks without a connection, then a closed check: the loop stops after 25 ticks, with one periodic record at tick 20 and none after |

## Left out

- Serial setup, the settle and scan delays, the scan itself, and the firmware-version print
  (sniffer.py:24-56, sniffer.py:144-149). These are I/O and calls into the sniffer library.
- The scan-and-select retry loop of the main program (sniffer.py:152-160). It repeats the
  scan, which is I/O, until `selectDevice` returns a device.
- Pipe creation, removal of an old pipe file, the packet subscription, `follow`, and the Wireshark hint
  (sniffer.py:170-185). Packets are forwarded by a library callback, not by `loop()`, so the
  model makes no claim about forwarding order or write failures.
- Python's `int()` parsing of the reply: whitespace, signs and bases. The reply arrives
  as an optional integer.
- Argument parsing, logging set-up, `time.sleep(0.1)`, and the `KeyboardInterrupt` clean-up
  through `doExit`, `close` and `sys.exit` (sniffer.py:118-141, sniffer.py:190-199). In `Loop`,
  a trace that ends while the pipe is still open stands for an interrupt between ticks.
- Console rendering. Listing lines are `Entry` records and status lines are `Status`
  records; the decimal printing of numbers, `\r` and the flush are not modelled.
- `Loop`: takes one reading of `inConnection` and `missedPackets` per tick. The script reads
  `inConnection` up to three times per tick (sniffer.py:109-111), and the flag could change
  between the reads.
- `HexAddress.FormatByte`: covers only values 0..255, because a hardware-address byte is in that
  range. `"%02X"` prints more digits for a larger integer and a sign for a negative one. The
  `Address` type also excludes addresses with fewer than six entries. For those the script would
  raise an uncaught `IndexError` at sniffer.py:76-81.
