# grip-tracker, modelled in Dafny

grip-tracker shows live hand-grip strength from a digital scale:

- An ESP8266 board (`esp8266/main.py`) reads the scale's frames from its UART. For each frame it:
  - renders the frame with `str(bytes)`;
  - drops the last five characters;
  - splits the rest on `=`;
  - folds the value into a running maximum;
  - writes `<value>@<max>\n` back over the serial link.
- A Raspberry Pi server (`pi/grip_server.py`) reads that link in a background thread. It does the following:
  - reassembles `\n`-terminated lines from whatever chunks the port delivers;
  - parses each line as `current@max`;
  - publishes the latest pair through `/data`;
  - keeps the current user and side set by the `setmeta` form.
- A helper script (`scripts/qr-helper.py`) turns a text picture of a QR code into rows of `0`/`1`.

The project models these three pieces and the link between them.

| file | module | what it holds |
|---|---|---|
| `wrappers.dfy` | `Wrappers` | `Option` |
| `utf8.dfy` | `Utf8` | Bytes. Strict UTF-8 encoding (`str.encode`) and decoding (`bytes.decode`), with their round trip. |
| `pytext.dfy` | `PyText` | The Python `str` operations the code uses: `strip()`, `rstrip("\n")`, `in` and `split`. `Count` is a helper of the model, used to state the `@` and `=` conditions. Also `float()` and `"{:.2f}"`, passed in as a parameter `Numerics`, and `WireSafe`, which states what the protocol needs of them. |
| `frames.dfy` | `Frames` | The host's line reassembly (`Reframe`): byte conservation, uniqueness, and chunking invariance. |
| `grip_server.dfy` | `GripServer` | The reading parser (`Interpret`) and class `Server`: the reader loop (`Poll`), `setmeta` and `/data`. |
| `device.dfy` | `Device` | `str(bytes)` (`Render`), the trim, the `=` split and the value read (`ReadValue`), the running maximum (`RunningMax`), the report line, and class `Board` with one loop turn (`Step`) and the reset. |
| `protocol.dfy` | `Protocol` | The board's reports as the host reads them, end to end. |
| `qr_helper.dfy` | `QrHelper` | The row encoder (`Row`), the line filter, and the loop that builds the rows (`BuildRows`). |

The host's state is summed up by one invariant, `Server.Valid`:
- The buffer is the unterminated tail of every byte received.
- The ghost list of handled lines is the list of complete lines of every byte received.
- The two readings are the effect of those lines.

So the way the port split the stream into reads cannot be observed. `Frames.FeedAnyChunking` proves this for any split.

The board's invariant, `Board.Valid`:
- The buffer is empty between loop turns.
- `max_grip` is the running maximum of every value read since the last reset.

## Model

| member | source | states |
|---|---|---|
| Utf8.EncodeChar | pi/grip_server.py:32 | The UTF-8 form of one character is one to four bytes. It is a single byte, equal to the code point, exactly for ASCII. Otherwise every byte is at least 0x80. |
| Utf8.Decode | pi/grip_server.py:32 | `bytes.decode()` either fails (`None`) or yields no more characters than there were bytes. |
| Utf8.DecodeEncode | pi/grip_server.py:32 | Decoding the UTF-8 encoding of any text gives the text back. |
| Utf8.DecodeCharSound | pi/grip_server.py:32 | A byte sequence that decodes to one character is exactly the UTF-8 encoding of that character: overlong forms, surrogates, values past U+10FFFF and stray continuation bytes are all refused. |
| Utf8.DecodeSound | pi/grip_server.py:32 | Whenever `bytes.decode()` succeeds, the bytes are the UTF-8 encoding of the text it returns. |
| Utf8.DecodeIff | pi/grip_server.py:32 | `bytes.decode()` returns `s` if and only if the bytes are the UTF-8 encoding of `s`. Every other byte string raises. |
| Utf8.EncodeAppend | esp8266/main.py:63 | Encoding distributes over concatenation. |
| Utf8.EncodeLF | pi/grip_server.py:29 | Encoded text holds a `\n` byte exactly when the text holds `\n`. |
| Utf8.EncodeAscii | esp8266/main.py:63 | ASCII text encodes byte for byte. |
| PyText.LStripSpec | pi/grip_server.py:32 | `lstrip()` removes a whitespace prefix, and exactly the longest one. The result starts with a non-space character or is empty. |
| PyText.RStripSpec | pi/grip_server.py:32 | `rstrip()` removes a whitespace suffix, and exactly the longest one. |
| PyText.StripEmpty | pi/grip_server.py:164 | `strip()` gives the empty string exactly when every character is whitespace. |
| PyText.StripUntrimmed | pi/grip_server.py:32 | Text that neither starts nor ends with whitespace is left alone by `strip()`. |
| PyText.RStripNewlines | scripts/qr-helper.py:4 | `rstrip("\n")` gives a prefix that does not end in `\n`, and every character it drops is `\n`. |
| PyText.Count | pi/grip_server.py:33 | The number of occurrences is at most the length, and it is 0 exactly when the character is absent, which is the `"@" not in data` test. |
| PyText.IndexOf | pi/grip_server.py:30 | The first occurrence: the element is there and not before it. This is where `buf.split(b'\n', 1)` cuts, and where the one-separator split of a field pair falls. |
| PyText.Split | pi/grip_server.py:35 | `split(sep)` gives one piece more than there are separators. No piece holds the separator, and joining the pieces with it gives the text back. |
| PyText.SplitTwo | pi/grip_server.py:35 | `cur, m = data.split("@")` unpacks exactly when `data` is `cur + "@" + m` with no `@` in either half (both directions). |
| Frames.ReframeConserves | pi/grip_server.py:28-30 | Byte conservation: the peeled lines, each followed by `\n`, and then the tail spell out the buffer. No line and not the tail holds `\n`. |
| Frames.ReframeUnique | pi/grip_server.py:29-30 | The loop's cut is the only cut into terminator-free lines and a terminator-free tail. |
| Frames.PeelStep | pi/grip_server.py:29-30 | One turn of `while b'\n' in buf` keeps conservation: the handled lines with their terminators, then the pending bytes, still spell out the starting buffer. |
| Frames.ReframeAppend | pi/grip_server.py:27-30 | Reading `a` and then `b` gives the same lines and tail as reading `a + b` at once. |
| Frames.FeedAnyChunking | pi/grip_server.py:25-30 | Split-point invariance: for any cutting of the stream into reads, the lines (in order) and the final tail are those of the whole stream. |
| GripServer.ApplyLinesAppend | pi/grip_server.py:29-39 | Handling `a` and then `b` is handling `a + b`. |
| GripServer.LineRejected | pi/grip_server.py:32-39 | These lines leave both readings unchanged: an undecodable line; a line whose stripped text has no `@`; one with two or more `@`; one whose first field `float()` rejects. |
| GripServer.LineAccepted | pi/grip_server.py:35-39 | For `C@M` with `C` numeric, `latest_grip` becomes `C`. `max_grip` becomes `M` (copied, so it may go down) when `M` is numeric, and otherwise keeps its value. |
| GripServer.LinesDrained | pi/grip_server.py:29-30 | When no terminator is left, the handled lines are exactly the buffer's lines. The history again matches one read of all bytes. |
| GripServer.Server.constructor | pi/grip_server.py:16-19 | The initial state: readings 0.0, user `guest`, side `right`, empty buffer. |
| GripServer.Server.HandleLine | pi/grip_server.py:31-39 | The `try` body for one line: the readings become `Apply(old readings, Interpret(line))`. |
| GripServer.Server.Poll | pi/grip_server.py:27-30 | One turn of `serial_reader`. Afterwards the buffer is the tail of old buffer + chunk, and every complete line has been handled in order. `Valid` is kept. No bytes waiting changes nothing. |
| GripServer.Server.HandleLines | pi/grip_server.py:29-39 | The inner loop handles exactly the buffer's complete lines, in order, and leaves the buffer's tail. |
| GripServer.Server.SetMeta | pi/grip_server.py:163-165 | The user is the stripped name, or `guest` when it is blank. The side is stored verbatim. The readings are untouched, and the reader invariant `Valid` is kept. |
| GripServer.Server.Data | pi/grip_server.py:171-174 | Returns exactly `latest_grip` and `max_grip`, changes nothing, and equals the effect of every complete line received. |
| Device.EscapeByte | esp8266/main.py:54 | Each byte renders as one to four characters. It contributes one `=` exactly when it is the byte `=`. |
| Device.EscapeEquals | esp8266/main.py:54-57 | The `=` signs of the rendered bytes are the `=` bytes. |
| Device.TrimmedFrame | esp8266/main.py:56 | For a chunk ending in `\r\n`, the five characters dropped are the escaped `\r\n` and the closing quote. |
| Device.TrimTail | esp8266/main.py:56 | `[:-5]` removes exactly the escaped `\r\n` and the closing quote, leaving the text before them. |
| Device.TrimmedEquals | esp8266/main.py:54-57 | The split text holds as many `=` as the frame's payload holds `=` bytes. |
| Device.ReadValueNeedsOneEquals | esp8266/main.py:54-57 | Unless the trimmed text holds exactly one `=`, the unpack raises and the board resets. For a `\r\n` frame this is a payload without exactly one `=`. |
| Device.PartialFrameReboots | esp8266/main.py:53-57 | A worked instance: the frame `W=1` read as `W=1` and then `\r\n` resets the board, because the first read trims to `b` and the unpack fails. |
| Device.NoEqualsReboots | esp8266/main.py:54-57 | A read holding no `=` byte leaves no `=` in the trimmed text, so the unpack raises and the board resets. |
| Device.SplitFrameReboots | esp8266/main.py:53-57 | Any frame with a single `=` that arrives over two reads resets the board: one of the two reads fails the unpack. |
| Device.ReadPlainFrame | esp8266/main.py:54-59 | For a payload `name=value` whose bytes are printable ASCII other than the quote, the backslash and `=`, the value read is `float(value)`. |
| Device.PlainEscape | esp8266/main.py:54 | Printable bytes other than the quote and the backslash, `=` included, render between single quotes as themselves. |
| Device.PlainNoEquals | esp8266/main.py:57 | Bytes without `=` give text without `=`, so the split of a plain frame sees only the separator. |
| Device.RunningMaxIsMax | esp8266/main.py:47-60 | `max_grip` is at least 0.0 and at least every value read, and it is 0.0 or one of them: the maximum of 0.0 and the values. |
| Device.RunningMaxMonotone | esp8266/main.py:59-60 | Reading more values never lowers `max_grip`. |
| Device.ReportShape | esp8266/main.py:63 | The report has exactly one `@` and ends in its only `\n`. Before that it is printable ASCII. |
| Device.Board.constructor | esp8266/main.py:45-47 | `main` starts with an empty buffer and `max_grip` 0.0. |
| Device.Board.Step | esp8266/main.py:51-66 | No UART data: nothing changes. A chunk whose trimmed text does not split into two or whose value `float()` rejects: reset to the initial state, nothing written. Otherwise the value is folded into `max_grip`, which does not go down and is at least the value; the report uses the updated maximum; the buffer is empty again. |
| Device.Board.Reboot | esp8266/main.py:69-76 | The exception path: the board resets and `main` starts from its initial state. |
| Protocol.ReportOnWire | esp8266/main.py:63 | On the wire, a report is a `\n`-free body followed by a single `\n`. |
| Protocol.HostParsesBody | pi/grip_server.py:32-37 | The host reads a report body as the reading `(float(fmt v), float(fmt max))`. |
| Protocol.HostAcceptsReport | pi/grip_server.py:28-37 | A report reaches the host as one complete line and leaves nothing buffered. It sets both readings to the numbers it carries. |
| Protocol.WireFrames | pi/grip_server.py:28-30 | A run of reports is a run of terminator-free lines, each followed by `\n`. |
| Protocol.HostReadsBodies | pi/grip_server.py:26-30 | However the serial link cuts the reports into reads, the host peels off exactly one line per report, each the report's body, and keeps nothing buffered. |
| Protocol.HostFollowsBoard | pi/grip_server.py:25-37 | End to end, for any cutting of the board's reports into reads: one line per report, empty tail, and readings equal to the last report. |
| QrHelper.Row | scripts/qr-helper.py:7 | Same length as the line. Character `i` is `1` exactly when input character `i` is `#`. Only `0`/`1`. |
| QrHelper.BlankIffAllSpace | scripts/qr-helper.py:4-6 | A line is skipped exactly when it is all whitespace. |
| QrHelper.BuildRows | scripts/qr-helper.py:1-8 | The loop builds exactly `Rows(lines)`. |
| QrHelper.RowsAppend | scripts/qr-helper.py:3-8 | Rows keep the order of their lines: more lines only append rows. |
| QrHelper.RowsOfLine | scripts/qr-helper.py:4-8 | One line gives no row when blank, and otherwise exactly its encoding. |
| QrHelper.RowsCount | scripts/qr-helper.py:3-8 | There is one row per non-blank line. |
| QrHelper.RowsFromLines | scripts/qr-helper.py:3-8 | Every row is the encoding of some non-blank line. |
| QrHelper.RowsAreBits | scripts/qr-helper.py:7 | Every character of every row is `0` or `1`. |

## Left out

- The conversions are parameters, not models. `float()` and `"{:.2f}"` are the two fields of `Numerics`. Float rounding, NaN and infinities are not modelled. The protocol lemmas assume only `WireSafe`: formatted numbers are non-empty printable ASCII without blanks or `@`, and `float()` accepts them. Number round trips are not claimed.
- Opening the serial port and its `sys.exit` (pi/grip_server.py:10-13), the thread start (pi/grip_server.py:42) and the 20 ms and 10 ms sleeps are left out. The reader is a step method whose chunk is what `SER.read(SER.in_waiting)` returned. An empty chunk stands for nothing waiting.
- The reader thread and the Flask handlers race on the module globals in the code. The model runs them as sequential method calls on one `Server`.
- InfluxDB and `write_max`, the `savemax` branch, Flask routing, redirects, the HTML page and `pi/static/app.js` are left out: foreign calls and UI.
- On the board, these are hardware I/O and are left out: I²C scanning, the LCD and OLED, the QR display, `uos.dupterm`, `lcd_update` and `reset()`. A reset is the `Rebooted` outcome plus a return to the initial state. Boot output written to the UART after the reset is not modelled.
- `qr-helper.py` reads a file and prints the rows (lines 2 and 10-13). The model takes the file's lines as a sequence and returns the rows.
- Exceptions other than `ValueError` (host) are not modelled, nor exceptions raised by the hardware drivers (board). On the board, every error the model knows of (a failed unpack, a rejected `float()`) takes the reset path.
- The code lacks some behaviour that might be expected, and the model follows the code:
  - the host copies `max_grip` from each line instead of keeping its own maximum, so the value it shows can go down;
  - nothing resets a session when the side changes;
  - the host's tail buffer is unbounded;
  - the host never drives the board's reset pin; the board only calls `reset()` on itself after an exception.
- `str(bytes)` is modelled as CPython and MicroPython write a bytes `repr`:
  - the quote is `'`, or `"` when the bytes hold `'` but no `"`;
  - `\\`, the quote, `\n`, `\r` and `\t` are escaped;
  - other non-printable bytes become `\xhh`.
  The scale's frame format is not part of this model. The lemmas about it are stated for any payload followed by `\r\n`.
