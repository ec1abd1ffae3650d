/**
 * The board side (esp8266/main.py): every chunk read from the scale's
 * UART is rendered as text with `str(bytes)`, trimmed, split on `=`, and
 * its value folded into the running maximum; the pair is written back to
 * the UART as `<value>@<max>\n`.  Any exception ends `main` and resets the
 * board, which starts again from its initial state.
 */
module Device {
  import opened Wrappers
  import opened Utf8
  import opened PyText

  const QuoteByte: byte := 0x27        // '
  const DoubleQuoteByte: byte := 0x22  // "
  const BackslashByte: byte := 0x5C
  const EqualsByte: byte := 0x3D
  const CR: byte := 13

  /** A lower-case hexadecimal digit. */
  function HexDigit(n: nat): (c: char)
    requires n < 16
    ensures c != '=' && c != '\\'
  {
    if n < 10 then ('0' as int + n) as char else ('a' as int + n - 10) as char
  }

  /** The quote `repr` uses for bytes: `"` when they hold `'` but no `"`, otherwise `'`. */
  function QuoteFor(bs: seq<byte>): (q: char)
    ensures q == '\'' || q == '"'
  {
    if QuoteByte in bs && DoubleQuoteByte !in bs then '"' else '\''
  }

  /**
   * How `repr` writes one byte between quotes `q`: the quote and the
   * backslash are escaped, printable ASCII stands for itself, newline,
   * carriage return and tab get their short escapes, and every other byte
   * becomes `\xhh`.
   */
  function EscapeByte(b: byte, q: char): (e: string)
    ensures 1 <= |e| <= 4
    ensures Count(e, '=') == if b == EqualsByte then 1 else 0
  {
    if b as int == q as int || b == BackslashByte then ['\\', (b as int) as char]
    else if 0x20 <= b < 0x7F then [(b as int) as char]
    else if b == LF then "\\n"
    else if b == CR then "\\r"
    else if b == 9 then "\\t"
    else ['\\', 'x', HexDigit(b as nat / 16), HexDigit(b as nat % 16)]
  }

  /** The bytes written out one after another. */
  function Escape(bs: seq<byte>, q: char): string {
    if bs == [] then [] else EscapeByte(bs[0], q) + Escape(bs[1..], q)
  }

  /** `str(buf)` for a bytes object: `b`, the quote, the escaped bytes, the quote. */
  function Render(bs: seq<byte>): string {
    var q := QuoteFor(bs);
    ['b', q] + Escape(bs, q) + [q]
  }

  /** `s[:-5]`: all but the last five characters, or nothing when there are fewer. */
  function DropLast5(s: string): string {
    if |s| < 5 then [] else s[..|s| - 5]
  }

  lemma {:induction false} EscapeAppend(a: seq<byte>, b: seq<byte>, q: char)
    ensures Escape(a + b, q) == Escape(a, q) + Escape(b, q)
  {
    if a == [] {
      assert a + b == b;
    } else {
      assert (a + b)[1..] == a[1..] + b;
      EscapeAppend(a[1..], b, q);
    }
  }

  /** Every `=` in the escaped text stands for one `=` byte, and only those do. */
  lemma {:induction false} EscapeEquals(bs: seq<byte>, q: char)
    ensures Count(Escape(bs, q), '=') == Count(bs, EqualsByte)
  {
    if bs != [] {
      EscapeEquals(bs[1..], q);
      var e := EscapeByte(bs[0], q);
      CountAppend(e, Escape(bs[1..], q), '=');
    }
  }

  /**
   * A chunk that ends in the scale's `\r\n` terminator: the five dropped
   * characters are exactly the escaped terminator and the closing quote,
   * so what is split is `b`, the quote and the escaped payload.
   */
  lemma TrimmedFrame(p: seq<byte>)
    ensures QuoteFor(p + [CR, LF]) == QuoteFor(p)
    ensures DropLast5(Render(p + [CR, LF])) == ['b', QuoteFor(p)] + Escape(p, QuoteFor(p))
  {
    var q := QuoteFor(p);
    QuoteIgnoresTerminator(p);
    EscapeAppend(p, [CR, LF], q);
    EscapeTerminator(q);
    TrimTail(['b', q] + Escape(p, q), q);
  }

  lemma QuoteIgnoresTerminator(p: seq<byte>)
    ensures QuoteFor(p + [CR, LF]) == QuoteFor(p)
  {
    assert QuoteByte in p + [CR, LF] <==> QuoteByte in p;
    assert DoubleQuoteByte in p + [CR, LF] <==> DoubleQuoteByte in p;
  }

  lemma EscapeTerminator(q: char)
    requires q == '\'' || q == '"'
    ensures Escape([CR, LF], q) == ['\\', 'r', '\\', 'n']
  {
    assert [CR, LF][1..] == [LF];
    assert Escape([LF], q) == "\\n" + Escape([], q);
  }

  lemma TrimTail(head: string, q: char)
    ensures DropLast5(head + ['\\', 'r', '\\', 'n'] + [q]) == head
  {
    assert (head + ['\\', 'r', '\\', 'n'] + [q])[..|head|] == head;
  }

  /**
   * The `=` signs of the text that is split are the `=` bytes of the
   * payload: the unpack into two names succeeds exactly when the payload
   * holds a single `=`.
   */
  lemma TrimmedEquals(p: seq<byte>)
    ensures Count(DropLast5(Render(p + [CR, LF])), '=') == Count(p, EqualsByte)
  {
    TrimmedFrame(p);
    var q := QuoteFor(p);
    CountAppend(['b', q], Escape(p, q), '=');
    EscapeEquals(p, q);
  }

  /**
   * `_, value = sbuf.split("=")` followed by `float(value)`: the value a
   * received buffer carries, or `None` when either step raises.
   */
  function ReadValue(num: Numerics, bs: seq<byte>): Option<real> {
    var parts := Split(DropLast5(Render(bs)), '=');
    if |parts| != 2 then None else num.parse(parts[1])
  }

  /** A buffer that is not a single `name=value` pair resets the board. */
  lemma ReadValueNeedsOneEquals(num: Numerics, bs: seq<byte>)
    ensures Count(DropLast5(Render(bs)), '=') != 1 ==> ReadValue(num, bs).None?
    ensures forall p :: bs == p + [CR, LF] && Count(p, EqualsByte) != 1 ==> ReadValue(num, bs).None?
  {
    forall p | bs == p + [CR, LF]
      ensures Count(DropLast5(Render(bs)), '=') == Count(p, EqualsByte)
    {
      TrimmedEquals(p);
    }
  }

  /**
   * A frame that the UART hands over in two reads resets the board: the
   * first part `W=1` renders as `b'W=1'`, of which only `b` survives the
   * trim, so the unpack fails.
   */
  lemma PartialFrameReboots(num: Numerics)
    ensures DropLast5(Render([0x57, EqualsByte, 0x31])) == "b"
    ensures ReadValue(num, [0x57, EqualsByte, 0x31]).None?
  {
    var bs: seq<byte> := [0x57, EqualsByte, 0x31];
    assert QuoteFor(bs) == '\'';
    assert Escape(bs, '\'') == "W=1" by {
      assert bs[1..] == [EqualsByte, 0x31] && bs[1..][1..] == [0x31] && bs[1..][1..][1..] == [];
      assert EscapeByte(0x57, '\'') == "W";
      assert EscapeByte(EqualsByte, '\'') == "=";
      assert EscapeByte(0x31, '\'') == "1";
      assert Escape([0x31], '\'') == "1" + Escape([], '\'');
      assert Escape([EqualsByte, 0x31], '\'') == "=" + Escape([0x31], '\'');
    }
    assert Render(bs) == "b'W=1'";
    assert Split("b", '=') == ["b"];
  }

  /** Dropping characters from the end never adds an occurrence. */
  lemma DropLast5Count(s: string, c: char)
    ensures Count(DropLast5(s), c) <= Count(s, c)
  {
    if |s| >= 5 {
      var k := |s| - 5;
      assert s == s[..k] + s[k..];
      CountAppend(s[..k], s[k..], c);
    }
  }

  /** A chunk holding no `=` byte cannot be unpacked, so it resets the board. */
  lemma NoEqualsReboots(num: Numerics, x: seq<byte>)
    requires Count(x, EqualsByte) == 0
    ensures Count(DropLast5(Render(x)), '=') == 0
    ensures ReadValue(num, x).None?
  {
    var q := QuoteFor(x);
    EscapeEquals(x, q);
    CountAppend(['b', q], Escape(x, q), '=');
    CountAppend(['b', q] + Escape(x, q), [q], '=');
    DropLast5Count(Render(x), '=');
  }

  /**
   * A frame with a single `=` that the UART hands over in two reads
   * resets the board: one of the two reads holds no `=` and fails the
   * unpack.
   */
  lemma SplitFrameReboots(num: Numerics, x: seq<byte>, y: seq<byte>)
    requires Count(x + y, EqualsByte) == 1
    ensures ReadValue(num, x).None? || ReadValue(num, y).None?
  {
    CountAppend(x, y, EqualsByte);
    if Count(x, EqualsByte) == 0 {
      NoEqualsReboots(num, x);
    } else {
      NoEqualsReboots(num, y);
    }
  }

  /** Printable ASCII other than the quote and the backslash: what `repr` leaves as it is. */
  predicate Printable(bs: seq<byte>) {
    forall i :: 0 <= i < |bs| ==> 0x20 <= bs[i] < 0x7F && bs[i] != QuoteByte && bs[i] != BackslashByte
  }

  /** Printable ASCII other than the quote, the backslash and `=`. */
  predicate Plain(bs: seq<byte>) {
    Printable(bs) && EqualsByte !in bs
  }

  /**
   * For a payload `name=value` of plain bytes, the value read is
   * `float(value)`.
   */
  lemma ReadPlainFrame(num: Numerics, name: seq<byte>, value: seq<byte>)
    requires Plain(name) && Plain(value)
    ensures ReadValue(num, name + [EqualsByte] + value + [CR, LF]) == num.parse(PlainText(value))
  {
    var a := ['b', '\''] + PlainText(name);
    var b := PlainText(value);
    PlainFrameText(name, value);
    PlainNoEquals(name);
    PlainNoEquals(value);
    SplitTwo(a + ['='] + b, '=', a, b);
  }

  /** What is split for a plain `name=value` frame: `b'`, the name, `=`, the value. */
  lemma PlainFrameText(name: seq<byte>, value: seq<byte>)
    requires Plain(name) && Plain(value)
    ensures DropLast5(Render(name + [EqualsByte] + value + [CR, LF]))
            == ['b', '\''] + PlainText(name) + ['='] + PlainText(value)
  {
    var p := name + [EqualsByte] + value;
    assert QuoteByte !in p by {
      forall i | 0 <= i < |p| ensures p[i] != QuoteByte {
        if i < |name| { assert p[i] == name[i]; }
        else if i > |name| { assert p[i] == value[i - |name| - 1]; }
      }
    }
    TrimmedFrame(p);
    EscapeAppend(name + [EqualsByte], value, '\'');
    EscapeAppend(name, [EqualsByte], '\'');
    PlainEscape(name);
    PlainEscape(value);
    assert Escape([EqualsByte], '\'') == ['='] + Escape([], '\'');
    assert p + [CR, LF] == name + [EqualsByte] + value + [CR, LF];
  }

  /** Bytes read as the ASCII characters they encode. */
  function PlainText(bs: seq<byte>): string {
    seq(|bs|, i requires 0 <= i < |bs| => (bs[i] as int) as char)
  }

  /** Printable bytes stand for themselves between single quotes. */
  lemma {:induction false} PlainEscape(bs: seq<byte>)
    requires Printable(bs)
    ensures Escape(bs, '\'') == PlainText(bs)
  {
    if bs != [] {
      assert Printable(bs[1..]) by {
        forall i | 0 <= i < |bs[1..]| ensures bs[1..][i] == bs[i + 1] { }
      }
      PlainEscape(bs[1..]);
      assert PlainText(bs) == [(bs[0] as int) as char] + PlainText(bs[1..]);
    }
  }

  /** The text of bytes without `=` holds no `=`. */
  lemma PlainNoEquals(bs: seq<byte>)
    requires EqualsByte !in bs
    ensures '=' !in PlainText(bs)
  {
    forall i | 0 <= i < |bs| ensures PlainText(bs)[i] != '=' {
      assert PlainText(bs)[i] as int == bs[i] as int;
    }
  }

  /**
   * `max_grip` after the values `vs` were read, first to last: starting
   * at 0.0, each value at least as large as the maximum so far replaces it.
   */
  function RunningMax(vs: seq<real>): real
    decreases |vs|
  {
    if vs == [] then 0.0
    else
      var m := RunningMax(vs[..|vs| - 1]);
      if vs[|vs| - 1] >= m then vs[|vs| - 1] else m
  }

  /**
   * The running maximum is the maximum of 0.0 and every value read: it
   * bounds them all from above, and it is 0.0 or one of them.
   */
  lemma {:induction false} RunningMaxIsMax(vs: seq<real>)
    ensures RunningMax(vs) >= 0.0
    ensures forall i :: 0 <= i < |vs| ==> vs[i] <= RunningMax(vs)
    ensures RunningMax(vs) == 0.0 || exists i :: 0 <= i < |vs| && vs[i] == RunningMax(vs)
    decreases |vs|
  {
    if vs != [] {
      var init := vs[..|vs| - 1];
      RunningMaxIsMax(init);
      assert forall i :: 0 <= i < |init| ==> vs[i] == init[i];
      if RunningMax(init) != 0.0 && RunningMax(vs) == RunningMax(init) {
        var i :| 0 <= i < |init| && init[i] == RunningMax(init);
        assert vs[i] == RunningMax(vs);
      }
    }
  }

  /** Reading more values never lowers the maximum. */
  lemma {:induction false} RunningMaxMonotone(vs: seq<real>, ws: seq<real>)
    ensures RunningMax(vs) <= RunningMax(vs + ws)
    decreases |ws|
  {
    if ws == [] {
      assert vs + ws == vs;
    } else {
      var init := ws[..|ws| - 1];
      assert (vs + ws)[..|vs + ws| - 1] == vs + init;
      RunningMaxMonotone(vs, init);
      assert RunningMax(vs + ws) >= RunningMax(vs + init);
    }
  }

  /** The line written back to the UART: `"{:.2f}@{:.2f}\n".format(v, max)`. */
  function Report(num: Numerics, v: real, m: real): string {
    num.format(v) + ['@'] + num.format(m) + ['\n']
  }

  /** Two `@`-free fields joined by `@` and closed by `\n` hold one `@`. */
  lemma OneAt(a: string, b: string)
    requires '@' !in a && '@' !in b
    ensures Count(a + ['@'] + b + ['\n'], '@') == 1
  {
    CountAppend(a + ['@'] + b, ['\n'], '@');
    CountAppend(a + ['@'], b, '@');
    CountAppend(a, ['@'], '@');
  }

  /**
   * With formatting that produces wire text, the report holds one `@`,
   * ends in its only newline, and consists of printable ASCII before it.
   */
  lemma ReportShape(num: Numerics, v: real, m: real)
    requires WireSafe(num)
    ensures var r := Report(num, v, m);
            && Count(r, '@') == 1
            && r[|r| - 1] == '\n' && '\n' !in r[..|r| - 1]
            && forall i :: 0 <= i < |r| - 1 ==> ' ' <= r[i] <= '~'
  {
    var a, b := num.format(v), num.format(m);
    var r := Report(num, v, m);
    assert IsWireText(a) && IsWireText(b);
    OneAt(a, b);
    assert r[..|r| - 1] == a + ['@'] + b;
    assert forall i :: 0 <= i < |r| - 1 ==> ' ' <= r[i] <= '~' by {
      forall i | 0 <= i < |r| - 1 ensures ' ' <= r[i] <= '~' {
        if i < |a| { assert r[i] == a[i]; }
        else if i > |a| { assert r[i] == b[i - |a| - 1]; }
      }
    }
  }

  /** What one turn of `while True` in `main` did. */
  datatype Outcome =
    | Idle              // `uart.any()` was false
    | Emitted(line: string)
    | Rebooted          // an exception reached the handler, which reset the board

  /** The locals of `main`, which live until the board resets. */
  class Board {
    const num: Numerics
    var buf: seq<byte>
    var maxGrip: real
    /** Every value read since the last reset, first to last. */
    ghost var values: seq<real>

    /** Nothing is left in the buffer between turns, and `max_grip` is the running maximum. */
    ghost predicate Valid()
      reads this
    {
      buf == [] && maxGrip == RunningMax(values)
    }

    /** The start of `main` after power-up or a reset. */
    constructor (num: Numerics)
      ensures Valid() && this.num == num
      ensures buf == [] && maxGrip == 0.0 && values == []
    {
      this.num := num;
      buf, maxGrip := [], 0.0;
      values := [];
    }

    /**
     * One turn of the loop; `chunk` is what `uart.read()` returned, empty
     * when `uart.any()` was false.
     */
    method Step(chunk: seq<byte>) returns (out: Outcome)
      requires Valid()
      modifies this`buf, this`maxGrip, this`values
      ensures Valid()
      ensures |chunk| == 0 ==> out == Idle && maxGrip == old(maxGrip) && values == old(values)
      ensures |chunk| > 0 && ReadValue(num, chunk).None? ==> out == Rebooted && maxGrip == 0.0 && values == []
      ensures |chunk| > 0 && ReadValue(num, chunk).Some? ==>
                && values == old(values) + [ReadValue(num, chunk).value]
                && out == Emitted(Report(num, ReadValue(num, chunk).value, maxGrip))
                && old(maxGrip) <= maxGrip && ReadValue(num, chunk).value <= maxGrip
    {
      if |chunk| == 0 {
        return Idle;
      }
      buf := buf + chunk;
      assert buf == chunk;
      var sbuf := Render(buf);
      sbuf := DropLast5(sbuf);
      var parts := Split(sbuf, '=');
      if |parts| != 2 {
        out := Reboot();
        return;
      }
      var value := num.parse(parts[1]);
      if value.None? {
        out := Reboot();
        return;
      }
      if value.value >= maxGrip {
        maxGrip := value.value;
      }
      values := values + [value.value];
      assert values[..|values| - 1] == old(values);
      out := Emitted(Report(num, value.value, maxGrip));
      buf := [];
    }

    /** The exception handler: the board resets and `main` starts over. */
    method Reboot() returns (out: Outcome)
      modifies this`buf, this`maxGrip, this`values
      ensures Valid() && out == Rebooted
      ensures buf == [] && maxGrip == 0.0 && values == []
    {
      buf, maxGrip := [], 0.0;
      values := [];
      out := Rebooted;
    }
  }
}
