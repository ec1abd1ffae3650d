/**
 * The host side (pi/grip_server.py): the reading parser applied to each
 * line the frame decoder peels off, the module-level live state it writes,
 * and the two request handlers that touch that state (`setmeta` and
 * `/data`).  The background reader thread and the handlers are modelled as
 * sequential operations on one object.
 */
module GripServer {
  import opened Wrappers
  import opened Utf8
  import opened PyText
  import opened Frames

  /** The pair `latest_grip`, `max_grip`. */
  datatype Grips = Grips(latest: real, max: real)

  /** Why a line left the readings alone. */
  datatype Reject =
    | Undecodable      // `line.decode()` raised
    | NoSeparator      // no `@`: the loop `continue`s
    | SplitMismatch    // two or more `@`: unpacking the split raised
    | BadCurrent       // `float(cur)` raised

  /** What one line does to the readings. */
  datatype LineEffect =
    | Ignored(why: Reject)
    | CurrentOnly(current: real)        // `float(m)` raised after `latest_grip` was written
    | Reading(current: real, max: real)

  /** The reading parser: decode, strip, split on `@`, convert both fields. */
  function Interpret(num: Numerics, line: seq<byte>): LineEffect {
    match Decode(line)
    case None => Ignored(Undecodable)
    case Some(text) =>
      var data := Strip(text);
      if '@' !in data then Ignored(NoSeparator)
      else
        var parts := Split(data, '@');
        if |parts| != 2 then Ignored(SplitMismatch)
        else
          match num.parse(parts[0])
          case None => Ignored(BadCurrent)
          case Some(c) =>
            match num.parse(parts[1])
            case None => CurrentOnly(c)
            case Some(m) => Reading(c, m)
  }

  /** The assignments `latest_grip = float(cur)` and `max_grip = float(m)` that took place. */
  function Apply(g: Grips, e: LineEffect): Grips {
    match e
    case Ignored(_) => g
    case CurrentOnly(c) => Grips(c, g.max)
    case Reading(c, m) => Grips(c, m)
  }

  /** The readings after handling `lines` in order, starting from `g`. */
  function ApplyLines(num: Numerics, g: Grips, lines: seq<seq<byte>>): Grips
    decreases |lines|
  {
    if lines == [] then g
    else Apply(ApplyLines(num, g, lines[..|lines| - 1]), Interpret(num, lines[|lines| - 1]))
  }

  lemma {:induction false} ApplyLinesAppend(num: Numerics, g: Grips, a: seq<seq<byte>>, b: seq<seq<byte>>)
    ensures ApplyLines(num, g, a + b) == ApplyLines(num, ApplyLines(num, g, a), b)
    decreases |b|
  {
    if b == [] {
      assert a + b == a;
    } else {
      assert (a + b)[..|a + b| - 1] == a + b[..|b| - 1];
      ApplyLinesAppend(num, g, a, b[..|b| - 1]);
    }
  }

  lemma ApplyLinesSnoc(num: Numerics, g: Grips, lines: seq<seq<byte>>, line: seq<byte>)
    ensures ApplyLines(num, g, lines + [line]) == Apply(ApplyLines(num, g, lines), Interpret(num, line))
  {
    assert (lines + [line])[..|lines|] == lines;
  }

  /** The stripped text of a line is a single `@` between two `@`-free fields. */
  ghost predicate HasFields(line: seq<byte>, cur: string, m: string) {
    && Decode(line).Some?
    && Strip(Decode(line).value) == cur + ['@'] + m
    && '@' !in cur && '@' !in m
  }

  /**
   * Lines that leave both readings unchanged: undecodable lines, lines
   * without `@`, lines with two or more `@`, and lines whose first field is
   * not a number.
   */
  lemma LineRejected(num: Numerics, g: Grips, line: seq<byte>)
    ensures Decode(line).None? ==> Apply(g, Interpret(num, line)) == g
    ensures Decode(line).Some? && Count(Strip(Decode(line).value), '@') != 1
            ==> Apply(g, Interpret(num, line)) == g
    ensures forall cur, m ::
              HasFields(line, cur, m) && num.parse(cur).None? ==> Apply(g, Interpret(num, line)) == g
  {
    forall cur, m | HasFields(line, cur, m)
      ensures Split(Strip(Decode(line).value), '@') == [cur, m]
    {
      SplitTwo(Strip(Decode(line).value), '@', cur, m);
    }
  }

  /**
   * A line `C@M` whose first field converts: `latest_grip` becomes `C`;
   * `max_grip` becomes `M` when that converts too (copied, not maximised,
   * so it may go down), and otherwise keeps its old value.
   */
  lemma LineAccepted(num: Numerics, g: Grips, line: seq<byte>, cur: string, m: string)
    requires HasFields(line, cur, m) && num.parse(cur).Some?
    ensures Apply(g, Interpret(num, line)).latest == num.parse(cur).value
    ensures num.parse(m).Some? ==> Apply(g, Interpret(num, line)).max == num.parse(m).value
    ensures num.parse(m).None? ==> Apply(g, Interpret(num, line)).max == g.max
  {
    SplitTwo(Strip(Decode(line).value), '@', cur, m);
  }

  /**
   * When no terminator is left, the lines handled are exactly those the
   * buffer held, and the history again agrees with one read of all bytes.
   */
  lemma LinesDrained(num: Numerics, received: seq<byte>, frames: seq<seq<byte>>, start: seq<byte>,
                     done: seq<seq<byte>>, pending: seq<byte>, g0: Grips)
    requires Reframe(received) == Reframed(frames + Reframe(start).lines, Reframe(start).tail)
    requires g0 == ApplyLines(num, Grips(0.0, 0.0), frames)
    requires LinesFree(done) && Unframe(done) + pending == start && LF !in pending
    ensures Reframe(start) == Reframed(done, pending)
    ensures Reframe(received) == Reframed(frames + done, pending)
    ensures ApplyLines(num, Grips(0.0, 0.0), frames + done) == ApplyLines(num, g0, done)
  {
    ReframeUnique(start, Reframed(done, pending));
    ApplyLinesAppend(num, Grips(0.0, 0.0), frames, done);
  }

  /** The module globals of grip_server.py and the serial reader's buffer. */
  class Server {
    const num: Numerics
    var buf: seq<byte>
    var latestGrip: real
    var maxGrip: real
    var currentUser: string
    var currentSide: string
    /** Every byte read from the serial port so far. */
    ghost var received: seq<byte>
    /** Every line peeled off so far. */
    ghost var frames: seq<seq<byte>>

    /**
     * Buffer and readings are determined by the bytes received: the
     * buffer is their unterminated tail and the readings are the effect
     * of their complete lines, whatever the reads looked like.
     */
    ghost predicate Valid()
      reads this
    {
      && Reframe(received) == Reframed(frames, buf)
      && LF !in buf
      && Grips(latestGrip, maxGrip) == ApplyLines(num, Grips(0.0, 0.0), frames)
    }

    constructor (num: Numerics)
      ensures Valid() && this.num == num
      ensures received == [] && buf == [] && frames == []
      ensures latestGrip == 0.0 && maxGrip == 0.0
      ensures currentUser == "guest" && currentSide == "right"
    {
      this.num := num;
      buf := [];
      latestGrip, maxGrip := 0.0, 0.0;
      currentUser, currentSide := "guest", "right";
      received, frames := [], [];
      new;
      ReframeUnique([], Reframed([], []));
    }

    /** The body of the `try` block for one line. */
    method HandleLine(line: seq<byte>)
      modifies this`latestGrip, this`maxGrip
      ensures Grips(latestGrip, maxGrip) == Apply(old(Grips(latestGrip, maxGrip)), Interpret(num, line))
    {
      var decoded := Decode(line);
      if decoded.None? {
        return;
      }
      var data := Strip(decoded.value);
      if '@' !in data {
        return;
      }
      var parts := Split(data, '@');
      if |parts| != 2 {
        return;
      }
      var cur := num.parse(parts[0]);
      if cur.None? {
        return;
      }
      latestGrip := cur.value;
      var m := num.parse(parts[1]);
      if m.None? {
        return;
      }
      maxGrip := m.value;
    }

    /**
     * One iteration of `serial_reader`: when bytes are waiting on the
     * port, append them to the buffer and handle every complete line.
     */
    method Poll(chunk: seq<byte>)
      requires Valid()
      modifies this`buf, this`latestGrip, this`maxGrip, this`received, this`frames
      ensures Valid()
      ensures received == old(received) + chunk
      ensures buf == Reframe(old(buf) + chunk).tail
      ensures frames == old(frames) + Reframe(old(buf) + chunk).lines
      ensures Grips(latestGrip, maxGrip)
              == ApplyLines(num, old(Grips(latestGrip, maxGrip)), Reframe(old(buf) + chunk).lines)
    {
      if |chunk| == 0 {
        assert old(buf) + chunk == buf && received + chunk == received;
        ReframeUnique(buf, Reframed([], buf));
        return;
      }
      ReframeAppend(received, chunk);
      buf := buf + chunk;
      received := received + chunk;
      HandleLines();
    }

    /** The inner loop `while b'\n' in buf`: peel off and handle each complete line. */
    method HandleLines()
      requires Reframe(received) == Reframed(frames + Reframe(buf).lines, Reframe(buf).tail)
      requires Grips(latestGrip, maxGrip) == ApplyLines(num, Grips(0.0, 0.0), frames)
      modifies this`buf, this`latestGrip, this`maxGrip, this`frames
      ensures Valid()
      ensures buf == Reframe(old(buf)).tail
      ensures frames == old(frames) + Reframe(old(buf)).lines
      ensures Grips(latestGrip, maxGrip) == ApplyLines(num, old(Grips(latestGrip, maxGrip)), Reframe(old(buf)).lines)
    {
      ghost var start, g0 := buf, Grips(latestGrip, maxGrip);
      var pending := buf;
      ghost var done: seq<seq<byte>> := [];
      while LF in pending
        invariant LinesFree(done) && Unframe(done) + pending == start
        invariant Grips(latestGrip, maxGrip) == ApplyLines(num, g0, done)
        modifies this`latestGrip, this`maxGrip
        decreases |pending|
      {
        var i := IndexOf(pending, LF);
        var line, rest := pending[..i], pending[i + 1..];
        PeelStep(start, done, pending);
        ApplyLinesSnoc(num, g0, done, line);
        pending := rest;
        done := done + [line];
        HandleLine(line);
      }
      LinesDrained(num, received, frames, start, done, pending, g0);
      buf := pending;
      frames := frames + done;
    }

    /**
     * The `setmeta` form action: the stripped name, or "guest" when it is
     * blank, and the side as given; the readings are not touched.
     */
    method SetMeta(name: string, side: string)
      modifies this`currentUser, this`currentSide
      ensures currentUser == (if Strip(name) == [] then "guest" else Strip(name))
      ensures currentSide == side
      ensures old(Valid()) ==> Valid()
    {
      var user := Strip(name);
      if user == [] {
        user := "guest";
      }
      currentUser := user;
      currentSide := side;
    }

    /** `/data`: the two readings, which reflect every line received so far. */
    method Data() returns (grip: real, max: real)
      requires Valid()
      ensures grip == latestGrip && max == maxGrip
      ensures Grips(grip, max) == ApplyLines(num, Grips(0.0, 0.0), Reframe(received).lines)
    {
      grip, max := latestGrip, maxGrip;
    }
  }
}
