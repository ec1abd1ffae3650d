/**
 * The serial link between the two programs: the line the board writes
 * (esp8266/main.py) is exactly one line for the host's frame decoder, and
 * the host's parser (pi/grip_server.py) reads back the two numbers in it.
 */
module Protocol {
  import opened Utf8
  import opened PyText
  import opened Frames
  import opened GripServer
  import opened Device

  /** The report without its terminator: the line the host peels off. */
  function Body(num: Numerics, v: real, m: real): string {
    num.format(v) + ['@'] + num.format(m)
  }

  /** On the wire a report is its body, which holds no terminator, and one `\n`. */
  lemma ReportOnWire(num: Numerics, v: real, m: real)
    requires WireSafe(num)
    ensures Encode(Report(num, v, m)) == Encode(Body(num, v, m)) + [LF]
    ensures LF !in Encode(Body(num, v, m))
  {
    var a, b := num.format(v), num.format(m);
    assert IsWireText(a) && IsWireText(b);
    assert Report(num, v, m) == Body(num, v, m) + ['\n'];
    EncodeAppend(Body(num, v, m), ['\n']);
    EncodeAscii(['\n']);
    EncodeLF(Body(num, v, m));
    assert '\n' !in Body(num, v, m) by {
      var body := Body(num, v, m);
      forall i | 0 <= i < |body| ensures body[i] != '\n' {
        if i < |a| { assert body[i] == a[i]; }
        else if i > |a| { assert body[i] == b[i - |a| - 1]; }
      }
    }
  }

  /** The host's parser reads a report body as the reading it carries. */
  lemma HostParsesBody(num: Numerics, v: real, m: real)
    requires WireSafe(num)
    ensures Interpret(num, Encode(Body(num, v, m)))
            == Reading(num.parse(num.format(v)).value, num.parse(num.format(m)).value)
  {
    var a, b := num.format(v), num.format(m);
    var body := Body(num, v, m);
    assert IsWireText(a) && IsWireText(b);
    DecodeEncode(body);
    assert body[0] == a[0] && body[|body| - 1] == b[|b| - 1];
    StripUntrimmed(body);
    assert '@' in body by { assert body[|a|] == '@'; }
    SplitTwo(body, '@', a, b);
  }

  /**
   * A report written by the board reaches the host as one complete line,
   * leaves nothing buffered, and sets both readings to the numbers it
   * carries.
   */
  lemma HostAcceptsReport(num: Numerics, g: Grips, v: real, m: real)
    requires WireSafe(num)
    ensures Reframe(Encode(Report(num, v, m))) == Reframed([Encode(Body(num, v, m))], [])
    ensures Apply(g, Interpret(num, Encode(Body(num, v, m))))
            == Grips(num.parse(num.format(v)).value, num.parse(num.format(m)).value)
  {
    var line := Encode(Body(num, v, m));
    ReportOnWire(num, v, m);
    assert Unframe([line]) == line + [LF] + Unframe([]);
    assert LinesFree([line]);
    ReframeUnique(Encode(Report(num, v, m)), Reframed([line], []));
    HostParsesBody(num, v, m);
  }

  /** The bytes of the reports `(value, max)` the board wrote, first to last. */
  function Wire(num: Numerics, reports: seq<(real, real)>): seq<byte>
    decreases |reports|
  {
    if reports == [] then []
    else
      var last := reports[|reports| - 1];
      Wire(num, reports[..|reports| - 1]) + Encode(Report(num, last.0, last.1))
  }

  /** The lines the host peels off those bytes. */
  function Bodies(num: Numerics, reports: seq<(real, real)>): seq<seq<byte>>
    decreases |reports|
  {
    if reports == [] then []
    else
      var last := reports[|reports| - 1];
      Bodies(num, reports[..|reports| - 1]) + [Encode(Body(num, last.0, last.1))]
  }

  lemma {:induction false} WireFrames(num: Numerics, reports: seq<(real, real)>)
    requires WireSafe(num)
    ensures LinesFree(Bodies(num, reports)) && Unframe(Bodies(num, reports)) == Wire(num, reports)
    decreases |reports|
  {
    if reports != [] {
      var init, last := reports[..|reports| - 1], reports[|reports| - 1];
      var line := Encode(Body(num, last.0, last.1));
      WireFrames(num, init);
      ReportOnWire(num, last.0, last.1);
      LinesFreeSnoc(Bodies(num, init), line);
      UnframeSnoc(Bodies(num, init), line);
    }
  }

  /** However the reports are cut into reads, the host peels off exactly their bodies. */
  lemma HostReadsBodies(num: Numerics, reports: seq<(real, real)>, chunks: seq<seq<byte>>)
    requires WireSafe(num)
    requires Flatten(chunks) == Wire(num, reports)
    ensures Feed([], chunks) == Reframed(Bodies(num, reports), [])
  {
    FeedAnyChunking([], chunks);
    assert [] + Flatten(chunks) == Wire(num, reports);
    WireFrames(num, reports);
    assert Unframe(Bodies(num, reports)) + [] == Wire(num, reports);
    ReframeUnique(Wire(num, reports), Reframed(Bodies(num, reports), []));
  }

  /**
   * End to end: however the serial link cuts the board's reports into
   * reads, the host peels off one line per report, keeps nothing
   * buffered, and ends up showing the last report's two numbers (or its
   * initial zeros when nothing was sent).
   */
  lemma HostFollowsBoard(num: Numerics, reports: seq<(real, real)>, chunks: seq<seq<byte>>)
    requires WireSafe(num)
    requires Flatten(chunks) == Wire(num, reports)
    ensures Feed([], chunks) == Reframed(Bodies(num, reports), [])
    ensures ApplyLines(num, Grips(0.0, 0.0), Feed([], chunks).lines)
            == if reports == [] then Grips(0.0, 0.0)
               else Grips(num.parse(num.format(reports[|reports| - 1].0)).value,
                          num.parse(num.format(reports[|reports| - 1].1)).value)
  {
    HostReadsBodies(num, reports, chunks);
    if reports != [] {
      var init, last := reports[..|reports| - 1], reports[|reports| - 1];
      var lines := Bodies(num, reports);
      assert lines[..|lines| - 1] == Bodies(num, init);
      HostAcceptsReport(num, ApplyLines(num, Grips(0.0, 0.0), Bodies(num, init)), last.0, last.1);
    }
  }
}
