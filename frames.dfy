/**
 * The host's frame decoder (the inner loop of `serial_reader`): bytes are
 * appended to a tail buffer and every complete `\n`-terminated line is
 * peeled off, first to last; what follows the last terminator stays
 * buffered for the next read.
 */
module Frames {
  import opened Utf8
  import opened PyText

  /** Lines peeled off (terminators removed) and the unterminated tail left behind. */
  datatype Reframed = Reframed(lines: seq<seq<byte>>, tail: seq<byte>)

  /** The bytes that a sequence of lines occupied on the wire: each line followed by `\n`. */
  function Unframe(lines: seq<seq<byte>>): seq<byte> {
    if lines == [] then [] else lines[0] + [LF] + Unframe(lines[1..])
  }

  lemma UnframeCons(l: seq<byte>, lines: seq<seq<byte>>)
    ensures Unframe([l] + lines) == l + [LF] + Unframe(lines)
  {
    assert ([l] + lines)[1..] == lines;
  }

  /** No line holds a terminator. */
  predicate LinesFree(lines: seq<seq<byte>>) {
    forall k :: 0 <= k < |lines| ==> LF !in lines[k]
  }

  /** Lines and tail are well formed: no line and no tail holds a terminator. */
  predicate LFFree(r: Reframed) {
    LF !in r.tail && LinesFree(r.lines)
  }

  /**
   * What `while b'\n' in buf: line, buf = buf.split(b'\n', 1)` peels off
   * a buffer `s`: the lines before each terminator, first to last, and the
   * bytes after the last terminator.
   */
  function Reframe(s: seq<byte>): Reframed
    decreases |s|
  {
    if LF !in s then Reframed([], s)
    else
      var i := IndexOf(s, LF);
      var rest := Reframe(s[i + 1..]);
      Reframed([s[..i]] + rest.lines, rest.tail)
  }

  /**
   * One turn of the loop that drains a buffer: when the lines `done`
   * peeled off so far, each with its terminator, followed by what is
   * still `pending`, spell out `start`, the first line of `pending` moves
   * to the peeled lines and the same holds afterwards.
   */
  lemma PeelStep(start: seq<byte>, done: seq<seq<byte>>, pending: seq<byte>)
    requires LF in pending
    requires LinesFree(done) && Unframe(done) + pending == start
    ensures var i := IndexOf(pending, LF);
            && LinesFree(done + [pending[..i]])
            && Unframe(done + [pending[..i]]) + pending[i + 1..] == start
  {
    var i := IndexOf(pending, LF);
    var line, rest := pending[..i], pending[i + 1..];
    LinesFreeSnoc(done, line);
    UnframeSnoc(done, line);
    assert pending == line + [LF] + rest;
    SnocAssoc(Unframe(done), line, rest);
  }

  lemma LinesFreeSnoc(done: seq<seq<byte>>, line: seq<byte>)
    requires LinesFree(done) && LF !in line
    ensures LinesFree(done + [line])
  {
    assert forall k :: 0 <= k < |done + [line]| ==>
      (done + [line])[k] == if k < |done| then done[k] else line;
  }

  lemma UnframeSnoc(done: seq<seq<byte>>, line: seq<byte>)
    ensures Unframe(done + [line]) == Unframe(done) + (line + [LF])
  {
    UnframeAppend(done, [line]);
    assert Unframe([line]) == line + [LF] + Unframe([]);
  }

  lemma SnocAssoc(u: seq<byte>, line: seq<byte>, rest: seq<byte>)
    ensures (u + (line + [LF])) + rest == u + (line + [LF] + rest)
  {
  }

  /**
   * Byte conservation: the lines, each followed by its terminator, and then
   * the tail spell out the buffer again; and neither a line nor the tail
   * holds a terminator.
   */
  lemma {:induction false} ReframeConserves(s: seq<byte>)
    ensures LFFree(Reframe(s))
    ensures Unframe(Reframe(s).lines) + Reframe(s).tail == s
    decreases |s|
  {
    if LF in s {
      var i := IndexOf(s, LF);
      ReframeConserves(s[i + 1..]);
      PeelOne(s, i, Reframe(s[i + 1..]));
    }
  }

  /** One peeled line in front of a well-formed remainder is well formed and conserves bytes. */
  lemma PeelOne(s: seq<byte>, i: nat, rest: Reframed)
    requires i < |s| && s[i] == LF && LF !in s[..i]
    requires LFFree(rest) && Unframe(rest.lines) + rest.tail == s[i + 1..]
    ensures LFFree(Reframed([s[..i]] + rest.lines, rest.tail))
    ensures Unframe([s[..i]] + rest.lines) + rest.tail == s
  {
    var lines := [s[..i]] + rest.lines;
    UnframeCons(s[..i], rest.lines);
    assert s == s[..i] + [LF] + s[i + 1..];
    assert forall k :: 1 <= k < |lines| ==> lines[k] == rest.lines[k - 1];
  }

  /**
   * `Reframe` is the only way to cut a buffer into terminated lines and a
   * terminator-free tail.
   */
  lemma {:induction false} ReframeUnique(s: seq<byte>, r: Reframed)
    requires LFFree(r) && Unframe(r.lines) + r.tail == s
    ensures Reframe(s) == r
    decreases |s|
  {
    if r.lines == [] {
      assert s == r.tail;
    } else {
      var l := r.lines[0];
      var rest := Reframed(r.lines[1..], r.tail);
      assert s == l + [LF] + (Unframe(rest.lines) + rest.tail);
      assert LF in s by { assert s[|l|] == LF; }
      var i := IndexOf(s, LF);
      assert i == |l|;
      assert s[..i] == l;
      assert s[i + 1..] == Unframe(rest.lines) + rest.tail;
      ReframeUnique(s[i + 1..], rest);
      assert [l] + rest.lines == r.lines;
    }
  }

  lemma {:induction false} UnframeAppend(a: seq<seq<byte>>, b: seq<seq<byte>>)
    ensures Unframe(a + b) == Unframe(a) + Unframe(b)
  {
    if a == [] {
      assert a + b == b;
    } else {
      assert (a + b)[1..] == a[1..] + b;
      UnframeAppend(a[1..], b);
    }
  }

  /**
   * A well-formed cut of `a`, followed by a well-formed cut of its tail
   * and `b`, is a well-formed cut of `a + b`.
   */
  lemma JoinReframed(a: seq<byte>, b: seq<byte>, ra: Reframed, rb: Reframed)
    requires LFFree(ra) && Unframe(ra.lines) + ra.tail == a
    requires LFFree(rb) && Unframe(rb.lines) + rb.tail == ra.tail + b
    ensures LFFree(Reframed(ra.lines + rb.lines, rb.tail))
    ensures Unframe(ra.lines + rb.lines) + rb.tail == a + b
  {
    var lines := ra.lines + rb.lines;
    assert forall k :: 0 <= k < |lines| ==>
      lines[k] == if k < |ra.lines| then ra.lines[k] else rb.lines[k - |ra.lines|];
    UnframeAppend(ra.lines, rb.lines);
    var ua, ub := Unframe(ra.lines), Unframe(rb.lines);
    assert (ua + ub) + rb.tail == ua + (ub + rb.tail);
    assert (ua + ra.tail) + b == ua + (ra.tail + b);
  }

  /**
   * Reading `a` and then `b` gives the lines of `a`, then the lines of the
   * tail of `a` followed by `b`, and that tail: exactly what one read of
   * `a + b` gives.
   */
  lemma ReframeAppend(a: seq<byte>, b: seq<byte>)
    ensures Reframe(a + b).lines == Reframe(a).lines + Reframe(Reframe(a).tail + b).lines
    ensures Reframe(a + b).tail == Reframe(Reframe(a).tail + b).tail
  {
    var ra := Reframe(a);
    var rb := Reframe(ra.tail + b);
    ReframeConserves(a);
    ReframeConserves(ra.tail + b);
    JoinReframed(a, b, ra, rb);
    var r := Reframed(ra.lines + rb.lines, rb.tail);
    ReframeUnique(a + b, r);
  }

  /** The concatenation of the chunks handed out by successive reads. */
  function Flatten(chunks: seq<seq<byte>>): seq<byte> {
    if chunks == [] then [] else chunks[0] + Flatten(chunks[1..])
  }

  lemma FlattenCons(tail: seq<byte>, chunks: seq<seq<byte>>)
    requires chunks != []
    ensures tail + Flatten(chunks) == (tail + chunks[0]) + Flatten(chunks[1..])
  {
  }

  /**
   * The reader fed chunk by chunk, starting from buffer `tail`: the lines
   * it peels off over all reads, in order, and the final buffer.
   */
  function Feed(tail: seq<byte>, chunks: seq<seq<byte>>): Reframed
    decreases |chunks|
  {
    if chunks == [] then Reframed([], tail)
    else
      var now := Reframe(tail + chunks[0]);
      var later := Feed(now.tail, chunks[1..]);
      Reframed(now.lines + later.lines, later.tail)
  }

  /**
   * Split-point invariance: however the byte stream is cut into reads,
   * the reader peels off the same lines in the same order and keeps the
   * same tail as for the whole stream read at once.
   */
  lemma {:induction false} FeedAnyChunking(tail: seq<byte>, chunks: seq<seq<byte>>)
    requires LF !in tail
    ensures Feed(tail, chunks) == Reframe(tail + Flatten(chunks))
    decreases |chunks|
  {
    if chunks == [] {
      assert tail + Flatten(chunks) == tail;
      ReframeUnique(tail, Reframed([], tail));
    } else {
      var now := Reframe(tail + chunks[0]);
      ReframeConserves(tail + chunks[0]);
      FeedAnyChunking(now.tail, chunks[1..]);
      ReframeAppend(tail + chunks[0], Flatten(chunks[1..]));
      FlattenCons(tail, chunks);
    }
  }
}
