/** Octet-counted syslog frames (RFC 5425, section 4.3) and the loop that writes one. */
module SyslogFrame {
  import opened Text
  import opened Utf8
  import opened SyslogMessage

  /** strconv.Itoa of the length, a space, the message. */
  function Frame(message: Bytes): Bytes {
    Encode(Itoa(|message|)) + ([0x20] + message)
  }

  predicate IsDigitByte(b: Byte) { 0x30 <= b <= 0x39 }

  function CountRun(b: Bytes): (n: nat)
    ensures n <= |b| && forall i :: 0 <= i < n ==> IsDigitByte(b[i])
    ensures n < |b| ==> !IsDigitByte(b[n])
  {
    if b == [] || !IsDigitByte(b[0]) then 0 else 1 + CountRun(b[1..])
  }

  function CountValue(b: Bytes): nat
    requires forall i :: 0 <= i < |b| ==> IsDigitByte(b[i])
  {
    if b == [] then 0
    else
      assert IsDigitByte(b[|b| - 1]);
      10 * CountValue(b[..|b| - 1]) + ((b[|b| - 1] as int) - 0x30)
  }

  /** A receiver's step: the first whole frame's message and what follows it, if a whole frame is there. */
  function Deframe(b: Bytes): (r: Option<(Bytes, Bytes)>)
    ensures r.Some? ==> |r.value.1| < |b|
  {
    var n := CountRun(b);
    if n == 0 || b[0] == 0x30 || n == |b| || b[n] != 0x20 then None
    else
      var length := CountValue(b[..n]);
      var body := b[n + 1..];
      if length > |body| then None else Some((body[..length], body[length..]))
  }

  function DeframeAll(b: Bytes): Option<seq<Bytes>> {
    if b == [] then Some([])
    else
      var first := Deframe(b);
      if first.None? then None
      else
        var others := DeframeAll(first.value.1);
        if others.None? then None else Some([first.value.0] + others.value)
  }

  function Frames(messages: seq<Bytes>): Bytes {
    if messages == [] then [] else Frame(messages[0]) + Frames(messages[1..])
  }

  lemma {:induction false} CountIsRead(n: nat, rest: Bytes)
    requires rest != [] && !IsDigitByte(rest[0])
    ensures forall i :: 0 <= i < |Encode(Itoa(n))| ==> IsDigitByte(Encode(Itoa(n))[i])
    ensures var e := Encode(Itoa(n)); CountRun(e + rest) == |e| && CountValue(e) == n && e != []
    ensures n > 0 ==> Encode(Itoa(n))[0] != 0x30
  {
    hide Encode, Digits;
    var s, e := Digits(n), Encode(Digits(n));
    AsciiSize(s);
    RunEnds(e, rest);
    ValuesAgree(s, e);
    if n > 0 && |s| == 1 {
      assert s[..0] == "";
      assert Value(s) == DigitValue(s[0]);
    }
  }

  lemma {:induction false} RunEnds(e: Bytes, rest: Bytes)
    requires forall i :: 0 <= i < |e| ==> IsDigitByte(e[i])
    requires rest != [] && !IsDigitByte(rest[0])
    ensures CountRun(e + rest) == |e|
  {
    if e == [] {
      assert e + rest == rest;
    } else {
      assert (e + rest)[0] == e[0] && (e + rest)[1..] == e[1..] + rest;
      RunEnds(e[1..], rest);
    }
  }

  lemma {:induction false} ValuesAgree(s: string, e: Bytes)
    requires AllDigits(s) && |e| == |s| && forall i :: 0 <= i < |s| ==> e[i] == s[i] as int
    ensures CountValue(e) == Value(s)
  {
    if s != "" {
      ValuesAgree(s[..|s| - 1], e[..|s| - 1]);
    }
  }

  /** Deframing undoes framing, whatever bytes the message holds and whatever follows the frame. */
  lemma {:induction false} DeframeFrame(message: Bytes, rest: Bytes)
    requires message != []
    ensures Deframe(Frame(message) + rest) == Some((message, rest))
  {
    hide Encode, Itoa, CountRun, CountValue;
    var e := Encode(Itoa(|message|));
    var tail := [0x20] + (message + rest);
    var b := Frame(message) + rest;
    assert b == e + tail;
    CountIsRead(|message|, tail);
    assert b[..|e|] == e && b[|e|] == 0x20 && b[|e| + 1..] == message + rest;
    assert (message + rest)[..|message|] == message && (message + rest)[|message|..] == rest;
  }

  /** No strict prefix of a frame is taken for a frame. */
  lemma {:induction false} PartialFrameWaits(message: Bytes, n: nat)
    requires message != [] && n < |Frame(message)|
    ensures Deframe(Frame(message)[..n]).None?
  {
    hide Encode, Itoa, CountRun, CountValue;
    var e := Encode(Itoa(|message|));
    var b := Frame(message)[..n];
    var tail := [0x20] + message;
    CountIsRead(|message|, tail);
    if n <= |e| {
      assert b == e[..n];
      DigitsOnly(e, tail, n);
    } else {
      assert b == e + tail[..n - |e|];
      CountIsRead(|message|, tail[..n - |e|]);
      assert b[..|e|] == e;
    }
  }

  lemma {:induction false} DigitsOnly(e: Bytes, tail: Bytes, n: nat)
    requires n <= |e| && CountRun(e + tail) == |e|
    ensures CountRun(e[..n]) == n
  {
    assert forall i :: 0 <= i < n ==> (e + tail)[i] == e[i] == e[..n][i];
  }

  /** Any run of frames decodes to exactly the messages that were framed. */
  lemma {:induction false} FramesDecodeUniquely(messages: seq<Bytes>)
    requires forall i :: 0 <= i < |messages| ==> messages[i] != []
    ensures DeframeAll(Frames(messages)) == Some(messages)
  {
    hide Frame, Deframe;
    if messages != [] {
      DeframeFrame(messages[0], Frames(messages[1..]));
      FramesDecodeUniquely(messages[1..]);
      assert Frames(messages) != [];
      assert [messages[0]] + messages[1..] == messages;
    }
  }

  /** Two runs of frames with the same bytes are the same messages. */
  lemma {:induction false} FramesAreInjective(a: seq<Bytes>, b: seq<Bytes>)
    requires (forall i :: 0 <= i < |a| ==> a[i] != []) && (forall i :: 0 <= i < |b| ==> b[i] != [])
    requires Frames(a) == Frames(b)
    ensures a == b
  {
    FramesDecodeUniquely(a);
    FramesDecodeUniquely(b);
  }

  // -------------------------------------------------------------- the write loop

  /** The answer of one Write call. The io.Writer contract bounds the count by what was offered. */
  datatype Write = Write(count: int, failed: bool)

  /** What one call put on the wire: a failing call may still have sent some bytes. */
  function Sent(offered: Bytes, w: Write): Bytes {
    if w.count <= 0 then [] else if w.count <= |offered| then offered[..w.count] else offered
  }

  class Connection {
    var wire: Bytes
    var answers: seq<Write>

    constructor (answers: seq<Write>)
      ensures this.answers == answers && wire == []
    {
      this.answers, wire := answers, [];
    }

    /** One scripted Write. When the script is over the connection reports an error. */
    method Put(offered: Bytes) returns (w: Write)
      modifies this
      ensures old(answers) == [] ==> w == Write(0, true) && answers == []
      ensures old(answers) != [] ==> w == old(answers)[0] && answers == old(answers)[1..]
      ensures wire == old(wire) + Sent(offered, w)
    {
      w := Write(0, true);
      if answers != [] {
        w, answers := answers[0], answers[1..];
      }
      wire := wire + Sent(offered, w);
    }

    /** The write loop of sendSyslogTLS. Success means exactly the frame went out; otherwise what
        went out is a part of it that a receiver can never take for a whole frame. */
    method WriteFrame(message: Bytes) returns (ok: bool)
      requires message != []
      modifies this
      ensures ok ==> wire == old(wire) + Frame(message)
      ensures !ok ==> |old(wire)| <= |wire| && wire[..|old(wire)|] == old(wire) && wire[|old(wire)|..] <= Frame(message)
      ensures ok <==> WritesAll(old(answers), |Frame(message)|)
    {
      hide Itoa, Encode, Frame;
      var frame := Frame(message);
      var written := 0;
      while written < |frame|
        invariant 0 <= written <= |frame|
        invariant wire == old(wire) + frame[..written]
        invariant WritesAll(answers, |frame| - written) <==> WritesAll(old(answers), |frame|)
        decreases |frame| - written
      {
        var w := Put(frame[written..]);
        if w.failed {
          AfterWrite(old(wire), frame, written, w);
          return false;
        }
        if w.count <= 0 {
          AfterWrite(old(wire), frame, written, w);
          return false;
        }
        assert w.count <= |frame| - written ==> frame[written..][..w.count] == frame[written..written + w.count];
        written := if w.count <= |frame| - written then written + w.count else |frame|;
      }
      assert frame[..|frame|] == frame;
      return true;
    }
  }

  /** The script gets `n` bytes out: every call before the last makes progress without an error. */
  predicate WritesAll(answers: seq<Write>, n: int) {
    n <= 0 || (answers != [] && !answers[0].failed && answers[0].count > 0 && WritesAll(answers[1..], n - answers[0].count))
  }

  lemma {:induction false} AfterWrite(before: Bytes, frame: Bytes, written: nat, w: Write)
    requires written <= |frame|
    ensures var wire := before + frame[..written] + Sent(frame[written..], w);
            wire[..|before|] == before && wire[|before|..] <= frame
  {
    var wire := before + frame[..written] + Sent(frame[written..], w);
    assert wire[|before|..] == frame[..written] + Sent(frame[written..], w);
  }

  /** End to end: bytes the exporter frames hold, once deframed and decoded, a message that the
      RFC 5424 parser reads back as the event it was printed from. */
  lemma {:induction false} WireRoundTrip(seconds: string, nanos: nat, host: string, app: string, e: Event, payload: string, maxBytes: nat, rest: Bytes)
    requires IsSeconds(seconds) && nanos % 1000 == 0 && IsField(host, 255) && IsField(app, 48)
    ensures var m := Rfc5424Message(Stamp(seconds, nanos), host, app, e, payload, maxBytes);
            && (m.Some? <==> Size(MessageText(Stamp(seconds, nanos), host, app, e, payload)) <= maxBytes)
            && (m.Some? ==>
                  && |m.value| <= maxBytes
                  && Deframe(Frame(m.value) + rest) == Some((m.value, rest))
                  && Decode(m.value).Some?
                  && Parse(Decode(m.value).value)
                     == Some(Message(134, "1", Stamp(seconds, nanos), host, app, "-", "AUDIT", [ReadElement(e)], payload))
                  && Carries(ReadElement(e), e))
  {
    hide Parse, Encode, Decode, Frame, Deframe, MessageText, ReadElement, Stamp, Carries;
    var text := MessageText(Stamp(seconds, nanos), host, app, e, payload);
    ParsePrint(seconds, nanos, host, app, e, payload);
    DecodeEncode(text);
    SizeIsByteCount(text);
    TextIsNotEmpty(Stamp(seconds, nanos), host, app, e, payload);
    if Encode(text) != [] {
      DeframeFrame(Encode(text), rest);
    }
  }

  lemma {:induction false} TextIsNotEmpty(stamp: string, host: string, app: string, e: Event, payload: string)
    ensures Encode(MessageText(stamp, host, app, e, payload)) != []
  {
    hide ElementText, EncodeChar;
    assert MessageText(stamp, host, app, e, payload) != "";
  }
}
