/**
 * The upload path of the socket client ftp_minimal.cpp: `pasv_data` opens a data
 * connection, `upload_one` stores one local file through it, and `sync_dir`
 * walks a local directory, creating remote directories and uploading files
 * until 128 uploads have succeeded. The running count is the by-reference
 * `cnt`, here passed in and returned.
 */
module Minimal {
  import opened Base
  import opened Steps
  import opened Control
  import opened Pasv

  /** The number of successful uploads after which `sync_dir` stops. */
  const Budget: int := 128

  /** The size of the buffer `fread` fills. */
  const BufferSize: nat := 1024

  /** An upload that got as far as opening its local file; from there it always succeeds. */
  predicate IsUpload(e: Event)
  {
    e == Opened(true)
  }

  predicate IsReply(e: Event)
  {
    e.Received?
  }

  function Uploads(es: seq<Event>): nat
  {
    CountIf(es, IsUpload)
  }

  function Replies(es: seq<Event>): nat
  {
    CountIf(es, IsReply)
  }

  /** The bytes handed to `send` on the data socket `d`, in order. */
  function DataTo(es: seq<Event>, d: int): string
  {
    if es == [] then []
    else (if es[0].Wrote? && es[0].sock == d then es[0].bytes else []) + DataTo(es[1..], d)
  }

  lemma {:induction false} DataToConcat(a: seq<Event>, b: seq<Event>, d: int)
    ensures DataTo(a + b, d) == DataTo(a, d) + DataTo(b, d)
  {
    if a == [] {
      assert a + b == b;
    } else {
      assert (a + b)[0] == a[0];
      assert (a + b)[1..] == a[1..] + b;
      DataToConcat(a[1..], b, d);
    }
  }

  /** How a single event counts. */
  lemma OneEvent(e: Event, d: int)
    ensures Uploads([e]) == (if e == Opened(true) then 1 else 0)
    ensures Replies([e]) == (if e.Received? then 1 else 0)
    ensures DataTo([e], d) == (if e.Wrote? && e.sock == d then e.bytes else [])
  {
    CountIfSingle(e, IsUpload);
    CountIfSingle(e, IsReply);
    assert [e][1..] == [];
  }

  /** Uploads over two consecutive stretches of the log add up. */
  lemma UploadsSplit(w1: Wire, w2: Wire, w3: Wire)
    requires Extends(w1, w2) && Extends(w2, w3)
    ensures Extends(w1, w3)
    ensures Uploads(NewEvents(w1, w3)) == Uploads(NewEvents(w1, w2)) + Uploads(NewEvents(w2, w3))
  {
    NewEventsSplit(w1, w2, w3);
    CountIfConcat(NewEvents(w1, w2), NewEvents(w2, w3), IsUpload);
  }

  /** Replies read, and data sent on `d`, over two consecutive stretches of the log add up. */
  lemma TraceSplit(w1: Wire, w2: Wire, w3: Wire, d: int)
    requires Extends(w1, w2) && Extends(w2, w3)
    ensures Extends(w1, w3)
    ensures Replies(NewEvents(w1, w3)) == Replies(NewEvents(w1, w2)) + Replies(NewEvents(w2, w3))
    ensures DataTo(NewEvents(w1, w3), d) == DataTo(NewEvents(w1, w2), d) + DataTo(NewEvents(w2, w3), d)
  {
    NewEventsSplit(w1, w2, w3);
    CountIfConcat(NewEvents(w1, w2), NewEvents(w2, w3), IsReply);
    DataToConcat(NewEvents(w1, w2), NewEvents(w2, w3), d);
  }

  /** The successive buffers `fread` fills from a file: 1024 bytes each, the last one possibly fewer. */
  function Chunks(bytes: string): (cs: seq<string>)
    ensures forall k :: 0 <= k < |cs| ==> 0 < |cs[k]| <= BufferSize
    ensures forall k :: 0 <= k < |cs| - 1 ==> |cs[k]| == BufferSize
    decreases |bytes|
  {
    if bytes == [] then []
    else
      var n := if |bytes| < BufferSize then |bytes| else BufferSize;
      [bytes[..n]] + Chunks(bytes[n..])
  }

  function Flatten(cs: seq<string>): string
  {
    if cs == [] then [] else cs[0] + Flatten(cs[1..])
  }

  /** The buffers, put back together, are the file. */
  lemma {:induction false} ChunksFlatten(bytes: string)
    ensures Flatten(Chunks(bytes)) == bytes
    decreases |bytes|
  {
    if bytes != [] {
      var n := if |bytes| < BufferSize then |bytes| else BufferSize;
      ChunksFlatten(bytes[n..]);
      assert bytes == bytes[..n] + bytes[n..];
    }
  }

  /** One `send` per buffer on the data socket `d`. */
  function Writes(d: int, cs: seq<string>): (es: seq<Event>)
    ensures |es| == |cs|
  {
    if cs == [] then [] else [Wrote(d, cs[0])] + Writes(d, cs[1..])
  }

  /** Buffers sent on the data socket carry exactly their bytes and are neither replies nor uploads. */
  lemma {:induction false} WritesCarryData(d: int, cs: seq<string>)
    ensures DataTo(Writes(d, cs), d) == Flatten(cs)
    ensures Uploads(Writes(d, cs)) == 0 && Replies(Writes(d, cs)) == 0
  {
    if cs != [] {
      WritesCarryData(d, cs[1..]);
      var es := Writes(d, cs);
      assert es[0] == Wrote(d, cs[0]) && es[1..] == Writes(d, cs[1..]);
    }
  }

  /** `closesocket` on a data connection. */
  function Close(w: Wire, d: int): (w2: Wire)
    requires Valid(w)
    ensures Extends(w, w2) && w2.pos == w.pos
    ensures NewEvents(w, w2) == [Closed(d)]
  {
    w.(log := w.log + [Closed(d)])
  }

  /** One event appended to the log. */
  function Log(w: Wire, e: Event): (w2: Wire)
    requires Valid(w)
    ensures Extends(w, w2) && w2.pos == w.pos
    ensures NewEvents(w, w2) == [e]
  {
    w.(log := w.log + [e])
  }

  /**
   * `pasv_data`: send PASV; if that fails, -1; otherwise read one reply line,
   * decode the endpoint from it with `sscanf` exactly as written and return
   * what `connect_to` returns for it.
   */
  function PasvDataF(net: Net, w: Wire): (r: (int, Wire))
    requires Valid(w)
    ensures Extends(w, r.1) && |r.1.log| > |w.log|
    ensures Uploads(NewEvents(w, r.1)) == 0
  {
    var (sent, w1) := SendCmd(net, w, "PASV");
    OneEvent(Sent(Frame("PASV"), sent), 0);
    if !sent then (-1, w1)
    else
      var (line, w2) := RecvLineF(w1);
      var ep := DecodeAsWritten(line);
      var d := net.dial(w2.log, ep.host, ep.port);
      var w3 := Log(w2, Dialed(ep.host, ep.port, d));
      OneEvent(Received(line), 0);
      OneEvent(Dialed(ep.host, ep.port, d), 0);
      UploadsSplit(w, w1, w2);
      UploadsSplit(w, w2, w3);
      (d, w3)
  }

  method PasvData(net: Net, w: Wire) returns (d: int, w2: Wire)
    requires Valid(w)
    ensures (d, w2) == PasvDataF(net, w)
  {
    var r := SendCmd(net, w, "PASV");
    if !r.0 {
      return -1, r.1;
    }
    var line;
    line, w2 := RecvLine(r.1);
    var ep := DecodeAsWritten(line);
    d := net.dial(w2.log, ep.host, ep.port);
    w2 := Log(w2, Dialed(ep.host, ep.port, d));
  }

  /**
   * When PASV cannot be sent, `pasv_data` gives -1 and reads nothing; otherwise
   * it reads exactly one line and dials the endpoint `sscanf` decodes from it.
   */
  lemma PasvDataReads(net: Net, w: Wire)
    requires Valid(w)
    ensures !net.sendOk(w.log, Frame("PASV")) ==>
      PasvDataF(net, w).0 == -1 && PasvDataF(net, w).1.pos == w.pos &&
      NewEvents(w, PasvDataF(net, w).1) == [Sent(Frame("PASV"), false)]
    ensures net.sendOk(w.log, Frame("PASV")) ==>
      var line := Line(w.input[w.pos..]);
      var ep := DecodeAsWritten(line);
      var r := PasvDataF(net, w);
      r.1.pos == w.pos + |line| &&
      NewEvents(w, r.1) == [Sent(Frame("PASV"), true), Received(line), Dialed(ep.host, ep.port, r.0)]
  {
    var (sent, w1) := SendCmd(net, w, "PASV");
    if sent {
      var (line, w2) := RecvLineF(w1);
      var ep := DecodeAsWritten(line);
      var w3 := Log(w2, Dialed(ep.host, ep.port, net.dial(w2.log, ep.host, ep.port)));
      NewEventsSplit(w, w1, w2);
      NewEventsSplit(w, w2, w3);
    }
  }

  /**
   * A reply line that starts with a digit, as every `227` reply does, makes
   * `pasv_data` dial `0.0.0.0` port 0.
   */
  lemma PasvDataDigitReply(net: Net, w: Wire)
    requires Valid(w) && net.sendOk(w.log, Frame("PASV"))
    requires w.pos < |w.input| && IsDigit(w.input[w.pos])
    ensures |NewEvents(w, PasvDataF(net, w).1)| == 3
    ensures NewEvents(w, PasvDataF(net, w).1)[2] == Dialed("0.0.0.0", 0, PasvDataF(net, w).0)
  {
    PasvDataReads(net, w);
    var line := Line(w.input[w.pos..]);
    assert line != [] && line[0] == w.input[w.pos];
    DigitFirstDecodesToZero(line);
  }

  /** The file sent buffer by buffer on the data socket `d`. */
  function SendAllF(w: Wire, d: int, bytes: string): (w2: Wire)
    requires Valid(w)
    ensures Extends(w, w2) && w2.pos == w.pos
    ensures NewEvents(w, w2) == Writes(d, Chunks(bytes))
  {
    w.(log := w.log + Writes(d, Chunks(bytes)))
  }

  /** The data socket carries the whole file and nothing else; no reply is read meanwhile. */
  lemma SendAllCarriesFile(w: Wire, d: int, bytes: string)
    requires Valid(w)
    ensures DataTo(NewEvents(w, SendAllF(w, d, bytes)), d) == bytes
    ensures Uploads(NewEvents(w, SendAllF(w, d, bytes))) == 0
    ensures Replies(NewEvents(w, SendAllF(w, d, bytes))) == 0
  {
    WritesCarryData(d, Chunks(bytes));
    ChunksFlatten(bytes);
  }

  /** The `fread`/`send` loop of `upload_one`. */
  method SendAll(w: Wire, d: int, bytes: string) returns (w2: Wire)
    requires Valid(w)
    ensures w2 == SendAllF(w, d, bytes)
  {
    w2 := w;
    var i := 0;
    while i < |bytes|
      invariant 0 <= i <= |bytes|
      invariant w2 == w.(log := w2.log)
      invariant w2.log + Writes(d, Chunks(bytes[i..])) == w.log + Writes(d, Chunks(bytes))
      decreases |bytes| - i
    {
      var n := if |bytes| - i < BufferSize then |bytes| - i else BufferSize;
      SendStep(w2.log, d, bytes, i, n);
      w2 := w2.(log := w2.log + [Wrote(d, bytes[i..i + n])]);
      i := i + n;
    }
    assert bytes[i..] == [];
  }

  /** One more buffer sent: the next chunk of the file, and the chunks after it still to go. */
  lemma SendStep(log: seq<Event>, d: int, bytes: string, i: nat, n: nat)
    requires i < |bytes| && n == if |bytes| - i < BufferSize then |bytes| - i else BufferSize
    ensures log + [Wrote(d, bytes[i..i + n])] + Writes(d, Chunks(bytes[i + n..])) == log + Writes(d, Chunks(bytes[i..]))
  {
    assert bytes[i..][..n] == bytes[i..i + n];
    assert bytes[i..][n..] == bytes[i + n..];
    var cs := Chunks(bytes[i..]);
    assert cs == [bytes[i..i + n]] + Chunks(bytes[i + n..]);
    assert cs[1..] == Chunks(bytes[i + n..]);
  }

  /**
   * `upload_one`: open a data connection, send STOR, read its reply, open the
   * local file, send it buffer by buffer, close the data connection and read
   * the final reply. Replies are read but their codes never inspected.
   */
  function UploadOneF(net: Net, w: Wire, content: ContentOrMissing, rp: string): (r: (bool, Wire))
    requires Valid(w)
    ensures Extends(w, r.1) && |r.1.log| > |w.log|
    ensures Uploads(NewEvents(w, r.1)) == if r.0 then 1 else 0
  {
    var (d, w1) := PasvDataF(net, w);
    if d < 0 then (false, w1)
    else
      var (sent, w2) := SendCmd(net, w1, "STOR " + rp);
      OneEvent(Sent(Frame("STOR " + rp), sent), d);
      UploadsSplit(w, w1, w2);
      if !sent then
        var w3 := Close(w2, d);
        OneEvent(Closed(d), d);
        UploadsSplit(w, w2, w3);
        (false, w3)
      else
        AfterStor(net, w, w2, d, content)
  }

  /** The rest of `upload_one` once STOR went out, from state `w2` of an upload that began at `w`. */
  function AfterStor(net: Net, w: Wire, w2: Wire, d: int, content: ContentOrMissing): (r: (bool, Wire))
    requires Extends(w, w2) && |w2.log| > |w.log| && Uploads(NewEvents(w, w2)) == 0
    ensures Extends(w, r.1) && |r.1.log| > |w.log|
    ensures Uploads(NewEvents(w, r.1)) == if r.0 then 1 else 0
  {
    var (line, w3) := RecvLineF(w2);
    OneEvent(Received(line), d);
    UploadsSplit(w, w2, w3);
    match content
    case Unreadable =>
      var w4 := Log(w3, Opened(false));
      var w5 := Close(w4, d);
      OneEvent(Opened(false), d);
      OneEvent(Closed(d), d);
      UploadsSplit(w, w3, w4);
      UploadsSplit(w, w4, w5);
      (false, w5)
    case Readable(bytes) =>
      var w4 := StoreFile(w3, d, bytes);
      StoreFileCounts(w3, d, bytes);
      UploadsSplit(w, w3, w4);
      (true, w4)
  }

  /**
   * The file opened: it is sent buffer by buffer on `d`, the data connection is
   * closed and the final reply read.
   */
  function StoreFile(w: Wire, d: int, bytes: string): (r: Wire)
    requires Valid(w)
    ensures Extends(w, r) && |r.log| > |w.log|
    ensures var line := Line(w.input[w.pos..]);
      NewEvents(w, r) == [Opened(true)] + Writes(d, Chunks(bytes)) + [Closed(d), Received(line)] &&
      r.pos == w.pos + |line|
  {
    var w1 := Log(w, Opened(true));
    var w2 := SendAllF(w1, d, bytes);
    var w3 := Close(w2, d);
    var w4 := RecvLineF(w3).1;
    NewEventsSplit(w, w1, w2);
    NewEventsSplit(w, w2, w3);
    NewEventsSplit(w, w3, w4);
    w4
  }

  /** Storing the file counts as one upload, carries exactly the file on `d` and reads one reply. */
  lemma StoreFileCounts(w: Wire, d: int, bytes: string)
    requires Valid(w)
    ensures Uploads(NewEvents(w, StoreFile(w, d, bytes))) == 1
    ensures DataTo(NewEvents(w, StoreFile(w, d, bytes)), d) == bytes
    ensures Replies(NewEvents(w, StoreFile(w, d, bytes))) == 1
  {
    var w2 := SendAllF(Log(w, Opened(true)), d, bytes);
    OpenAndSend(w, d, bytes);
    CloseAndRead(w2, d);
    StepCounts(w, w2, RecvLineF(Close(w2, d)).1, d);
  }

  /**
   * What follows a STOR that went out, when `rest` is the control input not
   * yet read: the reply line, then a failed `fopen` and the close, or the
   * file, the close and the final reply.
   */
  function StorReplyTrace(rest: string, d: int, content: ContentOrMissing): (t: seq<Event>)
    ensures |t| >= 3 && t[0] == Received(Line(rest))
    ensures content.Unreadable? <==> t[1] == Opened(false)
  {
    var l1 := Line(rest);
    match content
    case Unreadable => [Received(l1), Opened(false), Closed(d)]
    case Readable(bytes) =>
      [Received(l1), Opened(true)] + Writes(d, Chunks(bytes)) + [Closed(d), Received(Line(rest[|l1|..]))]
  }

  /** `AfterStor` logs exactly `StorReplyTrace`. */
  lemma AfterStorTrace(net: Net, w: Wire, w2: Wire, d: int, content: ContentOrMissing)
    requires Extends(w, w2) && |w2.log| > |w.log| && Uploads(NewEvents(w, w2)) == 0
    ensures Extends(w2, AfterStor(net, w, w2, d, content).1)
    ensures NewEvents(w2, AfterStor(net, w, w2, d, content).1) == StorReplyTrace(w2.input[w2.pos..], d, content)
  {
    var w3 := RecvLineF(w2).1;
    match content
    case Unreadable =>
      assert AfterStor(net, w, w2, d, content).1 == Close(Log(w3, Opened(false)), d);
      FailedOpenTrace(w2, d);
    case Readable(bytes) =>
      assert AfterStor(net, w, w2, d, content).1 == StoreFile(w3, d, bytes);
      StoredTrace(w2, d, bytes);
  }

  lemma FailedOpenTrace(w2: Wire, d: int)
    requires Valid(w2)
    ensures var w5 := Close(Log(RecvLineF(w2).1, Opened(false)), d);
      Extends(w2, w5) && NewEvents(w2, w5) == StorReplyTrace(w2.input[w2.pos..], d, Unreadable)
  {
    var w3 := RecvLineF(w2).1;
    var w4 := Log(w3, Opened(false));
    NewEventsSplit(w2, w3, w4);
    NewEventsSplit(w2, w4, Close(w4, d));
  }

  lemma StoredTrace(w2: Wire, d: int, bytes: string)
    requires Valid(w2)
    ensures var w4 := StoreFile(RecvLineF(w2).1, d, bytes);
      Extends(w2, w4) && NewEvents(w2, w4) == StorReplyTrace(w2.input[w2.pos..], d, Readable(bytes))
  {
    var (l1, w3) := RecvLineF(w2);
    assert w3.input[w3.pos..] == w2.input[w2.pos..][|l1|..];
    NewEventsSplit(w2, w3, StoreFile(w3, d, bytes));
  }

  /** Opening the file and sending it: one upload, the file on `d`, no reply. */
  lemma OpenAndSend(w: Wire, d: int, bytes: string)
    requires Valid(w)
    ensures Extends(w, SendAllF(Log(w, Opened(true)), d, bytes))
    ensures Uploads(NewEvents(w, SendAllF(Log(w, Opened(true)), d, bytes))) == 1
    ensures DataTo(NewEvents(w, SendAllF(Log(w, Opened(true)), d, bytes)), d) == bytes
    ensures Replies(NewEvents(w, SendAllF(Log(w, Opened(true)), d, bytes))) == 0
  {
    var w1 := Log(w, Opened(true));
    OneEvent(Opened(true), d);
    SendAllCarriesFile(w1, d, bytes);
    StepCounts(w, w1, SendAllF(w1, d, bytes), d);
  }

  /** Closing the data connection and reading the final reply: no upload, nothing on `d`, one reply. */
  lemma CloseAndRead(w: Wire, d: int)
    requires Valid(w)
    ensures Extends(w, RecvLineF(Close(w, d)).1)
    ensures Uploads(NewEvents(w, RecvLineF(Close(w, d)).1)) == 0
    ensures DataTo(NewEvents(w, RecvLineF(Close(w, d)).1), d) == []
    ensures Replies(NewEvents(w, RecvLineF(Close(w, d)).1)) == 1
  {
    var w1 := Close(w, d);
    OneEvent(Closed(d), d);
    OneEvent(Received(RecvLineF(w1).0), d);
    StepCounts(w, w1, RecvLineF(w1).1, d);
  }

  /** Uploads, replies and data on `d` add up over consecutive stretches of the log. */
  lemma StepCounts(w1: Wire, w2: Wire, w3: Wire, d: int)
    requires Extends(w1, w2) && Extends(w2, w3)
    ensures Extends(w1, w3)
    ensures Uploads(NewEvents(w1, w3)) == Uploads(NewEvents(w1, w2)) + Uploads(NewEvents(w2, w3))
    ensures Replies(NewEvents(w1, w3)) == Replies(NewEvents(w1, w2)) + Replies(NewEvents(w2, w3))
    ensures DataTo(NewEvents(w1, w3), d) == DataTo(NewEvents(w1, w2), d) + DataTo(NewEvents(w2, w3), d)
  {
    UploadsSplit(w1, w2, w3);
    TraceSplit(w1, w2, w3, d);
  }

  method UploadOne(net: Net, w: Wire, content: ContentOrMissing, rp: string) returns (ok: bool, w2: Wire)
    requires Valid(w)
    ensures (ok, w2) == UploadOneF(net, w, content, rp)
  {
    var d;
    d, w2 := PasvData(net, w);
    if d < 0 {
      return false, w2;
    }
    var r := SendCmd(net, w2, "STOR " + rp);
    w2 := r.1;
    if !r.0 {
      w2 := Close(w2, d);
      return false, w2;
    }
    var line;
    line, w2 := RecvLine(w2);
    if content.Unreadable? {
      w2 := Log(w2, Opened(false));
      w2 := Close(w2, d);
      return false, w2;
    }
    w2 := Log(w2, Opened(true));
    w2 := SendAll(w2, d, content.bytes);
    w2 := Close(w2, d);
    line, w2 := RecvLine(w2);
    ok := true;
  }

  /** Once STOR went out and the file opens: success, the whole file on `d`, and two replies read. */
  lemma ReadableOutcome(net: Net, w: Wire, w2: Wire, d: int, bytes: string)
    requires Extends(w, w2) && |w2.log| > |w.log| && Uploads(NewEvents(w, w2)) == 0
    ensures AfterStor(net, w, w2, d, Readable(bytes)).0
    ensures DataTo(NewEvents(w2, AfterStor(net, w, w2, d, Readable(bytes)).1), d) == bytes
    ensures Replies(NewEvents(w2, AfterStor(net, w, w2, d, Readable(bytes)).1)) == 2
  {
    var (line, w3) := RecvLineF(w2);
    var w4 := StoreFile(w3, d, bytes);
    assert AfterStor(net, w, w2, d, Readable(bytes)).1 == w4;
    OneEvent(Received(line), d);
    StoreFileCounts(w3, d, bytes);
    TraceSplit(w2, w3, w4, d);
  }

  /** Once STOR went out but the file does not open: failure, nothing on `d`, and one reply read. */
  lemma UnreadableOutcome(net: Net, w: Wire, w2: Wire, d: int)
    requires Extends(w, w2) && |w2.log| > |w.log| && Uploads(NewEvents(w, w2)) == 0
    ensures !AfterStor(net, w, w2, d, Unreadable).0
    ensures DataTo(NewEvents(w2, AfterStor(net, w, w2, d, Unreadable).1), d) == []
    ensures Replies(NewEvents(w2, AfterStor(net, w, w2, d, Unreadable).1)) == 1
  {
    var (line, w3) := RecvLineF(w2);
    var w4 := Log(w3, Opened(false));
    var w5 := Close(w4, d);
    assert AfterStor(net, w, w2, d, Unreadable).1 == w5;
    OneEvent(Received(line), d);
    OneEvent(Opened(false), d);
    OneEvent(Closed(d), d);
    TraceSplit(w2, w3, w4, d);
    TraceSplit(w2, w4, w5, d);
  }

  /**
   * The outcome of `upload_one`, counted from the state after `pasv_data`: it
   * succeeds exactly when the data connection opened, STOR was sent and the
   * file could be opened; the data connection then carries exactly the file's
   * bytes; and it reads one reply after STOR and one after closing the data
   * connection, none when STOR could not be sent.
   */
  lemma UploadOneOutcome(net: Net, w: Wire, content: ContentOrMissing, rp: string)
    requires Valid(w)
    ensures Extends(PasvDataF(net, w).1, UploadOneF(net, w, content, rp).1)
    ensures UploadSucceeds(net, w, content, rp)
    ensures UploadSendsFile(net, w, content, rp)
    ensures UploadReadsReplies(net, w, content, rp)
    ensures UploadTrace(net, w, content, rp)
  {
    var (d, w1) := PasvDataF(net, w);
    if d >= 0 {
      if net.sendOk(w1.log, Frame("STOR " + rp)) {
        StorSentOutcome(net, w, content, rp);
      } else {
        StorFailedOutcome(net, w, content, rp);
      }
    }
  }

  /** STOR could not be sent: failure, nothing on the data connection, no reply read. */
  lemma StorFailedOutcome(net: Net, w: Wire, content: ContentOrMissing, rp: string)
    requires Valid(w) && PasvDataF(net, w).0 >= 0
    requires !net.sendOk(PasvDataF(net, w).1.log, Frame("STOR " + rp))
    ensures Extends(PasvDataF(net, w).1, UploadOneF(net, w, content, rp).1)
    ensures UploadSucceeds(net, w, content, rp)
    ensures UploadSendsFile(net, w, content, rp)
    ensures UploadReadsReplies(net, w, content, rp)
    ensures UploadTrace(net, w, content, rp)
  {
    var (d, w1) := PasvDataF(net, w);
    var w2 := SendCmd(net, w1, "STOR " + rp).1;
    var w3 := Close(w2, d);
    assert UploadOneF(net, w, content, rp) == (false, w3);
    OneEvent(Sent(Frame("STOR " + rp), false), d);
    OneEvent(Closed(d), d);
    TraceSplit(w1, w2, w3, d);
    StorFailedEvents(net, w, content, rp);
  }

  /** STOR could not be sent: the failed send, then the close. */
  lemma StorFailedEvents(net: Net, w: Wire, content: ContentOrMissing, rp: string)
    requires Valid(w) && PasvDataF(net, w).0 >= 0
    requires !net.sendOk(PasvDataF(net, w).1.log, Frame("STOR " + rp))
    ensures UploadTrace(net, w, content, rp)
  {
    var p := PasvDataF(net, w);
    var w2 := SendCmd(net, p.1, "STOR " + rp).1;
    var w3 := Close(w2, p.0);
    assert UploadOneF(net, w, content, rp) == (false, w3);
    NewEventsSplit(p.1, w2, w3);
  }

  /** STOR was sent: the outcome is decided by whether the file opens. */
  lemma StorSentOutcome(net: Net, w: Wire, content: ContentOrMissing, rp: string)
    requires Valid(w) && PasvDataF(net, w).0 >= 0
    requires net.sendOk(PasvDataF(net, w).1.log, Frame("STOR " + rp))
    ensures Extends(PasvDataF(net, w).1, UploadOneF(net, w, content, rp).1)
    ensures UploadSucceeds(net, w, content, rp)
    ensures UploadSendsFile(net, w, content, rp)
    ensures UploadReadsReplies(net, w, content, rp)
    ensures UploadTrace(net, w, content, rp)
  {
    var (d, w1) := PasvDataF(net, w);
    var w2 := SendCmd(net, w1, "STOR " + rp).1;
    OneEvent(Sent(Frame("STOR " + rp), true), d);
    UploadsSplit(w, w1, w2);
    var r := AfterStor(net, w, w2, d, content);
    assert UploadOneF(net, w, content, rp) == r;
    StorSentTrace(net, w, w1, w2, d, content);
    StorSentEvents(net, w, content, rp);
  }

  /** STOR was sent: the STOR send, then exactly `StorReplyTrace`. */
  lemma StorSentEvents(net: Net, w: Wire, content: ContentOrMissing, rp: string)
    requires Valid(w) && PasvDataF(net, w).0 >= 0
    requires net.sendOk(PasvDataF(net, w).1.log, Frame("STOR " + rp))
    ensures UploadTrace(net, w, content, rp)
  {
    var p := PasvDataF(net, w);
    var w2 := SendCmd(net, p.1, "STOR " + rp).1;
    OneEvent(Sent(Frame("STOR " + rp), true), p.0);
    UploadsSplit(w, p.1, w2);
    var r := AfterStor(net, w, w2, p.0, content);
    assert UploadOneF(net, w, content, rp) == r;
    assert NewEvents(p.1, r.1) == [Sent(Frame("STOR " + rp), true)] + StorReplyTrace(p.1.input[p.1.pos..], p.0, content) by {
      AfterStorTrace(net, w, w2, p.0, content);
      NewEventsSplit(p.1, w2, r.1);
    }
  }

  lemma StorSentTrace(net: Net, w: Wire, w1: Wire, w2: Wire, d: int, content: ContentOrMissing)
    requires Extends(w, w1) && Extends(w1, w2) && |w2.log| > |w.log| && Uploads(NewEvents(w, w2)) == 0
    requires Replies(NewEvents(w1, w2)) == 0 && DataTo(NewEvents(w1, w2), d) == []
    ensures Extends(w1, AfterStor(net, w, w2, d, content).1)
    ensures AfterStor(net, w, w2, d, content).0 <==> content.Readable?
    ensures DataTo(NewEvents(w1, AfterStor(net, w, w2, d, content).1), d) ==
      if content.Readable? then content.bytes else []
    ensures Replies(NewEvents(w1, AfterStor(net, w, w2, d, content).1)) ==
      if content.Readable? then 2 else 1
  {
    if content.Readable? {
      ReadableOutcome(net, w, w2, d, content.bytes);
    } else {
      UnreadableOutcome(net, w, w2, d);
    }
    TraceSplit(w1, w2, AfterStor(net, w, w2, d, content).1, d);
  }

  /** `upload_one` succeeds exactly when the data connection opened, STOR was sent and the file opened. */
  predicate UploadSucceeds(net: Net, w: Wire, content: ContentOrMissing, rp: string)
    requires Valid(w)
  {
    var d := PasvDataF(net, w).0;
    var stor := net.sendOk(PasvDataF(net, w).1.log, Frame("STOR " + rp));
    UploadOneF(net, w, content, rp).0 <==> d >= 0 && stor && content.Readable?
  }

  /** The data connection carries exactly the file's bytes when the upload succeeds, and none otherwise. */
  predicate UploadSendsFile(net: Net, w: Wire, content: ContentOrMissing, rp: string)
    requires Valid(w)
  {
    var (d, w1) := PasvDataF(net, w);
    var (ok, w2) := UploadOneF(net, w, content, rp);
    Extends(w1, w2) && DataTo(NewEvents(w1, w2), d) == if ok then content.bytes else []
  }

  /**
   * The exact events of `upload_one` after PASV: none when the data connection
   * did not open; the STOR send and the close when STOR could not be sent;
   * otherwise the STOR send followed by `StorReplyTrace`.
   */
  predicate UploadTrace(net: Net, w: Wire, content: ContentOrMissing, rp: string)
    requires Valid(w)
  {
    var p := PasvDataF(net, w);
    var w2 := UploadOneF(net, w, content, rp).1;
    Extends(p.1, w2) && NewEvents(p.1, w2) == AfterPasvTrace(net, p.1, p.0, content, rp)
  }

  /** The events `upload_one` logs from state `w1`, after `pasv_data` returned `d`. */
  function AfterPasvTrace(net: Net, w1: Wire, d: int, content: ContentOrMissing, rp: string): (t: seq<Event>)
    requires Valid(w1)
    ensures d < 0 <==> t == []
    ensures d >= 0 ==> t[0] == Sent(Frame("STOR " + rp), net.sendOk(w1.log, Frame("STOR " + rp)))
  {
    var stor := Frame("STOR " + rp);
    if d < 0 then []
    else if !net.sendOk(w1.log, stor) then [Sent(stor, false), Closed(d)]
    else [Sent(stor, true)] + StorReplyTrace(w1.input[w1.pos..], d, content)
  }

  /** Two replies are read after PASV when the upload succeeds, one when only the file failed, none before. */
  predicate UploadReadsReplies(net: Net, w: Wire, content: ContentOrMissing, rp: string)
    requires Valid(w)
  {
    var (d, w1) := PasvDataF(net, w);
    var (ok, w2) := UploadOneF(net, w, content, rp);
    var stor := net.sendOk(w1.log, Frame("STOR " + rp));
    Extends(w1, w2) &&
    Replies(NewEvents(w1, w2)) == if d < 0 || !stor then 0 else if ok then 2 else 1
  }

  /**
   * `sync_dir`: nothing once the budget is spent; otherwise the entries of
   * `loc` in iteration order. The result is the state after it and the new `cnt`.
   */
  function SyncDirF(net: Net, w: Wire, loc: seq<Entry>, rem: string, cnt: int): (r: (Wire, int))
    requires Valid(w)
    ensures Extends(w, r.0)
    ensures cnt <= r.1 && (cnt <= Budget ==> r.1 <= Budget)
    ensures r.1 - cnt == Uploads(NewEvents(w, r.0))
    decreases loc, 1
  {
    if cnt >= Budget then (w, cnt) else SyncLoop(net, w, loc, rem, cnt)
  }

  /** The loop of `sync_dir` over the entries `es`, leaving it when the budget is spent. */
  function SyncLoop(net: Net, w: Wire, es: seq<Entry>, rem: string, cnt: int): (r: (Wire, int))
    requires Valid(w)
    ensures Extends(w, r.0)
    ensures cnt <= r.1 && (cnt <= Budget ==> r.1 <= Budget)
    ensures r.1 - cnt == Uploads(NewEvents(w, r.0))
    decreases es, 0
  {
    if es == [] || cnt >= Budget then (w, cnt)
    else
      var r1 := SyncEntry(net, w, es[0], rem, cnt);
      var r2 := SyncLoop(net, r1.0, es[1..], rem, r1.1);
      NewEventsSplit(w, r1.0, r2.0);
      CountIfConcat(NewEvents(w, r1.0), NewEvents(r1.0, r2.0), IsUpload);
      r2
  }

  /**
   * One entry, with budget left: `.fooname` is passed over; a directory gets
   * MKD (its reply read only if the send worked) and is then synced whatever
   * the outcome; a file is uploaded and counted when that succeeds.
   */
  function SyncEntry(net: Net, w: Wire, e: Entry, rem: string, cnt: int): (r: (Wire, int))
    requires Valid(w) && cnt < Budget
    ensures Extends(w, r.0)
    ensures cnt <= r.1 <= Budget
    ensures r.1 - cnt == Uploads(NewEvents(w, r.0))
    decreases e, 2
  {
    if e.name == ".fooname" then (w, cnt)
    else
      var sub := rem + "/" + e.name;
      match e
      case Dir(_, kids) =>
        var w1 := MakeDir(net, w, sub);
        var r := SyncDirF(net, w1, kids, sub, cnt);
        UploadsSplit(w, w1, r.0);
        r
      case File(_, content) =>
        var (ok, w1) := UploadOneF(net, w, content, sub);
        (w1, if ok then cnt + 1 else cnt)
  }

  /** MKD for the remote directory `path`, and its reply read only if the send worked. */
  function MakeDir(net: Net, w: Wire, path: string): (r: Wire)
    requires Valid(w)
    ensures Extends(w, r) && Uploads(NewEvents(w, r)) == 0
    ensures var ok := net.sendOk(w.log, Frame("MKD " + path));
      var line := Line(w.input[w.pos..]);
      NewEvents(w, r) == [Sent(Frame("MKD " + path), ok)] + (if ok then [Received(line)] else []) &&
      r.pos == w.pos + (if ok then |line| else 0)
  {
    var (sent, w1) := SendCmd(net, w, "MKD " + path);
    OneEvent(Sent(Frame("MKD " + path), sent), 0);
    if sent then
      var (line, w2) := RecvLineF(w1);
      OneEvent(Received(line), 0);
      UploadsSplit(w, w1, w2);
      w2
    else w1
  }

  method SyncDir(net: Net, w: Wire, loc: seq<Entry>, rem: string, cnt: int) returns (w2: Wire, cnt2: int)
    requires Valid(w)
    ensures (w2, cnt2) == SyncDirF(net, w, loc, rem, cnt)
    decreases loc, 1
  {
    w2, cnt2 := w, cnt;
    if cnt2 >= Budget {
      return;
    }
    for i := 0 to |loc|
      invariant Valid(w2)
      invariant SyncLoop(net, w, loc, rem, cnt) == SyncLoop(net, w2, loc[i..], rem, cnt2)
    {
      if cnt2 >= Budget {
        break;
      }
      LoopStep(net, w2, loc, i, rem, cnt2);
      if loc[i].name == ".fooname" {
        continue;
      }
      w2, cnt2 := SyncOne(net, w2, loc[i], rem, cnt2);
    }
  }

  /** One turn of the loop of `sync_dir`, on the entry at index `i`. */
  lemma LoopStep(net: Net, w: Wire, es: seq<Entry>, i: nat, rem: string, cnt: int)
    requires Valid(w) && i < |es| && cnt < Budget
    ensures SyncLoop(net, w, es[i..], rem, cnt) ==
      SyncLoop(net, SyncEntry(net, w, es[i], rem, cnt).0, es[i + 1..], rem, SyncEntry(net, w, es[i], rem, cnt).1)
    ensures es[i].name == ".fooname" ==> SyncEntry(net, w, es[i], rem, cnt) == (w, cnt)
  {
    assert es[i..][0] == es[i];
    assert es[i..][1..] == es[i + 1..];
  }

  /** The body of the loop of `sync_dir` for an entry not named `.fooname`. */
  method SyncOne(net: Net, w: Wire, e: Entry, rem: string, cnt: int) returns (w2: Wire, cnt2: int)
    requires Valid(w) && cnt < Budget && e.name != ".fooname"
    ensures (w2, cnt2) == SyncEntry(net, w, e, rem, cnt)
    decreases e, 2
  {
    var sub := rem + "/" + e.name;
    if e.Dir? {
      var r := SendCmd(net, w, "MKD " + sub);
      w2 := r.1;
      if r.0 {
        var line;
        line, w2 := RecvLine(w2);
      }
      w2, cnt2 := SyncDir(net, w2, e.children, sub, cnt);
    } else {
      var ok;
      ok, w2 := UploadOne(net, w, e.content, sub);
      cnt2 := if ok then cnt + 1 else cnt;
    }
  }

  /** Once the budget is spent nothing at all happens: no MKD, no recursion, no upload. */
  lemma BudgetSpent(net: Net, w: Wire, es: seq<Entry>, rem: string, cnt: int)
    requires Valid(w) && cnt >= Budget
    ensures SyncDirF(net, w, es, rem, cnt) == (w, cnt)
    ensures SyncLoop(net, w, es, rem, cnt) == (w, cnt)
  {
  }

  /**
   * Every step of a sync starts with a send on the control connection (an MKD
   * or the PASV of an upload), never with a read.
   */
  lemma {:induction false} SyncStartsWithSend(net: Net, w: Wire, loc: seq<Entry>, rem: string, cnt: int)
    requires Valid(w)
    ensures NewEvents(w, SyncDirF(net, w, loc, rem, cnt).0) == [] ||
      NewEvents(w, SyncDirF(net, w, loc, rem, cnt).0)[0].Sent?
    decreases loc, 1
  {
    if cnt < Budget {
      LoopStartsWithSend(net, w, loc, rem, cnt);
    }
  }

  lemma {:induction false} LoopStartsWithSend(net: Net, w: Wire, es: seq<Entry>, rem: string, cnt: int)
    requires Valid(w)
    ensures NewEvents(w, SyncLoop(net, w, es, rem, cnt).0) == [] ||
      NewEvents(w, SyncLoop(net, w, es, rem, cnt).0)[0].Sent?
    decreases es, 0
  {
    if es != [] && cnt < Budget {
      var r1 := SyncEntry(net, w, es[0], rem, cnt);
      var r2 := SyncLoop(net, r1.0, es[1..], rem, r1.1);
      NewEventsSplit(w, r1.0, r2.0);
      EntryStartsWithSend(net, w, es[0], rem, cnt);
      LoopStartsWithSend(net, r1.0, es[1..], rem, r1.1);
    }
  }

  lemma {:induction false} EntryStartsWithSend(net: Net, w: Wire, e: Entry, rem: string, cnt: int)
    requires Valid(w) && cnt < Budget
    ensures NewEvents(w, SyncEntry(net, w, e, rem, cnt).0) == [] ||
      NewEvents(w, SyncEntry(net, w, e, rem, cnt).0)[0].Sent?
    decreases e, 2
  {
    if e.name != ".fooname" {
      match e
      case Dir(name, kids) =>
        DirectoryMkdFirst(net, w, name, kids, rem, cnt);
      case File(name, content) =>
        UploadStartsWithPasv(net, w, content, rem + "/" + name);
    }
  }

  /**
   * A directory entry: MKD of `rem/name` is the first thing sent, and a reply
   * to it is read exactly when that send succeeded.
   */
  lemma {:induction false} DirectoryMkdFirst(net: Net, w: Wire, name: string, kids: seq<Entry>, rem: string, cnt: int)
    requires Valid(w) && cnt < Budget && name != ".fooname"
    ensures
      var mkd := Frame("MKD " + (rem + "/" + name));
      var t := NewEvents(w, SyncEntry(net, w, Dir(name, kids), rem, cnt).0);
      |t| >= 1 && t[0] == Sent(mkd, net.sendOk(w.log, mkd)) &&
      (|t| >= 2 && t[1].Received? <==> net.sendOk(w.log, mkd))
    ensures
      var sub := rem + "/" + name;
      var w1 := MakeDir(net, w, sub);
      var r := SyncDirF(net, w1, kids, sub, cnt);
      SyncEntry(net, w, Dir(name, kids), rem, cnt) == r &&
      NewEvents(w, r.0) == NewEvents(w, w1) + NewEvents(w1, r.0)
    decreases kids, 2
  {
    var sub := rem + "/" + name;
    var (sent, w1) := SendCmd(net, w, "MKD " + sub);
    var w2 := if sent then RecvLineF(w1).1 else w1;
    var r := SyncDirF(net, w2, kids, sub, cnt);
    assert w2 == MakeDir(net, w, sub);
    assert SyncEntry(net, w, Dir(name, kids), rem, cnt) == r;
    NewEventsSplit(w, w2, r.0);
    NewEventsSplit(w, w1, r.0);
    SyncStartsWithSend(net, w2, kids, sub, cnt);
    if sent {
      NewEventsSplit(w1, w2, r.0);
    } else {
      assert w2 == w1;
    }
  }

  /** Every upload begins by sending PASV on the control connection. */
  lemma UploadStartsWithPasv(net: Net, w: Wire, content: ContentOrMissing, rp: string)
    requires Valid(w)
    ensures |NewEvents(w, UploadOneF(net, w, content, rp).1)| >= 1
    ensures NewEvents(w, UploadOneF(net, w, content, rp).1)[0] == Sent(Frame("PASV"), net.sendOk(w.log, Frame("PASV")))
  {
    var w1 := PasvDataF(net, w).1;
    PasvDataReads(net, w);
    NewEventsSplit(w, w1, UploadOneF(net, w, content, rp).1);
  }

  /**
   * With budget left, an entry leaves no trace exactly when it is named
   * `.fooname`: every other name, `.git` and other hidden names included, is
   * created or uploaded.
   */
  lemma OnlyFoonameSkipped(net: Net, w: Wire, e: Entry, rem: string, cnt: int)
    requires Valid(w) && cnt < Budget
    ensures SyncEntry(net, w, e, rem, cnt) == (w, cnt) <==> e.name == ".fooname"
  {
    if e.name != ".fooname" {
      var sub := rem + "/" + e.name;
      var r := SyncEntry(net, w, e, rem, cnt);
      match e
      case Dir(_, kids) =>
        var (sent, w1) := SendCmd(net, w, "MKD " + sub);
        var w2 := if sent then RecvLineF(w1).1 else w1;
        assert |r.0.log| >= |w2.log| > |w.log|;
      case File(_, content) =>
        assert |r.0.log| > |w.log|;
    }
  }

  /**
   * A failed upload consumes no budget and does not end the walk: the next
   * entry is handled from the state the failure left.
   */
  lemma FailedUploadContinues(net: Net, w: Wire, name: string, content: ContentOrMissing, es: seq<Entry>, rem: string, cnt: int)
    requires Valid(w) && cnt < Budget && name != ".fooname"
    requires !UploadOneF(net, w, content, rem + "/" + name).0
    ensures SyncLoop(net, w, [File(name, content)] + es, rem, cnt) ==
      SyncLoop(net, UploadOneF(net, w, content, rem + "/" + name).1, es, rem, cnt)
  {
    assert ([File(name, content)] + es)[1..] == es;
  }
}
