/**
 * The control connection of the socket client ftp_minimal.cpp: commands go out
 * ending in CR LF (sections 4.1 and 5.3 of RFC 959) and replies, lines ending in
 * CR LF (section 4.2), come back one line at a time, read byte by byte. Bytes
 * are modelled as `char`s.
 *
 * The socket itself is not an object of the program; its state is passed in and
 * out explicitly as a `Wire`: every byte the server will ever send on the control
 * connection, how many of them `recv` has consumed, and the log of everything the
 * client did on the network and on local files so far.
 */
module Control {
  import opened Base

  /** One action of the client, as the outside world sees it. */
  datatype Event =
    | Sent(bytes: string, ok: bool)              // send on the control connection
    | Received(line: string)                     // one recv_line on the control connection
    | Dialed(host: string, port: int, sock: int) // connect_to for a data connection, with its result
    | Opened(ok: bool)                           // fopen of the local file to upload
    | Wrote(sock: int, bytes: string)            // send of one buffer on a data connection
    | Closed(sock: int)                          // closesocket of a data connection

  /**
   * The answers of the network: whether a `send` on the control connection
   * succeeds, and what `connect_to` returns (a socket, or -1, -2, -3). Both may
   * depend on everything that happened before.
   */
  datatype Net = Net(sendOk: (seq<Event>, string) -> bool, dial: (seq<Event>, string, int) -> int)

  /** The control stream with its read cursor, and the log of events so far. */
  datatype Wire = Wire(input: string, pos: nat, log: seq<Event>)

  predicate Valid(w: Wire)
  {
    w.pos <= |w.input|
  }

  /** The state `w2` extends `w`: same stream, cursor no further back, log only appended to. */
  predicate Extends(w: Wire, w2: Wire)
  {
    Valid(w2) && w2.input == w.input && w.pos <= w2.pos && w.log <= w2.log
  }

  lemma ExtendsTrans(w1: Wire, w2: Wire, w3: Wire)
    requires Extends(w1, w2) && Extends(w2, w3)
    ensures Extends(w1, w3)
  {
  }

  /** The events added between `w` and a later state `w2`. */
  function NewEvents(w: Wire, w2: Wire): seq<Event>
    requires Extends(w, w2)
  {
    w2.log[|w.log|..]
  }

  lemma {:induction false} NewEventsSplit(w1: Wire, w2: Wire, w3: Wire)
    requires Extends(w1, w2) && Extends(w2, w3)
    ensures Extends(w1, w3)
    ensures NewEvents(w1, w3) == NewEvents(w1, w2) + NewEvents(w2, w3)
  {
    assert w3.log == w2.log + w3.log[|w2.log|..];
    assert w2.log == w1.log + w2.log[|w1.log|..];
  }

  /** A CR LF pair whose LF is at index `k` of `s`. */
  predicate CrlfAt(s: string, k: int)
  {
    1 <= k < |s| && s[k - 1] == '\r' && s[k] == '\n'
  }

  /** No CR LF pair anywhere in `s`. */
  predicate NoCrlf(s: string)
  {
    forall k :: 0 <= k < |s| ==> !CrlfAt(s, k)
  }

  /** The bytes `send_cmd` hands to `send` for the command `cmd`. */
  function Frame(cmd: string): (s: string)
    ensures |s| == |cmd| + 2 && s[..|cmd|] == cmd
    ensures CrlfAt(s, |s| - 1)
  {
    cmd + "\r\n"
  }

  /**
   * `send_cmd`: one `send` of the framed command. Only the log changes; the
   * result is what the network answers for exactly those bytes.
   */
  function SendCmd(net: Net, w: Wire, cmd: string): (r: (bool, Wire))
    requires Valid(w)
    ensures Extends(w, r.1) && r.1.pos == w.pos
    ensures NewEvents(w, r.1) == [Sent(Frame(cmd), r.0)]
    ensures r.0 == net.sendOk(w.log, Frame(cmd))
  {
    var ok := net.sendOk(w.log, Frame(cmd));
    (ok, w.(log := w.log + [Sent(Frame(cmd), ok)]))
  }

  /**
   * The length of the line `recv_line` reads from the remaining stream `t`
   * once it holds the first `n` bytes of it: up to and including the first
   * CR LF pair whose LF is at an index of at least `n`, or all of `t`.
   */
  function LineLength(t: string, n: nat): (m: nat)
    requires n <= |t|
    ensures n <= m <= |t|
    ensures m == |t| || CrlfAt(t, m - 1)
    ensures forall k :: n <= k < m - 1 ==> !CrlfAt(t, k)
    decreases |t| - n
  {
    if n == |t| then n
    else if CrlfAt(t, n) then n + 1
    else LineLength(t, n + 1)
  }

  /**
   * The line `recv_line` returns from the remaining stream `t`: a prefix of `t`
   * that ends in CR LF, or all of `t` when the stream ends first, and in which
   * CR LF occurs nowhere but at the end.
   */
  function Line(t: string): (r: string)
    ensures r <= t
    ensures r == t || (|r| >= 2 && r[|r| - 2..] == "\r\n")
    ensures forall k :: 0 <= k < |r| - 1 ==> !CrlfAt(r, k)
  {
    var m := LineLength(t, 0);
    assert forall k :: 0 <= k < m - 1 ==> (CrlfAt(t[..m], k) <==> CrlfAt(t, k));
    assert m < |t| ==> CrlfAt(t, m - 1);
    t[..m]
  }

  /**
   * The line is the shortest such prefix: any prefix of the stream that ends in
   * CR LF (or is the whole stream) and has no earlier CR LF is the line.
   */
  lemma LineUnique(t: string, p: string)
    requires p <= t
    requires p == t || CrlfAt(p, |p| - 1)
    requires forall k :: 0 <= k < |p| - 1 ==> !CrlfAt(p, k)
    ensures Line(t) == p
  {
    var m := LineLength(t, 0);
    assert forall k :: 0 <= k < |p| ==> (CrlfAt(p, k) <==> CrlfAt(t, k));
    if |p| < m {
      assert false;
    } else if |p| > m {
      assert false;
    }
    assert Line(t) == t[..m];
  }

  /**
   * Framing round trip: whatever follows it on the stream, a framed command
   * without CR LF of its own is read back as exactly its frame, and cutting off
   * the terminator gives the command.
   */
  lemma FrameRoundTrip(cmd: string, rest: string)
    requires NoCrlf(cmd)
    ensures Line(Frame(cmd) + rest) == Frame(cmd)
    ensures Line(Frame(cmd) + rest)[..|cmd|] == cmd
  {
    var f := Frame(cmd);
    var t := f + rest;
    assert t[..|f|] == f;
    forall k | 0 <= k < |f| - 1 ensures !CrlfAt(f, k) {
      if k < |cmd| {
        assert CrlfAt(f, k) ==> CrlfAt(cmd, k);
      } else {
        assert f[k] == '\r';
      }
    }
    LineUnique(t, f);
  }

  /** `recv_line` as a function of the state: the line read and the state after it. */
  function RecvLineF(w: Wire): (r: (string, Wire))
    requires Valid(w)
    ensures Extends(w, r.1)
    ensures r.0 == Line(w.input[w.pos..])
    ensures r.1.pos == w.pos + |r.0| && w.input[w.pos..r.1.pos] == r.0
    ensures NewEvents(w, r.1) == [Received(r.0)]
  {
    var line := Line(w.input[w.pos..]);
    var w2 := w.(pos := w.pos + |line|, log := w.log + [Received(line)]);
    assert w.input[w.pos..w2.pos] == w.input[w.pos..][..|line|];
    (line, w2)
  }

  /**
   * One byte more received: the line read so far grows by it, and the bytes
   * now end in CR LF exactly when a CR LF pair ends at that byte, which is
   * then where the line ends.
   */
  lemma RecvStep(t: string, n: nat)
    requires n < |t|
    ensures t[..n + 1] == t[..n] + [t[n]]
    ensures n + 1 > 1 ==> (t[..n + 1][n - 1..] == "\r\n" <==> CrlfAt(t, n))
    ensures CrlfAt(t, n) ==> LineLength(t, n) == n + 1
    ensures !CrlfAt(t, n) ==> LineLength(t, n) == LineLength(t, n + 1)
  {
    if n > 0 {
      assert t[..n + 1][n - 1..] == [t[n - 1], t[n]];
    }
  }

  /**
   * `recv_line`: receive one byte at a time until the bytes received end in
   * CR LF or the stream ends.
   */
  method RecvLine(w: Wire) returns (line: string, w2: Wire)
    requires Valid(w)
    ensures (line, w2) == RecvLineF(w)
  {
    var t := w.input[w.pos..];
    line := "";
    var n := 0;
    while n < |t|
      invariant n <= |t| && line == t[..n]
      invariant LineLength(t, 0) == LineLength(t, n)
    {
      RecvStep(t, n);
      line := line + [t[n]];
      n := n + 1;
      if n > 1 && line[n - 2..] == "\r\n" {
        break;
      }
    }
    w2 := w.(pos := w.pos + n, log := w.log + [Received(line)]);
  }
}
