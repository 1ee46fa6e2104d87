/**
 * Decoding the reply to PASV in ftp_minimal.cpp: the reply line is handed to
 * `sscanf` with the format `%*[^0-9]%d,%d,%d,%d,%d,%d`, the six integers (each
 * starting at 0) become the address `a.b.c.d` and the port `p1*256+p2` of the
 * data connection (PASV is defined in section 4.1.2 of RFC 959, and section
 * 4.2.2 lists its reply `227 Entering Passive Mode (h1,h2,h3,h4,p1,p2)`).
 *
 * `sscanf` is modelled conversion by conversion: `%*[^0-9]` must match at least
 * one non-digit, `%d` skips white space, takes an optional sign and needs at
 * least one digit, the literal `,` must be the next character, and the scan
 * stops at the first conversion or literal that does not match, leaving the
 * remaining integers at their initial 0.
 */
module Pasv {
  import opened Base

  predicate IsDigit(c: char)
  {
    '0' <= c <= '9'
  }

  predicate NotDigit(c: char)
  {
    !IsDigit(c)
  }

  /** `isspace` in the C locale. */
  predicate IsSpace(c: char)
  {
    c == ' ' || c == '\t' || c == '\n' || c == '\U{B}' || c == '\U{C}' || c == '\r'
  }

  predicate AllDigits(s: string)
  {
    forall k :: 0 <= k < |s| ==> IsDigit(s[k])
  }

  function DigitValue(c: char): nat
    requires IsDigit(c)
  {
    c as int - '0' as int
  }

  function DigitChar(d: nat): (c: char)
    requires d < 10
    ensures IsDigit(c) && DigitValue(c) == d
  {
    ('0' as int + d) as char
  }

  /**
   * The digits at the head of `s` read the way `strtol` reads them, most
   * significant first, each multiplying what was read so far by ten: the
   * value and the input left after the last digit.
   */
  function ReadDigits(s: string, acc: int): (r: (int, string))
    ensures |r.1| <= |s|
    ensures s != [] && IsDigit(s[0]) ==> |r.1| < |s|
  {
    if s != [] && IsDigit(s[0]) then ReadDigits(s[1..], acc * 10 + DigitValue(s[0])) else (acc, s)
  }

  /** The digits stop at the first non-digit: what follows is left as it is. */
  lemma {:induction false} ReadDigitsSplit(d: string, rest: string, acc: int)
    requires AllDigits(d)
    requires rest == [] || !IsDigit(rest[0])
    ensures ReadDigits(d + rest, acc) == (ReadDigits(d, acc).0, rest)
  {
    if d == [] {
      assert d + rest == rest;
    } else {
      assert (d + rest)[0] == d[0];
      assert (d + rest)[1..] == d[1..] + rest;
      ReadDigitsSplit(d[1..], rest, acc * 10 + DigitValue(d[0]));
    }
  }

  /** One more digit at the end multiplies the value by ten and adds the digit. */
  lemma {:induction false} ReadDigitsSnoc(d: string, c: char, acc: int)
    requires AllDigits(d) && IsDigit(c)
    ensures ReadDigits(d + [c], acc).0 == ReadDigits(d, acc).0 * 10 + DigitValue(c)
  {
    if d == [] {
      assert d + [c] == [c];
      assert [c][1..] == [];
    } else {
      assert (d + [c])[0] == d[0];
      assert (d + [c])[1..] == d[1..] + [c];
      ReadDigitsSnoc(d[1..], c, acc * 10 + DigitValue(d[0]));
    }
  }

  /** `std::to_string` of a non-negative number. */
  function NatStr(n: nat): (s: string)
    ensures s != [] && AllDigits(s)
    decreases n
  {
    if n < 10 then [DigitChar(n)] else NatStr(n / 10) + [DigitChar(n % 10)]
  }

  /** Reading back the digits `to_string` writes gives the number. */
  lemma {:induction false} NatStrValue(n: nat)
    ensures ReadDigits(NatStr(n), 0).0 == n
    decreases n
  {
    if n < 10 {
      assert NatStr(n)[1..] == [];
    } else {
      NatStrValue(n / 10);
      ReadDigitsSnoc(NatStr(n / 10), DigitChar(n % 10), 0);
    }
  }

  /** `std::to_string` of an `int`. */
  function IntStr(i: int): string
  {
    if i < 0 then "-" + NatStr(-i) else NatStr(i)
  }

  /** What `sscanf` sees of `r.c_str()`: the bytes before the first NUL. */
  function CStr(s: string): (r: string)
    ensures r <= s && '\0' !in r
    ensures '\0' !in s ==> r == s
  {
    if s == [] || s[0] == '\0' then [] else [s[0]] + CStr(s[1..])
  }

  /** The length of the longest prefix of `s` whose characters `keep` accepts. */
  function Span(s: string, keep: char -> bool): (n: nat)
    ensures n <= |s|
  {
    if s == [] || !keep(s[0]) then 0 else 1 + Span(s[1..], keep)
  }

  /** A prefix `a` that `keep` accepts throughout, followed by a rejected character or nothing, is the span. */
  lemma {:induction false} SpanOf(a: string, b: string, keep: char -> bool)
    requires forall k :: 0 <= k < |a| ==> keep(a[k])
    requires b == [] || !keep(b[0])
    ensures Span(a + b, keep) == |a|
  {
    if a != [] {
      assert (a + b)[0] == a[0];
      assert (a + b)[1..] == a[1..] + b;
      SpanOf(a[1..], b, keep);
    }
  }

  /**
   * One `%d` at the head of `s`: white space skipped one character at a time,
   * an optional sign, at least one digit. The value read and the input left
   * after it, or `None` when it fails.
   */
  function ScanInt(s: string): (r: Option<(int, string)>)
    ensures r.Some? ==> |r.value.1| < |s|
  {
    if s != [] && IsSpace(s[0]) then ScanInt(s[1..])
    else
      var signed := s != [] && (s[0] == '-' || s[0] == '+');
      var t := if signed then s[1..] else s;
      if t == [] || !IsDigit(t[0]) then None
      else
        var v := ReadDigits(t, 0);
        Some((if signed && s[0] == '-' then -v.0 else v.0, v.1))
  }

  /**
   * Up to `left` conversions of the form `%d` separated by literal commas, at the
   * head of `s`: the values assigned, in order, before the first mismatch.
   */
  function ScanFields(s: string, left: nat): (fs: seq<int>)
    ensures |fs| <= left
    decreases left
  {
    if left == 0 then []
    else
      var r := ScanInt(s);
      if r.None? then []
      else
        var v, rest := r.value.0, r.value.1;
        if left > 1 && rest != [] && rest[0] == ',' then [v] + ScanFields(rest[1..], left - 1) else [v]
  }

  /** The six integers, the ones not assigned keeping their initial 0. */
  function Padded(fs: seq<int>): (r: seq<int>)
    requires |fs| <= 6
    ensures |r| == 6 && r[..|fs|] == fs
    ensures forall k :: |fs| <= k < 6 ==> r[k] == 0
    decreases 6 - |fs|
  {
    if |fs| == 6 then fs else Padded(fs + [0])
  }

  /**
   * `a, b, c, d, p1, p2` after `sscanf(r.c_str(), "%*[^0-9]%d,%d,%d,%d,%d,%d", ...)`
   * as written: nothing is assigned when the reply is empty or starts with a digit.
   */
  function ScanAsWritten(reply: string): (r: seq<int>)
    ensures |r| == 6
  {
    var s := CStr(reply);
    if s == [] || IsDigit(s[0]) then Padded([])
    else Padded(ScanFields(s[Span(s, NotDigit)..], 6))
  }

  /** Where `pasv_data` dials: the dotted address and the port, with no range checks. */
  datatype Endpoint = Endpoint(host: string, port: int)

  function EndpointOf(f: seq<int>): Endpoint
    requires |f| == 6
  {
    Endpoint(IntStr(f[0]) + "." + IntStr(f[1]) + "." + IntStr(f[2]) + "." + IntStr(f[3]), f[4] * 256 + f[5])
  }

  /**
   * The endpoint `pasv_data` computes from the reply, as written: when the
   * string `sscanf` sees is empty or starts with a digit, no field is assigned
   * and the endpoint is address 0.0.0.0, port 0.
   */
  function DecodeAsWritten(reply: string): (e: Endpoint)
    ensures CStr(reply) == [] || IsDigit(CStr(reply)[0]) ==> e == Endpoint("0.0.0.0", 0)
  {
    assert Padded([]) == [0, 0, 0, 0, 0, 0];
    assert IntStr(0) == "0";
    EndpointOf(ScanAsWritten(reply))
  }

  /**
   * The evidently intended decoding: the reply code at the head of the line is
   * passed over before the same scan, so that the six numbers of a standard
   * `227` reply are read.
   */
  function Decode(reply: string): (e: Endpoint)
    ensures reply == [] || !IsDigit(reply[0]) ==> e == DecodeAsWritten(reply)
  {
    assert reply == [] || !IsDigit(reply[0]) ==> Span(reply, IsDigit) == 0 && reply[0..] == reply;
    DecodeAsWritten(reply[Span(reply, IsDigit)..])
  }

  /** The text of `h1,h2,...`: the numbers in decimal, separated by commas. */
  function Tuple(ns: seq<nat>): (s: string)
    requires |ns| >= 1
    ensures |s| >= 1 && IsDigit(s[0])
  {
    var d := NatStr(ns[0]);
    if |ns| == 1 then d else d + "," + Tuple(ns[1..])
  }

  /** A tuple holds only digits and commas, so in particular no NUL. */
  lemma {:induction false} TupleChars(ns: seq<nat>)
    requires |ns| >= 1
    ensures forall k :: 0 <= k < |Tuple(ns)| ==> IsDigit(Tuple(ns)[k]) || Tuple(ns)[k] == ','
  {
    if |ns| > 1 {
      TupleChars(ns[1..]);
      var d, t2 := NatStr(ns[0]), Tuple(ns[1..]);
      assert Tuple(ns) == d + "," + t2;
      forall k | 0 <= k < |Tuple(ns)| ensures IsDigit(Tuple(ns)[k]) || Tuple(ns)[k] == ',' {
        if k > |d| {
          assert Tuple(ns)[k] == t2[k - |d| - 1];
        }
      }
    }
  }

  lemma TupleNoNul(ns: seq<nat>, tail: string)
    requires |ns| >= 1 && '\0' !in tail
    ensures '\0' !in Tuple(ns) + tail
  {
    TupleChars(ns);
    assert '\0' !in Tuple(ns);
  }

  /** One more number in front of a tuple, with the texts of both already known. */
  lemma TupleStep(n: nat, ns: seq<nat>, sn: string, sns: string)
    requires |ns| >= 1 && NatStr(n) == sn && Tuple(ns) == sns
    ensures Tuple([n] + ns) == sn + "," + sns
  {
    assert ([n] + ns)[1..] == ns;
  }

  /** `%d` reads back a number written in decimal, up to the first non-digit after it. */
  lemma ScanNat(n: nat, rest: string)
    requires rest == [] || !IsDigit(rest[0])
    ensures ScanInt(NatStr(n) + rest) == Some((n, rest))
  {
    var d := NatStr(n);
    assert (d + rest)[0] == d[0];
    ReadDigitsSplit(d, rest, 0);
    NatStrValue(n);
  }

  /**
   * The comma-separated numbers are read one by one; after the last of them
   * the scan stops at a character that is neither a digit nor a further comma.
   */
  lemma {:induction false} ScanTuple(ns: seq<nat>, tail: string, left: nat)
    requires 1 <= |ns| <= left
    requires tail == [] || !IsDigit(tail[0])
    requires |ns| == left || tail == [] || tail[0] != ','
    ensures ScanFields(Tuple(ns) + tail, left) == ns
    decreases |ns|, 1
  {
    if |ns| == 1 {
      assert Tuple(ns) == NatStr(ns[0]);
      ScanNat(ns[0], tail);
      ScanLast(ns[0], NatStr(ns[0]) + tail, tail, left);
    } else {
      ScanTupleCons(ns, tail, left);
    }
  }

  /** The first of two or more numbers, then the rest of the tuple. */
  lemma {:induction false} ScanTupleCons(ns: seq<nat>, tail: string, left: nat)
    requires 2 <= |ns| <= left
    requires tail == [] || !IsDigit(tail[0])
    requires |ns| == left || tail == [] || tail[0] != ','
    ensures ScanFields(Tuple(ns) + tail, left) == ns
    decreases |ns|, 0
  {
    ScanHead(ns, tail, left);
    ScanTuple(ns[1..], tail, left - 1);
    assert [ns[0]] + ns[1..] == ns;
  }

  /** The first number of a tuple of two or more, and the scan of the rest after its comma. */
  lemma ScanHead(ns: seq<nat>, tail: string, left: nat)
    requires 2 <= |ns| && left > 1
    ensures ScanFields(Tuple(ns) + tail, left) == [ns[0]] + ScanFields(Tuple(ns[1..]) + tail, left - 1)
  {
    var rest := Tuple(ns[1..]) + tail;
    assert Tuple(ns) + tail == NatStr(ns[0]) + ("," + rest);
    ScanNatComma(ns[0], rest, left);
  }

  /** A number followed by a comma: the scan goes on after the comma. */
  lemma ScanNatComma(n: nat, rest: string, left: nat)
    requires left > 1
    ensures ScanFields(NatStr(n) + ("," + rest), left) == [n] + ScanFields(rest, left - 1)
  {
    ScanNat(n, "," + rest);
    assert ("," + rest)[1..] == rest;
  }

  /** A number not followed by a comma, or the last one wanted, ends the scan. */
  lemma ScanLast(v: int, s: string, tail: string, left: nat)
    requires left >= 1 && ScanInt(s) == Some((v, tail))
    requires left == 1 || tail == [] || tail[0] != ','
    ensures ScanFields(s, left) == [v]
  {
  }

  /**
   * One or more non-digits, then comma-separated numbers: the numbers are
   * assigned in order and the integers the scan does not reach stay 0.
   */
  lemma AsWrittenScans(p: string, ns: seq<nat>, tail: string)
    requires p != [] && forall k :: 0 <= k < |p| ==> NotDigit(p[k])
    requires 1 <= |ns| <= 6
    requires '\0' !in p && '\0' !in tail
    requires tail == [] || !IsDigit(tail[0])
    requires |ns| == 6 || tail == [] || tail[0] != ','
    ensures ScanAsWritten(p + Tuple(ns) + tail) == Padded(ns)
  {
    TupleNoNul(ns, tail);
    SkipPrefix(p, Tuple(ns), tail);
    ScanTuple(ns, tail, 6);
  }

  /** `%*[^0-9]` passes over one or more non-digits up to the first digit. */
  lemma SkipPrefix(p: string, t: string, tail: string)
    requires p != [] && forall k :: 0 <= k < |p| ==> NotDigit(p[k])
    requires t != [] && IsDigit(t[0])
    requires '\0' !in p && '\0' !in t + tail
    ensures ScanAsWritten(p + t + tail) == Padded(ScanFields(t + tail, 6))
  {
    var rest := t + tail;
    assert (t + tail)[0] == t[0];
    var s := p + rest;
    assert p + t + tail == s;
    assert '\0' !in s;
    assert CStr(s) == s;
    assert s[0] == p[0];
    SpanOf(p, rest, NotDigit);
    assert s[|p|..] == rest;
  }

  /**
   * The decoding the code relies on: one or more non-digits, then the six
   * numbers, give the address `h1.h2.h3.h4` and the port `p1*256+p2`.
   */
  lemma AsWrittenDecodes(p: string, ns: seq<nat>, tail: string)
    requires p != [] && forall k :: 0 <= k < |p| ==> NotDigit(p[k])
    requires |ns| == 6
    requires '\0' !in p && '\0' !in tail
    requires tail == [] || !IsDigit(tail[0])
    ensures DecodeAsWritten(p + Tuple(ns) + tail) == EndpointOf(ns)
    ensures EndpointOf(ns).port == ns[4] * 256 + ns[5]
  {
    AsWrittenScans(p, ns, tail);
  }

  /** A reply whose first byte is a digit assigns nothing: address 0.0.0.0, port 0. */
  lemma DigitFirstDecodesToZero(reply: string)
    requires reply != [] && IsDigit(reply[0])
    ensures DecodeAsWritten(reply) == Endpoint("0.0.0.0", 0)
  {
    assert CStr(reply)[0] == reply[0];
    var z := Padded([]);
    assert z == [0, 0, 0, 0, 0, 0];
    assert IntStr(0) == "0";
  }

  /** The 227 reply listed in section 4.2.2 of RFC 959, as a server sends it. */
  const StandardReply: string := "227" + " Entering Passive Mode (" + "192,168,1,2,19,137" + ")\r\n"

  /** The standard reply is such a reply: decoded as written, it names 0.0.0.0 port 0. */
  lemma StandardReplyAsWritten()
    ensures DecodeAsWritten(StandardReply) == Endpoint("0.0.0.0", 0)
  {
    assert StandardReply[0] == '2';
    DigitFirstDecodesToZero(StandardReply);
  }

  /** A mismatch ends the scan: here after two numbers, so the rest stay 0. */
  lemma StopsAtMismatch()
    ensures DecodeAsWritten("=10,20;7") == Endpoint("10.20.0.0", 0)
  {
    var ns: seq<nat> := [10, 20];
    MismatchText();
    AsWrittenScans("=", ns, ";7");
    assert Padded(ns) == [10, 20, 0, 0, 0, 0];
    MismatchEndpoint();
  }

  lemma MismatchText()
    ensures "=" + Tuple([10, 20]) + ";7" == "=10,20;7"
  {
    assert NatStr(10) == "10" && NatStr(20) == "20";
  }

  lemma MismatchEndpoint()
    ensures EndpointOf([10, 20, 0, 0, 0, 0]) == Endpoint("10.20.0.0", 0)
  {
    assert IntStr(10) == "10" && IntStr(20) == "20" && IntStr(0) == "0";
  }

  /** Nothing bounds the numbers: an address part above 255 and a port above 65535 go through. */
  lemma NoRangeCheck()
    ensures DecodeAsWritten("(300,1,1,1,1000,1000)") == Endpoint("300.1.1.1", 257000)
  {
    var ns: seq<nat> := [300, 1, 1, 1, 1000, 1000];
    WideText();
    AsWrittenDecodes("(", ns, ")");
    WideEndpoint();
  }

  lemma WideText()
    ensures "(" + Tuple([300, 1, 1, 1, 1000, 1000]) + ")" == "(300,1,1,1,1000,1000)"
  {
    Wide6();
    WideParens(Tuple([300, 1, 1, 1, 1000, 1000]));
  }

  lemma WideParens(t: string)
    requires t == "300,1,1,1,1000,1000"
    ensures "(" + t + ")" == "(300,1,1,1,1000,1000)"
  {
  }

  // The text of the tuple 300,1,1,1,1000,1000, built from the back one number at a time.

  lemma Wide1()
    ensures Tuple([1000]) == "1000"
  {
    assert NatStr(1000) == "1000";
  }

  lemma Wide2()
    ensures Tuple([1000, 1000]) == "1000,1000"
  {
    Wide1();
    assert NatStr(1000) == "1000";
    TupleStep(1000, [1000], "1000", "1000");
    assert [1000] + [1000] == [1000, 1000];
  }

  lemma Wide3()
    ensures Tuple([1, 1000, 1000]) == "1,1000,1000"
  {
    Wide2();
    TupleStep(1, [1000, 1000], "1", "1000,1000");
    assert [1] + [1000, 1000] == [1, 1000, 1000];
  }

  lemma Wide4()
    ensures Tuple([1, 1, 1000, 1000]) == "1,1,1000,1000"
  {
    Wide3();
    TupleStep(1, [1, 1000, 1000], "1", "1,1000,1000");
    assert [1] + [1, 1000, 1000] == [1, 1, 1000, 1000];
  }

  lemma Wide5()
    ensures Tuple([1, 1, 1, 1000, 1000]) == "1,1,1,1000,1000"
  {
    Wide4();
    TupleStep(1, [1, 1, 1000, 1000], "1", "1,1,1000,1000");
    Wide5Glue();
  }

  lemma Wide5Glue()
    ensures [1] + [1, 1, 1000, 1000] == [1 as nat, 1, 1, 1000, 1000]
    ensures "1" + "," + "1,1,1000,1000" == "1,1,1,1000,1000"
  {
  }

  lemma Wide6()
    ensures Tuple([300, 1, 1, 1, 1000, 1000]) == "300,1,1,1,1000,1000"
  {
    Wide5();
    NatStr300();
    TupleStep(300, [1, 1, 1, 1000, 1000], "300", "1,1,1,1000,1000");
    WideGlue();
  }

  lemma NatStr300()
    ensures NatStr(300) == "300"
  {
  }

  lemma WideGlue()
    ensures [300] + [1, 1, 1, 1000, 1000] == [300 as nat, 1, 1, 1, 1000, 1000]
    ensures "300" + "," + "1,1,1,1000,1000" == "300,1,1,1,1000,1000"
  {
  }

  lemma WideEndpoint()
    ensures EndpointOf([300, 1, 1, 1, 1000, 1000]) == Endpoint("300.1.1.1", 257000)
  {
    assert IntStr(300) == "300" && IntStr(1) == "1";
  }

  /**
   * The corrected decoding reads the six numbers after a reply code: any digits,
   * one or more non-digits, then the tuple.
   */
  lemma CorrectedDecodes(code: string, p: string, ns: seq<nat>, tail: string)
    requires AllDigits(code)
    requires p != [] && forall k :: 0 <= k < |p| ==> NotDigit(p[k])
    requires |ns| == 6
    requires '\0' !in p && '\0' !in tail
    requires tail == [] || !IsDigit(tail[0])
    ensures Decode(code + p + Tuple(ns) + tail) == EndpointOf(ns)
  {
    var rest := p + Tuple(ns) + tail;
    assert code + p + Tuple(ns) + tail == code + rest;
    assert rest[0] == p[0];
    SkipCode(code, rest);
    AsWrittenDecodes(p, ns, tail);
  }

  /** Passing over the reply code stops at the first non-digit. */
  lemma SkipCode(code: string, rest: string)
    requires AllDigits(code)
    requires rest != [] && NotDigit(rest[0])
    ensures Decode(code + rest) == DecodeAsWritten(rest)
  {
    SpanOf(code, rest, IsDigit);
    assert (code + rest)[|code|..] == rest;
  }

  /** On a reply that does not start with a digit the correction changes nothing. */
  lemma CorrectedAgrees(reply: string)
    requires reply == [] || !IsDigit(reply[0])
    ensures Decode(reply) == DecodeAsWritten(reply)
  {
    assert Span(reply, IsDigit) == 0;
    assert reply[0..] == reply;
  }

  /** The standard reply, decoded as intended: 192.168.1.2, port 19*256+137. */
  lemma StandardReplyCorrected()
    ensures Decode(StandardReply) == Endpoint("192.168.1.2", 5001)
  {
    var ns: seq<nat> := [192, 168, 1, 2, 19, 137];
    var code, p, tail := "227", " Entering Passive Mode (", ")\r\n";
    StandardText();
    StandardPieces();
    CorrectedDecodes(code, p, ns, tail);
    StandardEndpoint();
  }

  lemma StandardPieces()
    ensures AllDigits("227")
    ensures forall k :: 0 <= k < |" Entering Passive Mode ("| ==> NotDigit(" Entering Passive Mode ("[k])
    ensures '\0' !in " Entering Passive Mode (" && '\0' !in ")\r\n"
  {
  }

  lemma StandardText()
    ensures "227" + " Entering Passive Mode (" + Tuple([192, 168, 1, 2, 19, 137]) + ")\r\n" == StandardReply
  {
    Standard6();
  }

  // The text of the tuple 192,168,1,2,19,137, built from the back one number at a time.

  lemma Standard1()
    ensures Tuple([137]) == "137"
  {
    assert NatStr(137) == "137";
  }

  lemma Standard2()
    ensures Tuple([19, 137]) == "19,137"
  {
    Standard1();
    assert NatStr(19) == "19";
    TupleStep(19, [137], "19", "137");
    assert [19] + [137] == [19, 137];
  }

  lemma Standard3()
    ensures Tuple([2, 19, 137]) == "2,19,137"
  {
    Standard2();
    TupleStep(2, [19, 137], "2", "19,137");
    assert [2] + [19, 137] == [2, 19, 137];
  }

  lemma Standard4()
    ensures Tuple([1, 2, 19, 137]) == "1,2,19,137"
  {
    Standard3();
    TupleStep(1, [2, 19, 137], "1", "2,19,137");
    assert [1] + [2, 19, 137] == [1, 2, 19, 137];
  }

  lemma Standard5()
    ensures Tuple([168, 1, 2, 19, 137]) == "168,1,2,19,137"
  {
    Standard4();
    NatStr168();
    TupleStep(168, [1, 2, 19, 137], "168", "1,2,19,137");
    assert [168] + [1, 2, 19, 137] == [168, 1, 2, 19, 137];
  }

  lemma Standard6()
    ensures Tuple([192, 168, 1, 2, 19, 137]) == "192,168,1,2,19,137"
  {
    Standard5();
    NatStr192();
    TupleStep(192, [168, 1, 2, 19, 137], "192", "168,1,2,19,137");
    StandardGlue();
  }

  lemma NatStr168()
    ensures NatStr(168) == "168"
  {
  }

  lemma NatStr192()
    ensures NatStr(192) == "192"
  {
  }

  lemma StandardGlue()
    ensures [192] + [168, 1, 2, 19, 137] == [192 as nat, 168, 1, 2, 19, 137]
    ensures "192" + "," + "168,1,2,19,137" == "192,168,1,2,19,137"
  {
  }

  lemma StandardEndpoint()
    ensures EndpointOf([192, 168, 1, 2, 19, 137]) == Endpoint("192.168.1.2", 5001)
  {
    assert IntStr(192) == "192" && IntStr(168) == "168" && IntStr(1) == "1" && IntStr(2) == "2";
  }
}
