/**
 * `trim` of ftp_client_v2.cpp: drop spaces, tabs, carriage returns and line feeds
 * from both ends of a string.
 */
module Text {
  import opened Base

  /** The characters of `" \t\r\n"`, the only ones `trim` removes. */
  predicate IsBlank(c: char)
  {
    c == ' ' || c == '\t' || c == '\r' || c == '\n'
  }

  predicate AllBlank(s: string)
  {
    forall k :: 0 <= k < |s| ==> IsBlank(s[k])
  }

  /** `find_first_not_of(" \t\r\n")`: the first non-blank index, `None` for npos. */
  function FirstNotBlank(s: string): (r: Option<nat>)
    ensures r.None? <==> AllBlank(s)
    ensures r.Some? ==> r.value < |s| && !IsBlank(s[r.value]) && AllBlank(s[..r.value])
  {
    if s == [] then None
    else if !IsBlank(s[0]) then Some(0)
    else
      match FirstNotBlank(s[1..])
      case None => None
      case Some(i) =>
        assert s[..i + 1] == [s[0]] + s[1..][..i];
        Some(i + 1)
  }

  /** `find_last_not_of(" \t\r\n")`: the last non-blank index, `None` for npos. */
  function LastNotBlank(s: string): (r: Option<nat>)
    ensures r.None? <==> AllBlank(s)
    ensures r.Some? ==> r.value < |s| && !IsBlank(s[r.value]) && AllBlank(s[r.value + 1..])
  {
    if s == [] then None
    else if !IsBlank(s[|s| - 1]) then Some(|s| - 1)
    else
      match LastNotBlank(s[..|s| - 1])
      case None => None
      case Some(i) =>
        assert s[i + 1..] == s[..|s| - 1][i + 1..] + [s[|s| - 1]];
        Some(i)
  }

  /** `trim`: the text between the first and the last non-blank character. */
  function Trim(s: string): (r: string)
    ensures |r| <= |s|
    ensures r == "" <==> AllBlank(s)
    ensures r != "" ==> !IsBlank(r[0]) && !IsBlank(r[|r| - 1])
  {
    match FirstNotBlank(s)
    case None => ""
    case Some(start) =>
      var end := LastNotBlank(s).value;
      s[start..end + 1]
  }

  lemma FirstNotBlankIs(s: string, i: nat)
    requires i < |s| && !IsBlank(s[i]) && AllBlank(s[..i])
    ensures FirstNotBlank(s) == Some(i)
  {
  }

  lemma LastNotBlankIs(s: string, i: nat)
    requires i < |s| && !IsBlank(s[i]) && AllBlank(s[i + 1..])
    ensures LastNotBlank(s) == Some(i)
  {
  }

  /**
   * Blanks around a core that is empty or starts and ends with a non-blank are
   * exactly what `trim` removes: `trim(a + m + b) == m`.
   */
  lemma TrimUnique(a: string, m: string, b: string)
    requires AllBlank(a) && AllBlank(b)
    requires m != "" ==> !IsBlank(m[0]) && !IsBlank(m[|m| - 1])
    ensures Trim(a + m + b) == m
  {
    var s := a + m + b;
    if m == "" {
      assert s == a + b;
      forall k | 0 <= k < |s| ensures IsBlank(s[k]) {
        if k < |a| { assert s[k] == a[k]; } else { assert s[k] == b[k - |a|]; }
      }
    } else {
      var i, j := |a|, |a| + |m| - 1;
      assert s[i] == m[0] && s[j] == m[|m| - 1];
      assert s[..i] == a;
      assert s[j + 1..] == b;
      FirstNotBlankIs(s, i);
      LastNotBlankIs(s, j);
      assert s[i..j + 1] == m;
    }
  }

  /** The result is a contiguous slice of the input with only blanks cut off either side. */
  lemma TrimSplit(s: string) returns (a: string, b: string)
    ensures s == a + Trim(s) + b
    ensures AllBlank(a) && AllBlank(b)
  {
    match FirstNotBlank(s)
    case None =>
      a, b := s, "";
      assert s == a + "" + b;
    case Some(start) =>
      var end := LastNotBlank(s).value;
      a, b := s[..start], s[end + 1..];
      assert s == s[..start] + s[start..end + 1] + s[end + 1..];
  }

  /** Trimming twice gives the same as trimming once. */
  lemma TrimIdempotent(s: string)
    ensures Trim(Trim(s)) == Trim(s)
  {
    var r := Trim(s);
    TrimUnique("", r, "");
    assert "" + r + "" == r;
  }

  /** Only the four blank characters at the ends go; what lies between them stays. */
  lemma TrimExample()
    ensures Trim(" \t host name \r\n") == "host name"
  {
    TrimExamplePieces();
    TrimUnique(" \t ", "host name", " \r\n");
  }

  lemma TrimExamplePieces()
    ensures AllBlank(" \t ") && AllBlank(" \r\n")
    ensures !IsBlank("host name"[0]) && !IsBlank("host name"[|"host name"| - 1])
    ensures " \t " + "host name" + " \r\n" == " \t host name \r\n"
  {
  }

  /** Other white space, such as a vertical tab, is kept. */
  lemma TrimKeepsVerticalTab()
    ensures Trim("\U{B}x") == "\U{B}x"
  {
    TrimUnique("", "\U{B}x", "");
    assert "" + "\U{B}x" + "" == "\U{B}x";
  }
}
