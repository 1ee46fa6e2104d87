/**
 * Path strings as the clients build and split them: the '/'-separated fields that
 * `std::getline(ss, segment, '/')` extracts, the non-empty segments among them, the
 * path a list of segments joins back to, and the parent of a path built as
 * `dir + sep + name`.
 */
module Paths {

  /** A directory-entry name as a file system or a listing reports it: non-empty, no '/'. */
  predicate IsName(n: string)
  {
    n != [] && '/' !in n
  }

  predicate AllNames(segs: seq<string>)
  {
    forall k :: 0 <= k < |segs| ==> IsName(segs[k])
  }

  /** Index of the first '/' in `s` at or after `i`, or |s| when there is none. */
  function SlashFrom(s: string, i: nat): (e: nat)
    requires i <= |s|
    ensures i <= e <= |s|
    ensures e < |s| ==> s[e] == '/'
    decreases |s| - i
  {
    if i == |s| || s[i] == '/' then i
    else SlashFrom(s, i + 1)
  }

  /** No '/' stands between `i` and the slash `SlashFrom` finds. */
  lemma {:induction false} SlashFromStops(s: string, i: nat)
    requires i <= |s|
    ensures forall j :: i <= j < SlashFrom(s, i) ==> s[j] != '/'
    decreases |s| - i
  {
    if i < |s| && s[i] != '/' {
      SlashFromStops(s, i + 1);
    }
  }

  /** The three properties of `SlashFrom` determine it. */
  lemma SlashFromIs(s: string, i: nat, e: nat)
    requires i <= e <= |s|
    requires e < |s| ==> s[e] == '/'
    requires forall j :: i <= j < e ==> s[j] != '/'
    ensures SlashFrom(s, i) == e
    decreases e - i
  {
    if i < e {
      SlashFromIs(s, i + 1, e);
    }
  }

  /**
   * The fields `std::getline(ss, field, '/')` returns from a stream holding `s`, in
   * order: empty fields included, no field after a trailing '/'.
   */
  function Pieces(s: string): (ps: seq<string>)
    decreases |s|
  {
    if s == [] then []
    else
      var k := SlashFrom(s, 0);
      [s[..k]] + (if k < |s| then Pieces(s[k + 1..]) else [])
  }

  /** No field holds a '/'. */
  lemma {:induction false} PiecesSlashFree(s: string)
    ensures forall k :: 0 <= k < |Pieces(s)| ==> '/' !in Pieces(s)[k]
    decreases |s|
  {
    if s != [] {
      var k := SlashFrom(s, 0);
      SlashFromStops(s, 0);
      assert '/' !in s[..k];
      if k < |s| {
        PiecesSlashFree(s[k + 1..]);
      }
    }
  }

  /**
   * One call of `std::getline(ss, field, '/')` on a stream positioned at `pos`: the
   * field read and the position after its delimiter.
   */
  function GetLine(s: string, pos: nat): (r: (string, nat))
    requires pos < |s|
    ensures pos < r.1 <= |s|
  {
    var e := SlashFrom(s, pos);
    if e < |s| then (s[pos..e], e + 1) else (s[pos..], |s|)
  }

  /** Searching a suffix finds the same slash as searching from its start. */
  lemma SlashFromShift(s: string, pos: nat)
    requires pos <= |s|
    ensures SlashFrom(s, pos) == pos + SlashFrom(s[pos..], 0)
  {
    var e, t := SlashFrom(s, pos), s[pos..];
    SlashFromStops(s, pos);
    forall j | 0 <= j < e - pos ensures t[j] != '/' {
      assert t[j] == s[pos + j];
    }
    assert e < |s| ==> t[e - pos] == s[e];
    SlashFromIs(t, 0, e - pos);
  }

  /** Each getline call consumes exactly the next field of `Pieces`. */
  lemma {:induction false} GetLineReadsPiece(s: string, pos: nat)
    requires pos < |s|
    ensures Pieces(s[pos..]) == [GetLine(s, pos).0] + Pieces(s[GetLine(s, pos).1..])
  {
    PiecesHead(s[pos..]);
    GetLineShift(s, pos);
  }

  /** The first field of a non-empty stream is what the first getline call reads. */
  lemma PiecesHead(t: string)
    requires t != []
    ensures Pieces(t) == [GetLine(t, 0).0] + Pieces(t[GetLine(t, 0).1..])
  {
    var k := SlashFrom(t, 0);
    if k < |t| {
      assert GetLine(t, 0) == (t[..k], k + 1);
    } else {
      assert GetLine(t, 0) == (t, |t|);
      assert t[..k] == t;
      assert Pieces(t[|t|..]) == [];
      assert Pieces(t) == [t] + [];
    }
  }

  /** Reading from position `pos` of `s` is reading from the start of its suffix. */
  lemma GetLineShift(s: string, pos: nat)
    requires pos < |s|
    ensures GetLine(s, pos).0 == GetLine(s[pos..], 0).0
    ensures s[GetLine(s, pos).1..] == s[pos..][GetLine(s[pos..], 0).1..]
  {
    SlashFromShift(s, pos);
    var e, t := SlashFrom(s, pos), s[pos..];
    if e < |s| {
      assert t[0..e - pos] == s[pos..e];
      assert t[e - pos + 1..] == s[e + 1..];
    } else {
      assert t[0..] == s[pos..];
      assert t[|t|..] == s[|s|..];
    }
  }

  /** The non-empty strings of `ps`, in order. */
  function NonEmpty(ps: seq<string>): (r: seq<string>)
    ensures |r| <= |ps|
  {
    if ps == [] then []
    else (if ps[0] == "" then [] else [ps[0]]) + NonEmpty(ps[1..])
  }

  lemma {:induction false} NonEmptyConcat(a: seq<string>, b: seq<string>)
    ensures NonEmpty(a + b) == NonEmpty(a) + NonEmpty(b)
  {
    if a != [] {
      assert (a + b)[0] == a[0];
      assert (a + b)[1..] == a[1..] + b;
      NonEmptyConcat(a[1..], b);
    } else {
      assert a + b == b;
    }
  }

  /** The segments of a path: its non-empty '/'-separated fields. */
  function Segments(s: string): (segs: seq<string>)
  {
    NonEmpty(Pieces(s))
  }

  /** Every segment is a name: non-empty and free of '/'. */
  lemma {:induction false} SegmentsAreNames(s: string)
    ensures AllNames(Segments(s))
  {
    PiecesSlashFree(s);
    NonEmptyNames(Pieces(s));
  }

  lemma {:induction false} NonEmptyNames(ps: seq<string>)
    requires forall k :: 0 <= k < |ps| ==> '/' !in ps[k]
    ensures AllNames(NonEmpty(ps))
  {
    if ps != [] {
      NonEmptyNames(ps[1..]);
    }
  }

  /** The path segments `segs` stand for, joined by single slashes. */
  function Join(segs: seq<string>): string
  {
    if segs == [] then ""
    else if |segs| == 1 then segs[0]
    else segs[0] + "/" + Join(segs[1..])
  }

  /** Appending one segment extends the joined path by "/" and that segment. */
  lemma {:induction false} JoinSnoc(segs: seq<string>, x: string)
    requires AllNames(segs)
    ensures Join(segs + [x]) == if segs == [] then x else Join(segs) + "/" + x
    ensures segs != [] ==> Join(segs) != ""
  {
    if |segs| > 1 {
      assert (segs + [x])[1..] == segs[1..] + [x];
      JoinSnoc(segs[1..], x);
    } else if |segs| == 1 {
      assert segs + [x] == [segs[0], x];
    }
  }

  /** Splitting a joined path gives back its segments. */
  lemma {:induction false} SegmentsOfJoin(segs: seq<string>)
    requires AllNames(segs)
    ensures Segments(Join(segs)) == segs
  {
    PiecesOfJoin(segs);
    NonEmptyOfNames(segs);
  }

  lemma {:induction false} NonEmptyOfNames(segs: seq<string>)
    requires AllNames(segs)
    ensures NonEmpty(segs) == segs
  {
    if segs != [] {
      NonEmptyOfNames(segs[1..]);
    }
  }

  lemma {:induction false} PiecesOfJoin(segs: seq<string>)
    requires AllNames(segs)
    ensures Pieces(Join(segs)) == segs
  {
    if |segs| == 1 {
      SlashFree(segs[0]);
      assert segs[0][..|segs[0]|] == segs[0];
    } else if |segs| > 1 {
      var a, j := segs[0], Join(segs[1..]);
      var s := a + "/" + j;
      assert Join(segs) == s;
      PiecesOfJoin(segs[1..]);
      SlashAfterName(a, j);
      assert s[..|a|] == a;
      assert s[|a| + 1..] == j;
      assert Pieces(s) == [a] + Pieces(j);
      assert segs == [a] + segs[1..];
    }
  }

  lemma {:induction false} JoinNonEmpty(segs: seq<string>)
    requires AllNames(segs) && segs != []
    ensures Join(segs) != ""
  {
    if |segs| > 1 {
      assert |Join(segs)| >= |segs[0]|;
    }
  }

  lemma SlashFree(a: string)
    requires '/' !in a
    ensures SlashFrom(a, 0) == |a|
  {
    SlashFromIs(a, 0, |a|);
  }

  lemma SlashAfterName(a: string, rest: string)
    requires '/' !in a
    ensures SlashFrom(a + "/" + rest, 0) == |a|
  {
    var s := a + "/" + rest;
    assert s[|a|] == '/';
    assert forall j :: 0 <= j < |a| ==> s[j] == a[j];
    SlashFromIs(s, 0, |a|);
  }

  lemma SlashPrefix(a: string, b: string, k: nat)
    requires k == SlashFrom(a, 0) && k < |a|
    ensures SlashFrom(a + b, 0) == k && (a + b)[..k] == a[..k]
  {
    var s := a + b;
    SlashFromStops(a, 0);
    assert forall j :: 0 <= j <= k ==> s[j] == a[j];
    SlashFromIs(s, 0, k);
  }

  /**
   * The child path `remote + "/" + name` has the segments of `remote` followed by
   * `name`, whatever slashes `remote` starts or ends with.
   */
  lemma {:induction false} SegmentsOfChild(remote: string, name: string)
    requires IsName(name)
    ensures Segments(remote + "/" + name) == Segments(remote) + [name]
    decreases |remote|
  {
    var s := remote + "/" + name;
    SlashFree(name);
    assert name[..|name|] == name;
    assert Pieces(name) == [name];
    if remote == [] {
      assert s == "/" + name;
      SlashAfterName(remote, name);
      assert s[1..] == name;
      assert Pieces(s) == [""] + [name];
      NonEmptyConcat([""], [name]);
      NonEmptyOfNames([name]);
    } else {
      var k := SlashFrom(remote, 0);
      if k == |remote| {
        SlashFromStops(remote, 0);
        assert '/' !in remote;
        SlashAfterName(remote, name);
        assert s[k + 1..] == name;
        assert s[..k] == remote;
        assert Pieces(s) == [remote] + [name];
        assert remote[..k] == remote;
        assert Pieces(remote) == [remote];
        NonEmptyOfNames([remote, name]);
        NonEmptyOfNames([remote]);
        assert [remote] + [name] == [remote, name];
      } else {
        var y := "/" + name;
        assert s == remote + y;
        SlashPrefix(remote, y, k);
        assert s[k + 1..] == remote[k + 1..] + y;
        assert remote[k + 1..] + y == remote[k + 1..] + "/" + name;
        SegmentsOfChild(remote[k + 1..], name);
        assert Pieces(s) == [remote[..k]] + Pieces(remote[k + 1..] + "/" + name);
        assert Pieces(remote) == [remote[..k]] + Pieces(remote[k + 1..]);
        NonEmptyConcat([remote[..k]], Pieces(remote[k + 1..] + "/" + name));
        NonEmptyConcat([remote[..k]], Pieces(remote[k + 1..]));
      }
    }
  }

  /** Index of the last `sep` in `s`, or -1 when there is none. */
  function LastIndex(s: string, sep: char): (k: int)
    ensures -1 <= k < |s|
    ensures k >= 0 ==> s[k] == sep
    ensures forall j :: k < j < |s| ==> s[j] != sep
  {
    if s == [] then -1
    else if s[|s| - 1] == sep then |s| - 1
    else LastIndex(s[..|s| - 1], sep)
  }

  /** The directory part of a path built as `dir + sep + name`: everything before the last `sep`. */
  function Parent(p: string, sep: char): string
  {
    var k := LastIndex(p, sep);
    if k < 0 then "" else p[..k]
  }

  /** The parent of `dir + sep + name` is `dir` when `name` holds no `sep`. */
  lemma {:induction false} ParentOfChild(dir: string, sep: char, name: string)
    requires sep !in name
    ensures Parent(dir + [sep] + name, sep) == dir
  {
    var p := dir + [sep] + name;
    assert p[|dir|] == sep;
    assert forall j :: |dir| < j < |p| ==> p[j] == name[j - |dir| - 1];
    LastIndexIs(p, sep, |dir|);
    assert p[..|dir|] == dir;
  }

  lemma {:induction false} LastIndexIs(s: string, sep: char, k: nat)
    requires k < |s| && s[k] == sep
    requires forall j :: k < j < |s| ==> s[j] != sep
    ensures LastIndex(s, sep) == k
    decreases |s|
  {
    if s[|s| - 1] != sep {
      LastIndexIs(s[..|s| - 1], sep, k);
    }
  }

  /** `q` lies strictly inside directory `d`: it starts with `d` followed by `sep`. */
  predicate Under(q: string, d: string, sep: char)
  {
    |q| > |d| && q[..|d|] == d && q[|d|] == sep
  }

  /** Being inside a child directory means being inside its parent too. */
  lemma {:induction false} UnderChild(q: string, d: string, sep: char, name: string)
    requires Under(q, d + [sep] + name, sep)
    ensures Under(q, d, sep)
  {
    assert q[..|d|] == (q[..|d| + 1 + |name|])[..|d|];
  }

  /** The search pattern of the second client: a bare star at the empty path, the path followed by a slash and a star elsewhere. */
  function PatternV2(remote: string): string
  {
    if remote == "" then "*" else remote + "/*"
  }

  /** The remote path of a child in the second client: no leading '/' at the empty path. */
  function ChildV2(remote: string, name: string): string
  {
    if remote == "" then name else remote + "/" + name
  }

  /** A path strictly inside `d` has a parent at least as long as `d`. */
  lemma ParentOfUnder(q: string, d: string, sep: char)
    requires Under(q, d, sep)
    ensures |Parent(q, sep)| >= |d|
  {
    assert q[|d|] == sep;
  }

  /** Inside a directory that is inside `d` means inside `d`. */
  lemma UnderTrans(q: string, c: string, d: string, sep: char)
    requires Under(q, c, sep) && Under(c, d, sep)
    ensures Under(q, d, sep)
  {
    assert q[..|d|] == q[..|c|][..|d|];
    assert q[|d|] == q[..|c|][|d|];
  }

  /** A name without `sep` has the empty parent. */
  lemma {:induction false} ParentOfBareName(name: string, sep: char)
    requires sep !in name
    ensures Parent(name, sep) == ""
    decreases |name|
  {
    if name != [] {
      assert name[..|name| - 1] <= name;
      ParentOfBareName(name[..|name| - 1], sep);
    }
  }
}
