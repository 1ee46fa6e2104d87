/**
 * `upload_recursive` of both WinINet clients: walk a local directory in iteration
 * order, skip excluded names, create each remote directory with
 * `ensure_remote_path` before descending into it, put each file, and stop at the
 * first rejected transfer. The two clients differ only in their exclusion list.
 */
module Upload {
  import opened Base
  import opened Paths
  import opened Steps
  import opened EnsurePath
  import opened Exclusion

  /**
   * The steps and the result of `upload_recursive(local, remote)` when the local
   * directory holds `es`, the server answers as `srv` and `h` came before: the
   * entries in order, stopping at the first one that fails.
   */
  function Walk(excl: string -> bool, srv: Server, h: seq<Step>, es: seq<Entry>, remote: string): (seq<Step>, bool)
    decreases es
  {
    if es == [] then ([], true)
    else
      var r := Visit(excl, srv, h, es[0], remote);
      if !r.1 then r else Prepend(r.0, Walk(excl, srv, h + r.0, es[1..], remote))
  }

  /**
   * One iteration of the loop of `upload_recursive`: nothing for an excluded name;
   * a put of `remote/name` for a file; for a directory, `ensure_remote_path` on
   * `remote/name` and then the walk of its contents.
   */
  function Visit(excl: string -> bool, srv: Server, h: seq<Step>, e: Entry, remote: string): (seq<Step>, bool)
    decreases e
  {
    if excl(e.name) then ([], true)
    else
      var path := remote + "/" + e.name;
      match e
      case File(_, _) =>
        var st := Step(Put(path), srv(h, Put(path)));
        ([st], st.ok)
      case Dir(_, kids) =>
        var mk := Ensure(srv, h, path);
        Prepend(mk, Walk(excl, srv, h + mk, kids, path))
  }

  /** `upload_recursive` of ftp_client.cpp. */
  function WalkV1(srv: Server, h: seq<Step>, es: seq<Entry>, remote: string): (seq<Step>, bool)
  {
    Walk(ExcludedV1, srv, h, es, remote)
  }

  /** `upload_recursive` of ftp_client_v2.cpp. */
  function WalkV2(srv: Server, h: seq<Step>, es: seq<Entry>, remote: string): (seq<Step>, bool)
  {
    Walk(ExcludedV2, srv, h, es, remote)
  }

  /** The iterator loop of `upload_recursive`, returning as soon as a put or a sub-walk fails. */
  method UploadRecursive(excl: string -> bool, srv: Server, h: seq<Step>, es: seq<Entry>, remote: string)
    returns (steps: seq<Step>, ok: bool)
    ensures (steps, ok) == Walk(excl, srv, h, es, remote)
    decreases es
  {
    steps := [];
    var i := 0;
    assert es[0..] == es && h + [] == h;
    PrependAssoc([], [], Walk(excl, srv, h, es, remote));
    while i < |es|
      invariant i <= |es|
      invariant Walk(excl, srv, h, es, remote) == Prepend(steps, Walk(excl, srv, h + steps, es[i..], remote))
    {
      assert es[i..][0] == es[i] && es[i..][1..] == es[i + 1..];
      var t, entryOk := UploadEntry(excl, srv, h + steps, es[i], remote);
      if !entryOk {
        steps := steps + t;
        return steps, false;
      }
      assert h + steps + t == h + (steps + t);
      PrependAssoc(steps, t, Walk(excl, srv, h + (steps + t), es[i + 1..], remote));
      steps := steps + t;
      i := i + 1;
    }
    assert es[i..] == [] && steps + [] == steps;
    return steps, true;
  }

  /** The body of the loop of `upload_recursive` for one directory entry. */
  method UploadEntry(excl: string -> bool, srv: Server, h: seq<Step>, e: Entry, remote: string)
    returns (steps: seq<Step>, ok: bool)
    ensures (steps, ok) == Visit(excl, srv, h, e, remote)
    decreases e
  {
    if excl(e.name) {
      return [], true;
    }
    var path := remote + "/" + e.name;
    if e.Dir? {
      var mk := EnsureRemotePath(srv, h, path);
      var sub, subOk := UploadRecursive(excl, srv, h + mk, e.children, path);
      return mk + sub, subOk;
    }
    ok := srv(h, Put(path));
    steps := [Step(Put(path), ok)];
  }

  // ---------------------------------------------------------------- exclusion

  /** The tree with every excluded entry, and everything beneath it, removed. */
  function Prune(excl: string -> bool, es: seq<Entry>): (r: seq<Entry>)
    decreases es
  {
    if es == [] then []
    else (if excl(es[0].name) then [] else [PruneEntry(excl, es[0])]) + Prune(excl, es[1..])
  }

  function PruneEntry(excl: string -> bool, e: Entry): Entry
    decreases e
  {
    match e
    case File(_, _) => e
    case Dir(n, kids) => Dir(n, Prune(excl, kids))
  }

  /**
   * Excluded names are invisible to the upload: it takes the same steps, with the
   * same result, on the tree from which every excluded entry and its whole
   * subtree has been removed.
   */
  lemma {:induction false} WalkIgnoresExcluded(excl: string -> bool, srv: Server, h: seq<Step>, es: seq<Entry>, remote: string)
    ensures Walk(excl, srv, h, es, remote) == Walk(excl, srv, h, Prune(excl, es), remote)
    decreases es
  {
    if es != [] {
      var p := Prune(excl, es);
      var r := Visit(excl, srv, h, es[0], remote);
      if excl(es[0].name) {
        assert p == Prune(excl, es[1..]);
        assert h + r.0 == h;
        PrependAssoc([], [], Walk(excl, srv, h, es[1..], remote));
        WalkIgnoresExcluded(excl, srv, h, es[1..], remote);
      } else {
        var e := PruneEntry(excl, es[0]);
        assert p == [e] + Prune(excl, es[1..]);
        assert p[0] == e && p[1..] == Prune(excl, es[1..]);
        VisitIgnoresExcluded(excl, srv, h, es[0], remote);
        WalkIgnoresExcluded(excl, srv, h + r.0, es[1..], remote);
      }
    }
  }

  lemma {:induction false} VisitIgnoresExcluded(excl: string -> bool, srv: Server, h: seq<Step>, e: Entry, remote: string)
    ensures Visit(excl, srv, h, e, remote) == Visit(excl, srv, h, PruneEntry(excl, e), remote)
    decreases e
  {
    if !excl(e.name) && e.Dir? {
      var path := remote + "/" + e.name;
      WalkIgnoresExcluded(excl, srv, h + Ensure(srv, h, path), e.children, path);
    }
  }

  // ---------------------------------------------------------------- fail-fast

  /** Every put in `t` was accepted. */
  predicate PutsOk(t: seq<Step>)
  {
    forall k :: 0 <= k < |t| && t[k].call.Put? ==> t[k].ok
  }

  lemma PutsOkConcat(a: seq<Step>, b: seq<Step>)
    ensures PutsOk(a + b) <==> PutsOk(a) && PutsOk(b)
  {
    if PutsOk(a) && PutsOk(b) {
      forall k | 0 <= k < |a + b| && (a + b)[k].call.Put? ensures (a + b)[k].ok {
        if k < |a| { assert (a + b)[k] == a[k]; } else { assert (a + b)[k] == b[k - |a|]; }
      }
    }
    if PutsOk(a + b) {
      forall k | 0 <= k < |a| && a[k].call.Put? ensures a[k].ok {
        assert (a + b)[k] == a[k];
      }
      forall k | 0 <= k < |b| && b[k].call.Put? ensures b[k].ok {
        assert (a + b)[|a| + k] == b[k];
      }
    }
  }

  /** The creates of `ensure_remote_path` are never puts. */
  lemma EnsureHasNoPut(srv: Server, h: seq<Step>, p: string)
    ensures PutsOk(Ensure(srv, h, p))
  {
    EnsureCalls(srv, h, p);
  }

  /**
   * Fail-fast: the upload succeeds exactly when every put it attempted was
   * accepted (rejected creates do not count), and a failed upload stops right
   * after the rejected put, which is its last step.
   */
  lemma {:induction false} WalkFailFast(excl: string -> bool, srv: Server, h: seq<Step>, es: seq<Entry>, remote: string)
    ensures var (t, ok) := Walk(excl, srv, h, es, remote);
      (ok <==> PutsOk(t)) &&
      (!ok ==> |t| > 0 && t[|t| - 1].call.Put? && !t[|t| - 1].ok)
    decreases es
  {
    if es != [] {
      var r := Visit(excl, srv, h, es[0], remote);
      VisitFailFast(excl, srv, h, es[0], remote);
      if r.1 {
        var w := Walk(excl, srv, h + r.0, es[1..], remote);
        WalkFailFast(excl, srv, h + r.0, es[1..], remote);
        PutsOkConcat(r.0, w.0);
        if !w.1 {
          assert (r.0 + w.0)[|r.0 + w.0| - 1] == w.0[|w.0| - 1];
        }
      }
    }
  }

  lemma {:induction false} VisitFailFast(excl: string -> bool, srv: Server, h: seq<Step>, e: Entry, remote: string)
    ensures var (t, ok) := Visit(excl, srv, h, e, remote);
      (ok <==> PutsOk(t)) &&
      (!ok ==> |t| > 0 && t[|t| - 1].call.Put? && !t[|t| - 1].ok)
    decreases e
  {
    if excl(e.name) {
    } else if e.File? {
      var t := Visit(excl, srv, h, e, remote).0;
      assert |t| == 1 && t[0].call.Put?;
    } else {
      var path := remote + "/" + e.name;
      var mk := Ensure(srv, h, path);
      var w := Walk(excl, srv, h + mk, e.children, path);
      WalkFailFast(excl, srv, h + mk, e.children, path);
      EnsureHasNoPut(srv, h, path);
      PutsOkConcat(mk, w.0);
      if !w.1 {
        assert (mk + w.0)[|mk + w.0| - 1] == w.0[|w.0| - 1];
      }
    }
  }

  // ---------------------------------------------------------------- the plan

  /**
   * The calls an upload makes when nothing fails, defined from the tree alone:
   * for each kept entry in order, a put of `remote/name`, or the chain of creates
   * for `remote/name` followed by the plan of the directory's contents.
   */
  function Plan(excl: string -> bool, es: seq<Entry>, remote: string): seq<Call>
    decreases es
  {
    if es == [] then [] else PlanEntry(excl, es[0], remote) + Plan(excl, es[1..], remote)
  }

  function PlanEntry(excl: string -> bool, e: Entry, remote: string): seq<Call>
    decreases e
  {
    if excl(e.name) then []
    else
      var path := remote + "/" + e.name;
      match e
      case File(_, _) => [Put(path)]
      case Dir(_, kids) => MkdChain(Segments(path)) + Plan(excl, kids, path)
  }

  /**
   * Whatever the server answers, the upload's calls are a prefix of the plan, and
   * all of it when the upload succeeds: failures only cut the plan short.
   */
  lemma {:induction false} WalkFollowsPlan(excl: string -> bool, srv: Server, h: seq<Step>, es: seq<Entry>, remote: string)
    ensures Calls(Walk(excl, srv, h, es, remote).0) <= Plan(excl, es, remote)
    ensures Walk(excl, srv, h, es, remote).1 ==> Calls(Walk(excl, srv, h, es, remote).0) == Plan(excl, es, remote)
    decreases es
  {
    if es != [] {
      var r := Visit(excl, srv, h, es[0], remote);
      VisitFollowsPlan(excl, srv, h, es[0], remote);
      var pe, pr := PlanEntry(excl, es[0], remote), Plan(excl, es[1..], remote);
      if r.1 {
        var w := Walk(excl, srv, h + r.0, es[1..], remote);
        WalkFollowsPlan(excl, srv, h + r.0, es[1..], remote);
        CallsConcat(r.0, w.0);
        PrefixConcat(Calls(w.0), pr, pe, []);
        assert pe + pr + [] == pe + pr;
      } else {
        PrefixConcat(Calls(r.0), pe, [], pr);
      }
    }
  }

  lemma {:induction false} VisitFollowsPlan(excl: string -> bool, srv: Server, h: seq<Step>, e: Entry, remote: string)
    ensures Calls(Visit(excl, srv, h, e, remote).0) <= PlanEntry(excl, e, remote)
    ensures Visit(excl, srv, h, e, remote).1 ==> Calls(Visit(excl, srv, h, e, remote).0) == PlanEntry(excl, e, remote)
    decreases e
  {
    if !excl(e.name) && e.Dir? {
      var path := remote + "/" + e.name;
      var mk := Ensure(srv, h, path);
      var w := Walk(excl, srv, h + mk, e.children, path);
      WalkFollowsPlan(excl, srv, h + mk, e.children, path);
      EnsurePlan(srv, h, path);
      CallsConcat(mk, w.0);
      PrefixConcat(Calls(w.0), Plan(excl, e.children, path), Calls(mk), []);
      assert Calls(mk) + Plan(excl, e.children, path) + [] == Calls(mk) + Plan(excl, e.children, path);
    }
  }

  // ---------------------------------------------------------------- the shape

  /** Every name in the tree is a real file name: non-empty and free of '/'. */
  predicate WellNamed(es: seq<Entry>)
    decreases es
  {
    forall k :: 0 <= k < |es| ==> IsName(es[k].name) && (es[k].Dir? ==> WellNamed(es[k].children))
  }

  /**
   * Call `j` of `cs` is where an upload into the directory with segments `base` may
   * go: either it re-creates an ancestor of `base` (or `base` itself), or its path
   * lies strictly inside `base`, passes through no excluded name, and, unless it
   * is directly inside `base`, an earlier call created the directory holding it.
   */
  predicate Placed(cs: seq<Call>, j: nat, base: seq<string>, excl: string -> bool)
    requires j < |cs|
  {
    var s := Segments(Arg(cs[j]));
    (cs[j].Mkd? && s <= base) ||
    (|s| > |base| && s[..|base|] == base &&
     (forall k :: |base| <= k < |s| ==> !excl(s[k])) &&
     (|s| > |base| + 1 ==> exists i :: 0 <= i < j && cs[i] == Mkd(Join(s[..|s| - 1]))))
  }

  predicate Shaped(cs: seq<Call>, base: seq<string>, excl: string -> bool)
  {
    forall j :: 0 <= j < |cs| ==> Placed(cs, j, base, excl)
  }

  lemma ShapedConcat(a: seq<Call>, c: seq<Call>, base: seq<string>, excl: string -> bool)
    requires Shaped(a, base, excl) && Shaped(c, base, excl)
    ensures Shaped(a + c, base, excl)
  {
    var ac := a + c;
    forall j | 0 <= j < |ac| ensures Placed(ac, j, base, excl) {
      if j < |a| {
        assert ac[j] == a[j];
        assert Placed(a, j, base, excl);
        var s := Segments(Arg(a[j]));
        if !(a[j].Mkd? && s <= base) && |s| > |base| + 1 {
          var i :| 0 <= i < j && a[i] == Mkd(Join(s[..|s| - 1]));
          assert ac[i] == a[i];
        }
      } else {
        var j' := j - |a|;
        assert ac[j] == c[j'];
        assert Placed(c, j', base, excl);
        var s := Segments(Arg(c[j']));
        if !(c[j'].Mkd? && s <= base) && |s| > |base| + 1 {
          var i :| 0 <= i < j' && c[i] == Mkd(Join(s[..|s| - 1]));
          assert ac[i + |a|] == c[i];
        }
      }
    }
  }

  /** The creates of `MkdChain(base + [name])` are each placed for `base`. */
  lemma PlacedChain(cs: seq<Call>, base: seq<string>, name: string, excl: string -> bool, j: nat)
    requires AllNames(base) && IsName(name) && !excl(name)
    requires j < |MkdChain(base + [name])|
    ensures Placed(MkdChain(base + [name]) + cs, j, base, excl)
  {
    var d := base + [name];
    var m := MkdChain(d);
    MkdChainAt(d);
    assert AllNames(d);
    var all := m + cs;
    assert all[j] == m[j] == Mkd(Join(d[..j + 1]));
    assert AllNames(d[..j + 1]);
    SegmentsOfJoin(d[..j + 1]);
    if j < |base| {
      assert d[..j + 1] == base[..j + 1];
    } else {
      assert d[..j + 1] == d;
    }
  }

  /** A call placed for `base + [name]` after the creates of that directory is placed for `base`. */
  lemma PlacedInside(cs: seq<Call>, base: seq<string>, name: string, excl: string -> bool, j': nat)
    requires AllNames(base) && IsName(name) && !excl(name)
    requires j' < |cs| && Placed(cs, j', base + [name], excl)
    ensures Placed(MkdChain(base + [name]) + cs, j' + |MkdChain(base + [name])|, base, excl)
  {
    var d := base + [name];
    var m := MkdChain(d);
    MkdChainAt(d);
    var all := m + cs;
    var j := j' + |m|;
    assert all[j] == cs[j'];
    var s := Segments(Arg(cs[j']));
    if cs[j'].Mkd? && s <= d {
      if |s| <= |base| {
        assert s == d[..|s|] == base[..|s|];
      } else {
        assert s == d;
      }
    } else {
      assert s[..|base|] == s[..|d|][..|base|];
      assert s[|base|] == s[..|d|][|base|];
      if |s| > |d| + 1 {
        var i :| 0 <= i < j' && cs[i] == Mkd(Join(s[..|s| - 1]));
        assert all[i + |m|] == cs[i];
      } else if |s| == |d| + 1 {
        assert s[..|s| - 1] == d;
        assert d[..|base| + 1] == d;
        assert all[|base|] == m[|base|];
      }
    }
  }

  /**
   * Descending into `name`: the creates for `base + [name]` followed by calls
   * shaped for that directory are shaped for `base`.
   */
  lemma ShapedDescend(cs: seq<Call>, base: seq<string>, name: string, excl: string -> bool)
    requires AllNames(base) && IsName(name) && !excl(name)
    requires Shaped(cs, base + [name], excl)
    ensures Shaped(MkdChain(base + [name]) + cs, base, excl)
  {
    var m := MkdChain(base + [name]);
    forall j | 0 <= j < |m + cs| ensures Placed(m + cs, j, base, excl) {
      if j < |m| {
        PlacedChain(cs, base, name, excl, j);
      } else {
        PlacedInside(cs, base, name, excl, j - |m|);
      }
    }
  }

  /**
   * The plan is shaped for the directory it uploads into: apart from re-creating
   * that directory's ancestors, every call lies strictly inside it, no path passes
   * through an excluded name, and every directory below the top is created
   * before anything inside it.
   */
  lemma {:induction false} PlanShaped(excl: string -> bool, es: seq<Entry>, remote: string)
    requires WellNamed(es)
    ensures Shaped(Plan(excl, es, remote), Segments(remote), excl)
    decreases es
  {
    if es != [] {
      PlanEntryShaped(excl, es[0], remote);
      PlanShaped(excl, es[1..], remote);
      ShapedConcat(PlanEntry(excl, es[0], remote), Plan(excl, es[1..], remote), Segments(remote), excl);
    }
  }

  lemma {:induction false} PlanEntryShaped(excl: string -> bool, e: Entry, remote: string)
    requires IsName(e.name) && (e.Dir? ==> WellNamed(e.children))
    ensures Shaped(PlanEntry(excl, e, remote), Segments(remote), excl)
    decreases e
  {
    if !excl(e.name) {
      var path := remote + "/" + e.name;
      SegmentsOfChild(remote, e.name);
      SegmentsAreNames(remote);
      var base := Segments(remote);
      if e.File? {
        var cs := PlanEntry(excl, e, remote);
        assert cs == [Put(path)];
        assert Segments(Arg(cs[0])) == base + [e.name];
        assert (base + [e.name])[..|base|] == base;
        assert Placed(cs, 0, base, excl);
      } else {
        PlanShaped(excl, e.children, path);
        ShapedDescend(Plan(excl, e.children, path), base, e.name, excl);
      }
    }
  }

  lemma ShapedPrefix(a: seq<Call>, b: seq<Call>, base: seq<string>, excl: string -> bool)
    requires a <= b && Shaped(b, base, excl)
    ensures Shaped(a, base, excl)
  {
    forall j | 0 <= j < |a| ensures Placed(a, j, base, excl) {
      assert a[j] == b[j];
      assert Placed(b, j, base, excl);
      var s := Segments(Arg(b[j]));
      if !(b[j].Mkd? && s <= base) && |s| > |base| + 1 {
        var i :| 0 <= i < j && b[i] == Mkd(Join(s[..|s| - 1]));
        assert a[i] == b[i];
      }
    }
  }

  /**
   * The shape of a real upload, whatever the server answers: it touches nothing
   * outside the target directory except the ancestors `ensure_remote_path`
   * re-creates, never a path through an excluded name, and creates every
   * subdirectory before any put or create inside it.
   */
  lemma WalkShaped(excl: string -> bool, srv: Server, h: seq<Step>, es: seq<Entry>, remote: string)
    requires WellNamed(es)
    ensures Shaped(Calls(Walk(excl, srv, h, es, remote).0), Segments(remote), excl)
  {
    WalkFollowsPlan(excl, srv, h, es, remote);
    PlanShaped(excl, es, remote);
    ShapedPrefix(Calls(Walk(excl, srv, h, es, remote).0), Plan(excl, es, remote), Segments(remote), excl);
  }

  // ---------------------------------------------------------------- the two clients

  /** The first client uploads its own log file; the second skips it. */
  lemma LogFileOnlyUploadedByV1(srv: Server, h: seq<Step>)
    ensures WalkV1(srv, h, [File("ftp.log", Readable("x"))], "/site").0 == [Step(Put("/site/ftp.log"), srv(h, Put("/site/ftp.log")))]
    ensures WalkV2(srv, h, [File("ftp.log", Readable("x"))], "/site") == ([], true)
  {
    var es := [File("ftp.log", Readable("x"))];
    assert !ExcludedV1("ftp.log") && ExcludedV2("ftp.log");
    assert es[1..] == [];
    assert Visit(ExcludedV2, srv, h, es[0], "/site") == ([], true);
    assert h + [] == h;
    assert Walk(ExcludedV2, srv, h, es[1..], "/site") == ([], true);
    PrependAssoc([], [], ([], true));
    assert "/site" + "/" + "ftp.log" == "/site/ftp.log";
  }

  /** A rejected first put ends the upload before the second file is tried. */
  lemma RejectedPutStopsSiblings(srv: Server, h: seq<Step>)
    requires !srv(h, Put("/site/a.txt"))
    ensures WalkV2(srv, h, [File("a.txt", Readable("1")), File("b.txt", Readable("2"))], "/site") ==
      ([Step(Put("/site/a.txt"), false)], false)
  {
    assert "/site" + "/" + "a.txt" == "/site/a.txt";
  }
}
