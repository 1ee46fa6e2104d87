/**
 * `download_recursive` of both WinINet clients: list a remote directory, skip the
 * `.` and `..` entries, fetch each file into `local\name`, create `local\name` and
 * descend for each directory. The second client carries on past every failure
 * and always reports success; the first stops at the first failure.
 */
module Download {
  import opened Base
  import opened Paths
  import opened Steps

  /** The local path of a child: `local + "\\" + name`. */
  function LocalChild(local: string, name: string): string
  {
    local + "\\" + name
  }

  // ---------------------------------------------------------------- ftp_client_v2.cpp

  /**
   * The steps of `download_recursive(remote, local)` in ftp_client_v2.cpp when the
   * directory lists as `l`. Its result is always true, so only the steps are kept.
   */
  function DownV2(srv: Server, h: seq<Step>, remote: string, local: string, l: Listing): seq<Step>
    decreases l
  {
    var find := Step(Find(PatternV2(remote)), l.Listed?);
    if !l.Listed? then [find]
    else [find] + EntriesV2(srv, h + [find], remote, local, l.entries)
  }

  /** The do-while over the listed entries: every entry is visited whatever happened before. */
  function EntriesV2(srv: Server, h: seq<Step>, remote: string, local: string, es: seq<RemoteEntry>): seq<Step>
    decreases es
  {
    if es == [] then []
    else
      var t := EntryV2(srv, h, remote, local, es[0]);
      t + EntriesV2(srv, h + t, remote, local, es[1..])
  }

  /** One iteration: skip dots; fetch a file; create the local directory and descend into a directory. */
  function EntryV2(srv: Server, h: seq<Step>, remote: string, local: string, e: RemoteEntry): seq<Step>
    decreases e
  {
    if IsDot(e.name) then []
    else
      var rp, lp := ChildV2(remote, e.name), LocalChild(local, e.name);
      match e
      case RemoteFile(_) => [Step(Get(rp, lp), srv(h, Get(rp, lp)))]
      case RemoteDir(_, sub) =>
        var mk := Step(LocalMkdir(lp), srv(h, LocalMkdir(lp)));
        [mk] + DownV2(srv, h + [mk], rp, lp, sub)
  }

  /** `download_recursive` of ftp_client_v2.cpp. */
  method DownloadRecursiveV2(srv: Server, h: seq<Step>, remote: string, local: string, l: Listing)
    returns (steps: seq<Step>, ok: bool)
    ensures steps == DownV2(srv, h, remote, local, l)
    ensures ok
    decreases l
  {
    var find := Step(Find(PatternV2(remote)), l.Listed?);
    steps := [find];
    if !l.Listed? {
      return steps, true;
    }
    var es := l.entries;
    var i := 0;
    assert es[0..] == es;
    while i < |es|
      invariant i <= |es|
      invariant DownV2(srv, h, remote, local, l) == steps + EntriesV2(srv, h + steps, remote, local, es[i..])
    {
      assert es[i..][0] == es[i] && es[i..][1..] == es[i + 1..];
      var t := DownloadEntryV2(srv, h + steps, remote, local, es[i]);
      assert h + steps + t == h + (steps + t);
      assert steps + (t + EntriesV2(srv, h + (steps + t), remote, local, es[i + 1..])) ==
        (steps + t) + EntriesV2(srv, h + (steps + t), remote, local, es[i + 1..]);
      steps := steps + t;
      i := i + 1;
    }
    assert es[i..] == [] && steps + [] == steps;
    return steps, true;
  }

  method DownloadEntryV2(srv: Server, h: seq<Step>, remote: string, local: string, e: RemoteEntry)
    returns (steps: seq<Step>)
    ensures steps == EntryV2(srv, h, remote, local, e)
    decreases e
  {
    if IsDot(e.name) {
      return [];
    }
    var rp, lp := ChildV2(remote, e.name), LocalChild(local, e.name);
    if e.RemoteDir? {
      var mk := Step(LocalMkdir(lp), srv(h, LocalMkdir(lp)));
      var sub, _ := DownloadRecursiveV2(srv, h + [mk], rp, lp, e.listing);
      return [mk] + sub;
    }
    steps := [Step(Get(rp, lp), srv(h, Get(rp, lp)))];
  }

  /**
   * The calls of the second client, defined from the listing alone: a search of
   * the directory, then for each entry other than `.` and `..` a fetch, or a local
   * create followed by the calls for the subdirectory.
   */
  function PlanV2(remote: string, local: string, l: Listing): seq<Call>
    decreases l
  {
    [Find(PatternV2(remote))] + (if l.Listed? then PlanEntriesV2(remote, local, l.entries) else [])
  }

  function PlanEntriesV2(remote: string, local: string, es: seq<RemoteEntry>): seq<Call>
    decreases es
  {
    if es == [] then [] else PlanEntryV2(remote, local, es[0]) + PlanEntriesV2(remote, local, es[1..])
  }

  function PlanEntryV2(remote: string, local: string, e: RemoteEntry): seq<Call>
    decreases e
  {
    if IsDot(e.name) then []
    else
      var rp, lp := ChildV2(remote, e.name), LocalChild(local, e.name);
      match e
      case RemoteFile(_) => [Get(rp, lp)]
      case RemoteDir(_, sub) => [LocalMkdir(lp)] + PlanV2(rp, lp, sub)
  }

  /**
   * Fail-soft: whatever the server answers — failed listings, failed fetches,
   * failed local creates — the second client makes every call of the plan, so a
   * failure never keeps a later sibling or directory from being tried.
   */
  lemma {:induction false} DownV2MakesEveryCall(srv: Server, h: seq<Step>, remote: string, local: string, l: Listing)
    ensures Calls(DownV2(srv, h, remote, local, l)) == PlanV2(remote, local, l)
    decreases l
  {
    var find := Step(Find(PatternV2(remote)), l.Listed?);
    if l.Listed? {
      EntriesV2MakeEveryCall(srv, h + [find], remote, local, l.entries);
      CallsConcat([find], EntriesV2(srv, h + [find], remote, local, l.entries));
    }
  }

  lemma {:induction false} EntriesV2MakeEveryCall(srv: Server, h: seq<Step>, remote: string, local: string, es: seq<RemoteEntry>)
    ensures Calls(EntriesV2(srv, h, remote, local, es)) == PlanEntriesV2(remote, local, es)
    decreases es
  {
    if es != [] {
      var t := EntryV2(srv, h, remote, local, es[0]);
      EntryV2MakesEveryCall(srv, h, remote, local, es[0]);
      EntriesV2MakeEveryCall(srv, h + t, remote, local, es[1..]);
      CallsConcat(t, EntriesV2(srv, h + t, remote, local, es[1..]));
    }
  }

  lemma {:induction false} EntryV2MakesEveryCall(srv: Server, h: seq<Step>, remote: string, local: string, e: RemoteEntry)
    ensures Calls(EntryV2(srv, h, remote, local, e)) == PlanEntryV2(remote, local, e)
    decreases e
  {
    if !IsDot(e.name) && e.RemoteDir? {
      var rp, lp := ChildV2(remote, e.name), LocalChild(local, e.name);
      var mk := Step(LocalMkdir(lp), srv(h, LocalMkdir(lp)));
      DownV2MakesEveryCall(srv, h + [mk], rp, lp, e.listing);
      CallsConcat([mk], DownV2(srv, h + [mk], rp, lp, e.listing));
    }
  }

  // ---------------------------------------------------------------- ftp_client.cpp

  /**
   * The steps and the result of `download_recursive(remote, local)` in
   * ftp_client.cpp: any failed listing (an empty directory included), fetch or
   * sub-walk ends the walk with false.
   */
  function DownV1(srv: Server, h: seq<Step>, remote: string, local: string, l: Listing): (seq<Step>, bool)
    decreases l
  {
    var find := Step(Find(remote + "/*"), l.Listed?);
    if !l.Listed? then ([find], false)
    else Prepend([find], EntriesV1(srv, h + [find], remote, local, l.entries))
  }

  function EntriesV1(srv: Server, h: seq<Step>, remote: string, local: string, es: seq<RemoteEntry>): (seq<Step>, bool)
    decreases es
  {
    if es == [] then ([], true)
    else
      var r := EntryV1(srv, h, remote, local, es[0]);
      if !r.1 then r else Prepend(r.0, EntriesV1(srv, h + r.0, remote, local, es[1..]))
  }

  function EntryV1(srv: Server, h: seq<Step>, remote: string, local: string, e: RemoteEntry): (seq<Step>, bool)
    decreases e
  {
    if IsDot(e.name) then ([], true)
    else
      var rp, lp := remote + "/" + e.name, LocalChild(local, e.name);
      match e
      case RemoteFile(_) =>
        var st := Step(Get(rp, lp), srv(h, Get(rp, lp)));
        ([st], st.ok)
      case RemoteDir(_, sub) =>
        var mk := Step(LocalMkdir(lp), srv(h, LocalMkdir(lp)));
        Prepend([mk], DownV1(srv, h + [mk], rp, lp, sub))
  }

  /** `download_recursive` of ftp_client.cpp. */
  method DownloadRecursiveV1(srv: Server, h: seq<Step>, remote: string, local: string, l: Listing)
    returns (steps: seq<Step>, ok: bool)
    ensures (steps, ok) == DownV1(srv, h, remote, local, l)
    decreases l
  {
    var find := Step(Find(remote + "/*"), l.Listed?);
    steps := [find];
    if !l.Listed? {
      return steps, false;
    }
    var es := l.entries;
    var i := 0;
    assert es[0..] == es;
    PrependAssoc([], [find], EntriesV1(srv, h + [find], remote, local, es));
    while i < |es|
      invariant i <= |es|
      invariant DownV1(srv, h, remote, local, l) == Prepend(steps, EntriesV1(srv, h + steps, remote, local, es[i..]))
    {
      assert es[i..][0] == es[i] && es[i..][1..] == es[i + 1..];
      var t, entryOk := DownloadEntryV1(srv, h + steps, remote, local, es[i]);
      if !entryOk {
        steps := steps + t;
        return steps, false;
      }
      assert h + steps + t == h + (steps + t);
      PrependAssoc(steps, t, EntriesV1(srv, h + (steps + t), remote, local, es[i + 1..]));
      steps := steps + t;
      i := i + 1;
    }
    assert es[i..] == [] && steps + [] == steps;
    return steps, true;
  }

  method DownloadEntryV1(srv: Server, h: seq<Step>, remote: string, local: string, e: RemoteEntry)
    returns (steps: seq<Step>, ok: bool)
    ensures (steps, ok) == EntryV1(srv, h, remote, local, e)
    decreases e
  {
    if IsDot(e.name) {
      return [], true;
    }
    var rp, lp := remote + "/" + e.name, LocalChild(local, e.name);
    if e.RemoteDir? {
      var mk := Step(LocalMkdir(lp), srv(h, LocalMkdir(lp)));
      var sub, subOk := DownloadRecursiveV1(srv, h + [mk], rp, lp, e.listing);
      return [mk] + sub, subOk;
    }
    ok := srv(h, Get(rp, lp));
    steps := [Step(Get(rp, lp), ok)];
  }

  // ---------------------------------------------------------------- dots

  /** The listing with every `.` and `..` entry removed, at every level. */
  function StripDots(l: Listing): Listing
    decreases l
  {
    if l.Listed? then Listed(StripDotsIn(l.entries)) else l
  }

  function StripDotsIn(es: seq<RemoteEntry>): (r: seq<RemoteEntry>)
    ensures forall k :: 0 <= k < |r| ==> !IsDot(r[k].name)
    decreases es
  {
    if es == [] then []
    else if IsDot(es[0].name) then StripDotsIn(es[1..])
    else [StripDotsEntry(es[0])] + StripDotsIn(es[1..])
  }

  function StripDotsEntry(e: RemoteEntry): (r: RemoteEntry)
    ensures r.name == e.name
    decreases e
  {
    match e
    case RemoteFile(_) => e
    case RemoteDir(name, sub) => RemoteDir(name, StripDots(sub))
  }

  /**
   * `.` and `..` are invisible to the second client: a listing and the same
   * listing with the dot entries removed at every level give the same steps.
   */
  lemma {:induction false} DownV2SkipsDots(srv: Server, h: seq<Step>, remote: string, local: string, l: Listing)
    ensures DownV2(srv, h, remote, local, l) == DownV2(srv, h, remote, local, StripDots(l))
    decreases l
  {
    if l.Listed? {
      var find := Step(Find(PatternV2(remote)), true);
      EntriesV2SkipDots(srv, h + [find], remote, local, l.entries);
    }
  }

  lemma {:induction false} EntriesV2SkipDots(srv: Server, h: seq<Step>, remote: string, local: string, es: seq<RemoteEntry>)
    ensures EntriesV2(srv, h, remote, local, es) == EntriesV2(srv, h, remote, local, StripDotsIn(es))
    decreases es
  {
    if es != [] {
      EntriesV2SkipDots(srv, h, remote, local, es[1..]);
      if IsDot(es[0].name) {
        assert h + [] == h;
      } else {
        var e' := StripDotsEntry(es[0]);
        EntryV2SkipsDots(srv, h, remote, local, es[0]);
        var t := EntryV2(srv, h, remote, local, es[0]);
        EntriesV2SkipDots(srv, h + t, remote, local, es[1..]);
        var r := [e'] + StripDotsIn(es[1..]);
        assert r[0] == e' && r[1..] == StripDotsIn(es[1..]);
      }
    }
  }

  lemma {:induction false} EntryV2SkipsDots(srv: Server, h: seq<Step>, remote: string, local: string, e: RemoteEntry)
    ensures EntryV2(srv, h, remote, local, e) == EntryV2(srv, h, remote, local, StripDotsEntry(e))
    decreases e
  {
    if !IsDot(e.name) && e.RemoteDir? {
      var rp, lp := ChildV2(remote, e.name), LocalChild(local, e.name);
      var mk := Step(LocalMkdir(lp), srv(h, LocalMkdir(lp)));
      DownV2SkipsDots(srv, h + [mk], rp, lp, e.listing);
    }
  }

  // ---------------------------------------------------------------- the local side

  /** Every name in the listing, at every level, is free of the local separator. */
  predicate LocalNames(l: Listing)
    decreases l
  {
    l.Listed? ==> forall k :: 0 <= k < |l.entries| ==> LocalName(l.entries[k])
  }

  predicate LocalName(e: RemoteEntry)
    decreases e
  {
    '\\' !in e.name && (e.RemoteDir? ==> LocalNames(e.listing))
  }

  /**
   * Call `j` of `cs`, when it writes to the local disk (a fetch or a create),
   * writes strictly inside `local`, and either directly inside it or inside a
   * directory an earlier call created.
   */
  predicate LocalPlaced(cs: seq<Call>, j: nat, local: string)
    requires j < |cs|
  {
    (cs[j].Get? || cs[j].LocalMkdir?) ==>
      var lp := if cs[j].Get? then cs[j].local else cs[j].path;
      Under(lp, local, '\\') &&
      (Parent(lp, '\\') == local || exists i :: 0 <= i < j && cs[i] == LocalMkdir(Parent(lp, '\\')))
  }

  predicate LocalShaped(cs: seq<Call>, local: string)
  {
    forall j :: 0 <= j < |cs| ==> LocalPlaced(cs, j, local)
  }

  lemma LocalShapedConcat(a: seq<Call>, c: seq<Call>, local: string)
    requires LocalShaped(a, local) && LocalShaped(c, local)
    ensures LocalShaped(a + c, local)
  {
    var ac := a + c;
    forall j | 0 <= j < |ac| ensures LocalPlaced(ac, j, local) {
      if j < |a| {
        assert ac[j] == a[j];
        assert LocalPlaced(a, j, local);
        if (a[j].Get? || a[j].LocalMkdir?) {
          var lp := if a[j].Get? then a[j].local else a[j].path;
          if Parent(lp, '\\') != local {
            var i :| 0 <= i < j && a[i] == LocalMkdir(Parent(lp, '\\'));
            assert ac[i] == a[i];
          }
        }
      } else {
        var j' := j - |a|;
        assert ac[j] == c[j'];
        assert LocalPlaced(c, j', local);
        if (c[j'].Get? || c[j'].LocalMkdir?) {
          var lp := if c[j'].Get? then c[j'].local else c[j'].path;
          if Parent(lp, '\\') != local {
            var i :| 0 <= i < j' && c[i] == LocalMkdir(Parent(lp, '\\'));
            assert ac[i + |a|] == c[i];
          }
        }
      }
    }
  }

  /** A directory's create followed by calls shaped inside it are shaped for its parent. */
  lemma LocalShapedDescend(cs: seq<Call>, local: string, name: string)
    requires '\\' !in name
    requires LocalShaped(cs, LocalChild(local, name))
    ensures LocalShaped([LocalMkdir(LocalChild(local, name))] + cs, local)
  {
    var lp := LocalChild(local, name);
    var all := [LocalMkdir(lp)] + cs;
    ParentOfChild(local, '\\', name);
    assert Under(lp, local, '\\') by { assert lp[..|local|] == local; }
    forall j | 0 <= j < |all| ensures LocalPlaced(all, j, local) {
      if j > 0 {
        var j' := j - 1;
        assert all[j] == cs[j'];
        assert LocalPlaced(cs, j', lp);
        if (cs[j'].Get? || cs[j'].LocalMkdir?) {
          var q := if cs[j'].Get? then cs[j'].local else cs[j'].path;
          UnderChild(q, local, '\\', name);
          if Parent(q, '\\') == lp {
            assert all[0] == LocalMkdir(lp);
          } else {
            var i :| 0 <= i < j' && cs[i] == LocalMkdir(Parent(q, '\\'));
            assert all[i + 1] == cs[i];
          }
        }
      }
    }
  }

  /**
   * Parent first on the local disk: every fetch and every create of the second
   * client lands strictly inside the target directory, and every one below the
   * top level lands in a directory created earlier.
   */
  lemma {:induction false} PlanV2LocalShaped(remote: string, local: string, l: Listing)
    requires LocalNames(l)
    ensures LocalShaped(PlanV2(remote, local, l), local)
    decreases l
  {
    var find := [Find(PatternV2(remote))];
    assert LocalPlaced(find, 0, local);
    if l.Listed? {
      PlanEntriesV2LocalShaped(remote, local, l.entries);
      LocalShapedConcat(find, PlanEntriesV2(remote, local, l.entries), local);
    } else {
      assert find + [] == find;
    }
  }

  lemma {:induction false} PlanEntriesV2LocalShaped(remote: string, local: string, es: seq<RemoteEntry>)
    requires forall k :: 0 <= k < |es| ==> LocalName(es[k])
    ensures LocalShaped(PlanEntriesV2(remote, local, es), local)
    decreases es
  {
    if es != [] {
      PlanEntryV2LocalShaped(remote, local, es[0]);
      PlanEntriesV2LocalShaped(remote, local, es[1..]);
      LocalShapedConcat(PlanEntryV2(remote, local, es[0]), PlanEntriesV2(remote, local, es[1..]), local);
    }
  }

  lemma {:induction false} PlanEntryV2LocalShaped(remote: string, local: string, e: RemoteEntry)
    requires LocalName(e)
    ensures LocalShaped(PlanEntryV2(remote, local, e), local)
    decreases e
  {
    if !IsDot(e.name) {
      var rp, lp := ChildV2(remote, e.name), LocalChild(local, e.name);
      if e.RemoteFile? {
        ParentOfChild(local, '\\', e.name);
        assert lp[..|local|] == local;
        assert LocalPlaced([Get(rp, lp)], 0, local);
      } else {
        PlanV2LocalShaped(rp, lp, e.listing);
        LocalShapedDescend(PlanV2(rp, lp, e.listing), local, e.name);
      }
    }
  }

  lemma LocalShapedPrefix(a: seq<Call>, b: seq<Call>, local: string)
    requires a <= b && LocalShaped(b, local)
    ensures LocalShaped(a, local)
  {
    forall j | 0 <= j < |a| ensures LocalPlaced(a, j, local) {
      assert a[j] == b[j];
      assert LocalPlaced(b, j, local);
      if (b[j].Get? || b[j].LocalMkdir?) {
        var lp := if b[j].Get? then b[j].local else b[j].path;
        if Parent(lp, '\\') != local {
          var i :| 0 <= i < j && b[i] == LocalMkdir(Parent(lp, '\\'));
          assert a[i] == b[i];
        }
      }
    }
  }

  /** The local shape of a real download by the second client, whatever the server answers. */
  lemma DownV2LocalShaped(srv: Server, h: seq<Step>, remote: string, local: string, l: Listing)
    requires LocalNames(l)
    ensures LocalShaped(Calls(DownV2(srv, h, remote, local, l)), local)
  {
    DownV2MakesEveryCall(srv, h, remote, local, l);
    PlanV2LocalShaped(remote, local, l);
  }

  // ---------------------------------------------------------------- the first client

  /** Every listing and every fetch in `t` succeeded; local creates are not looked at. */
  predicate FetchesOk(t: seq<Step>)
  {
    forall k :: 0 <= k < |t| && (t[k].call.Find? || t[k].call.Get?) ==> t[k].ok
  }

  lemma FetchesOkConcat(a: seq<Step>, b: seq<Step>)
    ensures FetchesOk(a + b) <==> FetchesOk(a) && FetchesOk(b)
  {
    if FetchesOk(a) && FetchesOk(b) {
      forall k | 0 <= k < |a + b| && ((a + b)[k].call.Find? || (a + b)[k].call.Get?) ensures (a + b)[k].ok {
        if k < |a| { assert (a + b)[k] == a[k]; } else { assert (a + b)[k] == b[k - |a|]; }
      }
    }
    if FetchesOk(a + b) {
      forall k | 0 <= k < |a| && (a[k].call.Find? || a[k].call.Get?) ensures a[k].ok {
        assert (a + b)[k] == a[k];
      }
      forall k | 0 <= k < |b| && (b[k].call.Find? || b[k].call.Get?) ensures b[k].ok {
        assert (a + b)[|a| + k] == b[k];
      }
    }
  }

  /** A step that ends a download of the first client: a failed listing or a failed fetch. */
  predicate FailedFetch(st: Step)
  {
    (st.call.Find? || st.call.Get?) && !st.ok
  }

  /**
   * Fail-fast: the first client succeeds exactly when every listing (an empty
   * directory's included) and every fetch succeeded, and a failed download stops
   * right after the failed listing or fetch, which is its last step.
   */
  lemma {:induction false} DownV1FailFast(srv: Server, h: seq<Step>, remote: string, local: string, l: Listing)
    ensures var (t, ok) := DownV1(srv, h, remote, local, l);
      (ok <==> FetchesOk(t)) && (!ok ==> |t| > 0 && FailedFetch(t[|t| - 1]))
    decreases l
  {
    var find := Step(Find(remote + "/*"), l.Listed?);
    if !l.Listed? {
      assert !FetchesOk([find]) by { assert [find][0] == find; }
    } else {
      var w := EntriesV1(srv, h + [find], remote, local, l.entries);
      EntriesV1FailFast(srv, h + [find], remote, local, l.entries);
      FetchesOkConcat([find], w.0);
      if !w.1 {
        assert ([find] + w.0)[|[find] + w.0| - 1] == w.0[|w.0| - 1];
      }
    }
  }

  lemma {:induction false} EntriesV1FailFast(srv: Server, h: seq<Step>, remote: string, local: string, es: seq<RemoteEntry>)
    ensures var (t, ok) := EntriesV1(srv, h, remote, local, es);
      (ok <==> FetchesOk(t)) && (!ok ==> |t| > 0 && FailedFetch(t[|t| - 1]))
    decreases es
  {
    if es != [] {
      var r := EntryV1(srv, h, remote, local, es[0]);
      EntryV1FailFast(srv, h, remote, local, es[0]);
      if r.1 {
        var w := EntriesV1(srv, h + r.0, remote, local, es[1..]);
        EntriesV1FailFast(srv, h + r.0, remote, local, es[1..]);
        FetchesOkConcat(r.0, w.0);
        if !w.1 {
          assert (r.0 + w.0)[|r.0 + w.0| - 1] == w.0[|w.0| - 1];
        }
      }
    }
  }

  lemma {:induction false} EntryV1FailFast(srv: Server, h: seq<Step>, remote: string, local: string, e: RemoteEntry)
    ensures var (t, ok) := EntryV1(srv, h, remote, local, e);
      (ok <==> FetchesOk(t)) && (!ok ==> |t| > 0 && FailedFetch(t[|t| - 1]))
    decreases e
  {
    if !IsDot(e.name) {
      var rp, lp := remote + "/" + e.name, LocalChild(local, e.name);
      if e.RemoteFile? {
        var t := EntryV1(srv, h, remote, local, e).0;
        assert |t| == 1 && t[0].call.Get?;
      } else {
        var mk := Step(LocalMkdir(lp), srv(h, LocalMkdir(lp)));
        var w := DownV1(srv, h + [mk], rp, lp, e.listing);
        DownV1FailFast(srv, h + [mk], rp, lp, e.listing);
        FetchesOkConcat([mk], w.0);
        if !w.1 {
          assert ([mk] + w.0)[|[mk] + w.0| - 1] == w.0[|w.0| - 1];
        }
      }
    }
  }

  /**
   * Below a non-empty path the two clients build the same search patterns and
   * child paths, so the first client's calls are a prefix of the second
   * client's plan, and all of it when the first client succeeds: the first
   * client only cuts the second one's walk short.
   */
  lemma {:induction false} DownV1FollowsV2(srv: Server, h: seq<Step>, remote: string, local: string, l: Listing)
    requires remote != ""
    ensures Calls(DownV1(srv, h, remote, local, l).0) <= PlanV2(remote, local, l)
    ensures DownV1(srv, h, remote, local, l).1 ==> Calls(DownV1(srv, h, remote, local, l).0) == PlanV2(remote, local, l)
    decreases l
  {
    var find := Step(Find(remote + "/*"), l.Listed?);
    if !l.Listed? {
      assert [find.call] <= [find.call] + [];
    } else {
      var w := EntriesV1(srv, h + [find], remote, local, l.entries);
      EntriesV1FollowV2(srv, h + [find], remote, local, l.entries);
      CallsConcat([find], w.0);
      PrefixConcat(Calls(w.0), PlanEntriesV2(remote, local, l.entries), [find.call], []);
      assert PlanEntriesV2(remote, local, l.entries) + [] == PlanEntriesV2(remote, local, l.entries);
    }
  }

  lemma {:induction false} EntriesV1FollowV2(srv: Server, h: seq<Step>, remote: string, local: string, es: seq<RemoteEntry>)
    requires remote != ""
    ensures Calls(EntriesV1(srv, h, remote, local, es).0) <= PlanEntriesV2(remote, local, es)
    ensures EntriesV1(srv, h, remote, local, es).1 ==> Calls(EntriesV1(srv, h, remote, local, es).0) == PlanEntriesV2(remote, local, es)
    decreases es
  {
    if es != [] {
      var r := EntryV1(srv, h, remote, local, es[0]);
      EntryV1FollowsV2(srv, h, remote, local, es[0]);
      var pe, pr := PlanEntryV2(remote, local, es[0]), PlanEntriesV2(remote, local, es[1..]);
      if r.1 {
        var w := EntriesV1(srv, h + r.0, remote, local, es[1..]);
        EntriesV1FollowV2(srv, h + r.0, remote, local, es[1..]);
        CallsConcat(r.0, w.0);
        PrefixConcat(Calls(w.0), pr, pe, []);
        assert pe + pr + [] == pe + pr;
      } else {
        PrefixConcat(Calls(r.0), pe, [], pr);
      }
    }
  }

  lemma {:induction false} EntryV1FollowsV2(srv: Server, h: seq<Step>, remote: string, local: string, e: RemoteEntry)
    requires remote != ""
    ensures Calls(EntryV1(srv, h, remote, local, e).0) <= PlanEntryV2(remote, local, e)
    ensures EntryV1(srv, h, remote, local, e).1 ==> Calls(EntryV1(srv, h, remote, local, e).0) == PlanEntryV2(remote, local, e)
    decreases e
  {
    if !IsDot(e.name) && e.RemoteDir? {
      var rp, lp := remote + "/" + e.name, LocalChild(local, e.name);
      var mk := Step(LocalMkdir(lp), srv(h, LocalMkdir(lp)));
      var w := DownV1(srv, h + [mk], rp, lp, e.listing);
      DownV1FollowsV2(srv, h + [mk], rp, lp, e.listing);
      CallsConcat([mk], w.0);
      PrefixConcat(Calls(w.0), PlanV2(rp, lp, e.listing), [mk.call], []);
      assert PlanV2(rp, lp, e.listing) + [] == PlanV2(rp, lp, e.listing);
    }
  }

  /** The local shape of a real download by the first client, below a non-empty path. */
  lemma DownV1LocalShaped(srv: Server, h: seq<Step>, remote: string, local: string, l: Listing)
    requires remote != "" && LocalNames(l)
    ensures LocalShaped(Calls(DownV1(srv, h, remote, local, l).0), local)
  {
    DownV1FollowsV2(srv, h, remote, local, l);
    PlanV2LocalShaped(remote, local, l);
    LocalShapedPrefix(Calls(DownV1(srv, h, remote, local, l).0), PlanV2(remote, local, l), local);
  }

  // ---------------------------------------------------------------- the two clients

  /** An empty directory: the first client reports failure, the second success. */
  lemma EmptyDirectory(srv: Server, h: seq<Step>)
    ensures DownV1(srv, h, "/site", "out", NoMoreFiles) == ([Step(Find("/site/*"), false)], false)
    ensures DownV2(srv, h, "/site", "out", NoMoreFiles) == [Step(Find("/site/*"), false)]
  {
    assert "/site" + "/*" == "/site/*";
  }

  /** A failed fetch: the first client stops before the next file, the second fetches it. */
  lemma FailedFetchThenSibling(srv: Server, h: seq<Step>)
    requires !srv(h + [Step(Find("/site/*"), true)], Get("/site/a", "out\\a"))
    ensures DownV1(srv, h, "/site", "out", Listed([RemoteFile("a"), RemoteFile("b")])) ==
      ([Step(Find("/site/*"), true), Step(Get("/site/a", "out\\a"), false)], false)
    ensures Calls(DownV2(srv, h, "/site", "out", Listed([RemoteFile("a"), RemoteFile("b")]))) ==
      [Find("/site/*"), Get("/site/a", "out\\a"), Get("/site/b", "out\\b")]
  {
    FailedFetchStopsV1(srv, h);
    FailedFetchContinuesV2(srv, h);
  }

  /** The literal paths of the two-file listing. */
  lemma SiteLiterals()
    ensures "/site" + "/*" == "/site/*"
    ensures "/site" + "/" + "a" == "/site/a" && "/site" + "/" + "b" == "/site/b"
    ensures "out" + "\\" + "a" == "out\\a" && "out" + "\\" + "b" == "out\\b"
  {
  }

  lemma FailedFetchStopsV1(srv: Server, h: seq<Step>)
    requires !srv(h + [Step(Find("/site/*"), true)], Get("/site/a", "out\\a"))
    ensures DownV1(srv, h, "/site", "out", Listed([RemoteFile("a"), RemoteFile("b")])) ==
      ([Step(Find("/site/*"), true), Step(Get("/site/a", "out\\a"), false)], false)
  {
    var es := [RemoteFile("a"), RemoteFile("b")];
    SiteLiterals();
    var find := Step(Find("/site/*"), true);
    var get := Step(Get("/site/a", "out\\a"), false);
    assert EntryV1(srv, h + [find], "/site", "out", es[0]) == ([get], false);
    assert EntriesV1(srv, h + [find], "/site", "out", es) == ([get], false);
    assert DownV1(srv, h, "/site", "out", Listed(es)) == Prepend([find], ([get], false));
    assert [find] + [get] == [find, get];
  }

  lemma FailedFetchContinuesV2(srv: Server, h: seq<Step>)
    ensures Calls(DownV2(srv, h, "/site", "out", Listed([RemoteFile("a"), RemoteFile("b")]))) ==
      [Find("/site/*"), Get("/site/a", "out\\a"), Get("/site/b", "out\\b")]
  {
    var es := [RemoteFile("a"), RemoteFile("b")];
    SiteLiterals();
    DownV2MakesEveryCall(srv, h, "/site", "out", Listed(es));
    assert es[1..] == [RemoteFile("b")] && es[1..][1..] == [];
    assert PlanEntriesV2("/site", "out", es[1..][1..]) == [];
    assert PlanEntriesV2("/site", "out", es[1..]) == [Get("/site/b", "out\\b")];
    assert PlanEntriesV2("/site", "out", es) == [Get("/site/a", "out\\a"), Get("/site/b", "out\\b")];
  }

  /** No exclusion on the way down: a hidden file is fetched like any other. */
  lemma HiddenFileDownloaded(h: seq<Step>)
    ensures DownV1(AllOk, h, "/site", "out", Listed([RemoteFile(".env")])) ==
      ([Step(Find("/site/*"), true), Step(Get("/site/.env", "out\\.env"), true)], true)
  {
    var es := [RemoteFile(".env")];
    assert "/site" + "/*" == "/site/*";
    assert "/site" + "/" + ".env" == "/site/.env";
    assert "out" + "\\" + ".env" == "out\\.env";
    var find := Step(Find("/site/*"), true);
    var get := Step(Get("/site/.env", "out\\.env"), true);
    assert EntryV1(AllOk, h + [find], "/site", "out", es[0]) == ([get], true);
    assert es[1..] == [];
    assert EntriesV1(AllOk, h + [find] + [get], "/site", "out", es[1..]) == ([], true);
    assert EntriesV1(AllOk, h + [find], "/site", "out", es) == Prepend([get], ([], true));
    assert [get] + [] == [get];
    assert DownV1(AllOk, h, "/site", "out", Listed(es)) == Prepend([find], ([get], true));
    assert [find] + [get] == [find, get];
  }
}
