/**
 * `delete_recursive` of ftp_client_v2.cpp: list a remote directory, split its
 * entries into files and subdirectories, delete every file, delete every
 * subdirectory recursively, and finally remove the directory itself unless its
 * path is the empty string. Failed deletes and removals are only logged.
 */
module Delete {
  import opened Paths
  import opened Steps

  // ---------------------------------------------------------------- sizes

  /** A size that shrinks on every recursive call of the walk. */
  function LSize(l: Listing): nat
    decreases l
  {
    if l.Listed? then 1 + ESize(l.entries) else 1
  }

  function ESize(es: seq<RemoteEntry>): nat
    decreases es
  {
    if es == [] then 0
    else
      var e := es[|es| - 1];
      ESize(es[..|es| - 1]) + (if e.RemoteDir? then 1 + LSize(e.listing) else 1)
  }

  /**
   * The `dirs` vector: the path of each subdirectory, together with the listing
   * the server gives when the walk lists that path in turn.
   */
  type Pending = seq<(string, Listing)>

  function DSize(ds: Pending): nat
  {
    if ds == [] then 0 else DSize(ds[..|ds| - 1]) + 1 + LSize(ds[|ds| - 1].1)
  }

  lemma {:induction false} DSizeAt(ds: Pending, k: nat)
    requires k < |ds|
    ensures LSize(ds[k].1) < DSize(ds)
    decreases |ds|
  {
    if k < |ds| - 1 {
      DSizeAt(ds[..|ds| - 1], k);
    }
  }

  // ---------------------------------------------------------------- the two vectors

  /** The `files` vector after the listing loop has seen `es`. */
  function FilesOf(remote: string, es: seq<RemoteEntry>): seq<string>
  {
    if es == [] then []
    else
      var e := es[|es| - 1];
      FilesOf(remote, es[..|es| - 1]) + (if !IsDot(e.name) && e.RemoteFile? then [ChildV2(remote, e.name)] else [])
  }

  /** The `dirs` vector after the listing loop has seen `es`. */
  function DirsOf(remote: string, es: seq<RemoteEntry>): (ds: Pending)
    ensures DSize(ds) <= ESize(es)
  {
    if es == [] then []
    else
      var e := es[|es| - 1];
      var front := DirsOf(remote, es[..|es| - 1]);
      if !IsDot(e.name) && e.RemoteDir? then
        var ds := front + [(ChildV2(remote, e.name), e.listing)];
        assert ds[..|ds| - 1] == front;
        ds
      else front
  }

  // ---------------------------------------------------------------- the walk

  /**
   * The steps and the result of `delete_recursive(remote)` when the directory
   * lists as `l`: false only when the listing fails for another reason than an
   * empty directory.
   */
  function Del(srv: Server, h: seq<Step>, remote: string, l: Listing): (r: (seq<Step>, bool))
    ensures |r.0| > 0 && r.0[0].call == Find(PatternV2(remote))
    ensures r.1 <==> !l.ListFailed?
    decreases LSize(l), 1
  {
    var find := Step(Find(PatternV2(remote)), l.Listed?);
    match l
    case ListFailed => ([find], false)
    case NoMoreFiles => ([find], true)
    case Listed(es) =>
      var h1 := h + [find];
      var dels := Deletes(srv, h1, FilesOf(remote, es));
      var subs := DelAll(srv, h1 + dels, DirsOf(remote, es));
      var rmd := if remote != "" then [Step(Rmd(remote), srv(h1 + dels + subs, Rmd(remote)))] else [];
      ([find] + dels + subs + rmd, true)
  }

  /** The first loop: one delete per file, whatever each returns. */
  function Deletes(srv: Server, h: seq<Step>, fs: seq<string>): (t: seq<Step>)
    ensures |t| == |fs|
    ensures forall k :: 0 <= k < |fs| ==> t[k].call == Dele(fs[k])
  {
    if fs == [] then []
    else
      var front := Deletes(srv, h, fs[..|fs| - 1]);
      var f := fs[|fs| - 1];
      front + [Step(Dele(f), srv(h + front, Dele(f)))]
  }

  /** The second loop: one recursive walk per subdirectory, whatever each returns. */
  function DelAll(srv: Server, h: seq<Step>, ds: Pending): seq<Step>
    decreases DSize(ds), 0
  {
    if ds == [] then []
    else
      var front := DelAll(srv, h, ds[..|ds| - 1]);
      var d := ds[|ds| - 1];
      front + Del(srv, h + front, d.0, d.1).0
  }

  /** The listing loop, one entry further. */
  lemma VectorsStep(remote: string, es: seq<RemoteEntry>, i: nat)
    requires i < |es|
    ensures FilesOf(remote, es[..i + 1]) == FilesOf(remote, es[..i]) +
      (if !IsDot(es[i].name) && es[i].RemoteFile? then [ChildV2(remote, es[i].name)] else [])
    ensures DirsOf(remote, es[..i + 1]) == DirsOf(remote, es[..i]) +
      (if !IsDot(es[i].name) && es[i].RemoteDir? then [(ChildV2(remote, es[i].name), es[i].listing)] else [])
  {
    assert es[..i + 1][..i] == es[..i];
  }

  /** The file loop, one delete further. */
  lemma DeletesStep(srv: Server, h: seq<Step>, fs: seq<string>, j: nat)
    requires j < |fs|
    ensures Deletes(srv, h, fs[..j + 1]) ==
      Deletes(srv, h, fs[..j]) + [Step(Dele(fs[j]), srv(h + Deletes(srv, h, fs[..j]), Dele(fs[j])))]
  {
    assert fs[..j + 1][..j] == fs[..j];
  }

  /** The directory loop, one recursive walk further. */
  lemma DelAllStep(srv: Server, h: seq<Step>, ds: Pending, k: nat)
    requires k < |ds|
    ensures DelAll(srv, h, ds[..k + 1]) ==
      DelAll(srv, h, ds[..k]) + Del(srv, h + DelAll(srv, h, ds[..k]), ds[k].0, ds[k].1).0
  {
    assert ds[..k + 1][..k] == ds[..k];
    assert ds[..k + 1][k] == ds[k];
  }

  /** The walk of a directory that lists as `es`, spelled out. */
  lemma DelListed(srv: Server, h: seq<Step>, remote: string, es: seq<RemoteEntry>)
    ensures
      var h1 := h + [Step(Find(PatternV2(remote)), true)];
      var dels := Deletes(srv, h1, FilesOf(remote, es));
      var subs := DelAll(srv, h1 + dels, DirsOf(remote, es));
      Del(srv, h, remote, Listed(es)) ==
        ([Step(Find(PatternV2(remote)), true)] + dels + subs +
         (if remote != "" then [Step(Rmd(remote), srv(h1 + dels + subs, Rmd(remote)))] else []), true)
  {
  }

  /** `delete_recursive` of ftp_client_v2.cpp. */
  method DeleteRecursive(srv: Server, h: seq<Step>, remote: string, l: Listing)
    returns (steps: seq<Step>, ok: bool)
    ensures (steps, ok) == Del(srv, h, remote, l)
    decreases LSize(l)
  {
    var find := Step(Find(PatternV2(remote)), l.Listed?);
    if !l.Listed? {
      return [find], l.NoMoreFiles?;
    }
    var es := l.entries;
    var files, dirs := CollectEntries(remote, es);
    var h1 := h + [find];
    // Delete files first.
    var dels: seq<Step> := [];
    var j := 0;
    while j < |files|
      invariant j <= |files|
      invariant dels == Deletes(srv, h1, files[..j])
    {
      DeletesStep(srv, h1, files, j);
      var ok := srv(h1 + dels, Dele(files[j]));
      dels := dels + [Step(Dele(files[j]), ok)];
      j := j + 1;
    }
    assert files[..j] == files;
    // Then the subdirectories, one recursive walk each.
    var subs: seq<Step> := [];
    var k := 0;
    while k < |dirs|
      invariant k <= |dirs|
      invariant subs == DelAll(srv, h1 + dels, dirs[..k])
    {
      DelAllStep(srv, h1 + dels, dirs, k);
      DSizeAt(dirs, k);
      var sub, _ := DeleteRecursive(srv, h1 + dels + subs, dirs[k].0, dirs[k].1);
      subs := subs + sub;
      k := k + 1;
    }
    assert dirs[..k] == dirs;
    // Last, the directory itself, unless its path is empty.
    DelListed(srv, h, remote, es);
    steps := [find] + dels + subs;
    if remote != "" {
      var ok := srv(h1 + dels + subs, Rmd(remote));
      steps := steps + [Step(Rmd(remote), ok)];
    } else {
      assert steps + [] == steps;
    }
    return steps, true;
  }

  /**
   * The listing loop of `delete_recursive`: the path of every entry other than
   * `.` and `..` goes to `files` or, with its listing, to `dirs`.
   */
  method CollectEntries(remote: string, es: seq<RemoteEntry>) returns (files: seq<string>, dirs: Pending)
    ensures files == FilesOf(remote, es) && dirs == DirsOf(remote, es)
  {
    files, dirs := [], [];
    var i := 0;
    while i < |es|
      invariant i <= |es|
      invariant files == FilesOf(remote, es[..i]) && dirs == DirsOf(remote, es[..i])
    {
      VectorsStep(remote, es, i);
      var e := es[i];
      if !IsDot(e.name) {
        var path := ChildV2(remote, e.name);
        if e.RemoteDir? {
          dirs := dirs + [(path, e.listing)];
        } else {
          files := files + [path];
        }
      }
      i := i + 1;
    }
    assert es[..i] == es;
  }

  // ---------------------------------------------------------------- fail-soft

  /**
   * The calls of the walk, defined from the listing alone: the search, a delete
   * per file, the calls for each subdirectory, then the removal of a non-empty path.
   */
  function DelPlan(remote: string, l: Listing): seq<Call>
    decreases LSize(l), 1
  {
    [Find(PatternV2(remote))] +
    if !l.Listed? then []
    else
      DeleCalls(FilesOf(remote, l.entries)) +
      DelPlanAll(DirsOf(remote, l.entries)) +
      (if remote != "" then [Rmd(remote)] else [])
  }

  /** One delete per path, in order. */
  function DeleCalls(fs: seq<string>): (cs: seq<Call>)
    ensures |cs| == |fs| && forall k :: 0 <= k < |fs| ==> cs[k] == Dele(fs[k])
  {
    seq(|fs|, k requires 0 <= k < |fs| => Dele(fs[k]))
  }

  function DelPlanAll(ds: Pending): seq<Call>
    decreases DSize(ds), 0
  {
    if ds == [] then []
    else DelPlanAll(ds[..|ds| - 1]) + DelPlan(ds[|ds| - 1].0, ds[|ds| - 1].1)
  }

  /**
   * Fail-soft: whatever the server answers, the walk makes every call of the
   * plan; a failed delete or removal never keeps a later one from being tried.
   */
  lemma {:induction false} DelMakesEveryCall(srv: Server, h: seq<Step>, remote: string, l: Listing)
    ensures Calls(Del(srv, h, remote, l).0) == DelPlan(remote, l)
    decreases LSize(l), 1
  {
    if l.Listed? {
      var find := Step(Find(PatternV2(remote)), true);
      var h1 := h + [find];
      var fs, ds := FilesOf(remote, l.entries), DirsOf(remote, l.entries);
      var dels := Deletes(srv, h1, fs);
      var subs := DelAll(srv, h1 + dels, ds);
      var rmd := if remote != "" then [Step(Rmd(remote), srv(h1 + dels + subs, Rmd(remote)))] else [];
      calc {
        Calls(Del(srv, h, remote, l).0);
        { DelListed(srv, h, remote, l.entries); }
        Calls([find] + dels + subs + rmd);
        { Calls4([find], dels, subs, rmd); }
        Calls([find]) + Calls(dels) + Calls(subs) + Calls(rmd);
        { DeletesCalls(srv, h1, fs); DelAllMakesEveryCall(srv, h1 + dels, ds); RmdCalls(rmd, remote, find);
          SameParts(Calls([find]), Calls(dels), Calls(subs), Calls(rmd),
            [Find(PatternV2(remote))], DeleCalls(fs), DelPlanAll(ds), if remote != "" then [Rmd(remote)] else []); }
        [Find(PatternV2(remote))] + (DeleCalls(fs) + DelPlanAll(ds) + (if remote != "" then [Rmd(remote)] else []));
      }
    }
  }

  lemma SameParts(a: seq<Call>, b: seq<Call>, c: seq<Call>, d: seq<Call>,
                  a2: seq<Call>, b2: seq<Call>, c2: seq<Call>, d2: seq<Call>)
    requires a == a2 && b == b2 && c == c2 && d == d2
    ensures a + b + c + d == a2 + (b2 + c2 + d2)
  {
  }

  lemma RmdCalls(rmd: seq<Step>, remote: string, find: Step)
    requires rmd == [] || (|rmd| == 1 && rmd[0].call == Rmd(remote))
    requires remote != "" <==> rmd != []
    ensures Calls(rmd) == if remote != "" then [Rmd(remote)] else []
    ensures Calls([find]) == [find.call]
  {
  }

  lemma DeletesCalls(srv: Server, h: seq<Step>, fs: seq<string>)
    ensures Calls(Deletes(srv, h, fs)) == DeleCalls(fs)
  {
    assert |Calls(Deletes(srv, h, fs))| == |fs|;
  }

  lemma Calls4(a: seq<Step>, b: seq<Step>, c: seq<Step>, d: seq<Step>)
    ensures Calls(a + b + c + d) == Calls(a) + Calls(b) + Calls(c) + Calls(d)
  {
    CallsConcat(a + b + c, d);
    CallsConcat(a + b, c);
    CallsConcat(a, b);
  }

  lemma {:induction false} DelAllMakesEveryCall(srv: Server, h: seq<Step>, ds: Pending)
    ensures Calls(DelAll(srv, h, ds)) == DelPlanAll(ds)
    decreases DSize(ds), 0
  {
    if ds != [] {
      var front := DelAll(srv, h, ds[..|ds| - 1]);
      var d := ds[|ds| - 1];
      DelAllMakesEveryCall(srv, h, ds[..|ds| - 1]);
      DelMakesEveryCall(srv, h + front, d.0, d.1);
      CallsConcat(front, Del(srv, h + front, d.0, d.1).0);
    }
  }

  // ---------------------------------------------------------------- the vectors' paths

  /** Every file path is a child of `remote`: strictly inside it, and directly inside it for well-formed names. */
  lemma {:induction false} FilesOfPaths(remote: string, es: seq<RemoteEntry>)
    ensures remote != "" ==> forall k :: 0 <= k < |FilesOf(remote, es)| ==> Under(FilesOf(remote, es)[k], remote, '/')
    ensures (forall k :: 0 <= k < |es| ==> IsName(es[k].name)) ==>
      forall k :: 0 <= k < |FilesOf(remote, es)| ==> Parent(FilesOf(remote, es)[k], '/') == remote
  {
    if es != [] {
      var e := es[|es| - 1];
      FilesOfPaths(remote, es[..|es| - 1]);
      if !IsDot(e.name) && e.RemoteFile? {
        ChildPath(remote, e.name);
      }
    }
  }

  /** Every subdirectory path is strictly inside `remote` and, for non-empty names, longer than it. */
  lemma {:induction false} DirsOfPaths(remote: string, es: seq<RemoteEntry>)
    ensures remote != "" ==> forall k :: 0 <= k < |DirsOf(remote, es)| ==> Under(DirsOf(remote, es)[k].0, remote, '/')
    ensures (forall k :: 0 <= k < |es| ==> IsName(es[k].name)) ==>
      forall k :: 0 <= k < |DirsOf(remote, es)| ==> |DirsOf(remote, es)[k].0| > |remote|
  {
    if es != [] {
      var e := es[|es| - 1];
      DirsOfPaths(remote, es[..|es| - 1]);
      if !IsDot(e.name) && e.RemoteDir? {
        ChildPath(remote, e.name);
      }
    }
  }

  lemma ChildPath(remote: string, name: string)
    ensures remote != "" ==> Under(ChildV2(remote, name), remote, '/')
    ensures IsName(name) ==> Parent(ChildV2(remote, name), '/') == remote && |ChildV2(remote, name)| > |remote|
  {
    if remote != "" {
      assert ChildV2(remote, name)[..|remote|] == remote;
    }
    if IsName(name) {
      if remote == "" {
        ParentOfBareName(name, '/');
      } else {
        ParentOfChild(remote, '/', name);
      }
    }
  }

  // ---------------------------------------------------------------- removal last

  /** No step of `t` removes the empty path. */
  predicate NoEmptyRmd(t: seq<Step>)
  {
    forall i :: 0 <= i < |t| && t[i].call.Rmd? ==> t[i].call.path != ""
  }

  /** Every step of `t` is about a path strictly inside `d`. */
  predicate Inside(t: seq<Step>, d: string)
  {
    forall i :: 0 <= i < |t| ==> Under(Arg(t[i].call), d, '/')
  }

  lemma InsideConcat(a: seq<Step>, b: seq<Step>, d: string)
    ensures Inside(a + b, d) <==> Inside(a, d) && Inside(b, d)
    ensures NoEmptyRmd(a + b) <==> NoEmptyRmd(a) && NoEmptyRmd(b)
  {
    var ab := a + b;
    assert forall i :: 0 <= i < |a| ==> ab[i] == a[i];
    assert forall i :: 0 <= i < |b| ==> ab[|a| + i] == b[i];
    if Inside(a, d) && Inside(b, d) {
      forall i | 0 <= i < |ab| ensures Under(Arg(ab[i].call), d, '/') {
        if i >= |a| { assert ab[i] == b[i - |a|]; }
      }
    }
    if NoEmptyRmd(a) && NoEmptyRmd(b) {
      forall i | 0 <= i < |ab| && ab[i].call.Rmd? ensures ab[i].call.path != "" {
        if i >= |a| { assert ab[i] == b[i - |a|]; }
      }
    }
  }

  /**
   * Removal last: the walk never removes the empty path; the walk of a non-empty
   * path stays strictly inside it, apart from the removal of the path itself,
   * which happens exactly when the listing succeeded and is then the last step.
   */
  lemma {:induction false} DelInside(srv: Server, h: seq<Step>, remote: string, l: Listing)
    ensures NoEmptyRmd(Del(srv, h, remote, l).0)
    ensures remote != "" && !l.Listed? ==> Inside(Del(srv, h, remote, l).0, remote)
    ensures remote != "" && l.Listed? ==>
      Del(srv, h, remote, l).0[|Del(srv, h, remote, l).0| - 1].call == Rmd(remote) &&
      Inside(Del(srv, h, remote, l).0[..|Del(srv, h, remote, l).0| - 1], remote)
    decreases LSize(l), 1
  {
    var find := Step(Find(PatternV2(remote)), l.Listed?);
    assert NoEmptyRmd([find]);
    if remote != "" {
      assert Inside([find], remote) by { assert (remote + "/*")[..|remote|] == remote; }
    }
    if l.Listed? {
      var h1 := h + [find];
      var fs, ds := FilesOf(remote, l.entries), DirsOf(remote, l.entries);
      var dels := Deletes(srv, h1, fs);
      var subs := DelAll(srv, h1 + dels, ds);
      var rmd := if remote != "" then [Step(Rmd(remote), srv(h1 + dels + subs, Rmd(remote)))] else [];
      FilesOfPaths(remote, l.entries);
      DirsOfPaths(remote, l.entries);
      DelAllInside(srv, h1 + dels, ds, remote);
      assert NoEmptyRmd(dels);
      assert NoEmptyRmd(rmd);
      if remote != "" {
        assert Inside(dels, remote);
      }
      InsideConcat([find], dels, remote);
      InsideConcat([find] + dels, subs, remote);
      InsideConcat([find] + dels + subs, rmd, remote);
      var t := [find] + dels + subs + rmd;
      if remote != "" {
        assert t[..|t| - 1] == [find] + dels + subs;
      }
    }
  }

  lemma {:induction false} DelAllInside(srv: Server, h: seq<Step>, ds: Pending, outer: string)
    ensures NoEmptyRmd(DelAll(srv, h, ds))
    ensures (forall k :: 0 <= k < |ds| ==> Under(ds[k].0, outer, '/')) ==> Inside(DelAll(srv, h, ds), outer)
    decreases DSize(ds), 0
  {
    if ds != [] {
      var front := DelAll(srv, h, ds[..|ds| - 1]);
      var d := ds[|ds| - 1];
      var sub := Del(srv, h + front, d.0, d.1).0;
      DelAllInside(srv, h, ds[..|ds| - 1], outer);
      DelInside(srv, h + front, d.0, d.1);
      InsideConcat(front, sub, outer);
      if forall k :: 0 <= k < |ds| ==> Under(ds[k].0, outer, '/') {
        assert forall k :: 0 <= k < |ds| - 1 ==> ds[..|ds| - 1][k] == ds[k];
        assert Under(d.0, outer, '/');
        WalkInsideOuter(sub, d.0, outer, d.1.Listed?);
      }
    }
  }

  /** A walk confined to `d`, apart from removing `d` itself last, is inside every directory containing `d`. */
  lemma WalkInsideOuter(sub: seq<Step>, d: string, outer: string, listed: bool)
    requires Under(d, outer, '/')
    requires !listed ==> Inside(sub, d)
    requires listed ==> |sub| > 0 && sub[|sub| - 1].call == Rmd(d) && Inside(sub[..|sub| - 1], d)
    ensures Inside(sub, outer)
  {
    forall i | 0 <= i < |sub| ensures Under(Arg(sub[i].call), outer, '/') {
      if !listed || i < |sub| - 1 {
        if listed {
          assert sub[i] == sub[..|sub| - 1][i];
        }
        UnderTrans(Arg(sub[i].call), d, outer, '/');
      }
    }
  }

  // ---------------------------------------------------------------- files first

  /** Every delete in `t` deletes a file whose directory is longer than `depth`. */
  predicate DelesBelow(t: seq<Step>, depth: nat)
  {
    forall i :: 0 <= i < |t| && t[i].call.Dele? ==> |Parent(t[i].call.path, '/')| > depth
  }

  lemma DelesBelowConcat(a: seq<Step>, b: seq<Step>, depth: nat)
    requires DelesBelow(a, depth) && DelesBelow(b, depth)
    ensures DelesBelow(a + b, depth)
  {
    forall i | 0 <= i < |a + b| && (a + b)[i].call.Dele? ensures |Parent((a + b)[i].call.path, '/')| > depth {
      if i < |a| { assert (a + b)[i] == a[i]; } else { assert (a + b)[i] == b[i - |a|]; }
    }
  }

  /** A delete strictly inside `d` deletes a file whose directory is at least as long as `d`. */
  lemma InsideDelesBelow(t: seq<Step>, d: string, depth: nat)
    requires Inside(t, d) && |d| > depth
    ensures DelesBelow(t, depth)
  {
    forall i | 0 <= i < |t| && t[i].call.Dele? ensures |Parent(t[i].call.path, '/')| > depth {
      ParentOfUnder(t[i].call.path, d, '/');
    }
  }

  /** The walk of a path longer than `depth` deletes only files deeper than `depth`. */
  lemma DelDeep(srv: Server, h: seq<Step>, remote: string, l: Listing, depth: nat)
    requires |remote| > depth
    ensures DelesBelow(Del(srv, h, remote, l).0, depth)
  {
    var t := Del(srv, h, remote, l).0;
    DelInside(srv, h, remote, l);
    if l.Listed? {
      InsideDelesBelow(t[..|t| - 1], remote, depth);
      assert DelesBelow([t[|t| - 1]], depth);
      DelesBelowConcat(t[..|t| - 1], [t[|t| - 1]], depth);
      assert t[..|t| - 1] + [t[|t| - 1]] == t;
    } else {
      InsideDelesBelow(t, remote, depth);
    }
  }

  /** Every delete in the walks of subdirectories longer than `depth` deletes a file deeper than `depth`. */
  lemma {:induction false} DelAllDeep(srv: Server, h: seq<Step>, ds: Pending, depth: nat)
    requires forall k :: 0 <= k < |ds| ==> |ds[k].0| > depth
    ensures DelesBelow(DelAll(srv, h, ds), depth)
  {
    if ds != [] {
      var front := DelAll(srv, h, ds[..|ds| - 1]);
      var d := ds[|ds| - 1];
      assert forall k :: 0 <= k < |ds| - 1 ==> ds[..|ds| - 1][k] == ds[k];
      DelAllDeep(srv, h, ds[..|ds| - 1], depth);
      DelDeep(srv, h + front, d.0, d.1, depth);
      DelesBelowConcat(front, Del(srv, h + front, d.0, d.1).0, depth);
    }
  }

  /**
   * Files first: right after the search come the deletes of the files directly
   * in the directory, in listing order, and every delete after them is of a file
   * deeper down.
   */
  lemma DelFilesFirst(srv: Server, h: seq<Step>, remote: string, es: seq<RemoteEntry>)
    requires forall k :: 0 <= k < |es| ==> IsName(es[k].name)
    ensures |FilesOf(remote, es)| < |Del(srv, h, remote, Listed(es)).0|
    ensures forall k :: 0 <= k < |FilesOf(remote, es)| ==>
      Del(srv, h, remote, Listed(es)).0[k + 1].call == Dele(FilesOf(remote, es)[k]) &&
      Parent(FilesOf(remote, es)[k], '/') == remote
    ensures DelesBelow(Del(srv, h, remote, Listed(es)).0[|FilesOf(remote, es)| + 1..], |remote|)
  {
    var find := Step(Find(PatternV2(remote)), true);
    var h1 := h + [find];
    var fs, ds := FilesOf(remote, es), DirsOf(remote, es);
    var dels := Deletes(srv, h1, fs);
    var subs := DelAll(srv, h1 + dels, ds);
    var rmd := if remote != "" then [Step(Rmd(remote), srv(h1 + dels + subs, Rmd(remote)))] else [];
    FilesOfPaths(remote, es);
    DirsOfPaths(remote, es);
    DelAllDeep(srv, h1 + dels, ds, |remote|);
    var t := [find] + dels + subs + rmd;
    forall k | 0 <= k < |fs| ensures t[k + 1].call == Dele(fs[k]) {
      assert t[k + 1] == dels[k];
    }
    var rest := t[|fs| + 1..];
    assert rest == subs + rmd;
    forall i | 0 <= i < |rest| && rest[i].call.Dele? ensures |Parent(rest[i].call.path, '/')| > |remote| {
      if i < |subs| {
        assert rest[i] == subs[i];
      }
    }
  }

  // ---------------------------------------------------------------- examples

  /** The default remote path `/` is not empty, so the walk tries to remove it. */
  lemma RootRemovalAttempted(srv: Server, h: seq<Step>)
    ensures Calls(Del(srv, h, "/", Listed([RemoteFile("a")])).0) == [Find("//*"), Dele("//a"), Rmd("/")]
  {
    DelMakesEveryCall(srv, h, "/", Listed([RemoteFile("a")]));
    RootPlan();
  }

  lemma RootPlan()
    ensures DelPlan("/", Listed([RemoteFile("a")])) == [Find("//*"), Dele("//a"), Rmd("/")]
  {
    RootPieces();
    assert DeleCalls(["//a"]) == [Dele("//a")];
    assert PatternV2("/") == "//*";
  }

  lemma RootPieces()
    ensures FilesOf("/", [RemoteFile("a")]) == ["//a"]
    ensures DirsOf("/", [RemoteFile("a")]) == []
  {
    var es := [RemoteFile("a")];
    assert es[..|es| - 1] == [];
    assert ChildV2("/", "a") == "//a";
  }

  /**
   * An empty subdirectory lists as "no more files", so it is left in place, and
   * the removal of its parent is still attempted.
   */
  lemma EmptySubdirectoryKept(srv: Server, h: seq<Step>)
    ensures Calls(Del(srv, h, "/site", Listed([RemoteDir("b", NoMoreFiles)])).0) ==
      [Find("/site/*"), Find("/site/b/*"), Rmd("/site")]
  {
    DelMakesEveryCall(srv, h, "/site", Listed([RemoteDir("b", NoMoreFiles)]));
    SitePlan();
  }

  lemma SitePlan()
    ensures DelPlan("/site", Listed([RemoteDir("b", NoMoreFiles)])) ==
      [Find("/site/*"), Find("/site/b/*"), Rmd("/site")]
  {
    SitePieces();
    SubPlan();
    assert PatternV2("/site") == "/site/*";
    assert DeleCalls([]) == [];
  }

  lemma SitePieces()
    ensures FilesOf("/site", [RemoteDir("b", NoMoreFiles)]) == []
    ensures DirsOf("/site", [RemoteDir("b", NoMoreFiles)]) == [("/site/b", NoMoreFiles)]
  {
    var es := [RemoteDir("b", NoMoreFiles)];
    assert es[..|es| - 1] == [];
    assert ChildV2("/site", "b") == "/site/b";
  }

  lemma SubPlan()
    ensures DelPlanAll([("/site/b", NoMoreFiles)]) == [Find("/site/b/*")]
  {
    var ds := [("/site/b", NoMoreFiles)];
    assert ds[..|ds| - 1] == [];
    assert PatternV2("/site/b") == "/site/b/*";
    assert DelPlan("/site/b", NoMoreFiles) == [Find("/site/b/*")];
  }
}
