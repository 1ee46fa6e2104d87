/**
 * `ensure_remote_path`, identical in both WinINet clients: walk the '/'-separated
 * fields of a path and ask the server to create every accumulated prefix.
 */
module EnsurePath {
  import opened Paths
  import opened Steps

  /**
   * The create calls the loop issues for the remaining fields `pieces`, having
   * accumulated `acc` so far. Empty fields are skipped; the result of a create
   * never changes what follows.
   */
  function Creates(srv: Server, h: seq<Step>, acc: string, pieces: seq<string>): seq<Step>
    decreases |pieces|
  {
    if pieces == [] then []
    else if pieces[0] == "" then Creates(srv, h, acc, pieces[1..])
    else
      var next := Extend(acc, pieces[0]);
      var st := Step(Mkd(next), srv(h, Mkd(next)));
      [st] + Creates(srv, h + [st], next, pieces[1..])
  }

  /** `acc += (acc.empty() ? "" : "/") + segment`. */
  function Extend(acc: string, segment: string): string
  {
    acc + (if acc == "" then "" else "/") + segment
  }

  /** Unfolding `Creates` by one field. */
  lemma CreatesCons(srv: Server, h: seq<Step>, acc: string, segment: string, rest: seq<string>)
    ensures segment == "" ==> Creates(srv, h, acc, [segment] + rest) == Creates(srv, h, acc, rest)
    ensures segment != "" ==>
      var st := Step(Mkd(Extend(acc, segment)), srv(h, Mkd(Extend(acc, segment))));
      Creates(srv, h, acc, [segment] + rest) == [st] + Creates(srv, h + [st], Extend(acc, segment), rest)
  {
    var ps := [segment] + rest;
    assert ps != [] && ps[0] == segment && ps[1..] == rest;
  }

  /** The steps of `ensure_remote_path(hFtp, p)` after history `h`. */
  function Ensure(srv: Server, h: seq<Step>, p: string): seq<Step>
  {
    Creates(srv, h, "", Pieces(p))
  }

  /**
   * The getline loop of `ensure_remote_path`: one field per iteration, the create
   * result only logged.
   */
  method EnsureRemotePath(srv: Server, h: seq<Step>, p: string) returns (steps: seq<Step>)
    ensures steps == Ensure(srv, h, p)
  {
    var acc := "";
    var pos := 0;
    steps := [];
    assert p[0..] == p && h + [] == h;
    while pos < |p|
      invariant pos <= |p|
      invariant Ensure(srv, h, p) == steps + Creates(srv, h + steps, acc, Pieces(p[pos..]))
      decreases |p| - pos
    {
      GetLineReadsPiece(p, pos);
      var segment, next := GetLine(p, pos).0, GetLine(p, pos).1;
      CreatesCons(srv, h + steps, acc, segment, Pieces(p[next..]));
      pos := next;
      if segment == "" {
        continue;
      }
      acc := Extend(acc, segment);
      var st := Step(Mkd(acc), srv(h + steps, Mkd(acc)));
      AppendOne(h, steps, st, Creates(srv, h + steps + [st], acc, Pieces(p[pos..])));
      steps := steps + [st];
    }
    assert p[pos..] == [];
  }

  lemma AppendOne<T>(h: seq<T>, steps: seq<T>, st: T, c: seq<T>)
    ensures h + steps + [st] == h + (steps + [st])
    ensures steps + ([st] + c) == (steps + [st]) + c
  {
  }

  /**
   * What the creates are: one per non-empty field, left to right, the k-th on the
   * first k+1 segments joined by '/', whatever the server answers.
   */
  lemma {:induction false} CreatesCalls(srv: Server, h: seq<Step>, done: seq<string>, pieces: seq<string>)
    requires AllNames(done)
    requires forall k :: 0 <= k < |pieces| ==> '/' !in pieces[k]
    ensures |Creates(srv, h, Join(done), pieces)| == |NonEmpty(pieces)|
    ensures forall k :: 0 <= k < |NonEmpty(pieces)| ==>
      Creates(srv, h, Join(done), pieces)[k].call == Mkd(Join(done + NonEmpty(pieces)[..k + 1]))
    decreases |pieces|
  {
    if pieces != [] {
      var rest := NonEmpty(pieces[1..]);
      if pieces[0] == "" {
        assert NonEmpty(pieces) == rest;
        CreatesCalls(srv, h, done, pieces[1..]);
      } else {
        var x := pieces[0];
        JoinSnoc(done, x);
        JoinNonEmpty'(done);
        var next := Join(done + [x]);
        assert next == Extend(Join(done), x);
        var st := Step(Mkd(next), srv(h, Mkd(next)));
        assert AllNames(done + [x]);
        CreatesCalls(srv, h + [st], done + [x], pieces[1..]);
        assert Creates(srv, h, Join(done), pieces) == [st] + Creates(srv, h + [st], next, pieces[1..]);
        assert NonEmpty(pieces) == [x] + rest;
        ShiftCalls(done, x, rest, [st], Creates(srv, h + [st], next, pieces[1..]));
      }
    }
  }

  lemma ShiftCalls(done: seq<string>, x: string, rest: seq<string>, first: seq<Step>, t: seq<Step>)
    requires |first| == 1 && first[0].call == Mkd(Join(done + [x]))
    requires |t| == |rest|
    requires forall k :: 0 <= k < |rest| ==> t[k].call == Mkd(Join(done + [x] + rest[..k + 1]))
    ensures forall k :: 0 <= k < |rest| + 1 ==> (first + t)[k].call == Mkd(Join(done + ([x] + rest)[..k + 1]))
  {
    forall k | 0 <= k < |rest| + 1
      ensures (first + t)[k].call == Mkd(Join(done + ([x] + rest)[..k + 1]))
    {
      if k > 0 {
        assert ([x] + rest)[..k + 1] == [x] + rest[..k];
        assert done + ([x] + rest)[..k + 1] == done + [x] + rest[..k];
      } else {
        assert ([x] + rest)[..1] == [x];
      }
    }
  }

  lemma JoinNonEmpty'(done: seq<string>)
    requires AllNames(done)
    ensures Join(done) == "" <==> done == []
  {
    if done != [] {
      JoinNonEmpty(done);
    }
  }

  /**
   * `ensure_remote_path(p)` issues exactly one create per segment of `p`; the first
   * is on the first segment alone (no leading '/'), each later one extends the
   * previous argument by '/' and the next segment, and the last one is on the
   * whole path with its empty fields dropped. No answer stops it early.
   */
  lemma EnsureCalls(srv: Server, h: seq<Step>, p: string)
    ensures |Ensure(srv, h, p)| == |Segments(p)|
    ensures forall k :: 0 <= k < |Segments(p)| ==>
      Ensure(srv, h, p)[k].call == Mkd(Join(Segments(p)[..k + 1]))
    ensures |Segments(p)| > 0 ==> Ensure(srv, h, p)[0].call == Mkd(Segments(p)[0])
    ensures forall k :: 0 < k < |Segments(p)| ==>
      Arg(Ensure(srv, h, p)[k].call) == Arg(Ensure(srv, h, p)[k - 1].call) + "/" + Segments(p)[k]
    ensures |Segments(p)| > 0 ==> Ensure(srv, h, p)[|Segments(p)| - 1].call == Mkd(Join(Segments(p)))
  {
    var segs := Segments(p);
    PiecesSlashFree(p);
    CreatesCalls(srv, h, [], Pieces(p));
    SegmentsAreNames(p);
    var t := Ensure(srv, h, p);
    forall k | 0 <= k < |segs|
      ensures t[k].call == Mkd(Join(segs[..k + 1]))
    {
      assert [] + segs[..k + 1] == segs[..k + 1];
    }
    if |segs| > 0 {
      assert segs[..1] == [segs[0]];
      assert segs[..|segs|] == segs;
    }
    forall k | 0 < k < |segs|
      ensures Arg(t[k].call) == Arg(t[k - 1].call) + "/" + segs[k]
    {
      assert segs[..k + 1] == segs[..k] + [segs[k]];
      JoinSnoc(segs[..k], segs[k]);
    }
  }

  /**
   * The creates a path calls for, as an independent definition: one per non-empty
   * prefix of its segments, shortest first.
   */
  function MkdChain(segs: seq<string>): seq<Call>
  {
    if segs == [] then [] else MkdChain(segs[..|segs| - 1]) + [Mkd(Join(segs))]
  }

  lemma {:induction false} MkdChainAt(segs: seq<string>)
    ensures |MkdChain(segs)| == |segs|
    ensures forall k :: 0 <= k < |segs| ==> MkdChain(segs)[k] == Mkd(Join(segs[..k + 1]))
  {
    if segs != [] {
      var init := segs[..|segs| - 1];
      MkdChainAt(init);
      forall k | 0 <= k < |segs| ensures MkdChain(segs)[k] == Mkd(Join(segs[..k + 1])) {
        if k < |init| {
          assert init[..k + 1] == segs[..k + 1];
        } else {
          assert segs[..k + 1] == segs;
        }
      }
    }
  }

  /** The calls of `ensure_remote_path(p)` are exactly the chain of creates for the segments of `p`. */
  lemma EnsurePlan(srv: Server, h: seq<Step>, p: string)
    ensures Calls(Ensure(srv, h, p)) == MkdChain(Segments(p))
  {
    EnsureCalls(srv, h, p);
    MkdChainAt(Segments(p));
  }
}
