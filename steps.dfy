/**
 * The vocabulary shared by the recursive walks of the two WinINet clients: the
 * calls they make into the FTP library or the local file system, the steps a
 * walk records, the server that answers them, and the trees the walks visit.
 */
module Steps {

  /** One call into WinINet or the Win32 file API. */
  datatype Call =
    | Mkd(path: string)                  // FtpCreateDirectoryA
    | Put(remote: string)                // FtpPutFileA, to the remote path
    | Find(pattern: string)              // FtpFindFirstFileA, the listing of a directory
    | Get(remote: string, local: string) // FtpGetFileA
    | LocalMkdir(path: string)           // CreateDirectoryA
    | Dele(path: string)                 // FtpDeleteFileA
    | Rmd(path: string)                  // FtpRemoveDirectoryA

  /** The path a call is about. */
  function Arg(c: Call): string
  {
    match c
    case Mkd(p) => p
    case Put(p) => p
    case Find(p) => p
    case Get(p, _) => p
    case LocalMkdir(p) => p
    case Dele(p) => p
    case Rmd(p) => p
  }

  /** A call together with the success flag the library returned for it. */
  datatype Step = Step(call: Call, ok: bool)

  /**
   * The FTP server and file system as seen through the library: whether a call
   * succeeds may depend on every call made before it.
   */
  type Server = (seq<Step>, Call) -> bool

  /** A server that accepts every call. */
  const AllOk: Server := (h: seq<Step>, c: Call) => true

  /** The calls of a trace, without their results. */
  function Calls(t: seq<Step>): (cs: seq<Call>)
    ensures |cs| == |t|
    ensures forall k :: 0 <= k < |t| ==> cs[k] == t[k].call
  {
    if t == [] then [] else [t[0].call] + Calls(t[1..])
  }

  lemma {:induction false} CallsConcat(a: seq<Step>, b: seq<Step>)
    ensures Calls(a + b) == Calls(a) + Calls(b)
  {
    var l, r := Calls(a + b), Calls(a) + Calls(b);
    assert |l| == |r|;
    forall k | 0 <= k < |l| ensures l[k] == r[k] {
      if k < |a| { assert (a + b)[k] == a[k]; } else { assert (a + b)[k] == b[k - |a|]; }
    }
  }

  /** The steps `t` followed by the steps of `r`, with the result of `r`. */
  function Prepend(t: seq<Step>, r: (seq<Step>, bool)): (seq<Step>, bool)
  {
    (t + r.0, r.1)
  }

  lemma PrependAssoc(a: seq<Step>, b: seq<Step>, r: (seq<Step>, bool))
    ensures Prepend(a, Prepend(b, r)) == Prepend(a + b, r)
    ensures Prepend([], r) == r
  {
    assert a + (b + r.0) == (a + b) + r.0;
    assert [] + r.0 == r.0;
  }

  /** A local directory entry as `std::filesystem::directory_iterator` yields it, in iteration order. */
  datatype Entry =
    | File(name: string, content: ContentOrMissing)
    | Dir(name: string, children: seq<Entry>)

  /** The bytes of a local file, or `Unreadable` when `fopen` fails on it. */
  datatype ContentOrMissing = Readable(bytes: string) | Unreadable

  /**
   * What `FtpFindFirstFileA` / `InternetFindNextFileA` report for one directory:
   * the entries in listing order, an empty directory (ERROR_NO_MORE_FILES), or
   * any other failure.
   */
  datatype Listing = Listed(entries: seq<RemoteEntry>) | NoMoreFiles | ListFailed

  /**
   * One entry of a remote listing. A directory carries the listing the server
   * gives when the walk lists it in turn.
   */
  datatype RemoteEntry = RemoteFile(name: string) | RemoteDir(name: string, listing: Listing)

  /** The pseudo-entries every listing may contain. */
  predicate IsDot(name: string)
  {
    name == "." || name == ".."
  }
}
