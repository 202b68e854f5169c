/**
 * The duplication and concatenation helpers of util.c (myStrdup, myStrndup,
 * myStrdup2/3/4) and the log-file name that logOpen builds with them.
 * A C string is modelled by the characters before its terminator; a NULL
 * pointer is None. Allocation always succeeds in this model.
 */
module Alloc {

  datatype Option<T> = None | Some(value: T)

  /** myStrdup: a NULL argument gives NULL; otherwise a copy holding the same characters. */
  function Strdup(s: Option<string>): (r: Option<string>)
    ensures r.None? <==> s.None?
    ensures r.Some? ==> |r.value| == |s.value| && forall i :: 0 <= i < |s.value| ==> r.value[i] == s.value[i]
  {
    match s
    case None => None
    case Some(t) => Some(t)
  }

  /**
   * myStrndup: a NULL argument gives NULL; otherwise the first len bytes of s.
   * memcpy reads len bytes, so the caller must supply at least that many.
   */
  function Strndup(s: Option<string>, len: nat): (r: Option<string>)
    requires s.Some? ==> len <= |s.value|
    ensures r.None? <==> s.None?
    ensures r.Some? ==> |r.value| == len && s.value == r.value + s.value[len..]
  {
    match s
    case None => None
    case Some(t) => Some(t[..len])
  }

  /** myStrdup2: the two arguments one after the other. */
  function Strdup2(s1: string, s2: string): (r: string)
    ensures |r| == |s1| + |s2|
    ensures r[..|s1|] == s1 && r[|s1|..] == s2
  {
    s1 + s2
  }

  /** myStrdup3: the three arguments one after the other. */
  function Strdup3(s1: string, s2: string, s3: string): (r: string)
    ensures |r| == |s1| + |s2| + |s3|
    ensures r[..|s1|] == s1 && r[|s1|..|s1| + |s2|] == s2 && r[|s1| + |s2|..] == s3
  {
    s1 + s2 + s3
  }

  /** myStrdup4: the four arguments one after the other. */
  function Strdup4(s1: string, s2: string, s3: string, s4: string): (r: string)
    ensures |r| == |s1| + |s2| + |s3| + |s4|
    ensures r[..|s1|] == s1 && r[|s1|..|s1| + |s2|] == s2
    ensures r[|s1| + |s2|..|s1| + |s2| + |s3|] == s3 && r[|s1| + |s2| + |s3|..] == s4
  {
    s1 + s2 + s3 + s4
  }

  /** Concatenation is associative, so the 3- and 4-argument forms are nested 2-argument ones. */
  lemma StrdupNested(s1: string, s2: string, s3: string, s4: string)
    ensures Strdup3(s1, s2, s3) == Strdup2(Strdup2(s1, s2), s3) == Strdup2(s1, Strdup2(s2, s3))
    ensures Strdup4(s1, s2, s3, s4) == Strdup2(Strdup3(s1, s2, s3), s4) == Strdup2(s1, Strdup3(s2, s3, s4))
  {
  }

  /**
   * The file name logOpen opens: "<progname>.log", or "<progname>.<auction>.log"
   * when an auction is given, prefixed by "<logdir>/" when a directory is given.
   */
  function LogFileName(progname: string, auction: Option<string>, logdir: Option<string>): (r: string)
    ensures var p := |DirPrefix(logdir)|;
            p + |progname| + 4 <= |r| && r[..p] == DirPrefix(logdir) && r[p..p + |progname|] == progname
    ensures r[|r| - 4..] == ".log"
    ensures auction.None? ==> |r| == |DirPrefix(logdir)| + |progname| + 4
    ensures auction.Some? ==> |r| == |DirPrefix(logdir)| + |progname| + |auction.value| + 5
  {
    var base := match auction
      case None => Strdup2(progname, ".log")
      case Some(a) => Strdup4(progname, ".", a, ".log");
    match logdir
    case None => base
    case Some(d) => Strdup3(d, "/", base)
  }

  /** The directory part of a log-file name, empty when there is none. */
  function DirPrefix(logdir: Option<string>): string {
    match logdir
    case None => ""
    case Some(d) => d + "/"
  }

  /** Every log-file name is the directory prefix, the program name and ".log", with the auction in between when given. */
  lemma LogFileNameShape(progname: string, auction: Option<string>, logdir: Option<string>)
    ensures auction.None? ==> LogFileName(progname, auction, logdir) == DirPrefix(logdir) + progname + ".log"
    ensures auction.Some? ==> LogFileName(progname, auction, logdir) == DirPrefix(logdir) + progname + "." + auction.value + ".log"
  {
    match logdir
    case None =>
      assert DirPrefix(logdir) == [];
    case Some(d) =>
      match auction
      case None =>
        assert d + "/" + (progname + ".log") == (d + "/") + progname + ".log";
      case Some(a) =>
        assert d + "/" + (progname + "." + a + ".log") == (d + "/") + progname + "." + a + ".log";
  }

  /** The auction can be read back from the log-file name, so two auctions never share a log file. */
  lemma LogFileNameAuction(progname: string, auction: string, logdir: Option<string>)
    ensures var r := LogFileName(progname, Some(auction), logdir);
            var k := |DirPrefix(logdir)| + |progname| + 1;
            k + 4 <= |r| && r[k..|r| - 4] == auction && r[|r| - 4..] == ".log"
  {
    LogFileNameShape(progname, Some(auction), logdir);
    var r := LogFileName(progname, Some(auction), logdir);
    var k := |DirPrefix(logdir)| + |progname| + 1;
    assert r == (DirPrefix(logdir) + progname + ".") + auction + ".log";
    assert |DirPrefix(logdir) + progname + "."| == k;
  }

  lemma LogFileNameInjective(progname: string, a1: string, a2: string, logdir: Option<string>)
    requires a1 != a2
    ensures LogFileName(progname, Some(a1), logdir) != LogFileName(progname, Some(a2), logdir)
  {
    LogFileNameAuction(progname, a1, logdir);
    LogFileNameAuction(progname, a2, logdir);
  }
}
