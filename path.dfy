/**
 * basename and dirname of util.c, as compiled on Cygwin and Windows, where both
 * '/' and '\\' separate path components. Both work on the caller's buffer: they
 * overwrite trailing separators with '\0' and answer either a string literal
 * or a position in that buffer.
 */
module Path {

  predicate IsSep(c: char) {
    c == '/' || c == '\\'
  }

  predicate NoSep(s: string) {
    forall i :: 0 <= i < |s| ==> !IsSep(s[i])
  }

  predicate NoNul(s: string) {
    forall i :: 0 <= i < |s| ==> s[i] != '\0'
  }

  /** strlen over a char buffer: the index of the first '\0' (the whole length when there is none); Password.Strlen is the same over bytes. */
  function CLen(buf: seq<char>): (n: nat)
    ensures n <= |buf| && NoNul(buf[..n])
    ensures n < |buf| ==> buf[n] == '\0'
    ensures '\0' in buf ==> n < |buf|
  {
    if buf == [] || buf[0] == '\0' then 0 else 1 + CLen(buf[1..])
  }

  /** The C string a buffer holds. */
  function CStr(buf: seq<char>): string {
    buf[..CLen(buf)]
  }

  /** The string with its trailing separators removed. */
  function StripSeps(s: string): (t: string)
    ensures |t| <= |s| && t == s[..|t|]
    ensures t == [] || !IsSep(t[|t| - 1])
    ensures forall i :: |t| <= i < |s| ==> IsSep(s[i])
  {
    if s != [] && IsSep(s[|s| - 1]) then StripSeps(s[..|s| - 1]) else s
  }

  /** The index of the last separator of t, or -1 when it has none. */
  function LastSep(t: string): (k: int)
    ensures -1 <= k < |t|
    ensures k >= 0 ==> IsSep(t[k])
    ensures forall j :: k < j < |t| ==> !IsSep(t[j])
  {
    if t == [] then -1 else if IsSep(t[|t| - 1]) then |t| - 1 else LastSep(t[..|t| - 1])
  }

  /** What basename answers for a path. */
  function BaseNameOf(s: string): (r: string)
    ensures r != [] && (r == "/" || NoSep(r))
    ensures s != [] ==> (r == "/" <==> StripSeps(s) == [])
  {
    if s == [] then "."
    else
      var t := StripSeps(s);
      if t == [] then "/" else t[LastSep(t) + 1..]
  }

  /** What dirname evidently means to answer for a path (see DirNameAsWrittenOf for what it does). */
  function DirNameOf(s: string): (r: string)
    ensures r == "." || r == "/" || (|r| < |StripSeps(s)| && r == s[..|r|] && IsSep(s[|r|]))
  {
    if s == [] then "."
    else
      var t := StripSeps(s);
      if t == [] then "/"
      else
        var k := LastSep(t);
        if k < 0 then "." else if k == 0 then "/" else t[..k]
  }

  /**
   * What dirname answers as written: after stripping trailing separators it
   * answers "/" as soon as at most one character is left, so "a/" gives "/".
   */
  function DirNameAsWrittenOf(s: string): (r: string)
    ensures r == "." || r == "/" || (|r| < |StripSeps(s)| && r == s[..|r|] && IsSep(s[|r|]))
  {
    if s == [] then "."
    else
      var t := StripSeps(s);
      if IsSep(s[|s| - 1]) && |t| <= 1 then "/"
      else
        var k := LastSep(t);
        if k < 0 then "." else if k == 0 then "/" else t[..k]
  }

  function Nuls(n: nat): (r: seq<char>)
    ensures |r| == n && forall i :: 0 <= i < n ==> r[i] == '\0'
  {
    seq(n, _ => '\0')
  }

  /** The buffer after the trailing separators of its string (of length len) are overwritten with '\0'. */
  function StrippedBuffer(buf: seq<char>, len: nat): (r: seq<char>)
    requires len <= |buf|
    ensures var t := StripSeps(buf[..len]);
            |r| == |buf| && r[..|t|] == t && r[len..] == buf[len..] &&
            forall i :: |t| <= i < len ==> r[i] == '\0'
  {
    var t := StripSeps(buf[..len]);
    buf[..|t|] + Nuls(len - |t|) + buf[len..]
  }

  /** The buffer after dirname: stripped, then cut at the last separator when that is past index 0. */
  function DirBuffer(buf: seq<char>, len: nat): (r: seq<char>)
    requires len <= |buf|
    ensures |r| == |buf|
  {
    var sb := StrippedBuffer(buf, len);
    var k := LastSep(StripSeps(buf[..len]));
    if k > 0 then sb[k := '\0'] else sb
  }

  /** The cut buffer holds the stripped path up to the last separator, a '\0' there, and the stripped buffer after it. */
  lemma DirBufferCut(buf: seq<char>, len: nat)
    requires len <= |buf|
    ensures var t := StripSeps(buf[..len]); var k := LastSep(t); var r := DirBuffer(buf, len);
            k > 0 ==> r[k] == '\0' && r[..k] == t[..k] && r[k + 1..] == StrippedBuffer(buf, len)[k + 1..]
    ensures LastSep(StripSeps(buf[..len])) <= 0 ==> DirBuffer(buf, len) == StrippedBuffer(buf, len)
  {
  }

  /** A pointer basename or dirname may answer. */
  datatype CPtr = Null | Literal(text: string) | At(offset: nat)

  /** The string a pointer designates, given the buffer. */
  function Text(r: CPtr, buf: seq<char>): string {
    match r
    case Null => ""
    case Literal(t) => t
    case At(k) => if k <= |buf| then CStr(buf[k..]) else ""
  }

  /** The C string in front of a '\0' is just that prefix. */
  lemma CLenAt(buf: seq<char>, n: nat)
    requires n < |buf| && buf[n] == '\0' && NoNul(buf[..n])
    ensures CLen(buf) == n
  {
    if n > 0 {
      assert buf[1..][..n - 1] == buf[1..n];
      CLenAt(buf[1..], n - 1);
    }
  }

  /**
   * The stripping loop of both functions: from the last character backwards,
   * each separator is overwritten with '\0'. Answers the index of the last
   * character kept (-1 when none is).
   */
  method StripTrailingSeparators(name: array<char>, len: nat) returns (cp: int)
    requires len <= name.Length
    modifies name
    ensures cp + 1 == |StripSeps(old(name[..len]))|
    ensures name[..] == StrippedBuffer(old(name[..]), len)
  {
    ghost var buf := name[..];
    cp := len - 1;
    while cp >= 0 && IsSep(name[cp])
      invariant -1 <= cp < len
      invariant forall j :: cp < j < len ==> IsSep(buf[j])
      invariant forall j :: 0 <= j <= cp ==> name[j] == buf[j]
      invariant forall j :: cp < j < len ==> name[j] == '\0'
      invariant forall j :: len <= j < name.Length ==> name[j] == buf[j]
    {
      name[cp] := '\0';
      cp := cp - 1;
    }
    StripSepsAt(buf[..len], cp + 1);
    ghost var expected := buf[..cp + 1] + Nuls(len - (cp + 1)) + buf[len..];
    assert |expected| == name.Length;
    forall j | 0 <= j < name.Length
      ensures name[j] == expected[j]
    {
    }
    assert name[..] == expected;
  }

  /** A prefix ending in a non-separator, followed only by separators, is what StripSeps keeps. */
  lemma {:induction false} StripSepsAt(s: string, m: nat)
    requires m <= |s| && (m == 0 || !IsSep(s[m - 1]))
    requires forall j :: m <= j < |s| ==> IsSep(s[j])
    ensures StripSeps(s) == s[..m]
    decreases |s|
  {
    if m < |s| {
      StripSepsAt(s[..|s| - 1], m);
      assert s[..|s| - 1][..m] == s[..m];
    }
  }

  /** The scanning loop of both functions: backwards from cp to the last separator, or to -1. */
  method FindLastSeparator(name: array<char>, cp0: int) returns (cp: int)
    requires -1 <= cp0 < name.Length
    ensures cp == LastSep(name[..cp0 + 1])
  {
    cp := cp0;
    while cp >= 0 && !IsSep(name[cp])
      invariant -1 <= cp <= cp0
      invariant LastSep(name[..cp0 + 1]) == LastSep(name[..cp + 1])
    {
      assert name[..cp + 1][..cp] == name[..cp];
      cp := cp - 1;
    }
  }

  /**
   * basename: NULL gives NULL, "" gives ".", a string of separators gives "/";
   * otherwise the trailing separators are overwritten and the answer points
   * just after the last remaining separator.
   */
  method Basename(name: array?<char>) returns (r: CPtr)
    requires name != null ==> '\0' in name[..]
    modifies name
    ensures name == null <==> r == Null
    ensures name != null ==> name[..] == StrippedBuffer(old(name[..]), old(CLen(name[..])))
    ensures name != null ==> Text(r, name[..]) == BaseNameOf(old(CStr(name[..])))
    ensures name != null ==> var t := StripSeps(old(CStr(name[..])));
              if t != [] then r == At(LastSep(t) + 1) else r.Literal?
  {
    if name == null {
      return Null;
    }
    ghost var buf := name[..];
    ghost var s := CStr(buf);
    var len := CLen(name[..]);
    if len == 0 {
      return Literal(".");
    }
    var cp := len - 1;
    if IsSep(name[cp]) {
      cp := StripTrailingSeparators(name, len);
      if cp < 0 {
        return Literal("/");
      }
    } else {
      NothingToStrip(buf, len);
    }
    ghost var t := StripSeps(s);
    assert name[..cp + 1] == t;
    cp := FindLastSeparator(name, cp);
    assert cp == LastSep(t);
    r := At(cp + 1);
    BufferText(buf, len, cp + 1);
    assert Text(r, name[..]) == t[cp + 1..];
  }

  /** A string that does not end in a separator is left as it is. */
  lemma NothingToStrip(buf: seq<char>, len: nat)
    requires 0 < len <= |buf| && !IsSep(buf[len - 1])
    ensures StripSeps(buf[..len]) == buf[..len]
    ensures StrippedBuffer(buf, len) == buf
  {
    assert buf[..len] + Nuls(0) + buf[len..] == buf;
  }

  /** In the stripped buffer, the string from k on is the stripped string from k on. */
  lemma BufferText(buf: seq<char>, len: nat, k: nat)
    requires len < |buf| && buf[len] == '\0' && NoNul(buf[..len])
    requires k <= |StripSeps(buf[..len])|
    ensures CStr(StrippedBuffer(buf, len)[k..]) == StripSeps(buf[..len])[k..]
  {
    var t := StripSeps(buf[..len]);
    var sb := StrippedBuffer(buf, len);
    var m := |t| - k;
    assert sb[k..][m] == '\0' by {
      if |t| < len {
        assert sb[|t|] == Nuls(len - |t|)[0];
      } else {
        assert sb[|t|] == buf[len];
      }
    }
    assert sb[k..][..m] == t[k..] by {
      assert t == buf[..|t|];
      assert sb[..|t|] == t;
      assert sb[k..][..m] == sb[..|t|][k..];
    }
    assert NoNul(t[k..]) by {
      forall i | 0 <= i < m
        ensures t[k..][i] != '\0'
      {
        assert t[k..][i] == buf[..len][k + i];
      }
    }
    CLenAt(sb[k..], m);
  }

  /**
   * dirname with the "all separators" test that basename has (cp < name):
   * NULL gives NULL, "" gives ".", a string of separators gives "/"; otherwise,
   * after the trailing separators are overwritten, no separator left gives
   * ".", a separator only at index 0 gives "/", and otherwise the buffer is
   * cut at the last separator and answered.
   */
  method Dirname(name: array?<char>) returns (r: CPtr)
    requires name != null ==> '\0' in name[..]
    modifies name
    ensures name == null <==> r == Null
    ensures name != null ==> name[..] == DirBuffer(old(name[..]), old(CLen(name[..])))
    ensures name != null ==> Text(r, name[..]) == DirNameOf(old(CStr(name[..])))
    ensures name != null ==> var t := StripSeps(old(CStr(name[..])));
              if t != [] && LastSep(t) > 0 then r == At(0) else r.Literal?
  {
    if name == null {
      return Null;
    }
    ghost var buf := name[..];
    ghost var s := CStr(buf);
    var len := CLen(name[..]);
    if len == 0 {
      return Literal(".");
    }
    var cp := len - 1;
    if IsSep(name[cp]) {
      cp := StripTrailingSeparators(name, len);
      if cp < 0 {
        return Literal("/");
      }
    } else {
      NothingToStrip(buf, len);
    }
    ghost var t := StripSeps(s);
    assert name[..cp + 1] == t;
    cp := FindLastSeparator(name, cp);
    if cp < 0 {
      return Literal(".");
    }
    if cp == 0 {
      return Literal("/");
    }
    name[cp] := '\0';
    r := At(0);
    CutText(buf, len, cp);
  }

  /**
   * dirname as util.c has it: after stripping, "/" is answered as soon as the
   * cursor is at or before the start of the buffer (cp <= name).
   */
  method DirnameAsWritten(name: array?<char>) returns (r: CPtr)
    requires name != null ==> '\0' in name[..]
    modifies name
    ensures name == null <==> r == Null
    ensures name != null ==> name[..] == DirBuffer(old(name[..]), old(CLen(name[..])))
    ensures name != null ==> Text(r, name[..]) == DirNameAsWrittenOf(old(CStr(name[..])))
    ensures name != null ==> var t := StripSeps(old(CStr(name[..])));
              if t != [] && LastSep(t) > 0 then r == At(0) else r.Literal?
  {
    if name == null {
      return Null;
    }
    ghost var buf := name[..];
    ghost var s := CStr(buf);
    var len := CLen(name[..]);
    if len == 0 {
      return Literal(".");
    }
    var cp := len - 1;
    if IsSep(name[cp]) {
      cp := StripTrailingSeparators(name, len);
      if cp <= 0 {
        assert cp == 0 ==> LastSep(StripSeps(s)) == -1;
        return Literal("/");
      }
    } else {
      NothingToStrip(buf, len);
    }
    ghost var t := StripSeps(s);
    assert name[..cp + 1] == t;
    cp := FindLastSeparator(name, cp);
    if cp < 0 {
      return Literal(".");
    }
    if cp == 0 {
      return Literal("/");
    }
    name[cp] := '\0';
    r := At(0);
    CutText(buf, len, cp);
  }

  /** Cutting the stripped buffer at the last separator k leaves the stripped string's first k characters. */
  lemma CutText(buf: seq<char>, len: nat, k: nat)
    requires len < |buf| && buf[len] == '\0' && NoNul(buf[..len])
    requires 0 < k == LastSep(StripSeps(buf[..len]))
    ensures CStr(DirBuffer(buf, len)) == StripSeps(buf[..len])[..k]
  {
    var t := StripSeps(buf[..len]);
    var db := DirBuffer(buf, len);
    assert db[k] == '\0';
    assert db[..k] == t[..k];
    assert NoNul(t[..k]) by {
      forall i | 0 <= i < k
        ensures t[..k][i] != '\0'
      {
        assert t[..k][i] == buf[..len][i];
      }
    }
    CLenAt(db, k);
  }

  /** An empty path is "." for both. */
  lemma EmptyPath()
    ensures BaseNameOf("") == "." && DirNameOf("") == "." && DirNameAsWrittenOf("") == "."
  {
  }

  /** A non-empty path made only of separators is "/" for both. */
  lemma {:induction false} OnlySeparators(s: string)
    requires s != [] && forall i :: 0 <= i < |s| ==> IsSep(s[i])
    ensures StripSeps(s) == []
    ensures BaseNameOf(s) == "/" && DirNameOf(s) == "/" && DirNameAsWrittenOf(s) == "/"
  {
    if |s| > 1 {
      OnlySeparators(s[..|s| - 1]);
    }
  }

  /** Otherwise basename is a non-empty final component: it holds no separator and ends the stripped path. */
  lemma BaseNameIsComponent(s: string)
    requires StripSeps(s) != []
    ensures var b := BaseNameOf(s); var t := StripSeps(s);
            b != [] && NoSep(b) && |b| <= |t| && t[|t| - |b|..] == b
  {
    var t := StripSeps(s);
    var k := LastSep(t);
    assert k < |t| - 1 by {
      assert !IsSep(t[|t| - 1]);
    }
    var b := t[k + 1..];
    assert BaseNameOf(s) == b;
    assert |t| - |b| == k + 1;
    forall i | 0 <= i < |b|
      ensures !IsSep(b[i])
    {
      assert b[i] == t[k + 1 + i];
    }
  }

  /** When a separator past index 0 is left, the stripped path is dirname, that separator and basename. */
  lemma Split(s: string)
    requires StripSeps(s) != [] && LastSep(StripSeps(s)) > 0
    ensures var t := StripSeps(s); var k := LastSep(t);
            t == DirNameOf(s) + [t[k]] + BaseNameOf(s) && IsSep(t[k])
  {
    var t := StripSeps(s);
    var k := LastSep(t);
    assert DirNameOf(s) == t[..k];
    assert BaseNameOf(s) == t[k + 1..];
    SplitAround(t, k);
  }

  lemma SplitAround(t: string, k: nat)
    requires k < |t|
    ensures t == t[..k] + [t[k]] + t[k + 1..]
  {
  }

  /** No separator left: dirname is "." and basename the whole stripped path. */
  lemma NoSeparatorLeft(s: string)
    requires StripSeps(s) != [] && LastSep(StripSeps(s)) < 0
    ensures DirNameOf(s) == "." && BaseNameOf(s) == StripSeps(s) && NoSep(BaseNameOf(s))
  {
    var t := StripSeps(s);
    assert s != [];
    assert t[LastSep(t) + 1..] == t;
    assert NoSep(t) by {
      forall i | 0 <= i < |t|
        ensures !IsSep(t[i])
      {
        assert LastSep(t) < i;
      }
    }
  }

  /** The last separator at index 0: dirname is the root. */
  lemma RootIsParent(s: string)
    requires StripSeps(s) != [] && LastSep(StripSeps(s)) == 0
    ensures DirNameOf(s) == "/" && BaseNameOf(s) == StripSeps(s)[1..]
  {
    var t := StripSeps(s);
    assert s != [] && t != [];
    assert DirNameOf(s) == "/";
    assert BaseNameOf(s) == t[0 + 1..];
  }

  /** A final component is its own basename. */
  lemma BaseNameIdempotent(s: string)
    ensures BaseNameOf(BaseNameOf(s)) == BaseNameOf(s)
  {
    if s == [] {
      assert StripSeps(".") == ".";
      assert LastSep(".") == -1 by { assert LastSep(""[..0]) == -1; }
    } else if StripSeps(s) == [] {
      assert StripSeps("/") == [] by { assert "/"[..0] == []; }
    } else {
      var b := BaseNameOf(s);
      BaseNameIsComponent(s);
      assert StripSeps(b) == b;
      NoSepLastSep(b);
    }
  }

  lemma {:induction false} NoSepLastSep(t: string)
    requires NoSep(t)
    ensures LastSep(t) == -1
  {
    if t != [] {
      NoSepLastSep(t[..|t| - 1]);
    }
  }

  /** The source's dirname answers "/" for "a/", where the parent is ".". */
  lemma DirNameAsWrittenCounterexample()
    ensures DirNameAsWrittenOf("a/") == "/"
    ensures DirNameOf("a/") == "."
  {
    assert StripSeps("a/") == "a" by {
      assert "a/"[..1] == "a";
      assert StripSeps("a") == "a";
    }
    assert LastSep("a") == -1 by { assert "a"[..0] == ""; }
  }

  /** The two differ exactly when trailing separators follow a single non-separator character. */
  lemma DirNameAsWrittenDiffers(s: string)
    ensures DirNameAsWrittenOf(s) != DirNameOf(s) <==>
            s != [] && IsSep(s[|s| - 1]) && |StripSeps(s)| == 1
  {
    if s != [] && IsSep(s[|s| - 1]) && |StripSeps(s)| == 1 {
      var t := StripSeps(s);
      assert LastSep(t) == -1 by { assert t[..0] == ""; }
    }
  }
}
