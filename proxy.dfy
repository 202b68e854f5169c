/**
 * parseProxy: reads a proxy setting of the form
 *   [ "http://" ] host [ ":" [ port ] ] [ "/" ]
 * into a host and a port (80 by default). It answers 0 for success and 1 for
 * a malformed setting; NULL or an empty host disables the proxy.
 */
module Proxy {
  import opened Alloc
  import opened CType

  /** LONG_MAX on a platform with a 64-bit long: strtol sets errno above it. */
  const LongMax: nat := 0x7FFF_FFFF_FFFF_FFFF

  const DefaultPort: nat := 80

  predicate IsProxySep(c: char) {
    c == ':' || c == '/'
  }

  predicate NoProxySep(s: string) {
    forall i :: 0 <= i < |s| ==> !IsProxySep(s[i])
  }

  predicate AllDigits(s: string) {
    forall i :: 0 <= i < |s| ==> IsDigit(s[i])
  }

  /** strncasecmp(s, "http://", 7) == 0 */
  predicate HasScheme(s: string): (b: bool)
    ensures b <==> |s| >= 7 && forall i :: 0 <= i < 7 ==> ToLower(s[i]) == "http://"[i]
  {
    |s| >= 7 && Lower(s[..7]) == "http://"
  }

  /** strcspn(s, ":/"): the length of the longest prefix holding neither ':' nor '/'. */
  function Strcspn(s: string): (n: nat)
    ensures n <= |s| && NoProxySep(s[..n])
    ensures n < |s| ==> IsProxySep(s[n])
  {
    if s == [] || IsProxySep(s[0]) then 0 else 1 + Strcspn(s[1..])
  }

  /** The number of leading decimal digits of s. */
  function DigitRun(s: string): (n: nat)
    ensures n <= |s| && AllDigits(s[..n])
    ensures n < |s| ==> !IsDigit(s[n])
  {
    if s == [] || !IsDigit(s[0]) then 0 else 1 + DigitRun(s[1..])
  }

  /** The value of a string of decimal digits, most significant first. */
  function Decimal(d: string): (r: nat)
    requires AllDigits(d)
  {
    if d == [] then 0 else 10 * Decimal(d[..|d| - 1]) + (d[|d| - 1] as int - '0' as int)
  }

  function Pow10(n: nat): (r: nat)
    ensures r >= 1
  {
    if n == 0 then 1 else 10 * Pow10(n - 1)
  }

  /** A string of n digits stands for a value below 10 to the n. */
  lemma {:induction false} DecimalBelowPow10(d: string)
    requires AllDigits(d)
    ensures Decimal(d) < Pow10(|d|)
  {
    if d != [] {
      DecimalBelowPow10(d[..|d| - 1]);
    }
  }

  /** strtol(s + i, &end, 10) for an s whose character at i is a digit: the value and the end index. */
  function Strtol(s: string, i: nat): (r: (nat, nat))
    requires i < |s| && IsDigit(s[i])
    ensures i < r.1 <= |s| && AllDigits(s[i..r.1]) && r.0 == Decimal(s[i..r.1])
    ensures r.1 < |s| ==> !IsDigit(s[r.1])
  {
    var n := DigitRun(s[i..]);
    assert s[i..][..n] == s[i..i + n];
    (Decimal(s[i..i + n]), i + n)
  }

  /** What parseProxy makes of a setting. */
  datatype Outcome = Disabled | Endpoint(host: string, port: nat) | Malformed

  /** The setting with an optional case-insensitive "http://" removed. */
  function StripScheme(v: string): (r: string)
    ensures |r| == |v| || |r| + 7 == |v|
  {
    if HasScheme(v) then v[7..] else v
  }

  /** The outcome of parseProxy, stated on the whole setting rather than on a cursor. */
  function Parse(value: Option<string>): (r: Outcome)
    ensures value.None? ==> r == Disabled
    ensures r.Endpoint? ==> r.host != [] && r.port <= LongMax
  {
    match value
    case None => Disabled
    case Some(v) =>
      var s := StripScheme(v);
      var n := Strcspn(s);
      if n == 0 then Disabled else AfterHost(s[..n], s[n..])
  }

  /** What follows a non-empty host: nothing, a lone '/', or ':' and a port part. */
  function AfterHost(host: string, rest: string): (r: Outcome)
    ensures r != Disabled
    ensures r.Endpoint? ==> r.host == host && r.port <= LongMax
  {
    if rest == [] || rest == "/" then Endpoint(host, DefaultPort)
    else if rest[0] == ':' then AfterColon(host, rest[1..])
    else Malformed
  }

  /** After the ':': optional digits (that strtol must not overflow), then nothing or a lone '/'. */
  function AfterColon(host: string, after: string): (r: Outcome)
    ensures r != Disabled
    ensures r.Endpoint? ==> r.host == host && r.port <= LongMax
  {
    var d := DigitRun(after);
    if d == 0 then AfterDigits(host, DefaultPort, after)
    else if Decimal(after[..d]) > LongMax then Malformed
    else AfterDigits(host, Decimal(after[..d]), after[d..])
  }

  /** After the port: nothing or a lone '/'. */
  function AfterDigits(host: string, port: nat, tail: string): (r: Outcome)
    ensures r != Disabled
    ensures r.Endpoint? <==> tail == [] || tail == "/"
    ensures r.Endpoint? ==> r == Endpoint(host, port)
  {
    if tail == [] || tail == "/" then Endpoint(host, port) else Malformed
  }

  /** strtol's reading of the digits at i is the port part AfterColon sees. */
  lemma AfterColonDigits(host: string, v: string, i: nat)
    requires i < |v| && IsDigit(v[i])
    ensures var r := Strtol(v, i);
            AfterColon(host, v[i..]) == if r.0 > LongMax then Malformed else AfterDigits(host, r.0, v[r.1..])
  {
    var r := Strtol(v, i);
    var n := DigitRun(v[i..]);
    assert v[i..][..n] == v[i..i + n];
    assert v[i..][n..] == v[i + n..];
  }

  lemma AfterColonNoDigits(host: string, after: string)
    requires after == [] || !IsDigit(after[0])
    ensures AfterColon(host, after) == AfterDigits(host, DefaultPort, after)
  {
  }

  /** Where the cursor of parseProxy stands after the host span. */
  lemma ParseAtHost(v: string, cp: nat, len: nat)
    requires cp == (if HasScheme(v) then 7 else 0) && len == Strcspn(v[cp..]) && len > 0
    ensures Parse(Some(v)) == AfterHost(v[cp..cp + len], v[cp + len..])
  {
    assert v[cp..] == StripScheme(v);
    assert v[cp..][..len] == v[cp..cp + len];
    assert v[cp..][len..] == v[cp + len..];
  }

  lemma AfterHostColon(host: string, v: string, cp: nat)
    requires cp < |v| && v[cp] == ':'
    ensures AfterHost(host, v[cp..]) == AfterColon(host, v[cp + 1..])
  {
    assert v[cp..][1..] == v[cp + 1..];
  }

  lemma AfterHostNoColon(host: string, rest: string)
    requires rest == [] || rest[0] != ':'
    ensures AfterHost(host, rest) == AfterDigits(host, DefaultPort, rest)
  {
  }

  /** The proxy_t record parseProxy updates. */
  class ProxyConfig {
    var host: Option<string>
    var port: int

    constructor (host: Option<string>, port: int)
      ensures this.host == host && this.port == port
    {
      this.host := host;
      this.port := port;
    }
  }

  /**
   * parseProxy as util.c runs it: a cursor cp moves over the setting; the
   * record is written only on the way out of a success.
   */
  method ParseProxy(value: Option<string>, proxy: ProxyConfig) returns (rc: int)
    modifies proxy
    ensures rc == 0 || rc == 1
    ensures rc == 1 <==> Parse(value).Malformed?
    ensures Parse(value).Disabled? ==> proxy.host == None && proxy.port == old(proxy.port)
    ensures Parse(value).Endpoint? ==>
              proxy.host == Some(Parse(value).host) && proxy.port == Parse(value).port
    ensures Parse(value).Malformed? ==> proxy.host == old(proxy.host) && proxy.port == old(proxy.port)
  {
    if value.None? {
      proxy.host := None;
      return 0;
    }
    var v := value.value;
    var cp := 0;
    if HasScheme(v) {
      cp := 7;
    }
    var len := Strcspn(v[cp..]);
    if len == 0 {
      assert v[cp..] == StripScheme(v);
      proxy.host := None;
      return 0;
    }
    var host := cp;
    cp := cp + len;
    ghost var hostText := v[host..cp];
    ParseAtHost(v, host, len);
    var ok, port := SwitchAfterHost(v, cp, hostText);
    if !ok {
      return 1;
    }
    assert v[host..][..len] == hostText;
    proxy.host := Strndup(Some(v[host..]), len);
    proxy.port := port;
    return 0;
  }

  /**
   * The outer switch on *cp of parseProxy, just after the host: an optional
   * ':' and port, then the end of the string or a lone '/'. Gives the port
   * when the rest is acceptable.
   */
  method SwitchAfterHost(v: string, cp0: nat, ghost host: string) returns (ok: bool, port: nat)
    requires cp0 <= |v|
    ensures ok <==> AfterHost(host, v[cp0..]).Endpoint?
    ensures ok ==> AfterHost(host, v[cp0..]) == Endpoint(host, port)
  {
    var cp := cp0;
    port := DefaultPort;
    if cp < |v| && v[cp] == ':' {
      AfterHostColon(host, v, cp);
      cp := cp + 1;
      if cp < |v| && IsDigit(v[cp]) {
        var r := Strtol(v, cp);
        AfterColonDigits(host, v, cp);
        if r.0 > LongMax {
          return false, port;
        }
        port := r.0;
        cp := r.1;
      } else {
        AfterColonNoDigits(host, v[cp..]);
      }
    } else {
      AfterHostNoColon(host, v[cp..]);
    }
    assert AfterHost(host, v[cp0..]) == AfterDigits(host, port, v[cp..]);
    ok := AtEndOrLoneSlash(v, cp);
  }

  /**
   * The switch on *cp that closes both branches of parseProxy: the end of the
   * string, or a '/' that is the last character, is accepted; anything else is not.
   */
  method AtEndOrLoneSlash(v: string, cp: nat) returns (ok: bool)
    requires cp <= |v|
    ensures ok <==> v[cp..] == [] || v[cp..] == "/"
  {
    if cp == |v| {
      ok := true;
    } else if v[cp] == '/' {
      ok := cp + 1 == |v|;
      assert ok ==> v[cp..] == "/";
    } else {
      ok := false;
    }
  }

  /**
   * One way of writing an enabled proxy: an optional scheme (any case of
   * "http://"), the host, optionally ':' with a possibly empty digit string,
   * and an optional trailing '/'.
   */
  datatype Spelling = Spelling(scheme: string, host: string, port: Option<string>, slash: bool)

  predicate WellFormed(sp: Spelling) {
    (sp.scheme == [] || (|sp.scheme| == 7 && Lower(sp.scheme) == "http://")) &&
    sp.host != [] && NoProxySep(sp.host) &&
    (sp.port.Some? ==> AllDigits(sp.port.value) && Decimal(sp.port.value) <= LongMax)
  }

  function Render(sp: Spelling): string {
    sp.scheme + sp.host + Suffix(sp.port, sp.slash)
  }

  /** What a spelling writes after the host. */
  function Suffix(port: Option<string>, slash: bool): string {
    (match port case None => "" case Some(d) => ":" + d) + (if slash then "/" else "")
  }

  /** The port a spelling denotes: the digits when there are any, 80 otherwise. */
  function PortValue(port: Option<string>): nat
    requires port.Some? ==> AllDigits(port.value)
  {
    match port
    case None => DefaultPort
    case Some(d) => if d == [] then DefaultPort else Decimal(d)
  }

  lemma {:induction false} StrcspnStops(h: string, rest: string)
    requires NoProxySep(h)
    requires rest == [] || IsProxySep(rest[0])
    ensures Strcspn(h + rest) == |h|
  {
    if h != [] {
      assert (h + rest)[1..] == h[1..] + rest;
      StrcspnStops(h[1..], rest);
    }
  }

  lemma {:induction false} DigitRunStops(d: string, rest: string)
    requires AllDigits(d)
    requires rest == [] || !IsDigit(rest[0])
    ensures DigitRun(d + rest) == |d|
  {
    if d != [] {
      assert (d + rest)[1..] == d[1..] + rest;
      DigitRunStops(d[1..], rest);
    }
  }

  /** A rendering without a scheme never looks as if it had one: its host cannot hold the ':' of "http://". */
  lemma NoSchemeUnlessWritten(host: string, port: Option<string>, slash: bool)
    requires host != [] && NoProxySep(host)
    requires port.Some? ==> AllDigits(port.value)
    ensures !HasScheme(host + Suffix(port, slash))
  {
    var r := host + Suffix(port, slash);
    if |r| >= 7 {
      var l := Lower(r[..7]);
      if |host| > 4 {
        assert r[4] == host[4];
        assert l[4] != "http://"[4];
      } else if |host| < 4 {
        assert r[|host|] == ':';
        assert l[|host|] != "http://"[|host|];
      } else {
        assert port.Some? && port.value != [];
        assert r[5] == port.value[0];
        assert l[5] != "http://"[5];
      }
    }
  }

  /** The scheme of a well-formed spelling, and only that, is stripped. */
  lemma StripRendered(sp: Spelling)
    requires WellFormed(sp)
    ensures StripScheme(Render(sp)) == sp.host + Suffix(sp.port, sp.slash)
  {
    var v := Render(sp);
    var body := sp.host + Suffix(sp.port, sp.slash);
    assert v == sp.scheme + body;
    if sp.scheme == [] {
      NoSchemeUnlessWritten(sp.host, sp.port, sp.slash);
      assert v == body;
    } else {
      assert v[..7] == sp.scheme;
      assert HasScheme(v);
      assert v[7..] == body;
    }
  }

  /** The text after the host is read back as the spelling's port. */
  lemma AfterHostSuffix(host: string, port: Option<string>, slash: bool)
    requires port.Some? ==> AllDigits(port.value) && Decimal(port.value) <= LongMax
    ensures AfterHost(host, Suffix(port, slash)) ==
            Endpoint(host, PortValue(port))
  {
    var slashText := if slash then "/" else "";
    match port
    case None =>
      assert Suffix(port, slash) == slashText;
    case Some(d) =>
      var rest := Suffix(port, slash);
      assert rest == ":" + (d + slashText);
      assert rest[1..] == d + slashText;
      DigitRunStops(d, slashText);
      assert (d + slashText)[..|d|] == d;
      assert (d + slashText)[|d|..] == slashText;
  }

  /** Every well-formed spelling is parsed to its host and port. */
  lemma ParseRender(sp: Spelling)
    requires WellFormed(sp)
    ensures Parse(Some(Render(sp))) == Endpoint(sp.host, PortValue(sp.port))
  {
    var rest := Suffix(sp.port, sp.slash);
    var s := StripScheme(Render(sp));
    StripRendered(sp);
    assert rest == [] || IsProxySep(rest[0]);
    StrcspnStops(sp.host, rest);
    assert s[..|sp.host|] == sp.host && s[|sp.host|..] == rest;
    AfterHostSuffix(sp.host, sp.port, sp.slash);
  }

  /** What AfterHost accepts is the suffix of some port and slash. */
  lemma AfterHostSpelled(host: string, rest: string) returns (port: Option<string>, slash: bool)
    requires AfterHost(host, rest).Endpoint?
    ensures port.Some? ==> AllDigits(port.value) && Decimal(port.value) <= LongMax
    ensures rest == Suffix(port, slash)
    ensures AfterHost(host, rest) == Endpoint(host, PortValue(port))
  {
    if rest == [] || rest == "/" {
      port, slash := None, rest == "/";
    } else {
      var after := rest[1..];
      var d := DigitRun(after);
      var digits, tail := after[..d], after[d..];
      assert rest[0] == ':';
      assert after == digits + tail;
      assert rest == [rest[0]] + after;
      port, slash := Some(digits), tail == "/";
      assert Decimal(digits) <= LongMax;
      assert rest == ":" + digits + tail;
    }
  }

  /** Conversely, every setting parsed to an endpoint is the rendering of a well-formed spelling with that host and port. */
  lemma ParseSpelled(v: string) returns (sp: Spelling)
    requires Parse(Some(v)).Endpoint?
    ensures WellFormed(sp) && Render(sp) == v
    ensures Parse(Some(v)) == Endpoint(sp.host, PortValue(sp.port))
  {
    var scheme := SchemeOf(v);
    var s := StripScheme(v);
    var n := Strcspn(s);
    var host, rest := s[..n], s[n..];
    assert host != [] && NoProxySep(host) && Parse(Some(v)) == AfterHost(host, rest) by {
      assert n > 0;
    }
    var port, slash := AfterHostSpelled(host, rest);
    sp := Spelling(scheme, host, port, slash);
    assert WellFormed(sp);
    Reassemble(scheme, s, n);
  }

  lemma Reassemble(a: string, s: string, n: nat)
    requires n <= |s|
    ensures a + s[..n] + s[n..] == a + s
  {
    assert s == s[..n] + s[n..];
  }

  /** The scheme StripScheme removes. */
  lemma SchemeOf(v: string) returns (scheme: string)
    ensures scheme == [] || (|scheme| == 7 && Lower(scheme) == "http://")
    ensures v == scheme + StripScheme(v)
  {
    scheme := if HasScheme(v) then v[..7] else [];
  }

  /**
   * NULL, and a setting whose host span is empty, disable the proxy; nothing else
   * does. An accepted host is the separator-free start of what follows the scheme.
   */
  lemma ParseDisabled(v: string)
    ensures Parse(Some(v)) == Disabled <==> Strcspn(StripScheme(v)) == 0
    ensures var r := Parse(Some(v)); var s := StripScheme(v);
            r.Endpoint? ==> NoProxySep(r.host) && |r.host| <= |s| && s[..|r.host|] == r.host
  {
  }

  /** A port beyond what strtol can represent is an error. */
  lemma ParseOverflow(h: string, d: string)
    requires h != [] && NoProxySep(h) && d != [] && AllDigits(d) && Decimal(d) > LongMax
    ensures Parse(Some(h + ":" + d)) == Malformed
  {
    var v := h + ":" + d;
    assert Suffix(Some(d), false) == ":" + d;
    NoSchemeUnlessWritten(h, Some(d), false);
    assert v == h + (":" + d);
    StrcspnStops(h, ":" + d);
    assert v[..|h|] == h && v[|h|..] == ":" + d;
    assert (":" + d)[1..] == d;
    DigitRunStops(d, "");
    assert d + "" == d;
  }

  /** Powers of ten grow with the exponent. */
  lemma {:induction false} Pow10Monotone(m: nat, n: nat)
    requires m <= n
    ensures Pow10(m) <= Pow10(n)
  {
    if m < n {
      Pow10Monotone(m, n - 1);
    }
  }

  /** A port of at most 18 digits is within LONG_MAX, so strtol never reports it out of range. */
  lemma ShortPortFits(d: string)
    requires AllDigits(d) && |d| <= 18
    ensures Decimal(d) <= LongMax
  {
    DecimalBelowPow10(d);
    Pow10Monotone(|d|, 18);
    assert Pow10(6) == 1_000_000;
    assert Pow10(12) == 1_000_000_000_000;
    assert Pow10(18) == 1_000_000_000_000_000_000;
  }

  /** The converse of ParseOverflow: "host:" and at most 18 digits give that port, or 80 for none. */
  lemma ParseShortPort(h: string, d: string)
    requires h != [] && NoProxySep(h) && AllDigits(d) && |d| <= 18
    ensures Parse(Some(h + ":" + d)) == Endpoint(h, PortValue(Some(d)))
  {
    ShortPortFits(d);
    var sp := Spelling([], h, Some(d), false);
    assert Suffix(sp.port, sp.slash) == ":" + d;
    assert Render(sp) == h + ":" + d;
    ParseRender(sp);
  }

  lemma DisabledExamples()
    ensures Parse(Some("")) == Disabled && Parse(Some("/")) == Disabled
    ensures Parse(Some(":8080")) == Disabled && Parse(Some("http://")) == Disabled
  {
    assert Lower("http://") == "http://";
    assert "http://"[..7] == "http://";
    assert StripScheme("http://") == [];
  }

  lemma Decimal8080()
    ensures AllDigits("8080") && Decimal("8080") == 8080
  {
    assert "8080"[..3] == "808" && "808"[..2] == "80" && "80"[..1] == "8" && "8"[..0] == "";
  }

  lemma HostOnlyExample()
    ensures Parse(Some("h")) == Endpoint("h", 80)
  {
    var sp := Spelling([], "h", None, false);
    assert Render(sp) == "h";
    ParseRender(sp);
  }

  /** A ':' with no digit after it keeps the default port. */
  lemma ColonWithoutDigitsExample()
    ensures Parse(Some("h:")) == Endpoint("h", 80) && Parse(Some("h:/")) == Endpoint("h", 80)
  {
    var sp := Spelling([], "h", Some([]), false);
    assert Render(sp) == "h:";
    ParseRender(sp);
    sp := Spelling([], "h", Some([]), true);
    assert Render(sp) == "h:/";
    ParseRender(sp);
  }

  lemma PortExample()
    ensures Parse(Some("h:8080")) == Endpoint("h", 8080)
  {
    Decimal8080();
    var sp := Spelling([], "h", Some("8080"), false);
    assert Render(sp) == "h:8080";
    ParseRender(sp);
  }

  lemma UpperSchemeLowered()
    ensures Lower("HTTP://") == "http://"
  {
    assert Lower("HTTP://") == [ToLower('H')] + Lower("TTP://");
    assert Lower("TTP://") == [ToLower('T')] + Lower("TP://");
    assert Lower("TP://") == [ToLower('T')] + Lower("P://");
    assert Lower("P://") == [ToLower('P')] + Lower("://");
    assert Lower("://") == "://";
  }

  lemma SchemePortSlashExample()
    ensures Parse(Some("HTTP://h:8080/")) == Endpoint("h", 8080)
  {
    Decimal8080();
    var scheme := "HTTP://";
    UpperSchemeLowered();
    var sp := Spelling(scheme, "h", Some("8080"), true);
    assert Render(sp) == "HTTP://h:8080/";
    ParseRender(sp);
  }

  /** Letters after the ':' are not a port: the remainder from the colon on is then rejected. */
  lemma LettersAfterColonExample()
    ensures Parse(Some("h:abc")) == Malformed
  {
    StrcspnStops("h", ":abc");
    assert "h:abc" == "h" + ":abc";
    assert !HasScheme("h:abc");
    assert DigitRun("abc") == 0;
  }

  lemma TextAfterPortExample()
    ensures Parse(Some("h:8080/x")) == Malformed
  {
    var v := "h:8080/x";
    assert v == "h" + ":8080/x";
    StrcspnStops("h", ":8080/x");
    assert !HasScheme(v) by {
      assert Lower(v[..7])[0] == 'h';
    }
    assert Parse(Some(v)) == AfterHost("h", ":8080/x");
    assert ":8080/x"[1..] == "8080/x";
    PortThenText();
  }

  lemma PortThenText()
    ensures AfterColon("h", "8080/x") == Malformed
  {
    var after := "8080/x";
    assert after == "8080" + "/x";
    DigitRunStops("8080", "/x");
    Decimal8080();
    assert after[..4] == "8080" && after[4..] == "/x";
  }
}
