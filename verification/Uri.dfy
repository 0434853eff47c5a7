/** The WebSocket URI parser and printer (lib/websocketpp/uri.hpp). */
module Uris {
  import opened Common

  datatype Uri = Uri(scheme: string, host: string, resource: string, port: nat, secure: bool)

  const DEFAULT_PORT: nat := 80
  const DEFAULT_SECURE_PORT: nat := 443

  function DefaultPort(secure: bool): nat { if secure then DEFAULT_SECURE_PORT else DEFAULT_PORT }

  // ---------------------------------------------------------------- numbers as text

  predicate IsDigit(c: char) { '0' <= c <= '9' }

  /** The digits at the front of a text, added to what was read before them. */
  function Digits(s: string, sofar: nat): nat {
    if s != [] && IsDigit(s[0]) then Digits(s[1..], 10 * sofar + (s[0] as int - '0' as int)) else sofar
  }

  predicate IsSpace(c: char) { c == ' ' || '\t' <= c <= '\r' }

  /** atoi: leading space, an optional sign, and the digits that follow. */
  function Atoi(s: string): int {
    if s != [] && IsSpace(s[0]) then Atoi(s[1..])
    else if s != [] && s[0] == '-' then 0 - Digits(s[1..], 0) as int
    else if s != [] && s[0] == '+' then Digits(s[1..], 0)
    else Digits(s, 0)
  }

  /** What atoi is defined for. */
  predicate InIntRange(n: int) { -0x8000_0000 <= n < 0x8000_0000 }

  /** The conversion to unsigned int. */
  function ToUnsigned(n: int): int { if n < 0 then n + 0x1_0000_0000 else n }

  function PortFrom(port: string, secure: bool): Option<nat> {
    if port == [] then Some(DefaultPort(secure))
    else
      var n := ToUnsigned(Atoi(port));
      if n > 65535 || n == 0 || n < 0 then None else Some(n)
  }

  function DigitChar(d: nat): char
    requires d < 10
  {
    "0123456789"[d]
  }

  /** A number as the stream writes it. */
  function Decimal(n: nat): (s: string)
    ensures s != [] && forall i :: 0 <= i < |s| ==> IsDigit(s[i])
  {
    if n < 10 then [DigitChar(n)] else Decimal(n / 10) + [DigitChar(n % 10)]
  }

  // ---------------------------------------------------------------- parsing

  /** The place of the first of two characters, or the end. */
  function Until(s: string, a: char, b: char): (k: nat)
    ensures k <= |s| && (forall i :: 0 <= i < k ==> s[i] != a && s[i] != b)
    ensures k < |s| ==> s[k] == a || s[k] == b
  {
    if s == [] || s[0] == a || s[0] == b then 0 else 1 + Until(s[1..], a, b)
  }

  datatype Parts = Parts(host: string, port: string, tail: string)

  /** After the colon: the port, up to a slash. */
  function PortParts(host: string, t: string): Parts {
    var k := Until(t, '/', '/');
    Parts(host, t[..k], if k == |t| then [] else t[k + 1..])
  }

  /** Host, port text and what follows the slash, of the text after the scheme. */
  function Split(t: string): Option<Parts> {
    if t != [] && t[0] == '[' then
      var k := Until(t[1..], ']', ']');
      if k == |t| - 1 then None
      else
        var host, after := t[1..][..k], t[k + 2..];
        if after == [] then Some(Parts(host, [], []))
        else if after[0] == '/' then Some(Parts(host, [], after[1..]))
        else if after[0] == ':' then Some(PortParts(host, after[1..]))
        else None
    else
      var k := Until(t, '/', ':');
      if k == |t| then Some(Parts(t, [], []))
      else if t[k] == '/' then Some(Parts(t[..k], [], t[k + 1..]))
      else Some(PortParts(t[..k], t[k + 1..]))
  }

  predicate StartsWith(s: string, p: string) { |p| < |s| && s[..|p|] == p }

  /** The scheme, and whether it is a secure one. */
  function Scheme(s: string): Option<(string, bool)> {
    if StartsWith(s, "wss://") then Some(("wss", true))
    else if StartsWith(s, "ws://") then Some(("ws", false))
    else if StartsWith(s, "http://") then Some(("http", false))
    else if StartsWith(s, "https://") then Some(("https", true))
    else None
  }

  lemma SchemeLength(s: string)
    ensures Scheme(s).Some? ==> |Scheme(s).value.0| + 3 < |s|
  {
  }

  /** What the constructor makes of a text; None if the URI is not valid. */
  function Parse(s: string): Option<Uri> {
    SchemeLength(s);
    match Scheme(s)
    case None => None
    case Some(x) =>
      match Split(s[|x.0| + 3..])
      case None => None
      case Some(p) =>
        match PortFrom(p.port, x.1)
        case None => None
        case Some(n) => Some(Uri(x.0, p.host, "/" + p.tail, n, x.1))
  }

  /** Parsing by its three stages. */
  lemma ParseCases(s: string)
    ensures Scheme(s) == None ==> Parse(s) == None
    ensures Scheme(s).Some? ==> var x := Scheme(s).value; |x.0| + 3 < |s| && match Split(s[|x.0| + 3..])
      case None => Parse(s) == None
      case Some(p) => match PortFrom(p.port, x.1)
        case None => Parse(s) == None
        case Some(n) => Parse(s) == Some(Uri(x.0, p.host, "/" + p.tail, n, x.1))
  {
    hide Split, PortFrom, Scheme;
    SchemeLength(s);
  }

  /** The port text of a valid URI, if there is one, is a number atoi is defined for. */
  predicate PortInRange(s: string) {
    SchemeLength(s);
    match Scheme(s)
    case None => true
    case Some(x) =>
      match Split(s[|x.0| + 3..])
      case None => true
      case Some(p) => InIntRange(Atoi(p.port))
  }

  lemma PortTextInRange(s: string)
    requires PortInRange(s) && Scheme(s).Some?
    ensures var n := |Scheme(s).value.0| + 3; n < |s| && (Split(s[n..]).Some? ==> InIntRange(Atoi(Split(s[n..]).value.port)))
  {
    hide Split, Atoi, Scheme, InIntRange;
    SchemeLength(s);
  }

  // ---------------------------------------------------------------- printing

  function PortText(u: Uri): string {
    if u.port == DefaultPort(u.secure) then [] else [':'] + Decimal(u.port)
  }

  function Str(u: Uri): string {
    u.scheme + "://" + u.host + PortText(u) + u.resource
  }

  // ---------------------------------------------------------------- the class

  class UriObject {
    var scheme: string
    var host: string
    var resource: string
    var port: nat
    var secure: bool
    var valid: bool

    ghost function Value(): Option<Uri>
      reads this
    {
      if valid then Some(Uri(scheme, host, resource, port, secure)) else None
    }

    constructor (s: string)
      requires PortInRange(s)
      ensures Value() == Parse(s)
    {
      scheme, host, resource, port, secure, valid := [], [], [], 0, false, false;
      new;
      hide Parse, PortInRange;
      Read(s);
    }

    /** The text, of which nothing was read yet. */
    method Read(s: string)
      requires PortInRange(s) && host == [] && !valid
      modifies this
      ensures Value() == Parse(s)
    {
      hide Scheme, Split, PortFrom, Atoi, Parse, PortInRange, InIntRange;
      SchemeLength(s);
      var found, at := ReadScheme(s);
      if found {
        PortTextInRange(s);
        ReadRest(s[at..]);
      }
      ParseCases(s);
    }

    /** What follows the scheme. */
    method ReadRest(t: string)
      requires t != [] && host == [] && !valid
      requires Split(t).Some? ==> InIntRange(Atoi(Split(t).value.port))
      modifies this`host, this`port, this`resource, this`valid
      ensures valid == (Split(t).Some? && PortFrom(Split(t).value.port, secure).Some?)
      ensures valid ==> var p := Split(t).value;
        host == p.host && port == PortFrom(p.port, secure).value && resource == "/" + p.tail
    {
      hide Split, PortFrom, Atoi, InIntRange;
      var ok, portText, tail := ReadParts(t);
      if !ok { return; }
      var error := SetPort(portText);
      if error { return; }
      resource := "/" + tail;
      valid := true;
    }

    method ReadScheme(s: string) returns (found: bool, at: nat)
      modifies this`scheme, this`secure
      ensures found == Scheme(s).Some?
      ensures found ==> Scheme(s).value == (scheme, secure) && at == |scheme| + 3
    {
      found, at := true, 0;
      if |s| >= 7 && s[..6] == "wss://" {
        secure, scheme, at := true, "wss", 6;
      } else if |s| >= 6 && s[..5] == "ws://" {
        secure, scheme, at := false, "ws", 5;
      } else if |s| >= 8 && s[..7] == "http://" {
        secure, scheme, at := false, "http", 7;
      } else if |s| >= 9 && s[..8] == "https://" {
        secure, scheme, at := true, "https", 8;
      } else {
        found := false;
      }
    }

    /** The host in brackets; state 1 is before a port, 2 after the host. */
    method ReadBracketed(t: string) returns (ok: bool, it: nat, state: nat)
      requires t != [] && t[0] == '['
      modifies this`host
      ensures var k := Until(t[1..], ']', ']'); var e := k + 2;
        && ok == (k < |t| - 1 && (e == |t| || t[e] == '/' || t[e] == ':'))
        && (ok ==> host == t[1..][..k] && it <= |t| && it == (if e == |t| then e else e + 1)
                   && state == (if e < |t| && t[e] == ':' then 1 else 2))
    {
      hide Until;
      ok, it, state := true, 1, 0;
      var temp := it;
      assert t[1..] == t[temp..];
      while temp < |t| && t[temp] != ']'
        invariant 1 <= temp <= |t| && Until(t[1..], ']', ']') == temp - 1 + Until(t[temp..], ']', ']')
      {
        UntilNext(t, temp, ']', ']');
        temp := temp + 1;
      }
      UntilHere(t, temp, ']', ']');
      if temp == |t| {
        ok := false;
        return;
      }
      host := t[it..temp];
      it := temp + 1;
      if it == |t| {
        state := 2;
      } else if t[it] == '/' {
        state := 2;
        it := it + 1;
      } else if t[it] == ':' {
        state := 1;
        it := it + 1;
      } else {
        ok := false;
      }
    }

    /** A host name or an address, up to a colon or a slash. */
    method ReadHost(t: string) returns (it: nat, state: nat)
      requires host == []
      modifies this`host
      ensures var k := Until(t, '/', ':');
        && host == t[..k] && it == (if k == |t| then k else k + 1)
        && state == (if k < |t| && t[k] == ':' then 1 else 2)
    {
      hide Until;
      it, state := 0, 0;
      ghost var k := Until(t, '/', ':');
      assert t[0..] == t;
      while state == 0
        invariant it <= |t| && k <= |t| && state in {0, 1, 2}
        invariant state == 0 ==> host == t[..it] && k == it + Until(t[it..], '/', ':')
        invariant state > 0 ==>
          host == t[..k] && it == (if k == |t| then k else k + 1) && state == (if k < |t| && t[k] == ':' then 1 else 2)
        decreases |t| - it, state == 0
      {
        if it == |t| {
          UntilHere(t, it, '/', ':');
          state := 2;
          break;
        } else if t[it] == '/' {
          UntilHere(t, it, '/', ':');
          state := 2;
        } else if t[it] == ':' {
          UntilHere(t, it, '/', ':');
          state := 1;
        } else {
          UntilNext(t, it, '/', ':');
          host := host + [t[it]];
        }
        it := it + 1;
      }
    }

    /** The port, up to a slash. */
    method ReadPort(t: string, from: nat) returns (portText: string, it: nat)
      requires from <= |t|
      ensures it <= |t| && var k := from + Until(t[from..], '/', '/');
        portText == t[from..k] && it == if k == |t| then k else k + 1
    {
      hide Until;
      portText, it := [], from;
      var state := 1;
      ghost var k := from + Until(t[from..], '/', '/');
      while state == 1
        invariant from <= it <= |t| && state in {1, 3}
        invariant state == 1 ==> portText == t[from..it] && k == it + Until(t[it..], '/', '/')
        invariant state == 3 ==> k < |t| && portText == t[from..k] && it == k + 1
        decreases |t| - it
      {
        if it == |t| {
          UntilHere(t, it, '/', '/');
          break;
        } else if t[it] == '/' {
          UntilHere(t, it, '/', '/');
          state := 3;
        } else {
          UntilNext(t, it, '/', '/');
          portText := portText + [t[it]];
        }
        it := it + 1;
      }
    }

    method ReadParts(t: string) returns (ok: bool, portText: string, tail: string)
      requires t != [] && host == []
      modifies this`host
      ensures ok == Split(t).Some? && (ok ==> Split(t).value == Parts(host, portText, tail))
    {
      hide Until, Split, PortParts;
      ok, portText, tail := true, [], [];
      var it, state;
      if t[0] == '[' {
        SplitBracketed(t);
        ok, it, state := ReadBracketed(t);
        if !ok { return; }
      } else {
        SplitPlain(t);
        it, state := ReadHost(t);
      }
      if state == 1 {
        PortPartsAt(host, t, it);
        portText, it := ReadPort(t, it);
      }
      tail := t[it..];
    }

    method SetPort(text: string) returns (error: bool)
      requires InIntRange(Atoi(text))
      modifies this`port
      ensures error == PortFrom(text, secure).None? && (!error ==> port == PortFrom(text, secure).value)
    {
      error := false;
      if text == [] {
        port := DefaultPort(secure);
        return;
      }
      var tPort := ToUnsigned(Atoi(text));
      if tPort > 65535 { error := true; }
      if tPort == 0 { error := true; }
      port := tPort % 65536;
    }

    method ToString() returns (s: string)
      requires valid
      ensures s == Str(Value().value)
    {
      s := scheme + "://" + host;
      if port != DefaultPort(secure) {
        s := s + ":" + Decimal(port);
      }
      s := s + resource;
    }
  }

  /** After a host: a port if a colon is there, and else what follows the slash. */
  function AfterAt(host: string, t: string, e: nat): Parts
    requires e <= |t|
  {
    if e == |t| then Parts(host, [], [])
    else if t[e] == ':' then PortParts(host, t[e + 1..])
    else Parts(host, [], t[e + 1..])
  }

  lemma SplitBracketed(t: string)
    requires t != [] && t[0] == '['
    ensures var k := Until(t[1..], ']', ']'); var e := k + 2;
      Split(t) == if k < |t| - 1 && (e == |t| || t[e] == '/' || t[e] == ':')
                  then Some(AfterAt(t[1..][..k], t, e)) else None
  {
    hide Until, PortParts;
    var k := Until(t[1..], ']', ']');
    if k < |t| - 2 { assert t[k + 2..][1..] == t[k + 3..] && t[k + 2..][0] == t[k + 2]; }
  }

  lemma SplitPlain(t: string)
    requires t != [] && t[0] != '['
    ensures Split(t) == Some(AfterAt(t[..Until(t, '/', ':')], t, Until(t, '/', ':')))
  {
    hide Until, PortParts;
    assert t[..|t|] == t;
  }

  lemma PortPartsAt(host: string, t: string, from: nat)
    requires from <= |t|
    ensures var k := from + Until(t[from..], '/', '/');
      PortParts(host, t[from..]) == Parts(host, t[from..k], t[if k == |t| then k else k + 1..])
  {
    hide Until;
    var k := Until(t[from..], '/', '/');
    assert t[from..][..k] == t[from..from + k];
    if k < |t| - from { assert t[from..][k + 1..] == t[from + k + 1..]; }
  }

  lemma UntilHere(t: string, i: nat, a: char, b: char)
    requires i <= |t| && (i == |t| || t[i] == a || t[i] == b)
    ensures Until(t[i..], a, b) == 0
  {
  }

  lemma UntilNext(t: string, i: nat, a: char, b: char)
    requires i < |t| && t[i] != a && t[i] != b
    ensures Until(t[i..], a, b) == 1 + Until(t[i + 1..], a, b)
  {
    assert t[i..][1..] == t[i + 1..];
  }

  // ---------------------------------------------------------------- numbers read back

  lemma {:induction false} DigitsAppend(a: string, c: char, sofar: nat)
    requires IsDigit(c) && forall i :: 0 <= i < |a| ==> IsDigit(a[i])
    ensures Digits(a + [c], sofar) == 10 * Digits(a, sofar) + (c as int - '0' as int)
    decreases |a|
  {
    if a == [] {
      assert (a + [c])[1..] == [];
    } else {
      assert (a + [c])[1..] == a[1..] + [c];
      DigitsAppend(a[1..], c, 10 * sofar + (a[0] as int - '0' as int));
    }
  }

  lemma {:induction false} DecimalReads(n: nat)
    ensures Digits(Decimal(n), 0) == n
  {
    if n < 10 {
      assert Decimal(n)[1..] == [];
      assert DigitChar(n) as int - '0' as int == n;
    } else {
      DecimalReads(n / 10);
      DigitsAppend(Decimal(n / 10), DigitChar(n % 10), 0);
      assert DigitChar(n % 10) as int - '0' as int == n % 10;
    }
  }

  lemma PortReads(n: nat, secure: bool)
    requires 1 <= n <= 65535
    ensures PortFrom(Decimal(n), secure) == Some(n) && InIntRange(Atoi(Decimal(n)))
  {
    DecimalReads(n);
    assert IsDigit(Decimal(n)[0]);
  }

  // ---------------------------------------------------------------- round trip

  /** What can come out of parsing. */
  predicate IsUri(u: Uri) {
    && ((u.secure && u.scheme in {"wss", "https"}) || (!u.secure && u.scheme in {"ws", "http"}))
    && 1 <= u.port <= 65535 && u.resource != [] && u.resource[0] == '/'
  }

  lemma ParseGivesUri(s: string)
    ensures Parse(s).Some? ==> IsUri(Parse(s).value)
  {
    hide Split, Atoi;
  }

  /** The host can be read back without brackets. */
  predicate PlainHost(host: string) {
    ':' !in host && '/' !in host && (host == [] || host[0] != '[')
  }

  /** Whether the host of a text is in brackets. */
  predicate Bracketed(s: string) {
    SchemeLength(s);
    Scheme(s).Some? && s[|Scheme(s).value.0| + 3] == '['
  }

  lemma UnbracketedIsPlain(s: string)
    requires Parse(s).Some? && !Bracketed(s)
    ensures PlainHost(Parse(s).value.host)
  {
    hide PortFrom;
    SchemeLength(s);
    var t := s[|Scheme(s).value.0| + 3..];
    var k := Until(t, '/', ':');
    assert Split(t).value.host == t[..k];
  }

  lemma {:induction false} UntilAppend(a: string, b: string, x: char, y: char)
    requires x !in a && y !in a
    ensures Until(a + b, x, y) == |a| + Until(b, x, y)
    decreases |a|
  {
    if a == [] {
      assert a + b == b;
    } else {
      assert (a + b)[1..] == a[1..] + b;
      UntilAppend(a[1..], b, x, y);
    }
  }

  /** The printed text after the scheme. */
  function Rest(u: Uri): string { u.host + (PortText(u) + u.resource) }

  lemma SchemesRead(rest: string)
    requires rest != []
    ensures Scheme("wss" + "://" + rest) == Some(("wss", true))
    ensures Scheme("ws" + "://" + rest) == Some(("ws", false))
    ensures Scheme("http" + "://" + rest) == Some(("http", false))
    ensures Scheme("https" + "://" + rest) == Some(("https", true))
  {
    assert ("wss" + "://" + rest)[..6] == "wss://";
    assert ("ws" + "://" + rest)[..5] == "ws://" && ("ws" + "://" + rest)[2] == ':' != "wss://"[2];
    assert ("http" + "://" + rest)[..7] == "http://" && ("http" + "://" + rest)[0] == 'h';
    assert ("https" + "://" + rest)[..8] == "https://" && ("https" + "://" + rest)[0] == 'h';
    assert ("https" + "://" + rest)[4] == 's' != "http://"[4];
  }

  lemma SchemeReads(u: Uri)
    requires IsUri(u)
    ensures Scheme(Str(u)) == Some((u.scheme, u.secure))
    ensures |u.scheme| + 3 < |Str(u)| && Str(u)[|u.scheme| + 3..] == Rest(u)
  {
    hide PortText, Scheme;
    assert Str(u) == u.scheme + "://" + Rest(u);
    SchemesRead(Rest(u));
  }

  lemma AfterHost(u: Uri)
    requires IsUri(u)
    ensures var t := Rest(u);
      && |u.host| < |t| && t[..|u.host|] == u.host
      && t[|u.host|] == if u.port == DefaultPort(u.secure) then '/' else ':'
  {
    hide Decimal;
  }

  lemma PlainUntil(u: Uri)
    requires IsUri(u) && PlainHost(u.host)
    ensures var t := Rest(u); t[0] != '[' && Until(t, '/', ':') == |u.host|
  {
    hide Decimal;
    AfterHost(u);
    var after := PortText(u) + u.resource;
    UntilAppend(u.host, after, '/', ':');
    assert Until(after, '/', ':') == 0;
    if u.host != [] { assert Rest(u)[0] == u.host[0]; }
  }

  lemma PortSplits(host: string, port: nat, resource: string)
    requires resource != [] && resource[0] == '/'
    ensures PortParts(host, Decimal(port) + resource) == Parts(host, Decimal(port), resource[1..])
  {
    hide Until;
    var d := Decimal(port);
    assert '/' !in d;
    UntilAppend(d, resource, '/', '/');
    SlashFirst(resource);
    assert (d + resource)[..|d|] == d && (d + resource)[|d| + 1..] == resource[1..];
  }

  lemma SlashFirst(resource: string)
    requires resource != [] && resource[0] == '/'
    ensures Until(resource, '/', '/') == 0
  {
  }

  lemma PlainSplits(u: Uri)
    requires IsUri(u) && PlainHost(u.host)
    ensures Split(Rest(u)).Some?
    ensures Split(Rest(u)).value ==
      Parts(u.host, if u.port == DefaultPort(u.secure) then [] else Decimal(u.port), u.resource[1..])
  {
    hide Decimal, Until, PortParts, PlainHost, IsUri;
    var t, n := Rest(u), |u.host|;
    AfterHost(u);
    PlainUntil(u);
    ResourceFirst(u);
    if u.port == DefaultPort(u.secure) {
      assert t[n + 1..] == u.resource[1..];
    } else {
      assert t[n + 1..] == Decimal(u.port) + u.resource;
      PortSplits(u.host, u.port, u.resource);
    }
  }

  lemma ResourceFirst(u: Uri)
    requires IsUri(u)
    ensures u.resource != [] && u.resource[0] == '/'
  {
  }

  lemma {:induction false} AllSame(t: string, n: nat)
    requires n < |t| && t[0] == '[' && forall i :: 0 <= i < n ==> t[i + 1] == t[i]
    ensures t[n] == '['
  {
    if n > 0 { AllSame(t, n - 1); }
  }

  lemma OtherHost(u: Uri)
    requires IsUri(u) && !PlainHost(u.host)
    ensures Split(Rest(u)).Some? ==> Split(Rest(u)).value.host != u.host
  {
    hide Decimal;
    var t, n := Rest(u), |u.host|;
    AfterHost(u);
    if u.host != [] && u.host[0] == '[' {
      assert t[0] == u.host[0];
      var k := Until(t[1..], ']', ']');
      if k == n && t[1..][..k] == u.host {
        forall i | 0 <= i < n ensures t[i + 1] == t[i] {
          assert t[i + 1] == t[1..][..k][i] == u.host[i] == t[..n][i];
        }
        AllSame(t, n);
      }
    } else {
      var k := Until(t, '/', ':');
      assert k < n by {
        if ':' in u.host {
          var i :| 0 <= i < n && u.host[i] == ':';
          assert t[i] == t[..n][i];
        } else {
          var i :| 0 <= i < n && u.host[i] == '/';
          assert t[i] == t[..n][i];
        }
      }
    }
  }

  /** A valid URI, printed and parsed again, is the same URI exactly when its host
      has no colon and no slash and does not begin with a bracket. */
  lemma ReparseExactly(u: Uri)
    requires IsUri(u)
    ensures Parse(Str(u)) == Some(u) <==> PlainHost(u.host)
  {
    hide Split, PortFrom, Scheme, Str, PlainHost, Decimal;
    SchemeReads(u);
    if PlainHost(u.host) {
      PlainSplits(u);
      EmptyPort(u.secure);
      PortReads(u.port, u.secure);
      assert "/" + u.resource[1..] == u.resource;
    } else {
      OtherHost(u);
    }
  }

  lemma AddressSplits(address: string)
    requires ']' !in address
    ensures Split("[" + address + "]/") == Some(Parts(address, [], []))
  {
    var t := "[" + address + "]/";
    assert t[1..] == address + "]/";
    UntilAppend(address, "]/", ']', ']');
    assert Until("]/", ']', ']') == 0;
    assert t[1..][..|address|] == address && t[|address| + 2..] == "/" && "/"[1..] == "";
  }

  /** The same from the text: a valid text is the same URI after parsing, printing
      and parsing again exactly when its host has no colon and no slash and does not
      begin with a bracket. */
  lemma TextReparsedExactly(s: string)
    requires Parse(s).Some?
    ensures Parse(Str(Parse(s).value)) == Parse(s) <==> PlainHost(Parse(s).value.host)
  {
    hide Parse, Str, PlainHost;
    ParseGivesUri(s);
    ReparseExactly(Parse(s).value);
  }

  /** No valid text whose host has a colon, such as an IPv6 address in brackets, is
      given back by its printed form. */
  lemma AddressNotReparsed(s: string)
    requires Parse(s).Some? && ':' in Parse(s).value.host
    ensures Parse(Str(Parse(s).value)) != Parse(s)
  {
    hide Parse, Str;
    TextReparsedExactly(s);
  }

  /** Every address in brackets gives such a text. */
  lemma AddressParses(address: string)
    requires ']' !in address
    ensures Parse("ws://[" + address + "]/") == Some(Uri("ws", address, "/", DEFAULT_PORT, false))
  {
    hide Until, Str, Split, Scheme, PortFrom, Parse;
    var t := "[" + address + "]/";
    var s := "ws://[" + address + "]/";
    assert s == "ws" + "://" + t && s[5..] == t;
    SchemesRead(t);
    AddressSplits(address);
    EmptyPort(false);
    ParseCases(s);
    assert "/" + [] == "/";
  }

  lemma LoopbackNotReparsed()
    ensures var u := Uri("ws", "::1", "/", DEFAULT_PORT, false);
      Parse("ws://[::1]/") == Some(u) && Parse(Str(u)) != Some(u)
  {
    hide Parse, Str;
    AddressParses("::1");
    assert "ws://[" + "::1" + "]/" == "ws://[::1]/";
    AddressNotReparsed("ws://[::1]/");
  }

  lemma EmptyPort(secure: bool)
    ensures PortFrom([], secure) == Some(DefaultPort(secure))
  {
  }

  /** For every text that is a valid URI without a bracketed host: parsing it,
      printing the result and parsing that gives the same URI. */
  lemma RoundTrip(s: string)
    requires Parse(s).Some? && !Bracketed(s)
    ensures Parse(Str(Parse(s).value)) == Parse(s) && PortInRange(Str(Parse(s).value))
  {
    hide Parse, Str, PlainHost;
    var u := Parse(s).value;
    ParseGivesUri(s);
    UnbracketedIsPlain(s);
    ReparseExactly(u);
    PrintedInRange(u);
  }

  lemma PrintedInRange(u: Uri)
    requires IsUri(u) && PlainHost(u.host)
    ensures PortInRange(Str(u))
  {
    hide Split, Scheme, Str, PlainHost, Decimal, Atoi;
    SchemeReads(u);
    PlainSplits(u);
    PortReads(u.port, u.secure);
    NoNumber();
  }

  lemma NoNumber()
    ensures Atoi([]) == 0
  {
  }

  // ---------------------------------------------------------------- what texts mean

  /** A port text that atoi is defined for stands for its number, if that is from 1 to
      65535, and for none else; without one it is 443 if secure and else 80. */
  lemma PortExactly(text: string, secure: bool)
    requires InIntRange(Atoi(text))
    ensures PortFrom(text, secure) ==
      if text == [] then Some(if secure then 443 else 80)
      else if 1 <= Atoi(text) <= 65535 then Some(Atoi(text)) else None
  {
    hide Atoi;
  }

  /** The text of a URI after the scheme: the host, which may be in brackets, and a
      colon and a port or not, and a slash and what follows or not. */
  function AfterScheme(host: string, bracketed: bool, port: Option<string>, tail: Option<string>): string {
    (if bracketed then "[" + host + "]" else host) + AfterHostText(port, tail)
  }

  /** What follows the host. */
  function AfterHostText(port: Option<string>, tail: Option<string>): string {
    (if port.Some? then ":" + port.value else "") + if tail.Some? then "/" + tail.value else ""
  }

  function OrEmpty(t: Option<string>): string { if t.Some? then t.value else "" }

  lemma AfterAtIs(host: string, t: string, e: nat, port: Option<string>, tail: Option<string>)
    requires e <= |t| && t[e..] == AfterHostText(port, tail) && (port.Some? ==> '/' !in port.value)
    ensures e == |t| || t[e] == '/' || t[e] == ':'
    ensures AfterAt(host, t, e) == Parts(host, OrEmpty(port), OrEmpty(tail))
  {
    hide Until;
    var a := AfterHostText(port, tail);
    if e < |t| { assert t[e] == a[0] && t[e + 1..] == a[1..]; }
    if port.Some? {
      var p, q := port.value, if tail.Some? then "/" + tail.value else "";
      assert a[1..] == p + q;
      PortThenTail(host, p, tail);
    } else if tail.Some? {
      assert a[1..] == tail.value;
    }
  }

  lemma PortThenTail(host: string, p: string, tail: Option<string>)
    requires '/' !in p
    ensures PortParts(host, p + if tail.Some? then "/" + tail.value else "") == Parts(host, p, OrEmpty(tail))
  {
    hide PortParts;
    var q := if tail.Some? then "/" + tail.value else "";
    PortThen(host, p, q);
    if tail.Some? { assert q[1..] == tail.value; }
  }

  lemma PortThen(host: string, p: string, q: string)
    requires '/' !in p && (q == "" || q[0] == '/')
    ensures PortParts(host, p + q) == Parts(host, p, if q == "" then "" else q[1..])
  {
    hide Until;
    UntilAppend(p, q, '/', '/');
    UntilFirst(q, '/', '/');
    CutAfter(p, q);
  }

  lemma CutAfter(p: string, q: string)
    ensures (p + q)[..|p|] == p && (q != "" ==> (p + q)[|p| + 1..] == q[1..])
  {
  }

  lemma UntilFirst(q: string, a: char, b: char)
    requires q == "" || q[0] == a || q[0] == b
    ensures Until(q, a, b) == 0
  {
  }

  /** The host is read as it is written, in brackets if it has a colon, a slash or an
      opening bracket at its beginning. */
  lemma SplitsAs(host: string, bracketed: bool, port: Option<string>, tail: Option<string>)
    requires if bracketed then ']' !in host else PlainHost(host)
    requires port.Some? ==> '/' !in port.value
    requires AfterScheme(host, bracketed, port, tail) != ""
    ensures Split(AfterScheme(host, bracketed, port, tail)) == Some(Parts(host, OrEmpty(port), OrEmpty(tail)))
  {
    hide AfterAt, Split, AfterHostText, PlainHost;
    var t, a := AfterScheme(host, bracketed, port, tail), AfterHostText(port, tail);
    AfterFirst(port, tail);
    if bracketed { BracketsEnd(host, a); } else { HostEnds(host, a); }
    AfterAtIs(host, t, if bracketed then |host| + 2 else |host|, port, tail);
  }

  lemma AfterFirst(port: Option<string>, tail: Option<string>)
    ensures var a := AfterHostText(port, tail); a == "" || a[0] == '/' || a[0] == ':'
  {
  }

  lemma BracketsEnd(host: string, a: string)
    requires ']' !in host && (a == "" || a[0] == '/' || a[0] == ':')
    ensures var t, e := "[" + host + "]" + a, |host| + 2;
      t[e..] == a && (e == |t| || t[e] == '/' || t[e] == ':') && Split(t) == Some(AfterAt(host, t, e))
  {
    hide Until, AfterAt, Split;
    var t := "[" + host + "]" + a;
    assert t[1..] == host + ("]" + a);
    UntilAppend(host, "]" + a, ']', ']');
    UntilFirst("]" + a, ']', ']');
    assert t[1..][..|host|] == host;
    SplitBracketed(t);
  }

  lemma HostEnds(host: string, a: string)
    requires PlainHost(host) && host + a != "" && (a == "" || a[0] == '/' || a[0] == ':')
    ensures var t, e := host + a, |host|;
      t[e..] == a && (e == |t| || t[e] == '/' || t[e] == ':') && Split(t) == Some(AfterAt(host, t, e))
  {
    hide Until, AfterAt, Split;
    var t := host + a;
    UntilAppend(host, a, '/', ':');
    UntilFirst(a, '/', ':');
    assert t[..|host|] == host;
    assert t[0] == if host != "" then host[0] else a[0];
    SplitPlain(t);
  }

  /** A text of a scheme, a host, a port or none and a path or none is a valid URI
      exactly when its port is none or from 1 to 65535, and has those parts; without a
      port, or with an empty one, it has 80 for ws and http, and 443 for wss and https. */
  lemma ParsesAs(scheme: string, host: string, bracketed: bool, port: Option<string>, tail: Option<string>)
    requires scheme in ["ws", "wss", "http", "https"] && (if bracketed then ']' !in host else PlainHost(host))
    requires port.Some? ==> '/' !in port.value && InIntRange(Atoi(port.value))
    requires AfterScheme(host, bracketed, port, tail) != ""
    ensures Parse(scheme + "://" + AfterScheme(host, bracketed, port, tail)) ==
      if OrEmpty(port) != "" && !(1 <= Atoi(OrEmpty(port)) <= 65535) then None
      else Some(Uri(scheme, host, "/" + OrEmpty(tail),
                    if OrEmpty(port) != "" then Atoi(OrEmpty(port)) else if scheme == "wss" || scheme == "https" then 443 else 80,
                    scheme == "wss" || scheme == "https"))
  {
    hide Split, Scheme, PortFrom, Atoi, AfterScheme, PlainHost;
    var t := AfterScheme(host, bracketed, port, tail);
    var s := scheme + "://" + t;
    SchemesRead(t);
    assert s[|scheme| + 3..] == t;
    SplitsAs(host, bracketed, port, tail);
    NoNumber();
    PortExactly(OrEmpty(port), scheme == "wss" || scheme == "https");
    ParseCases(s);
  }

  /** What follows a host is a port or none and a path or none. */
  lemma AfterForm(a: string) returns (port: Option<string>, tail: Option<string>)
    requires a == "" || a[0] == '/' || a[0] == ':'
    ensures a == AfterHostText(port, tail) && (port.Some? ==> '/' !in port.value)
  {
    port, tail := None, None;
    var rest := a;
    if a != "" && a[0] == ':' {
      var k := Until(a[1..], '/', '/');
      port, rest := Some(a[1..][..k]), a[1..][k..];
      assert a == ":" + port.value + rest;
    }
    if rest != "" {
      tail := Some(rest[1..]);
      assert rest == "/" + tail.value;
    }
  }

  /** Every text that is valid is of that form. */
  lemma ValidHasForm(s: string)
    returns (scheme: string, host: string, bracketed: bool, port: Option<string>, tail: Option<string>)
    requires Parse(s).Some?
    ensures scheme in ["ws", "wss", "http", "https"] && (if bracketed then ']' !in host else PlainHost(host))
    ensures port.Some? ==> '/' !in port.value
    ensures AfterScheme(host, bracketed, port, tail) != "" && s == scheme + "://" + AfterScheme(host, bracketed, port, tail)
  {
    hide Split, PortFrom, AfterHostText, PlainHost;
    ParseCases(s);
    scheme := Scheme(s).value.0;
    var t := s[|scheme| + 3..];
    assert s[..|scheme| + 3] == scheme + "://" by { SchemePrefix(s); }
    host, bracketed, port, tail := SplitHasForm(t);
    assert s == s[..|scheme| + 3] + t;
  }

  lemma SchemePrefix(s: string)
    requires Scheme(s).Some?
    ensures var n := |Scheme(s).value.0| + 3; n < |s| && s[..n] == Scheme(s).value.0 + "://"
  {
  }

  lemma SplitHasForm(t: string) returns (host: string, bracketed: bool, port: Option<string>, tail: Option<string>)
    requires t != "" && Split(t).Some?
    ensures if bracketed then ']' !in host else PlainHost(host)
    ensures (port.Some? ==> '/' !in port.value) && t == AfterScheme(host, bracketed, port, tail)
  {
    hide Split, AfterHostText, AfterAt;
    bracketed := t[0] == '[';
    if bracketed {
      SplitBracketed(t);
      var k := Until(t[1..], ']', ']');
      host := t[1..][..k];
      assert t == "[" + host + "]" + t[k + 2..];
      port, tail := AfterForm(t[k + 2..]);
    } else {
      var k := Until(t, '/', ':');
      host := t[..k];
      port, tail := AfterForm(t[k..]);
    }
  }

  /** What atoi reads: spaces, a sign or none, and digits, up to another character. */
  lemma {:induction false} AtoiReads(spaces: string, sign: string, digits: string, rest: string)
    requires (forall i :: 0 <= i < |spaces| ==> IsSpace(spaces[i])) && sign in ["", "+", "-"]
    requires (forall i :: 0 <= i < |digits| ==> IsDigit(digits[i])) && digits != ""
    requires rest == "" || !IsDigit(rest[0])
    ensures Atoi(spaces + sign + digits + rest) == if sign == "-" then 0 - Digits(digits, 0) else Digits(digits, 0)
    decreases |spaces|
  {
    var s := spaces + sign + digits + rest;
    if spaces == "" {
      DigitsUpTo(digits, rest, 0);
      assert s == sign + (digits + rest) && s[|sign|..] == digits + rest;
    } else {
      AtoiReads(spaces[1..], sign, digits, rest);
      assert s[1..] == spaces[1..] + sign + digits + rest;
    }
  }

  lemma {:induction false} DigitsUpTo(digits: string, rest: string, sofar: nat)
    requires (forall i :: 0 <= i < |digits| ==> IsDigit(digits[i])) && (rest == "" || !IsDigit(rest[0]))
    ensures Digits(digits + rest, sofar) == Digits(digits, sofar)
    decreases |digits|
  {
    if digits == "" {
      assert digits + rest == rest;
    } else {
      assert (digits + rest)[1..] == digits[1..] + rest;
      DigitsUpTo(digits[1..], rest, 10 * sofar + (digits[0] as int - '0' as int));
    }
  }

  /** Some texts: default ports, a port with a sign, an address in brackets, a port too large. */
  lemma UriTexts()
    ensures Parse("ws://host") == Some(Uri("ws", "host", "/", 80, false))
    ensures Parse("wss://host/a:b") == Some(Uri("wss", "host", "/a:b", 443, true))
    ensures Parse("https://[::1]:+8443/x") == Some(Uri("https", "::1", "/x", 8443, true))
    ensures Parse("http://host:65536") == None && Parse("ws://") == None && Parse("ftp://host") == None
  {
    hide Parse;
    DefaultTexts();
    PortTexts();
    NoScheme();
  }

  lemma NoScheme()
    ensures Parse("ws://") == None && Parse("ftp://host") == None
  {
    hide Split, PortFrom;
    assert "ftp://host"[0] == 'f';
    ParseCases("ws://");
    ParseCases("ftp://host");
  }

  lemma DefaultTexts()
    ensures Parse("ws://host") == Some(Uri("ws", "host", "/", 80, false))
    ensures Parse("wss://host/a:b") == Some(Uri("wss", "host", "/a:b", 443, true))
  {
    hide Parse, Atoi, PlainHost;
    IsPlain();
    ParsesAs("ws", "host", false, None, None);
    assert "ws" + "://" + AfterScheme("host", false, None, None) == "ws://host" && "/" + "" == "/";
    ParsesAs("wss", "host", false, None, Some("a:b"));
    assert "wss" + "://" + AfterScheme("host", false, None, Some("a:b")) == "wss://host/a:b" && "/" + "a:b" == "/a:b";
  }

  lemma PortTexts()
    ensures Parse("https://[::1]:+8443/x") == Some(Uri("https", "::1", "/x", 8443, true))
    ensures Parse("http://host:65536") == None
  {
    hide Parse, Atoi, PlainHost;
    IsPlain();
    AtoiTexts();
    ParsesAs("https", "::1", true, Some("+8443"), Some("x"));
    assert "https" + "://" + AfterScheme("::1", true, Some("+8443"), Some("x")) == "https://[::1]:+8443/x";
    assert "/" + "x" == "/x";
    ParsesAs("http", "host", false, Some("65536"), None);
    assert "http" + "://" + AfterScheme("host", false, Some("65536"), None) == "http://host:65536";
  }

  lemma IsPlain()
    ensures PlainHost("host")
  {
  }

  lemma AtoiTexts()
    ensures Atoi("+8443") == 8443 && Atoi("65536") == 65536
  {
    hide Digits;
    var a, b := "+8443", "65536";
    assert a[1..] == "8443";
    DigitsFour();
    DigitsFive();
  }

  lemma DigitsFour()
    ensures Digits("8443", 0) == 8443
  {
    var t := "8443";
    assert t[1..] == "443" && t[1..][1..] == "43" && t[1..][1..][1..] == "3";
    assert Digits("3", 844) == 8443;
    assert Digits("43", 84) == 8443;
  }

  lemma DigitsFive()
    ensures Digits("65536", 0) == 65536
  {
    var t := "65536";
    assert t[1..] == "5536" && "5536"[1..] == "536" && "536"[1..] == "36" && "36"[1..] == "6";
    assert Digits("6", 6553) == 65536;
    assert Digits("36", 655) == 65536;
    assert Digits("536", 65) == 65536;
  }

  /** A printed URI is its scheme, host and resource, and has a port only if that is
      not 80, or 443 if it is secure. */
  lemma PrintedAs(u: Uri)
    requires IsUri(u)
    ensures var s := Str(u); var n := |u.scheme| + 3 + |u.host|;
      && u.scheme + "://" + u.host <= s && |s| >= n + |u.resource| && s[|s| - |u.resource|..] == u.resource
      && var port := s[n..|s| - |u.resource|];
        if u.port == (if u.secure then 443 else 80) then port == ""
        else port != "" && port[0] == ':' && Digits(port[1..], 0) == u.port && forall i :: 0 < i < |port| ==> IsDigit(port[i])
  {
    hide Digits, Decimal, IsUri;
    var a, b := u.scheme + "://" + u.host, PortText(u);
    assert Str(u) == a + b + u.resource;
    Middle(a, b, u.resource);
    if b != "" {
      assert b[1..] == Decimal(u.port);
      DecimalReads(u.port);
    }
  }

  lemma Middle(a: string, b: string, c: string)
    ensures var s := a + b + c; a <= s && s[|s| - |c|..] == c && s[|a|..|s| - |c|] == b
  {
  }
}
