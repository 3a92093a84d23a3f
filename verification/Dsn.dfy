/**
 The PostgreSQL connection URL (core/internal/db/dsn.go): a printer built on net/url and a reader that
 follows the generic syntax of RFC 3986.
 */
module Dsn {
  import opened Wrappers
  import opened Text
  import QueryRedaction

  datatype Config = Config(user: string, password: string, host: string, port: int, dbName: string, sslMode: string)

  // ---------------------------------------------------------------- escaping, as net/url does it

  datatype Mode = UserPassword | Host | Path | QueryComponent

  predicate IsUnreserved(c: char) {
    'a' <= c <= 'z' || 'A' <= c <= 'Z' || '0' <= c <= '9' || c == '-' || c == '_' || c == '.' || c == '~'
  }

  predicate IsSubDelim(c: char) {
    || c == '!' || c == '$' || c == '&' || c == '\'' || c == '(' || c == ')'
    || c == '*' || c == '+' || c == ',' || c == ';' || c == '='
  }

  predicate Escaped(c: char, mode: Mode) {
    !IsUnreserved(c)
    && match mode
       case Host => !IsSubDelim(c) && !IsHostOnly(c)
       case Path => !(c == '$' || c == '&' || c == '+' || c == ',' || c == '/' || c == ':' || c == ';'
                      || c == '=' || c == '@')
       case UserPassword => !(c == '$' || c == '&' || c == '+' || c == ',' || c == ';' || c == '=')
       case QueryComponent => true
  }

  /** Characters that net/url leaves alone in a host although a registered name cannot contain them. */
  predicate IsHostOnly(c: char) {
    c == ':' || c == '[' || c == ']' || c == '<' || c == '>' || c == '"'
  }

  function EscapeChar(c: char, mode: Mode): (r: string)
    ensures r != ""
  {
    if !Escaped(c, mode) then [c]
    else if c == ' ' && mode == QueryComponent then "+"
    else ['%', HexDigit(c as int / 16 % 16, true), HexDigit(c as int % 16, true)]
  }

  function Escape(s: string, mode: Mode): string {
    if s == "" then "" else EscapeChar(s[0], mode) + Escape(s[1..], mode)
  }

  lemma {:induction false} UnescapeEscape(s: string, mode: Mode)
    requires IsOctets(s)
    ensures Unescape(Escape(s, mode), mode == QueryComponent) == Some(s)
  {
    if s != "" {
      UnescapeEscape(s[1..], mode);
      UnescapeStep(s[0], mode, Escape(s[1..], mode));
      assert s == [s[0]] + s[1..];
    }
  }

  lemma UnhexDigit(n: nat)
    requires n < 16
    ensures IsHex(HexDigit(n, true)) && Unhex(HexDigit(n, true)) == n
  {
  }

  lemma UnescapeHex(c: char, rest: string, plusIsSpace: bool)
    requires c as int < 256
    ensures Unescape(['%', HexDigit(c as int / 16, true), HexDigit(c as int % 16, true)] + rest, plusIsSpace) ==
            match Unescape(rest, plusIsSpace) { case None => None case Some(r) => Some([c] + r) }
  {
    var hi, lo := c as int / 16, c as int % 16;
    var s := ['%', HexDigit(hi, true), HexDigit(lo, true)] + rest;
    assert s[3..] == rest;
    UnhexDigit(hi);
    UnhexDigit(lo);
    assert (16 * hi + lo) as char == c;
  }

  lemma UnescapePlain(c: char, rest: string, plusIsSpace: bool)
    requires c != '%'
    ensures Unescape([c] + rest, plusIsSpace) ==
            match Unescape(rest, plusIsSpace)
            case None => None
            case Some(r) => Some([if c == '+' && plusIsSpace then ' ' else c] + r)
  {
    assert ([c] + rest)[1..] == rest;
  }

  lemma UnescapeStep(c: char, mode: Mode, rest: string)
    requires c as int < 256
    ensures Unescape(EscapeChar(c, mode) + rest, mode == QueryComponent) ==
            match Unescape(rest, mode == QueryComponent) { case None => None case Some(r) => Some([c] + r) }
  {
    hide Unescape;
    if !Escaped(c, mode) {
      UnescapePlain(c, rest, mode == QueryComponent);
    } else if c == ' ' && mode == QueryComponent {
      UnescapePlain('+', rest, true);
    } else {
      UnescapeHex(c, rest, mode == QueryComponent);
    }
  }

  /** Escaping leaves no raw delimiter behind. */
  lemma {:induction false} EscapeAvoids(s: string, mode: Mode, c: char)
    requires Escaped(c, mode) && c != '%' && c != '+'
    ensures c !in Escape(s, mode)
  {
    if s != "" {
      EscapeAvoids(s[1..], mode, c);
      EscapeCharAvoids(s[0], mode, c);
    }
  }

  lemma EscapeCharAvoids(d: char, mode: Mode, c: char)
    requires Escaped(c, mode) && c != '%' && c != '+'
    ensures c !in EscapeChar(d, mode)
  {
  }

  lemma {:induction false} EscapeConcat(a: string, b: string, mode: Mode)
    ensures Escape(a + b, mode) == Escape(a, mode) + Escape(b, mode)
  {
    if a == "" {
      assert a + b == b;
    } else {
      assert (a + b)[1..] == a[1..] + b;
      EscapeConcat(a[1..], b, mode);
    }
  }

  lemma {:induction false} EscapeIdentity(s: string, mode: Mode)
    requires forall i :: 0 <= i < |s| ==> !Escaped(s[i], mode)
    ensures Escape(s, mode) == s
  {
    if s != "" {
      EscapeIdentity(s[1..], mode);
      assert s == [s[0]] + s[1..];
    }
  }

  // ---------------------------------------------------------------- printing

  const SCHEME := "postgres://"

  /** BuildDSN: url.URL.String on user and password, host and port, path and query. */
  function BuildDsn(c: Config): string {
    SCHEME
    + Escape(c.user, UserPassword) + ":" + Escape(c.password, UserPassword) + "@"
    + Escape(c.host + ":" + DecimalInt(c.port), Host)
    + Escape("/" + c.dbName, Path)
    + "?" + "sslmode=" + Escape(c.sslMode, QueryComponent)
  }

  // ---------------------------------------------------------------- reading

  /** The text before and after the first `c`. */
  function Cut(s: string, c: char): Option<(string, string)> {
    var i := IndexOf(s, c);
    if i < 0 then None else Some((s[..i], s[i + 1..]))
  }

  lemma CutAt(a: string, c: char, b: string)
    requires c !in a
    ensures Cut(a + [c] + b, c) == Some((a, b))
  {
    IndexOfConcat(a, c, b);
    assert (a + [c] + b)[..|a|] == a && (a + [c] + b)[|a| + 1..] == b;
  }

  predicate IsRegName(s: string) {
    forall i :: 0 <= i < |s| ==> IsUnreserved(s[i]) || IsSubDelim(s[i]) || s[i] == '%'
  }

  predicate IsIpText(s: string) {
    forall i :: 0 <= i < |s| ==> IsUnreserved(s[i]) || IsSubDelim(s[i]) || s[i] == ':'
  }

  /** Host and port, section 3.2.2 and 3.2.3 of RFC 3986: an IP literal in brackets or a registered name. */
  function ParseHostPort(hp: string): Option<(string, int)> {
    if hp != "" && hp[0] == '[' then
      match Cut(hp, ']')
      case None => None
      case Some((literal, rest)) =>
        if IsIpText(literal[1..]) && rest != "" && rest[0] == ':' && rest[1..] != "" && AllDigits(rest[1..])
        then Some((literal + "]", ParseDigits(rest[1..])))
        else None
    else
      match Cut(hp, ':')
      case None => None
      case Some((name, port)) =>
        if !IsRegName(name) || port == "" || !AllDigits(port) then None
        else
          match Unescape(name, false)
          case None => None
          case Some(host) => Some((host, ParseDigits(port)))
  }

  /** The value of the first parameter named `key`. */
  function Lookup(params: seq<QueryRedaction.Param>, key: string): Option<string> {
    if params == [] then None
    else if params[0].key == key then params[0].value
    else Lookup(params[1..], key)
  }

  function Parse(s: string): Option<Config> {
    if !(SCHEME <= s) || '#' in s then None
    else
      match Cut(s[|SCHEME|..], '?')
      case None => None
      case Some((hierarchy, query)) =>
        match Cut(hierarchy, '/')
        case None => None
        case Some((authority, path)) =>
          match Cut(authority, '@')
          case None => None
          case Some((userinfo, hostPort)) =>
            match Cut(userinfo, ':')
            case None => None
            case Some((user, password)) => Assemble(user, password, hostPort, path, query)
  }

  function Assemble(user: string, password: string, hostPort: string, path: string, query: string): Option<Config> {
    match (Unescape(user, false), Unescape(password, false), ParseHostPort(hostPort), Unescape(path, false),
           Lookup(QueryRedaction.ParseQuery(query), "sslmode"))
    case (Some(u), Some(pw), Some((host, port)), Some(db), Some(mode)) => Some(Config(u, pw, host, port, db, mode))
    case _ => None
  }

  // ---------------------------------------------------------------- what reading gives back

  predicate AllOctets(c: Config) {
    IsOctets(c.user) && IsOctets(c.password) && IsOctets(c.host) && IsOctets(c.dbName) && IsOctets(c.sslMode)
  }

  /** A host that a URL can carry: an IP literal in brackets, or a name without ':' and the like. */
  predicate CarriesHost(host: string) {
    if host != "" && host[0] == '[' then |host| >= 2 && host[|host| - 1] == ']' && IsIpText(host[1..|host| - 1])
    else forall i :: 0 <= i < |host| ==> !IsHostOnly(host[i])
  }

  lemma {:induction false} EscapedNameIsRegName(s: string)
    ensures IsRegName(Escape(s, Host)) <==> forall i :: 0 <= i < |s| ==> !IsHostOnly(s[i])
  {
    if s != "" {
      EscapedNameIsRegName(s[1..]);
      var e := EscapeChar(s[0], Host);
      assert IsRegName(e) <==> !IsHostOnly(s[0]) by {
        EscapedCharIsRegName(s[0]);
      }
      RegNameConcat(e, Escape(s[1..], Host));
      assert s == [s[0]] + s[1..];
    }
  }

  lemma EscapedCharIsRegName(c: char)
    ensures IsRegName(EscapeChar(c, Host)) <==> !IsHostOnly(c)
  {
    var e := EscapeChar(c, Host);
    if |e| == 1 {
      assert e[0] == c;
    }
  }

  lemma RegNameConcat(a: string, b: string)
    ensures IsRegName(a + b) <==> IsRegName(a) && IsRegName(b)
  {
    if IsRegName(a + b) {
      forall i | 0 <= i < |a| ensures a[i] == (a + b)[i] {}
      forall i | 0 <= i < |b| ensures b[i] == (a + b)[|a| + i] {}
    }
  }

  lemma {:induction false} NoPercentNoEscape(s: string)
    requires '%' !in Escape(s, Host)
    ensures Escape(s, Host) == s
  {
    if s != "" {
      NoPercentNoEscape(s[1..]);
      assert EscapeChar(s[0], Host)[0] in Escape(s, Host);
      assert s == [s[0]] + s[1..];
    }
  }

  lemma PortText(port: int)
    ensures AllDigits(DecimalInt(port)) <==> port >= 0
    ensures IsPortText(DecimalInt(port))
    ensures port >= 0 ==> ParseDigits(DecimalInt(port)) == port
  {
    if port >= 0 {
      ParseDecimal(port);
    } else {
      assert DecimalInt(port)[0] == '-';
    }
  }

  function HostPort(host: string, port: int): string {
    Escape(host, Host) + ":" + DecimalInt(port)
  }

  lemma HostPortPrinted(host: string, port: int)
    ensures Escape(host + ":" + DecimalInt(port), Host) == HostPort(host, port)
  {
    var t := ":" + DecimalInt(port);
    PortText(port);
    assert host + ":" + DecimalInt(port) == host + t;
    EscapeConcat(host, t, Host);
    EscapeIdentity(t, Host);
    assert Escape(host, Host) + t == HostPort(host, port);
  }

  predicate IsPortText(t: string) {
    forall i :: 0 <= i < |t| ==> IsDigit(t[i]) || t[i] == '-'
  }

  /** The ':' after which only digits follow is the one before the port. */
  lemma PortColon(e: string, t: string, i: nat)
    requires var hp := e + ":" + t; i < |hp| && hp[i] == ':' && AllDigits(hp[i + 1..])
    requires IsPortText(t)
    ensures i == |e| && AllDigits(t)
  {
    var hp := e + ":" + t;
    assert hp[|e|] == ':';
    assert hp[|e| + 1..] == t;
  }

  lemma NameShape(e: string, t: string)
    requires IsPortText(t) && (e == "" || e[0] != '[') && ParseHostPort(e + ":" + t).Some?
    ensures IsRegName(e) && AllDigits(t)
  {
    var hp := e + ":" + t;
    var i := IndexOf(hp, ':');
    PortColon(e, t, i);
    assert hp[..i] == e;
  }

  lemma LiteralShape(e: string, t: string)
    requires IsPortText(t) && e != "" && e[0] == '[' && ParseHostPort(e + ":" + t).Some?
    ensures |e| >= 2 && e[|e| - 1] == ']' && IsIpText(e[1..|e| - 1]) && AllDigits(t)
  {
    var hp := e + ":" + t;
    var i := IndexOf(hp, ']');
    assert hp[..i][1..] == hp[1..i];
    assert hp[i + 1..][1..] == hp[i + 2..];
    PortColon(e, t, i + 1);
    assert e[1..|e| - 1] == hp[1..i];
  }

  lemma NameRead(e: string, t: string)
    requires IsRegName(e) && (e == "" || e[0] != '[') && t != "" && AllDigits(t)
    ensures ParseHostPort(e + ":" + t) ==
            match Unescape(e, false) { case None => None case Some(host) => Some((host, ParseDigits(t))) }
  {
    var hp := e + ":" + t;
    assert hp == e + [':'] + t;
    CutAt(e, ':', t);
  }

  lemma LiteralRead(literal: string, t: string)
    requires literal != "" && literal[0] == '[' && IsIpText(literal[1..]) && t != "" && AllDigits(t)
    ensures ParseHostPort(literal + "]" + ":" + t) == Some((literal + "]", ParseDigits(t)))
  {
    var rest := ":" + t;
    assert literal + "]" + ":" + t == literal + [']'] + rest;
    CutAt(literal, ']', rest);
    assert rest[1..] == t;
  }

  lemma FirstCharOfEscape(s: string)
    ensures (Escape(s, Host) == "" || Escape(s, Host)[0] != '[') <==> (s == "" || s[0] != '[')
  {
  }

  lemma NameHostRead(host: string, port: int)
    requires IsOctets(host) && (host == "" || host[0] != '[')
    ensures ParseHostPort(HostPort(host, port)) ==
            if port >= 0 && CarriesHost(host) then Some((host, port)) else None
  {
    var e, t := Escape(host, Host), DecimalInt(port);
    PortText(port);
    FirstCharOfEscape(host);
    EscapedNameIsRegName(host);
    if port >= 0 && CarriesHost(host) {
      UnescapeEscape(host, Host);
      NameRead(e, t);
    } else if ParseHostPort(e + ":" + t).Some? {
      NameShape(e, t);
    }
  }

  lemma PlainLiteral(s: string)
    requires |s| >= 2 && s[0] == '[' && s[|s| - 1] == ']' && IsIpText(s[1..|s| - 1])
    ensures forall i :: 0 <= i < |s| ==> s[i] == '[' || s[i] == ']' || IsUnreserved(s[i]) || IsSubDelim(s[i]) || s[i] == ':'
  {
    forall i | 0 < i < |s| - 1 ensures s[i] == s[1..|s| - 1][i - 1] {}
  }

  lemma LiteralHostKept(host: string, t: string)
    requires host != "" && host[0] == '[' && CarriesHost(host) && t != "" && AllDigits(t)
    ensures Escape(host, Host) == host && ParseHostPort(host + ":" + t) == Some((host, ParseDigits(t)))
  {
    PlainLiteral(host);
    EscapeIdentity(host, Host);
    var literal := host[..|host| - 1];
    assert literal[1..] == host[1..|host| - 1];
    assert host == literal + "]";
    LiteralRead(literal, t);
  }

  lemma LiteralHostRefused(host: string, t: string)
    requires IsOctets(host) && host != "" && host[0] == '[' && IsPortText(t)
    requires ParseHostPort(Escape(host, Host) + ":" + t).Some?
    ensures CarriesHost(host) && AllDigits(t)
  {
    var e := Escape(host, Host);
    FirstCharOfEscape(host);
    hide ParseHostPort;
    LiteralShape(e, t);
    PlainLiteral(e);
    NoPercentNoEscape(host);
  }

  lemma LiteralHostRead(host: string, port: int)
    requires IsOctets(host) && host != "" && host[0] == '['
    ensures ParseHostPort(HostPort(host, port)) ==
            if port >= 0 && CarriesHost(host) then Some((host, port)) else None
  {
    var e, t := Escape(host, Host), DecimalInt(port);
    PortText(port);
    if port >= 0 && CarriesHost(host) {
      LiteralHostKept(host, t);
    } else if ParseHostPort(e + ":" + t).Some? {
      LiteralHostRefused(host, t);
    }
  }

  lemma PieceRead(m: string, mode: string)
    requires Unescape(m, true) == Some(mode)
    ensures QueryRedaction.ParsePiece("sslmode=" + m) == QueryRedaction.Param("sslmode", Some(mode))
  {
    var q := "sslmode" + ['='] + m;
    assert "sslmode=" + m == q;
    IndexOfConcat("sslmode", '=', m);
    assert q[..7] == "sslmode" && q[8..] == m;
    QueryRedaction.NoEscapeDecodesToItself("sslmode");
  }

  /** The query that BuildDSN prints has one parameter. */
  lemma QueryRead(mode: string)
    requires IsOctets(mode)
    ensures Lookup(QueryRedaction.ParseQuery("sslmode=" + Escape(mode, QueryComponent)), "sslmode") == Some(mode)
  {
    var m := Escape(mode, QueryComponent);
    var q := "sslmode=" + m;
    EscapeAvoids(mode, QueryComponent, '&');
    SplitPiece(q, '&');
    UnescapeEscape(mode, QueryComponent);
    PieceRead(m, mode);
    assert QueryRedaction.ParseQuery(q) == [QueryRedaction.Param("sslmode", Some(mode))];
  }

  /** The delimiters found in the printed text are the ones the printer put there. */
  lemma PartsRead(u: string, w: string, h: string, d: string, q: string)
    requires '#' !in u && '?' !in u && '/' !in u && '@' !in u && ':' !in u
    requires '#' !in w && '?' !in w && '/' !in w && '@' !in w
    requires '#' !in h && '?' !in h && '/' !in h
    requires '#' !in d && '?' !in d
    requires '#' !in q
    ensures Parse(SCHEME + u + ":" + w + "@" + h + "/" + d + "?" + q) == Assemble(u, w, h, d, q)
  {
    hide Assemble, IndexOf;
    var userinfo := u + ":" + w;
    var authority := userinfo + "@" + h;
    var hierarchy := authority + "/" + d;
    var s := SCHEME + u + ":" + w + "@" + h + "/" + d + "?" + q;
    assert s == SCHEME + (hierarchy + "?" + q);
    assert s[|SCHEME|..] == hierarchy + ['?'] + q;
    assert '#' !in s;
    assert '?' !in hierarchy;
    CutAt(hierarchy, '?', q);
    assert '/' !in authority;
    CutAt(authority, '/', d);
    assert '@' !in userinfo;
    CutAt(userinfo, '@', h);
    CutAt(u, ':', w);
  }

  lemma UserinfoDelimitersAbsent(s: string)
    ensures var e := Escape(s, UserPassword);
            '#' !in e && '?' !in e && '/' !in e && '@' !in e && ':' !in e
  {
    EscapeAvoids(s, UserPassword, '#');
    EscapeAvoids(s, UserPassword, '?');
    EscapeAvoids(s, UserPassword, '/');
    EscapeAvoids(s, UserPassword, '@');
    EscapeAvoids(s, UserPassword, ':');
  }

  lemma HostDelimitersAbsent(host: string, port: int)
    ensures var h := HostPort(host, port); '#' !in h && '?' !in h && '/' !in h
  {
    EscapeAvoids(host, Host, '#');
    EscapeAvoids(host, Host, '?');
    EscapeAvoids(host, Host, '/');
    PortText(port);
  }

  lemma Regrouped(u: string, w: string, h: string, d: string, m: string)
    ensures SCHEME + u + ":" + w + "@" + h + ("/" + d) + "?" + "sslmode=" + m ==
            SCHEME + u + ":" + w + "@" + h + "/" + d + "?" + ("sslmode=" + m)
  {
    assert "?" + "sslmode=" + m == "?" + ("sslmode=" + m);
  }

  /** The printed text in the order of the URL parts. */
  lemma PartsPrinted(c: Config)
    ensures BuildDsn(c) == SCHEME + Escape(c.user, UserPassword) + ":" + Escape(c.password, UserPassword) + "@"
                           + HostPort(c.host, c.port) + "/" + Escape(c.dbName, Path)
                           + "?" + ("sslmode=" + Escape(c.sslMode, QueryComponent))
  {
    HostPortPrinted(c.host, c.port);
    PathPrinted(c.dbName);
    Regrouped(Escape(c.user, UserPassword), Escape(c.password, UserPassword), HostPort(c.host, c.port),
              Escape(c.dbName, Path), Escape(c.sslMode, QueryComponent));
  }

  lemma PathPrinted(dbName: string)
    ensures Escape("/" + dbName, Path) == "/" + Escape(dbName, Path)
  {
    EscapeConcat("/", dbName, Path);
    EscapeIdentity("/", Path);
  }

  /**
   Reading back what BuildDSN prints gives the original fields, for every user, password, database
   name and mode, whatever octets they contain, exactly when the port is not negative and the host can
   stand in a URL; otherwise nothing is read, and never something else.
   */
  lemma DsnIsReadBack(c: Config)
    requires AllOctets(c)
    ensures Parse(BuildDsn(c)) == if c.port >= 0 && CarriesHost(c.host) then Some(c) else None
  {
    var u, w, h := Escape(c.user, UserPassword), Escape(c.password, UserPassword), HostPort(c.host, c.port);
    var d, q := Escape(c.dbName, Path), "sslmode=" + Escape(c.sslMode, QueryComponent);
    hide BuildDsn, Parse, Escape, Unescape, ParseHostPort, CarriesHost;
    PartsPrinted(c);
    UserinfoDelimitersAbsent(c.user);
    UserinfoDelimitersAbsent(c.password);
    HostDelimitersAbsent(c.host, c.port);
    EscapeAvoids(c.dbName, Path, '#');
    EscapeAvoids(c.dbName, Path, '?');
    EscapeAvoids(c.sslMode, QueryComponent, '#');
    PartsRead(u, w, h, d, q);
    UnescapeEscape(c.user, UserPassword);
    UnescapeEscape(c.password, UserPassword);
    UnescapeEscape(c.dbName, Path);
    QueryRead(c.sslMode);
    if c.host != "" && c.host[0] == '[' {
      LiteralHostRead(c.host, c.port);
    } else {
      NameHostRead(c.host, c.port);
    }
  }

  /** A bare IPv6 address is printed without brackets, and then nothing can be read. */
  lemma BareIPv6IsNotRead()
    ensures Parse(BuildDsn(Config("u", "p", "::1", 5432, "d", "disable"))) == None
  {
    assert !CarriesHost("::1") by {
      assert "::1"[0] == ':';
    }
    hide BuildDsn, Parse, CarriesHost;
    DsnIsReadBack(Config("u", "p", "::1", 5432, "d", "disable"));
  }

  /** The characters besides letters, digits and "-_.~" that stay as they are in each part. */
  function LeftAlone(mode: Mode): set<char> {
    match mode
    case UserPassword => {'$', '&', '+', ',', ';', '='}
    case Host => {'!', '$', '&', '\'', '(', ')', '*', '+', ',', ';', '=', ':', '[', ']', '<', '>', '\"'}
    case Path => {'$', '&', '+', ',', '/', ':', ';', '=', '@'}
    case QueryComponent => {}
  }

  lemma EscapedIff(c: char, mode: Mode)
    ensures Escaped(c, mode) <==> !IsUnreserved(c) && c !in LeftAlone(mode)
  {
  }

  /** Exactly the other characters are escaped: a space in a query as '+', all others as '%' and two capital digits. */
  lemma EscapedExactly(c: char, mode: Mode)
    requires c as int < 256
    ensures EscapeChar(c, mode) == [c] <==> IsUnreserved(c) || c in LeftAlone(mode)
    ensures !IsUnreserved(c) && c !in LeftAlone(mode) ==>
              if c == ' ' && mode == QueryComponent then EscapeChar(c, mode) == "+"
              else EscapeChar(c, mode) ==
                   ['%', "0123456789ABCDEF"[c as int / 16], "0123456789ABCDEF"[c as int % 16]]
  {
    hide Escaped, HexDigit, LeftAlone, IsUnreserved;
    HexDigitOrder(c as int / 16);
    HexDigitOrder(c as int % 16);
    EscapedIff(c, mode);
  }

  lemma EscapeOne(c: char, mode: Mode)
    ensures Escape([c], mode) == EscapeChar(c, mode)
  {
    assert [c][1..] == "";
  }

  lemma ExampleParts()
    ensures Escape("u", UserPassword) == "u" && Escape("p@", UserPassword) == "p%40"
    ensures Escape("h", Host) == "h" && Escape("d", Path) == "d" && Escape("m", QueryComponent) == "m"
    ensures DecimalInt(1) == "1"
  {
    EscapeOne('u', UserPassword);
    EscapeOne('h', Host);
    EscapeOne('d', Path);
    EscapeOne('m', QueryComponent);
    EscapeOne('p', UserPassword);
    EscapeOne('@', UserPassword);
    EscapeConcat("p", "@", UserPassword);
    assert "p" + "@" == "p@";
    HexDigitOrder(4);
    HexDigitOrder(0);
  }

  /** One printed URL in full. */
  lemma PrintedUrl()
    ensures BuildDsn(Config("u", "p@", "h", 1, "d", "m")) == "postgres://u:p%40@h:1/d?sslmode=m"
  {
    PartsPrinted(Config("u", "p@", "h", 1, "d", "m"));
    ExampleParts();
    hide BuildDsn, Escape, DecimalInt;
    assert SCHEME + "u" + ":" + "p%40" + "@" == "postgres://u:p%40@";
    assert "h" + ":" + "1" == "h:1";
    assert "/" + "d" + "?" + ("sslmode=" + "m") == "/d?sslmode=m";
  }
}
