/** web/url.go: the normal form of public web URLs, over the parser and printer of net/url. */
module WebUrl {
  import opened Wrappers
  import opened Text
  import opened PublicAddresses

  const MAXIMUM_URL_BYTES := 4096

  type Byte = n: int | 0 <= n < 256

  // A parsed and unmapped address, and how it prints.
  datatype Addr = Addr(text: string, address: Address)

  // What the libraries decide: parsing an address, lower case, parsing an authority without user
  // information, and whether bytes are UTF-8 text of at most 4096 bytes without control characters.
  datatype Library = Library(
    ip: string -> Option<Addr>, lower: char -> char, parseHost: string -> Option<string>, clean: seq<Byte> -> bool)

  predicate LowerAlnum(c: char) { 'a' <= c <= 'z' || '0' <= c <= '9' }

  predicate HostChar(c: char) { LowerAlnum(c) || c == '-' || c == '.' || c == ':' }

  predicate HostText(s: string) {
    forall i :: 0 <= i < |s| ==> HostChar(s[i]) || 'A' <= s[i] <= 'Z' || s[i] == '[' || s[i] == ']'
  }

  // The spelling of a name or of an IPv4 address, in any case.
  predicate NameText(s: string) {
    s != "" && forall i :: 0 <= i < |s| ==> LowerAlnum(s[i]) || 'A' <= s[i] <= 'Z' || s[i] == '-' || s[i] == '.'
  }

  predicate PortNumber(s: string) { s != "" && forall i :: 0 <= i < |s| ==> '0' <= s[i] <= '9' }

  // An address without a zone prints as lower-case text that reads back as itself. Lower case is the
  // usual one on ASCII. Names and bracketed IPv6 addresses, in any case, with or without a port, are
  // authorities that stand for themselves. No bytes are clean.
  ghost predicate Lawful(lib: Library) {
    && (forall s :: '%' !in s && lib.ip(s).Some? ==> LawfulAddr(lib, lib.ip(s).value))
    && (forall c: char :: c as int < 0x80 ==> lib.lower(c) == AsciiLower(c))
    && (forall s :: NameText(s) ==> lib.parseHost(s) == Some(s))
    && (forall s, port :: NameText(s) && PortNumber(port) ==>
          lib.parseHost(WithPort(s, port)) == Some(WithPort(s, port)))
    && lib.clean([])
  }

  function WithPort(s: string, port: string): string { s + (":" + port) }

  function Bracket(s: string): string { "[" + s + "]" }

  ghost predicate LawfulAddr(lib: Library, a: Addr) {
    lib.ip(a.text) == Some(a) && a.text != "" && a.text[|a.text| - 1] != '.'
    && (forall i :: 0 <= i < |a.text| ==> HostChar(a.text[i]))
    && if a.address.six then LawfulBrackets(lib, a.text) else ':' !in a.text
  }

  ghost predicate LawfulBrackets(lib: Library, text: string) {
    forall t :: Map(AsciiLower, t) == text ==>
      && lib.parseHost(Bracket(t)) == Some(Bracket(t))
      && forall port :: PortNumber(port) ==>
           lib.parseHost(WithPort(Bracket(t), port)) == Some(WithPort(Bracket(t), port))
  }

  // ----- Percent-encoding of paths and queries

  predicate IsHex(c: char) { '0' <= c <= '9' || 'a' <= c <= 'f' || 'A' <= c <= 'F' }

  function HexValue(c: char): nat
    requires IsHex(c)
    ensures HexValue(c) < 16
  {
    if c <= '9' then c as int - '0' as int
    else if c <= 'F' then c as int - 'A' as int + 10
    else c as int - 'a' as int + 10
  }

  function HexDigit(n: nat): (c: char)
    requires n < 16
    ensures IsHex(c) && HexValue(c) == n
  {
    if n < 10 then ('0' as int + n) as char else ('A' as int + n - 10) as char
  }

  function Utf8(c: char): (r: seq<Byte>)
    ensures c as int < 0x80 ==> r == [c as int]
  {
    var n := c as int;
    if n < 0x80 then [n]
    else if n < 0x800 then [0xc0 + n / 0x40, 0x80 + n % 0x40]
    else if n < 0x1_0000 then [0xe0 + n / 0x1000, 0x80 + n / 0x40 % 0x40, 0x80 + n % 0x40]
    else [0xf0 + n / 0x4_0000, 0x80 + n / 0x1000 % 0x40, 0x80 + n / 0x40 % 0x40, 0x80 + n % 0x40]
  }

  // unescape; plus is read as a space in queries only
  function Unescape(s: string, query: bool): Option<seq<Byte>> {
    if s == "" then Some([])
    else if s[0] == '%' then
      if |s| < 3 || !IsHex(s[1]) || !IsHex(s[2]) then None
      else Before([16 * HexValue(s[1]) + HexValue(s[2])], Unescape(s[3..], query))
    else Before(if query && s[0] == '+' then [0x20] else Utf8(s[0]), Unescape(s[1..], query))
  }

  function Before(head: seq<Byte>, tail: Option<seq<Byte>>): Option<seq<Byte>> {
    if tail.Some? then Some(head + tail.value) else None
  }

  // How an encoded text reads from its front: a percent sign and two hexadecimal digits in either case
  // are one byte, a plus is a space in a query and itself in a path, and a percent sign before
  // anything else refuses the text.
  lemma {:induction false} ByteReads(x: char, y: char, m: nat, n: nat, s: string, query: bool)
    requires m < 16 && n < 16 && IsDigit16(x, m) && IsDigit16(y, n)
    ensures Unescape(['%', x, y] + s, query) == Before([16 * m + n], Unescape(s, query))
  {
    Digit16IsHex(x, m);
    Digit16IsHex(y, n);
    assert (['%', x, y] + s)[3..] == s;
  }

  lemma {:induction false} CharReads(c: char, s: string, query: bool)
    requires c != '%'
    ensures Unescape([c] + s, query) == Before(if c == '+' && query then [0x20] else Utf8(c), Unescape(s, query))
  {
    assert ([c] + s)[1..] == s;
  }

  lemma {:induction false} BrokenByteRefused(s: string, query: bool)
    requires |s| >= 1 && s[0] == '%'
    requires |s| < 3 || !(exists m: nat, n: nat :: m < 16 && n < 16 && IsDigit16(s[1], m) && IsDigit16(s[2], n))
    ensures Unescape(s, query) == None
  {
    if |s| >= 3 && IsHex(s[1]) && IsHex(s[2]) {
      HexIsDigit16(s[1]);
      HexIsDigit16(s[2]);
    }
  }

  predicate IsDigit16(c: char, n: nat)
    requires n < 16
  {
    c == "0123456789abcdef"[n] || c == "0123456789ABCDEF"[n]
  }

  lemma Digit16IsHex(c: char, n: nat)
    requires n < 16 && IsDigit16(c, n)
    ensures IsHex(c) && HexValue(c) == n
  {}

  lemma HexIsDigit16(c: char)
    requires IsHex(c)
    ensures IsDigit16(c, HexValue(c))
  {}

  // The characters that escape leaves alone in a path.
  predicate PathChar(c: char) {
    LowerAlnum(c) || 'A' <= c <= 'Z' || c == '-' || c == '_' || c == '.' || c == '~' || c == '$' || c == '&' || c == '+'
    || c == ',' || c == '/' || c == ':' || c == ';' || c == '=' || c == '@'
  }

  // escape
  function Escape(p: seq<Byte>): string {
    if p == [] then ""
    else
      var c := p[0] as char;
      (if PathChar(c) then [c] else ['%', HexDigit(p[0] / 16), HexDigit(p[0] % 16)]) + Escape(p[1..])
  }

  // validEncoded
  predicate ValidEncoded(s: string) {
    forall i :: 0 <= i < |s| ==> EncodedChar(s[i])
  }

  predicate EncodedChar(c: char) {
    PathChar(c) || c == '!' || c == '\'' || c == '(' || c == ')' || c == '*' || c == '[' || c == ']' || c == '%'
  }

  lemma {:induction false} UnescapeEscape(p: seq<Byte>)
    ensures Unescape(Escape(p), false) == Some(p) && ValidEncoded(Escape(p))
  {
    if p != [] {
      hide PathChar, Unescape, ValidEncoded;
      UnescapeEscape(p[1..]);
      var rest := Escape(p[1..]);
      if PathChar(p[0] as char) { KeptByte(p[0], rest, p[1..]); } else { EscapedByte(p[0], rest, p[1..]); }
      assert p == [p[0]] + p[1..];
    } else {
      assert Unescape("", false) == Some([]);
    }
  }

  lemma {:induction false} KeptByte(b: Byte, rest: string, p: seq<Byte>)
    requires PathChar(b as char) && Unescape(rest, false) == Some(p) && ValidEncoded(rest)
    ensures Unescape([b as char] + rest, false) == Some([b] + p) && ValidEncoded([b as char] + rest)
  {
    var s := [b as char] + rest;
    assert s[1..] == rest;
  }

  lemma {:induction false} EscapedByte(b: Byte, rest: string, p: seq<Byte>)
    requires Unescape(rest, false) == Some(p) && ValidEncoded(rest)
    ensures var s := ['%', HexDigit(b / 16), HexDigit(b % 16)] + rest;
      Unescape(s, false) == Some([b] + p) && ValidEncoded(s)
  {
    var s := ['%', HexDigit(b / 16), HexDigit(b % 16)] + rest;
    assert s[3..] == rest;
    HexIsPathChar(b / 16);
    HexIsPathChar(b % 16);
  }

  lemma HexIsPathChar(n: nat)
    requires n < 16
    ensures PathChar(HexDigit(n))
  {}

  // EscapedPath of a parsed path: its own text where that is a valid encoding, otherwise the
  // standard one; an empty path becomes the root.
  function Kept(path: string): string
    requires Unescape(path, false).Some?
  {
    if path == "" then "/" else if ValidEncoded(path) then path else Escape(Unescape(path, false).value)
  }

  // ----- Parsing

  // Where a character first stands, or the length.
  function Find(s: string, c: char): (n: nat)
    ensures n <= |s| && (forall i :: 0 <= i < n ==> s[i] != c) && (n < |s| ==> s[n] == c)
  {
    if s == "" || s[0] == c then 0 else 1 + Find(s[1..], c)
  }

  // Where a character last stands, or -1.
  function FindLast(s: string, c: char): (n: int)
    ensures -1 <= n < |s| && (forall i :: n < i < |s| ==> s[i] != c) && (n >= 0 ==> s[n] == c)
  {
    if s == "" then -1 else if s[|s| - 1] == c then |s| - 1 else FindLast(s[..|s| - 1], c)
  }

  datatype Parts = Parts(scheme: string, authority: string, path: string, query: string, fragment: string)

  predicate WebScheme(s: string) { s == "http" || s == "https" }

  // url.Parse, with the refusals of other schemes, opaque parts, an empty query mark, a missing
  // authority and user information: first the fragment and the scheme, then the query, then the
  // authority and the path.
  function Parse(raw: string): Option<Parts> {
    var hash := Find(raw, '#');
    var base := raw[..hash];
    var colon := Find(base, ':');
    if colon == |base| || !WebScheme(Map(AsciiLower, base[..colon])) then None
    else ParseRest(Map(AsciiLower, base[..colon]), base[colon + 1..], if hash < |raw| then raw[hash + 1..] else "")
  }

  function ParseRest(scheme: string, rest: string, fragment: string): Option<Parts> {
    var mark := Find(rest, '?');
    if mark < |rest| && mark == |rest| - 1 then None
    else ParseHierarchy(scheme, rest[..mark], if mark < |rest| then rest[mark + 1..] else "", fragment)
  }

  function ParseHierarchy(scheme: string, hier: string, query: string, fragment: string): Option<Parts> {
    if |hier| < 2 || hier[..2] != "//" then None
    else
      var slash := Find(hier[2..], '/');
      var authority := hier[2..][..slash];
      if authority == "" || '@' in authority then None
      else Some(Parts(scheme, authority, hier[2..][slash..], query, fragment))
  }

  // ----- Hosts

  predicate OptionalPort(s: string) {
    s == "" || (s[0] == ':' && forall i :: 1 <= i < |s| ==> '0' <= s[i] <= '9')
  }

  // splitHostPort
  function HostPort(s: string): (string, string) {
    var colon := FindLast(s, ':');
    var (host, port) := if colon >= 0 && OptionalPort(s[colon..]) then (s[..colon], s[colon + 1..]) else (s, "");
    (if |host| >= 2 && host[0] == '[' && host[|host| - 1] == ']' then host[1..|host| - 1] else host, port)
  }

  function DefaultPort(scheme: string): string { if scheme == "https" then "443" else "80" }

  // The identity of a parsed host: a public address as it prints, or a DNS name in lower case,
  // without the default port.
  function HostIdentity(lib: Library, scheme: string, h: string): Option<string> {
    var (name, port) := HostPort(h);
    var host := Map(lib.lower, name);
    if h == "" || EndsWith(h, ":") || EndsWith(host, ".") || '%' in host
       || (port != "" && port != DefaultPort(scheme)) then None
    else match lib.ip(host)
      case Some(a) => if Public(a.address) then Some(PrintAddr(a)) else None
      case None => if ValidDNSName(host) then Some(host) else None
  }

  function PrintAddr(a: Addr): string { if a.address.six then Bracket(a.text) else a.text }

  function HostOf(lib: Library, scheme: string, authority: string): Option<string> {
    var h := lib.parseHost(authority);
    if h.None? then None else HostIdentity(lib, scheme, h.value)
  }

  predicate EndsWith(s: string, suffix: string) {
    |s| >= |suffix| && s[|s| - |suffix|..] == suffix
  }

  const PRIVATE_SUFFIXES := [
    ".localhost", ".local", ".internal", ".test", ".invalid", ".example", ".onion", ".home.arpa", ".lan", ".corp",
    ".intranet"]

  predicate Label(s: string) {
    1 <= |s| <= 63 && s[0] != '-' && s[|s| - 1] != '-' && forall i :: 0 <= i < |s| ==> LowerAlnum(s[i]) || s[i] == '-'
  }

  predicate ValidDNSName(host: string) {
    ByteLen(host) <= 253 && '.' in host
    && (forall i :: 0 <= i < |PRIVATE_SUFFIXES| ==> !EndsWith(host, PRIVATE_SUFFIXES[i]))
    && var labels := Split(host, '.');
      && (forall i :: 0 <= i < |labels| ==> Label(labels[i]))
      && labels[|labels| - 1] != "" && 'a' <= labels[|labels| - 1][0] <= 'z'
  }

  // ----- Normalization

  predicate Plain(raw: string) {
    raw != "" && TrimSpace(raw) == raw && Bounded(raw, MAXIMUM_URL_BYTES, false)
    && forall i :: 0 <= i < |raw| ==> !IsSpace(raw[i]) && raw[i] != '\\'
  }

  predicate Readable(lib: Library, s: string, query: bool) {
    Unescape(s, query).Some? && lib.clean(Unescape(s, query).value)
  }

  function Print(scheme: string, host: string, path: string, query: string): string {
    scheme + "://" + host + path + if query == "" then "" else "?" + query
  }

  function Normalize(lib: Library, raw: string): Option<string> {
    if !Plain(raw) then None
    else match Parse(raw)
      case None => None
      case Some(p) =>
        var host := HostOf(lib, p.scheme, p.authority);
        if host.None? || !Readable(lib, p.fragment, false) || Unescape(p.path, false).None? then None
        else
          var path := Kept(p.path);
          if !Readable(lib, path, false) || 0x5c in Unescape(path, false).value then None
          else if !Readable(lib, p.query, true) then None
          else
            var n := Print(p.scheme, host.value, path, p.query);
            if ByteLen(n) > MAXIMUM_URL_BYTES then None else Some(n)
  }

  // An address with a zone is refused whatever the address parser makes of it: a parser that differs
  // on such texts only is as lawful and gives the same normal forms.
  lemma ZonesNeverMatter(lib: Library, other: Library, raw: string)
    requires Lawful(lib) && other == lib.(ip := other.ip)
    requires forall s :: '%' !in s ==> other.ip(s) == lib.ip(s)
    ensures Lawful(other) && Normalize(other, raw) == Normalize(lib, raw)
  {
    hide Plain, Parse, HostIdentity, Unescape, Kept, ByteLen, Print;
    LawfulWithoutZones(lib, other);
    if Parse(raw).Some? {
      var p := Parse(raw).value;
      if lib.parseHost(p.authority).Some? {
        IdentityWithoutZones(lib, other, p.scheme, lib.parseHost(p.authority).value);
      }
    }
  }

  lemma LawfulWithoutZones(lib: Library, other: Library)
    requires Lawful(lib) && other == lib.(ip := other.ip)
    requires forall s :: '%' !in s ==> other.ip(s) == lib.ip(s)
    ensures Lawful(other)
  {
    hide LawfulBrackets;
    forall s | '%' !in s && other.ip(s).Some? ensures LawfulAddr(other, other.ip(s).value) {
      var a := lib.ip(s).value;
      assert LawfulAddr(lib, a);
      assert '%' !in a.text;
      BracketsWithoutZones(lib, other, a.text);
    }
  }

  lemma BracketsWithoutZones(lib: Library, other: Library, text: string)
    requires other.parseHost == lib.parseHost
    ensures LawfulBrackets(other, text) == LawfulBrackets(lib, text)
  {}

  lemma IdentityWithoutZones(lib: Library, other: Library, scheme: string, h: string)
    requires other.lower == lib.lower && forall s :: '%' !in s ==> other.ip(s) == lib.ip(s)
    ensures HostIdentity(other, scheme, h) == HostIdentity(lib, scheme, h)
  {
    hide HostPort, EndsWith, ValidDNSName, Public, PrintAddr, DefaultPort;
  }

  // ----- The code's own steps, over the fields of a parsed URL

  // url.URL: a path is kept as its bytes, and as its own text where that is not their standard
  // encoding.
  datatype URL = URL(scheme: string, host: string, path: seq<Byte>, rawPath: string, query: string, fragment: seq<Byte>)

  // setPath
  function RawPath(text: string): string
    requires Unescape(text, false).Some?
  {
    if text == Escape(Unescape(text, false).value) then "" else text
  }

  function EscapedPath(u: URL): string {
    if u.rawPath != "" && ValidEncoded(u.rawPath) && Unescape(u.rawPath, false) == Some(u.path) then u.rawPath
    else Escape(u.path)
  }

  // The host: overwritten in lower case, then by the address it may be.
  method IdentifyHost(lib: Library, scheme: string, h: string) returns (r: Option<string>)
    ensures r == HostIdentity(lib, scheme, h)
  {
    hide HostPort, EndsWith, ValidDNSName, Public;
    var (name, port) := HostPort(h);
    var host := Map(lib.lower, name);
    if h == "" || EndsWith(h, ":") || EndsWith(host, ".") || '%' in host
       || (port != "" && port != DefaultPort(scheme)) {
      return None;
    }
    var ip := lib.ip(host);
    if ip.Some? {
      var public := IsPublic(ip.value.address);
      if !public {
        return None;
      }
      host := ip.value.text;
      if ip.value.address.six {
        host := "[" + host + "]";
      }
    } else if !ValidDNSName(host) {
      return None;
    }
    return Some(host);
  }

  method NormalizeURL(lib: Library, raw: string) returns (r: Option<string>)
    ensures r == Normalize(lib, raw)
  {
    hide Plain, Parse, HostIdentity, Unescape, Escape, ValidEncoded, ByteLen;
    if !Plain(raw) {
      return None;
    }
    var parts := Parse(raw);
    if parts == None {
      return None;
    }
    var p := parts.value;
    var host, path, fragment := lib.parseHost(p.authority), Unescape(p.path, false), Unescape(p.fragment, false);
    if host == None || path == None || fragment == None {
      return None;
    }
    var u := URL(p.scheme, host.value, path.value, RawPath(p.path), p.query, fragment.value);
    var identity := IdentifyHost(lib, u.scheme, u.host);
    if identity == None || !lib.clean(u.fragment) {
      return None;
    }
    u := u.(fragment := [], host := identity.value);
    PathFields(p.path);
    if u.path == [] {
      u := u.(path := [0x2f]);
    }
    var decoded := Unescape(EscapedPath(u), false);
    if decoded == None || !lib.clean(decoded.value) || 0x5c in decoded.value {
      return None;
    }
    var query := Unescape(u.query, true);
    if query == None || !lib.clean(query.value) {
      return None;
    }
    var normalized := Print(u.scheme, u.host, EscapedPath(u), u.query);
    if ByteLen(normalized) > MAXIMUM_URL_BYTES {
      return None;
    }
    return Some(normalized);
  }

  // What the fields of a path print as.
  lemma {:induction false} PathFields(text: string)
    requires Unescape(text, false).Some?
    ensures var p := Unescape(text, false).value;
      && (p == [] <==> text == "")
      && forall u: URL :: u.rawPath == RawPath(text) && u.path == (if p == [] then [0x2f] else p) ==>
           EscapedPath(u) == Kept(text)
  {
    var p := Unescape(text, false).value;
    UnescapeEscape(p);
    if text == "" {
      assert Escape(p) == "" && Escape([0x2f]) == "/" + Escape([]);
    }
  }

  // ----- What a spelling parses to

  lemma {:induction false} FindAt(a: string, b: string, c: char)
    requires c !in a && (b == "" || b[0] == c)
    ensures Find(a + b, c) == |a|
  {
    assert forall i :: 0 <= i < |a| ==> (a + b)[i] == a[i] && a[i] != c;
    if b != "" { assert (a + b)[|a|] == c; }
  }

  lemma SchemeLetters(s: string)
    requires WebScheme(Map(AsciiLower, s))
    ensures ':' !in s && '#' !in s && forall i :: 0 <= i < |s| ==> PlainChar(s[i])
  {
    forall i | 0 <= i < |s| ensures s[i] != ':' && s[i] != '#' && PlainChar(s[i]) {
      var c := Map(AsciiLower, s)[i];
      assert c in "https";
    }
  }

  function Mark(c: string, s: string): string { if s == "" then "" else c + s }

  predicate Splittable(authority: string, path: string, query: string) {
    authority != "" && '/' !in authority && '?' !in authority && '#' !in authority
    && (path == "" || path[0] == '/') && '?' !in path && '#' !in path && '#' !in query
  }

  // A text put together from its parts, in any case of the scheme, parses to those parts; user
  // information in its authority refuses it.
  lemma SpellingParses(scheme: string, authority: string, path: string, query: string, tail: string)
    requires WebScheme(Map(AsciiLower, scheme)) && Splittable(authority, path, query)
    requires tail == "" || tail[0] == '#'
    ensures Parse(Print(scheme, authority, path, query) + tail)
            == if '@' in authority then None
               else Some(Parts(Map(AsciiLower, scheme), authority, path, query, if tail == "" then "" else tail[1..]))
  {
    hide Parse, ParseRest, Splittable, WebScheme, PlainChar, Print;
    var rest := "//" + authority + path + Mark("?", query);
    RestParses(Map(AsciiLower, scheme), authority, path, query, if tail == "" then "" else tail[1..]);
    SchemeLetters(scheme);
    NoChar(authority, path, query, scheme);
    PrintSplits(scheme, authority, path, query);
    FrontParses(scheme, rest, tail);
  }

  lemma PrintSplits(scheme: string, authority: string, path: string, query: string)
    ensures Print(scheme, authority, path, query) == scheme + (":" + ("//" + authority + path + Mark("?", query)))
  {
    assert "://" == ":" + "//";
  }

  lemma FrontParses(scheme: string, rest: string, tail: string)
    requires WebScheme(Map(AsciiLower, scheme)) && ':' !in scheme && '#' !in scheme + (":" + rest)
    requires tail == "" || tail[0] == '#'
    ensures Parse(scheme + (":" + rest) + tail)
            == ParseRest(Map(AsciiLower, scheme), rest, if tail == "" then "" else tail[1..])
  {
    hide WebScheme, ParseRest, Find;
    var base := scheme + (":" + rest);
    var raw := base + tail;
    FindAt(base, tail, '#');
    FindAt(scheme, ":" + rest, ':');
    assert raw[..|base|] == base && (tail != "" ==> raw[|base| + 1..] == tail[1..]);
    assert base[..|scheme|] == scheme && base[|scheme| + 1..] == rest;
  }

  lemma RestParses(scheme: string, authority: string, path: string, query: string, fragment: string)
    requires Splittable(authority, path, query)
    ensures ParseRest(scheme, "//" + authority + path + Mark("?", query), fragment)
            == if '@' in authority then None else Some(Parts(scheme, authority, path, query, fragment))
  {
    hide Find;
    var hier, mark := "//" + authority + path, Mark("?", query);
    var rest := hier + mark;
    NoChar(authority, path, query, "");
    FindAt(hier, mark, '?');
    assert rest[..|hier|] == hier && (mark != "" ==> rest[|hier| + 1..] == query);
    HierarchyParses(scheme, authority, path, query, fragment);
  }

  lemma HierarchyParses(scheme: string, authority: string, path: string, query: string, fragment: string)
    requires Splittable(authority, path, query)
    ensures ParseHierarchy(scheme, "//" + authority + path, query, fragment)
            == if '@' in authority then None else Some(Parts(scheme, authority, path, query, fragment))
  {
    hide Find;
    var hier := "//" + authority + path;
    assert hier[..2] == "//" && hier[2..] == authority + path;
    FindAt(authority, path, '/');
    assert hier[2..][..|authority|] == authority && hier[2..][|authority|..] == path;
  }

  lemma NoChar(authority: string, path: string, query: string, scheme: string)
    requires Splittable(authority, path, query) && '#' !in scheme
    ensures '?' !in "//" + authority + path
    ensures '#' !in scheme + (":" + ("//" + authority + path + Mark("?", query)))
  {}

  // ----- What is kept

  predicate PlainChar(c: char) { !IsSpace(c) && !IsControl(c) && c != '\\' }

  predicate PlainText(s: string) { forall i :: 0 <= i < |s| ==> PlainChar(s[i]) }

  lemma {:induction false} PlainIsPlainText(raw: string)
    ensures Plain(raw) <==> raw != "" && PlainText(raw) && ByteLen(raw) <= MAXIMUM_URL_BYTES
  {
    if raw != "" && PlainText(raw) { TrimmedIsFixed(raw); }
  }

  // The parts of a plain text.
  lemma PartsOfPlain(raw: string)
    requires PlainText(raw) && Parse(raw).Some?
    ensures var p := Parse(raw).value;
      && WebScheme(p.scheme) && Map(AsciiLower, p.scheme) == p.scheme
      && (p.path == "" || p.path[0] == '/') && '?' !in p.path && '#' !in p.path
      && '#' !in p.query && PlainText(p.query)
  {
    hide Find, WebScheme, ParseRest, PlainChar;
    var hash := Find(raw, '#');
    var base := raw[..hash];
    var colon := Find(base, ':');
    var rest := base[colon + 1..];
    assert forall i :: 0 <= i < |base| ==> base[i] != '#' && PlainChar(base[i]);
    assert forall i :: 0 <= i < |rest| ==> rest[i] == base[colon + 1 + i];
    LowerTwice(base[..colon]);
    PartsOfRest(Map(AsciiLower, base[..colon]), rest, if hash < |raw| then raw[hash + 1..] else "");
  }

  lemma PartsOfRest(scheme: string, rest: string, fragment: string)
    requires PlainText(rest) && '#' !in rest && ParseRest(scheme, rest, fragment).Some?
    ensures var p := ParseRest(scheme, rest, fragment).value;
      && p.scheme == scheme && (p.path == "" || p.path[0] == '/') && '?' !in p.path && '#' !in p.path
      && '#' !in p.query && PlainText(p.query)
  {
    hide Find, PlainChar;
    var mark := Find(rest, '?');
    var hier := rest[..mark];
    assert forall i :: 0 <= i < |hier| ==> hier[i] != '?' && hier[i] != '#';
  }

  lemma LowerTwice(s: string)
    ensures Map(AsciiLower, Map(AsciiLower, s)) == Map(AsciiLower, s)
  {}

  // The path of a normal form starts at the root, is a valid encoding of the same bytes, and is
  // kept as it is.
  lemma {:induction false} KeptIsKept(path: string)
    requires Unescape(path, false).Some? && (path == "" || path[0] == '/')
    ensures var k := Kept(path);
      && k != "" && k[0] == '/' && '?' !in k && '#' !in k && PlainText(k)
      && Unescape(k, false).Some? && Kept(k) == k
      && (path != "" ==> Unescape(k, false) == Unescape(path, false))
  {
    hide Escape, PathChar, IsSpace, IsControl;
    var k := Kept(path);
    RootIsEncoded();
    if path != "" && !ValidEncoded(path) {
      EscapedFromRoot(path);
    }
    forall i | 0 <= i < |k| ensures k[i] != '?' && k[i] != '#' && PlainChar(k[i]) {
      EncodedIsPlain(k[i]);
    }
  }

  lemma RootIsEncoded()
    ensures ValidEncoded("/") && Unescape("/", false) == Some([0x2f])
  {
    var s, root: seq<Byte> := "/", [0x2f];
    assert s[1..] == "" && root + [] == root;
    assert Unescape(s[1..], false) == Some([]);
    assert Unescape(s, false) == Before(Utf8('/'), Unescape(s[1..], false));
  }

  lemma NothingIsReadable(lib: Library)
    requires Lawful(lib)
    ensures Readable(lib, "", false) && Unescape("", false).Some?
  {}

  lemma EncodedIsPlain(c: char)
    requires EncodedChar(c)
    ensures c != '?' && c != '#' && PlainChar(c)
  {}

  lemma {:induction false} EscapedFromRoot(path: string)
    requires Unescape(path, false).Some? && path != "" && path[0] == '/'
    ensures var k := Escape(Unescape(path, false).value);
      k != "" && k[0] == '/' && ValidEncoded(k) && Unescape(k, false) == Unescape(path, false)
  {
    var p := Unescape(path, false).value;
    UnescapeEscape(p);
    assert p[0] == 0x2f;
  }

  lemma {:induction false} JoinChars(parts: seq<string>, sep: char, i: nat)
    requires i < |Join(parts, sep)|
    ensures Join(parts, sep)[i] == sep || exists k :: 0 <= k < |parts| && Join(parts, sep)[i] in parts[k]
  {
    if |parts| == 1 {
      assert Join(parts, sep)[i] in parts[0];
    } else if i < |parts[0]| {
      assert Join(parts, sep)[i] in parts[0];
    } else if i > |parts[0]| {
      var j := i - |parts[0]| - 1;
      assert Join(parts, sep)[i] == Join(parts[1..], sep)[j];
      JoinChars(parts[1..], sep, j);
      if Join(parts, sep)[i] != sep {
        var k :| 0 <= k < |parts[1..]| && Join(parts[1..], sep)[j] in parts[1..][k];
        assert parts[k + 1] == parts[1..][k];
      }
    }
  }

  lemma {:induction false} JoinLast(parts: seq<string>, sep: char)
    requires parts != [] && parts[|parts| - 1] != ""
    ensures var s := Join(parts, sep); s != "" && s[|s| - 1] == parts[|parts| - 1][|parts[|parts| - 1]| - 1]
  {
    if |parts| > 1 { JoinLast(parts[1..], sep); }
  }

  // An accepted DNS name is the one list of legal labels it is written as: at least two, none
  // empty or longer than 63, none starting or ending with a hyphen, the last one starting with a
  // letter, so that it cannot be read as a number.
  lemma AcceptedNameIsLabels(host: string) returns (labels: seq<string>)
    requires ValidDNSName(host)
    ensures Join(labels, '.') == host && |labels| >= 2 && labels[|labels| - 1] != ""
    ensures forall i :: 0 <= i < |labels| ==> Label(labels[i]) && '.' !in labels[i]
    ensures 'a' <= labels[|labels| - 1][0] <= 'z'
    ensures forall i :: 0 <= i < |host| ==> LowerAlnum(host[i]) || host[i] == '-' || host[i] == '.'
    ensures host != "" && host[|host| - 1] != '.'
  {
    labels := Split(host, '.');
    SplitJoins(host, '.');
    JoinLast(labels, '.');
    forall i | 0 <= i < |host| ensures LowerAlnum(host[i]) || host[i] == '-' || host[i] == '.' {
      JoinChars(labels, '.', i);
      if host[i] != '.' {
        var k :| 0 <= k < |labels| && host[i] in labels[k];
        assert Label(labels[k]);
      }
    }
  }

  // And every such list is an accepted name, when it takes at most 253 bytes and does not end like a
  // private name.
  lemma {:induction false} NamesExactly(host: string)
    ensures ValidDNSName(host) <==>
      ByteLen(host) <= 253 && !PrivateName(host) && exists labels :: Join(labels, '.') == host && LegalLabels(labels)
  {
    hide ByteLen, Join, Split, LegalLabels, PrivateName, EndsWith, Label;
    PrivateAgrees(host);
    if ValidDNSName(host) {
      var labels := AcceptedNameIsLabels(host);
      AreLegal(labels);
    }
    if labels :| Join(labels, '.') == host && LegalLabels(labels) {
      LegalSplit(labels);
    }
  }

  predicate PrivateSuffix(s: string) {
    s in [".localhost", ".local", ".internal", ".test", ".invalid", ".example", ".onion"]
    || s in [".home.arpa", ".lan", ".corp", ".intranet"]
  }

  ghost predicate PrivateName(host: string) {
    exists front, suffix :: PrivateSuffix(suffix) && host == front + suffix
  }

  lemma PrivateAgrees(host: string)
    ensures PrivateName(host) <==>
      exists i :: 0 <= i < |PRIVATE_SUFFIXES| && EndsWith(host, PRIVATE_SUFFIXES[i])
  {
    if front, suffix :| PrivateSuffix(suffix) && host == front + suffix {
      SuffixListed(suffix);
      var i :| 0 <= i < |PRIVATE_SUFFIXES| && PRIVATE_SUFFIXES[i] == suffix;
      assert EndsWith(host, PRIVATE_SUFFIXES[i]);
    }
    if i :| 0 <= i < |PRIVATE_SUFFIXES| && EndsWith(host, PRIVATE_SUFFIXES[i]) {
      var suffix := PRIVATE_SUFFIXES[i];
      SuffixListed(suffix);
      assert host == host[..|host| - |suffix|] + suffix;
    }
  }

  lemma SuffixListed(suffix: string)
    ensures PrivateSuffix(suffix) <==> suffix in PRIVATE_SUFFIXES
  {
    assert PRIVATE_SUFFIXES ==
      [".localhost", ".local", ".internal", ".test", ".invalid", ".example", ".onion"]
      + [".home.arpa", ".lan", ".corp", ".intranet"];
  }

  // Two or more labels of lower-case letters, digits and inner hyphens, the last starting with a
  // letter.
  predicate LegalLabels(labels: seq<string>) {
    && |labels| >= 2 && labels[|labels| - 1] != "" && 'a' <= labels[|labels| - 1][0] <= 'z'
    && forall i :: 0 <= i < |labels| ==>
         && 1 <= |labels[i]| <= 63 && labels[i][0] != '-' && labels[i][|labels[i]| - 1] != '-'
         && forall k :: 0 <= k < |labels[i]| ==>
              var c := labels[i][k]; 'a' <= c <= 'z' || '0' <= c <= '9' || c == '-'
  }

  lemma AreLegal(labels: seq<string>)
    requires |labels| >= 2 && labels[|labels| - 1] != "" && 'a' <= labels[|labels| - 1][0] <= 'z'
    requires forall i :: 0 <= i < |labels| ==> Label(labels[i])
    ensures LegalLabels(labels)
  {
    forall i | 0 <= i < |labels| ensures 1 <= |labels[i]| <= 63 { assert Label(labels[i]); }
  }

  lemma {:induction false} LegalSplit(labels: seq<string>)
    requires LegalLabels(labels)
    ensures Split(Join(labels, '.'), '.') == labels && '.' in Join(labels, '.')
    ensures labels[|labels| - 1] != "" && 'a' <= labels[|labels| - 1][0] <= 'z'
    ensures forall i :: 0 <= i < |labels| ==> Label(labels[i])
  {
    hide Join, Split;
    forall i | 0 <= i < |labels| ensures Label(labels[i]) && '.' !in labels[i] {}
    JoinSplits(labels, '.');
    SplitJoins(Join(labels, '.'), '.');
  }

  // ----- Hosts are fixed points

  lemma LowerFixed(lib: Library, s: string)
    requires Lawful(lib) && forall i :: 0 <= i < |s| ==> HostChar(s[i])
    ensures Map(lib.lower, s) == s
  {
    forall i | 0 <= i < |s| ensures lib.lower(s[i]) == s[i] {}
  }

  lemma PlainHostSplits(s: string)
    requires ':' !in s && (s == "" || s[0] != '[')
    ensures HostPort(s) == (s, "")
  {}

  lemma BracketedSplits(t: string)
    requires ']' !in t && '[' !in t
    ensures HostPort(Bracket(t)) == (t, "")
  {
    var s := Bracket(t);
    assert s[|s| - 1] == ']' && s[1..|s| - 1] == t;
    var colon := FindLast(s, ':');
    if colon >= 0 { assert s[colon..][|s| - 1 - colon] == ']'; }
  }

  lemma HostIsFixed(lib: Library, scheme: string, authority: string)
    requires Lawful(lib) && HostOf(lib, scheme, authority).Some?
    ensures var h := HostOf(lib, scheme, authority).value; h != "" && HostText(h) && HostOf(lib, scheme, h) == Some(h)
  {
    hide HostPort, ValidDNSName, HostText, LawfulAddr, EndsWith, PrintAddr, Public;
    var name := HostPort(lib.parseHost(authority).value).0;
    var host := Map(lib.lower, name);
    match lib.ip(host)
    case Some(a) => AddrIsFixed(lib, scheme, a);
    case None => NameIsFixed(lib, scheme, host);
  }

  lemma NameIsFixed(lib: Library, scheme: string, host: string)
    requires Lawful(lib) && ValidDNSName(host) && lib.ip(host).None?
    ensures host != "" && HostText(host) && HostOf(lib, scheme, host) == Some(host)
  {
    hide HostPort, ValidDNSName, LawfulAddr;
    var labels := AcceptedNameIsLabels(host);
    LowerFixed(lib, host);
    PlainHostSplits(host);
  }

  lemma AddrIsFixed(lib: Library, scheme: string, a: Addr)
    requires Lawful(lib) && LawfulAddr(lib, a) && Public(a.address)
    ensures var h := PrintAddr(a); h != "" && HostText(h) && HostOf(lib, scheme, h) == Some(h)
  {
    hide HostPort, ValidDNSName, Public;
    var h := PrintAddr(a);
    LowerFixed(lib, a.text);
    if a.address.six {
      BracketedSplits(a.text);
    } else {
      PlainHostSplits(a.text);
      assert NameText(a.text);
    }
    assert h[|h| - 1] == if a.address.six then ']' else a.text[|a.text| - 1];
  }

  // ----- Normal forms

  lemma PrintIsPlain(scheme: string, host: string, path: string, query: string)
    requires WebScheme(scheme) && HostText(host) && PlainText(path) && PlainText(query)
    requires ByteLen(Print(scheme, host, path, query)) <= MAXIMUM_URL_BYTES
    ensures Plain(Print(scheme, host, path, query))
  {
    hide PlainChar, HostChar, ByteLen, WebScheme;
    var n := Print(scheme, host, path, query);
    LowerScheme(scheme);
    SchemeLetters(scheme);
    HostIsPlain(host);
    HostIsPlain("");
    assert PlainText("://") && PlainText("?") by { MarksArePlain(); }
    assert n == scheme + "://" + host + path + Mark("?", query);
    PlainIsPlainText(n);
  }

  lemma MarksArePlain()
    ensures PlainText("://") && PlainText("?")
  {}

  lemma HostIsPlain(host: string)
    requires HostText(host)
    ensures PlainText(host)
  {}

  lemma LowerScheme(scheme: string)
    requires WebScheme(scheme)
    ensures Map(AsciiLower, scheme) == scheme
  {
    forall i | 0 <= i < |scheme| ensures AsciiLower(scheme[i]) == scheme[i] { assert scheme[i] in "https"; }
  }

  // Whatever is accepted comes out as a fixed point: the item check that compares a URL with its
  // own normal form can succeed for exactly the normal forms.
  lemma NormalizeIdempotent(lib: Library, raw: string)
    requires Lawful(lib) && Normalize(lib, raw).Some?
    ensures Normalize(lib, Normalize(lib, raw).value) == Normalize(lib, raw)
  {
    hide Plain, Parse, HostOf, Unescape, Kept, HostText, PlainText, Splittable, ByteLen, ValidEncoded, Readable, Print;
    PlainIsPlainText(raw);
    PartsOfPlain(raw);
    var p := Parse(raw).value;
    var host, path := HostOf(lib, p.scheme, p.authority).value, Kept(p.path);
    HostIsFixed(lib, p.scheme, p.authority);
    KeptIsKept(p.path);
    var n := Print(p.scheme, host, path, p.query);
    PrintIsPlain(p.scheme, host, path, p.query);
    HostSplittable(host, path, p.query);
    SpellingParses(p.scheme, host, path, p.query, "");
    NothingIsReadable(lib);
    assert n + "" == n;
  }

  lemma HostSplittable(host: string, path: string, query: string)
    requires host != "" && HostText(host)
    requires path != "" && path[0] == '/' && '?' !in path && '#' !in path && '#' !in query
    ensures Splittable(host, path, query) && '@' !in host
  {}

  // What a caller gets: a plain text of at most 4096 bytes without fragment or credentials, with a
  // host that is a public address or a legal DNS name, without a port, and a path from the root.
  lemma AcceptedForm(lib: Library, raw: string) returns (scheme: string, host: string, path: string, query: string)
    requires Lawful(lib) && Normalize(lib, raw).Some?
    ensures var n := Normalize(lib, raw).value;
      && n == Print(scheme, host, path, query) && Plain(n)
      && Parse(n) == Some(Parts(scheme, host, path, query, ""))
    ensures WebScheme(scheme) && path != "" && path[0] == '/'
    ensures PublicHost(lib, host)
  {
    hide Plain, Parse, Unescape, Kept, HostText, PlainText, Splittable, ByteLen, ValidEncoded, Print, ValidDNSName;
    PlainIsPlainText(raw);
    PartsOfPlain(raw);
    var p := Parse(raw).value;
    scheme, host, path, query := p.scheme, HostOf(lib, p.scheme, p.authority).value, Kept(p.path), p.query;
    HostIsFixed(lib, scheme, p.authority);
    HostIsPublic(lib, scheme, p.authority);
    KeptIsKept(p.path);
    PrintIsPlain(scheme, host, path, query);
    HostSplittable(host, path, query);
    SpellingParses(scheme, host, path, query, "");
    assert Print(scheme, host, path, query) + "" == Print(scheme, host, path, query);
  }

  ghost predicate PublicHost(lib: Library, host: string) {
    (ValidDNSName(host) && lib.ip(host).None?)
    || exists a :: LawfulAddr(lib, a) && Public(a.address) && host == PrintAddr(a)
  }

  lemma HostIsPublic(lib: Library, scheme: string, authority: string)
    requires Lawful(lib) && HostOf(lib, scheme, authority).Some?
    ensures PublicHost(lib, HostOf(lib, scheme, authority).value)
  {
    hide HostPort, ValidDNSName, LawfulAddr, EndsWith, PrintAddr, Public;
    var host := Map(lib.lower, HostPort(lib.parseHost(authority).value).0);
    if lib.ip(host).Some? {
      assert LawfulAddr(lib, lib.ip(host).value);
    }
  }

  // Two spellings of one resource: another case of scheme or host, an explicit default port, an
  // empty path for the root, and any readable fragment make no difference.
  lemma SpellingsAgree(
    lib: Library, scheme: string, host: string, path: string, query: string,
    spelledScheme: string, spelledHost: string, port: string, spelledPath: string, tail: string)
    requires Lawful(lib) && PublicHost(lib, host)
    requires Normalize(lib, Print(scheme, host, path, query)) == Some(Print(scheme, host, path, query))
    requires WebScheme(scheme) && path != "" && path[0] == '/' && '?' !in path && '#' !in path && '#' !in query
    requires Map(AsciiLower, spelledScheme) == scheme && Map(AsciiLower, spelledHost) == host
    requires port == "" || port == ":" + DefaultPort(scheme)
    requires spelledPath == path || (path == "/" && spelledPath == "")
    requires tail == "" || (tail[0] == '#' && Readable(lib, tail[1..], false))
    requires Plain(Print(spelledScheme, spelledHost + port, spelledPath, query) + tail)
    ensures Normalize(lib, Print(spelledScheme, spelledHost + port, spelledPath, query) + tail)
            == Some(Print(scheme, host, path, query))
  {
    hide Plain, Parse, HostOf, Unescape, HostText, PlainText, ByteLen, ValidEncoded, Readable, Print;
    hide PublicHost, WebScheme, Lawful, PortNumber;
    var n := Print(scheme, host, path, query);
    LowerScheme(scheme);
    DefaultPortNumber(scheme);
    PublicInLower(lib, host);
    SpelledHost(lib, scheme, host, host, DefaultPort(scheme));
    HostSplittable(host, path, query);
    SpellingParses(scheme, host, path, query, "");
    assert n + "" == n;
    SpelledHost(lib, scheme, host, spelledHost, DefaultPort(scheme));
    assert spelledHost + port == spelledHost || spelledHost + port == WithPort(spelledHost, DefaultPort(scheme));
    PrintCancels(scheme, host, Kept(path), path, query);
    NothingIsReadable(lib);
    HostSplittable(spelledHost + port, path, query);
    SpellingParses(spelledScheme, spelledHost + port, spelledPath, query, tail);
  }

  // Of all ports only the default one of the scheme is accepted.
  lemma PortsExactly(lib: Library, scheme: string, host: string, port: string, path: string, query: string)
    requires Lawful(lib) && PublicHost(lib, host) && PortNumber(port)
    requires Normalize(lib, Print(scheme, host, path, query)) == Some(Print(scheme, host, path, query))
    requires WebScheme(scheme) && path != "" && path[0] == '/' && '?' !in path && '#' !in path && '#' !in query
    requires Plain(Print(scheme, WithPort(host, port), path, query))
    ensures Normalize(lib, Print(scheme, WithPort(host, port), path, query)).Some? <==> port == DefaultPort(scheme)
  {
    hide Normalize, Lawful, Plain, Print, PublicHost, WebScheme, HostOf, PortNumber;
    var raw := Print(scheme, WithPort(host, port), path, query);
    assert raw + "" == raw;
    if port == DefaultPort(scheme) {
      LowerScheme(scheme);
      PublicInLower(lib, host);
      SpellingsAgree(lib, scheme, host, path, query, scheme, host, ":" + port, path, "");
    } else {
      OtherPortRefused(lib, scheme, host, port, path, query);
    }
  }

  lemma OtherPortRefused(lib: Library, scheme: string, host: string, port: string, path: string, query: string)
    requires Lawful(lib) && PublicHost(lib, host) && PortNumber(port) && port != DefaultPort(scheme)
    requires WebScheme(scheme) && path != "" && path[0] == '/' && '?' !in path && '#' !in path && '#' !in query
    ensures Normalize(lib, Print(scheme, WithPort(host, port), path, query)) == None
  {
    hide Plain, Parse, Unescape, HostText, ByteLen, Readable, PublicHost, Lawful, WebScheme, HostOf, Print;
    var spelled := WithPort(host, port);
    LowerScheme(scheme);
    PublicInLower(lib, host);
    SpelledHost(lib, scheme, host, host, port);
    HostSplittable(spelled, path, query);
    SpellingParses(scheme, spelled, path, query, "");
    assert Print(scheme, spelled, path, query) + "" == Print(scheme, spelled, path, query);
  }

  // ----- Exactly which URLs are accepted, and as what

  // A spelling of a public URL: its host in any letter case, with or without the default port.
  ghost predicate Spells(scheme: string, host: string, spelledScheme: string, authority: string) {
    && (scheme == "http" || scheme == "https") && Map(AsciiLower, spelledScheme) == scheme
    && exists spelled :: Map(AsciiLower, spelled) == host && AuthorityFor(spelled, scheme, authority)
  }

  predicate AuthorityFor(spelled: string, scheme: string, authority: string) {
    authority == spelled || authority == WithPort(spelled, if scheme == "https" then "443" else "80")
  }

  // The texts behind percent signs are clean text of the web: a path without a backslash, and any
  // query and fragment.
  ghost predicate CleanParts(lib: Library, path: string, query: string, fragment: string) {
    var p, q, f := Unescape(path, false), Unescape(query, true), Unescape(fragment, false);
    && p.Some? && q.Some? && f.Some?
    && lib.clean(if path == "" then [0x2f] else p.value) && 0x5c !in p.value
    && lib.clean(q.value) && lib.clean(f.value)
  }

  // What may stand in a path as it is, percent signs included.
  predicate InPath(c: char) {
    'a' <= c <= 'z' || 'A' <= c <= 'Z' || '0' <= c <= '9' || c in "-_.~$&+,/:;=@!'()*[]%"
  }

  lemma InPathIsEncoded(c: char)
    ensures InPath(c) <==> EncodedChar(c)
  {}

  // The path that is printed: the root for none, its own text where that is a valid encoding, and
  // otherwise the standard encoding of the bytes it denotes.
  predicate PathAs(path: string, printed: string) {
    && (path == "" ==> printed == "/")
    && (path != "" && (forall i :: 0 <= i < |path| ==> InPath(path[i])) ==> printed == path)
    && (path != "" && (exists i :: 0 <= i < |path| && !InPath(path[i])) ==>
          Unescape(path, false).Some? && printed == Escape(Unescape(path, false).value))
  }

  // Any spelling of a public host, any path from the root, any query and any fragment: the URL is
  // accepted exactly when it is plain text of at most 4096 bytes, its parts decode to clean text and
  // the result is not longer. The result is the scheme and host in normal form, that path, and the
  // query as it was, without the fragment.
  lemma AcceptsExactly(
    lib: Library, scheme: string, host: string, spelledScheme: string, authority: string,
    path: string, query: string, tail: string, printed: string)
    requires Lawful(lib) && PublicHost(lib, host) && Spells(scheme, host, spelledScheme, authority)
    requires (path == "" || path[0] == '/') && '?' !in path && '#' !in path && '#' !in query
    requires tail == "" || tail[0] == '#'
    requires PathAs(path, printed)
    ensures var raw, n := Print(spelledScheme, authority, path, query) + tail, Print(scheme, host, printed, query);
      Normalize(lib, raw) ==
        if (forall i :: 0 <= i < |raw| ==> !IsSpace(raw[i]) && !IsControl(raw[i]) && raw[i] != '\\')
           && ByteLen(raw) <= 4096 && CleanParts(lib, path, query, if tail == "" then "" else tail[1..])
           && ByteLen(n) <= 4096
        then Some(n) else None
  {
    hide Plain, Parse, HostOf, Unescape, HostText, ByteLen, ValidEncoded, Print, Splittable, PlainChar;
    hide PublicHost, WebScheme, Lawful, IsSpace, IsControl, Escape, EncodedChar, Spells, PathAs, Kept;
    var raw := Print(spelledScheme, authority, path, query) + tail;
    SpelledAuthority(lib, scheme, host, spelledScheme, authority, path, query);
    SpellingParses(spelledScheme, authority, path, query, tail);
    PlainIsPlainText(raw);
    PrintIsSome(spelledScheme, authority, path, query, tail);
    assert (forall i :: 0 <= i < |raw| ==> !IsSpace(raw[i]) && !IsControl(raw[i]) && raw[i] != '\\') <==> PlainText(raw)
    by { PlainCharIs(); }
    if Unescape(path, false).Some? { PrintedIsKept(path, printed); }
    PartsAreClean(lib, path, query, if tail == "" then "" else tail[1..]);
  }

  lemma PlainCharIs()
    ensures forall c :: PlainChar(c) <==> !IsSpace(c) && !IsControl(c) && c != '\\'
  {}

  lemma PrintIsSome(scheme: string, authority: string, path: string, query: string, tail: string)
    ensures Print(scheme, authority, path, query) + tail != ""
  {
    assert |Print(scheme, authority, path, query)| >= |"://"|;
  }

  lemma SpelledAuthority(
    lib: Library, scheme: string, host: string, spelledScheme: string, authority: string, path: string, query: string)
    requires Lawful(lib) && PublicHost(lib, host) && Spells(scheme, host, spelledScheme, authority)
    requires (path == "" || path[0] == '/') && '?' !in path && '#' !in path && '#' !in query
    ensures WebScheme(scheme) && Map(AsciiLower, spelledScheme) == scheme
    ensures HostOf(lib, scheme, authority) == Some(host)
    ensures Splittable(authority, path, query) && '@' !in authority
  {
    hide HostOf, PublicHost, Lawful, HostText, PortNumber;
    var spelled :| Map(AsciiLower, spelled) == host && AuthorityFor(spelled, scheme, authority);
    DefaultPortNumber(scheme);
    SpelledHost(lib, scheme, host, spelled, DefaultPort(scheme));
    TextIsSplittable(authority, path, query);
  }

  lemma TextIsSplittable(host: string, path: string, query: string)
    requires host != "" && HostText(host)
    requires (path == "" || path[0] == '/') && '?' !in path && '#' !in path && '#' !in query
    ensures Splittable(host, path, query) && '@' !in host
  {}

  lemma {:induction false} PrintedIsKept(path: string, printed: string)
    requires Unescape(path, false).Some? && PathAs(path, printed)
    ensures Kept(path) == printed
  {
    hide Unescape, Escape, EncodedChar, InPath;
    forall c ensures InPath(c) <==> EncodedChar(c) { InPathIsEncoded(c); }
  }

  lemma {:induction false} PartsAreClean(lib: Library, path: string, query: string, fragment: string)
    requires path == "" || path[0] == '/'
    ensures CleanParts(lib, path, query, fragment) <==>
      && Unescape(path, false).Some? && Readable(lib, fragment, false) && Readable(lib, query, true)
      && Readable(lib, Kept(path), false) && 0x5c !in Unescape(Kept(path), false).value
  {
    hide Unescape, Kept;
    RootIsEncoded();
    if path == "" { assert Kept(path) == "/" && Unescape(path, false) == Some([]) by { EmptyPath(); } }
    if Unescape(path, false).Some? { KeptIsKept(path); }
  }

  lemma EmptyPath()
    ensures Unescape("", false) == Some([]) && Kept("") == "/"
  {}

  // Conversely, whatever is accepted is written like that: a web scheme in any case, a host that the
  // parser reads as a spelling of the host that comes out, a path from the root, and no mark before
  // an empty query.
  lemma AcceptedIsWritten(lib: Library, raw: string)
    returns (scheme: string, authority: string, path: string, query: string, tail: string)
    requires Normalize(lib, raw).Some?
    ensures raw == Print(scheme, authority, path, query) + tail
    ensures WebScheme(Map(AsciiLower, scheme)) && authority != "" && '@' !in authority
    ensures (path == "" || path[0] == '/') && '?' !in path && '#' !in path && '#' !in query
    ensures tail == "" || tail[0] == '#'
    ensures exists host, printed ::
      && Normalize(lib, raw) == Some(Print(Map(AsciiLower, scheme), host, printed, query))
      && ReadsAs(lib, Map(AsciiLower, scheme), authority, host)
  {
    hide Plain, Parse, HostOf, Unescape, Readable, ByteLen, Kept, WebScheme, ParseRest, Print, ReadsAs, Mark;
    var rest, fragment: string;
    scheme, rest, fragment, tail := FrontIsWritten(raw);
    authority, path, query := RestIsWritten(Map(AsciiLower, scheme), rest, fragment);
    PrintSplits(scheme, authority, path, query);
    assert Parse(raw) == Some(Parts(Map(AsciiLower, scheme), authority, path, query, fragment));
    var host := HostOf(lib, Map(AsciiLower, scheme), authority).value;
    AuthorityReads(lib, Map(AsciiLower, scheme), authority, host);
  }

  lemma FrontIsWritten(raw: string) returns (scheme: string, rest: string, fragment: string, tail: string)
    requires Parse(raw).Some?
    ensures raw == scheme + (":" + rest) + tail && '#' !in rest && (tail == "" || tail[0] == '#')
    ensures WebScheme(Map(AsciiLower, scheme)) && Parse(raw) == ParseRest(Map(AsciiLower, scheme), rest, fragment)
  {
    hide WebScheme, ParseRest;
    var hash := Find(raw, '#');
    var base := raw[..hash];
    var colon := Find(base, ':');
    scheme, rest, tail := base[..colon], base[colon + 1..], raw[hash..];
    fragment := if hash < |raw| then raw[hash + 1..] else "";
    assert '#' !in base && base == scheme + (":" + rest);
    forall i | 0 <= i < |rest| ensures rest[i] != '#' { assert rest[i] == base[colon + 1 + i]; }
  }

  lemma RestIsWritten(scheme: string, rest: string, fragment: string)
    returns (authority: string, path: string, query: string)
    requires '#' !in rest && ParseRest(scheme, rest, fragment).Some?
    ensures rest == "//" + authority + path + Mark("?", query)
    ensures ParseRest(scheme, rest, fragment) == Some(Parts(scheme, authority, path, query, fragment))
    ensures authority != "" && '@' !in authority && (path == "" || path[0] == '/') && '?' !in path
    ensures '#' !in path && '#' !in query
  {
    hide Find;
    var mark := Find(rest, '?');
    var hier := rest[..mark];
    query := if mark < |rest| then rest[mark + 1..] else "";
    assert rest == hier + Mark("?", query);
    assert '?' !in hier && '#' !in hier;
    hide ParseHierarchy, Mark;
    authority, path := HierarchyIsWritten(scheme, hier, query, fragment);
  }

  lemma HierarchyIsWritten(scheme: string, hier: string, query: string, fragment: string)
    returns (authority: string, path: string)
    requires '?' !in hier && '#' !in hier && ParseHierarchy(scheme, hier, query, fragment).Some?
    ensures hier == "//" + authority + path
    ensures ParseHierarchy(scheme, hier, query, fragment) == Some(Parts(scheme, authority, path, query, fragment))
    ensures authority != "" && '@' !in authority && (path == "" || path[0] == '/') && '?' !in path && '#' !in path
  {
    var slash := Find(hier[2..], '/');
    authority, path := hier[2..][..slash], hier[2..][slash..];
    assert hier == "//" + authority + path;
  }

  // The parser reads the authority as a name or a bracketed one, alone or with the default port; in
  // lower case, and not ending in a dot, the name is what the host stands for.
  ghost predicate ReadsAs(lib: Library, scheme: string, authority: string, host: string) {
    exists h, name ::
      && lib.parseHost(authority) == Some(h)
      && (AuthorityFor(name, scheme, h) || AuthorityFor(Bracket(name), scheme, h))
      && Names(lib, Map(lib.lower, name), host)
  }

  lemma AuthorityReads(lib: Library, scheme: string, authority: string, host: string)
    requires HostOf(lib, scheme, authority) == Some(host)
    ensures ReadsAs(lib, scheme, authority, host)
  {
    hide ValidDNSName, Public, HostPort;
    var h := lib.parseHost(authority).value;
    var (name, port) := HostPort(h);
    HostPortWritten(h);
    assert Names(lib, Map(lib.lower, name), host);
  }

  lemma HostPortWritten(h: string)
    requires !EndsWith(h, ":")
    ensures var (name, port) := HostPort(h);
      || (port == "" && (h == name || h == Bracket(name)))
      || (port != "" && (h == WithPort(name, port) || h == WithPort(Bracket(name), port)))
  {
    hide FindLast;
    var colon := FindLast(h, ':');
    var (host, port) := if colon >= 0 && OptionalPort(h[colon..]) then (h[..colon], h[colon + 1..]) else (h, "");
    if colon >= 0 && OptionalPort(h[colon..]) {
      assert h == WithPort(host, port);
      EndsInColon(host);
    }
    var name := HostPort(h).0;
    assert name == host || host == Bracket(name);
  }

  lemma EndsInColon(s: string)
    ensures EndsWith(WithPort(s, ""), ":")
  {
    assert WithPort(s, "")[|s|..] == ":";
  }

  // A mark without a query is refused.
  lemma BareMarkRefused(lib: Library, scheme: string, authority: string, path: string, tail: string)
    requires WebScheme(Map(AsciiLower, scheme)) && Splittable(authority, path, "")
    requires tail == "" || tail[0] == '#'
    ensures Normalize(lib, Print(scheme, authority, path, "") + "?" + tail) == None
  {
    hide Plain, HostOf, Unescape, Readable, ByteLen, Kept, WebScheme, Find, Print, Splittable, ParseHierarchy;
    var hier := "//" + authority + path;
    var rest := hier + "?";
    SchemeLetters(scheme);
    NoChar(authority, path, "", scheme);
    PrintSplits(scheme, authority, path, "");
    assert Print(scheme, authority, path, "") + "?" + tail == scheme + (":" + rest) + tail;
    FrontParses(scheme, rest, tail);
    FindAt(hier, "?", '?');
  }

  lemma CredentialsRefused(lib: Library, scheme: string, authority: string, path: string, query: string, tail: string)
    requires WebScheme(Map(AsciiLower, scheme)) && Splittable(authority, path, query) && '@' in authority
    requires tail == "" || tail[0] == '#'
    ensures Normalize(lib, Print(scheme, authority, path, query) + tail) == None
  {
    SpellingParses(scheme, authority, path, query, tail);
  }

  lemma PrintCancels(scheme: string, host: string, path: string, other: string, query: string)
    requires Print(scheme, host, path, query) == Print(scheme, host, other, query)
    ensures path == other
  {
    var front, mark := scheme + "://" + host, Mark("?", query);
    var n := front + path + mark;
    assert n == Print(scheme, host, path, query) == front + other + mark;
    assert |path| == |other|;
    assert path == n[|front|..|front| + |path|] && other == n[|front|..|front| + |path|];
  }

  // An accepted host in any case names the same host; beside it only the default port is accepted.
  lemma SpelledHost(lib: Library, scheme: string, host: string, spelled: string, port: string)
    requires Lawful(lib) && PublicHost(lib, host) && Map(AsciiLower, spelled) == host && PortNumber(port)
    ensures spelled != "" && HostText(spelled) && HostText(WithPort(spelled, port))
    ensures HostOf(lib, scheme, spelled) == Some(host)
    ensures HostOf(lib, scheme, WithPort(spelled, port)) == if port == DefaultPort(scheme) then Some(host) else None
  {
    hide HostPort, Lawful, PublicHost, PortNumber, HostText, ValidDNSName, Public, PrintAddr, EndsWith;
    var name := SpelledSplits(lib, host, spelled, port);
  }

  // How a spelling of an accepted host is read: as itself, split into the name that is looked up and
  // the port.
  lemma SpelledSplits(lib: Library, host: string, spelled: string, port: string) returns (name: string)
    requires Lawful(lib) && PublicHost(lib, host) && Map(AsciiLower, spelled) == host && PortNumber(port)
    ensures port != "" && spelled != "" && HostText(spelled) && HostText(WithPort(spelled, port))
    ensures lib.parseHost(spelled) == Some(spelled) && HostPort(spelled) == (name, "")
    ensures lib.parseHost(WithPort(spelled, port)) == Some(WithPort(spelled, port))
    ensures HostPort(WithPort(spelled, port)) == (name, port)
    ensures !EndsWith(spelled, ":") && !EndsWith(WithPort(spelled, port), ":")
    ensures Names(lib, Map(lib.lower, name), host)
  {
    hide HostPort, ValidDNSName, NameText, HostText, PortNumber, Public, EndsWith;
    if ValidDNSName(host) && lib.ip(host).None? {
      var labels := AcceptedNameIsLabels(host);
      SpelledName(lib, host, spelled);
      PlainHostSplits(spelled);
      PortSplits(spelled, port);
      PortText(spelled, port);
      name := spelled;
    } else {
      var a :| LawfulAddr(lib, a) && Public(a.address) && host == PrintAddr(a);
      if a.address.six {
        name := SpelledBrackets(lib, a, spelled, port);
      } else {
        SpelledName(lib, host, spelled);
        PlainHostSplits(spelled);
        PortSplits(spelled, port);
        PortText(spelled, port);
        name := spelled;
      }
    }
  }

  // What the looked-up name stands for.
  ghost predicate Names(lib: Library, name: string, host: string) {
    && !EndsWith(name, ".") && '%' !in name
    && match lib.ip(name)
       case Some(a) => Public(a.address) && PrintAddr(a) == host
       case None => ValidDNSName(name) && name == host
  }

  lemma SpelledBrackets(lib: Library, a: Addr, spelled: string, port: string) returns (name: string)
    requires Lawful(lib) && LawfulAddr(lib, a) && a.address.six && Public(a.address)
    requires Map(AsciiLower, spelled) == PrintAddr(a) && PortNumber(port)
    ensures port != "" && spelled != "" && HostText(spelled) && HostText(WithPort(spelled, port))
    ensures lib.parseHost(spelled) == Some(spelled) && HostPort(spelled) == (name, "")
    ensures lib.parseHost(WithPort(spelled, port)) == Some(WithPort(spelled, port))
    ensures HostPort(WithPort(spelled, port)) == (name, port)
    ensures !EndsWith(spelled, ":") && !EndsWith(WithPort(spelled, port), ":")
    ensures Names(lib, Map(lib.lower, name), PrintAddr(a))
  {
    hide HostPort, ValidDNSName, Public, HostText, PortNumber;
    name := BracketsStay(a.text, spelled);
    BracketedText(lib, a.text, name);
    BracketedSplits(name);
    BracketedPortSplits(name, port);
    PortText(spelled, port);
  }

  // Brackets keep their places when letters change their case.
  lemma BracketsStay(text: string, spelled: string) returns (name: string)
    requires Map(AsciiLower, spelled) == Bracket(text)
    ensures spelled == Bracket(name) && Map(AsciiLower, name) == text
  {
    var last := |spelled| - 1;
    name := spelled[1..last];
    assert AsciiLower(spelled[0]) == Bracket(text)[0] == '[';
    assert AsciiLower(spelled[last]) == Bracket(text)[last] == ']';
    forall i | 0 <= i < |name| ensures AsciiLower(name[i]) == text[i] {
      assert AsciiLower(spelled[i + 1]) == Bracket(text)[i + 1];
    }
  }

  lemma BracketedText(lib: Library, text: string, name: string)
    requires Lawful(lib) && Map(AsciiLower, name) == text && text != "" && text[|text| - 1] != '.'
    requires forall i :: 0 <= i < |text| ==> HostChar(text[i])
    ensures Map(lib.lower, name) == text && '[' !in name && ']' !in name && HostText(Bracket(name))
    ensures !EndsWith(text, ".") && '%' !in text && !EndsWith(Bracket(name), ":")
  {
    forall i | 0 <= i < |name|
      ensures lib.lower(name[i]) == text[i] && name[i] != '[' && name[i] != ']'
      ensures HostChar(name[i]) || 'A' <= name[i] <= 'Z'
    {
      assert text[i] == AsciiLower(name[i]);
    }
    assert Bracket(name)[|name| + 1] == ']';
  }

  lemma BracketedPortSplits(name: string, port: string)
    requires '[' !in name && ']' !in name && PortNumber(port)
    ensures HostPort(WithPort(Bracket(name), port)) == (name, port) && !EndsWith(WithPort(Bracket(name), port), ":")
  {
    hide FindLast, OptionalPort, EndsWith;
    var s := Bracket(name);
    var h, tail := WithPort(s, port), ":" + port;
    PortIsOptional(port);
    FindLastAt(h, ':', |s|);
    assert h[|s|..] == tail && h[..|s|] == s && h[|s| + 1..] == port;
    assert s[1..|s| - 1] == name;
    NotAColon(h, port);
  }

  lemma PortText(spelled: string, port: string)
    requires HostText(spelled) && PortNumber(port)
    ensures HostText(WithPort(spelled, port)) && port != ""
  {}

  // An accepted host is in lower case.
  lemma PublicInLower(lib: Library, host: string)
    requires PublicHost(lib, host)
    ensures Map(AsciiLower, host) == host && host != "" && HostText(host)
  {
    hide Public;
    if ValidDNSName(host) && lib.ip(host).None? {
      hide ValidDNSName;
      var labels := AcceptedNameIsLabels(host);
    }
    forall i | 0 <= i < |host| ensures AsciiLower(host[i]) == host[i] {}
  }

  lemma SpelledName(lib: Library, host: string, spelled: string)
    requires Lawful(lib) && Map(AsciiLower, spelled) == host && host != "" && host[|host| - 1] != '.'
    requires forall i :: 0 <= i < |host| ==> LowerAlnum(host[i]) || host[i] == '-' || host[i] == '.'
    ensures Map(lib.lower, spelled) == host && ':' !in spelled && spelled != "" && spelled[0] != '['
    ensures NameText(spelled) && HostText(spelled) && '%' !in host && !EndsWith(host, ".") && !EndsWith(spelled, ":")
  {
    forall i | 0 <= i < |spelled|
      ensures lib.lower(spelled[i]) == host[i] && spelled[i] != ':' && spelled[i] != '['
      ensures LowerAlnum(spelled[i]) || 'A' <= spelled[i] <= 'Z' || spelled[i] == '-' || spelled[i] == '.'
    {
      assert host[i] == AsciiLower(spelled[i]);
    }
  }

  lemma DefaultPortNumber(scheme: string)
    ensures PortNumber(DefaultPort(scheme))
  {}

  lemma {:induction false} FindLastAt(s: string, c: char, n: nat)
    requires n < |s| && s[n] == c && forall i :: n < i < |s| ==> s[i] != c
    ensures FindLast(s, c) == n
  {
    hide FindLast;
  }

  lemma PortSplits(s: string, port: string)
    requires ':' !in s && s != "" && s[0] != '[' && PortNumber(port)
    ensures HostPort(WithPort(s, port)) == (s, port) && !EndsWith(WithPort(s, port), ":")
  {
    hide FindLast, OptionalPort, EndsWith;
    var h, tail := WithPort(s, port), ":" + port;
    PortIsOptional(port);
    FindLastAt(h, ':', |s|);
    assert h[|s|..] == tail && h[..|s|] == s && h[|s| + 1..] == port;
    NotAColon(h, port);
  }

  lemma PortIsOptional(port: string)
    requires PortNumber(port)
    ensures OptionalPort(":" + port)
  {}

  lemma NotAColon(h: string, port: string)
    requires PortNumber(port) && |h| > |port| && h[|h| - |port|..] == port
    ensures !EndsWith(h, ":")
  {
    assert h[|h| - 1] == port[|port| - 1];
  }
}
